/**
 * The Kotlin collection operations used by the browser's list pipelines:
 * `filter`, `take`, `distinct`, `distinctBy` and the stable `sortedByDescending`.
 */
module Lists {

  /** No element occurs twice. */
  predicate NoDup<T(==)>(s: seq<T>)
  {
    forall i, j :: 0 <= i < j < |s| ==> s[i] != s[j]
  }

  /** `a` is `b` with some elements deleted, the rest kept in order. */
  predicate IsSubsequence<T(==)>(a: seq<T>, b: seq<T>)
    decreases |b|
  {
    a == [] || (|b| > 0 && ((a[0] == b[0] && IsSubsequence(a[1..], b[1..])) || IsSubsequence(a, b[1..])))
  }

  lemma {:induction false} SubsequenceMembers<T>(a: seq<T>, b: seq<T>)
    requires IsSubsequence(a, b)
    ensures forall x :: x in a ==> x in b
    ensures |a| <= |b|
    decreases |b|
  {
    if a != [] {
      if a[0] == b[0] && IsSubsequence(a[1..], b[1..]) {
        SubsequenceMembers(a[1..], b[1..]);
        forall x | x in a ensures x in b {
          if x != a[0] { assert x in a[1..]; }
        }
      } else {
        SubsequenceMembers(a, b[1..]);
      }
    }
  }

  lemma {:induction false} SubsequenceTransitive<T>(a: seq<T>, b: seq<T>, c: seq<T>)
    requires IsSubsequence(a, b) && IsSubsequence(b, c)
    ensures IsSubsequence(a, c)
    decreases |c|
  {
    if a != [] {
      assert b != [] && c != [];
      if b[0] == c[0] && IsSubsequence(b[1..], c[1..]) {
        if a[0] == b[0] && IsSubsequence(a[1..], b[1..]) {
          SubsequenceTransitive(a[1..], b[1..], c[1..]);
        } else {
          SubsequenceTransitive(a, b[1..], c[1..]);
        }
      } else {
        SubsequenceTransitive(a, b, c[1..]);
      }
    }
  }

  lemma {:induction false} SubsequenceSnoc<T>(a: seq<T>, b: seq<T>, x: T)
    requires IsSubsequence(a, b)
    ensures IsSubsequence(a, b + [x]) && IsSubsequence(a + [x], b + [x])
    decreases |b|
  {
    if a == [] {
      SubsequenceSingleton(b, x);
      assert a + [x] == [x];
    } else {
      assert (b + [x])[1..] == b[1..] + [x];
      assert (a + [x])[1..] == a[1..] + [x];
      if a[0] == b[0] && IsSubsequence(a[1..], b[1..]) {
        SubsequenceSnoc(a[1..], b[1..], x);
      } else {
        SubsequenceSnoc(a, b[1..], x);
      }
    }
  }

  lemma {:induction false} SubsequenceSingleton<T>(b: seq<T>, x: T)
    ensures IsSubsequence([x], b + [x])
    decreases |b|
  {
    if b != [] {
      assert (b + [x])[1..] == b[1..] + [x];
      SubsequenceSingleton(b[1..], x);
    }
  }

  lemma {:induction false} MemberSubsequence<T>(b: seq<T>, x: T)
    requires x in b
    ensures IsSubsequence([x], b)
    decreases |b|
  {
    if b[0] == x {
      assert [x][1..] == [];
    } else {
      assert x in b[1..];
      MemberSubsequence(b[1..], x);
    }
  }

  /** Kotlin `filter(p)`: the elements satisfying `p`, in order. */
  function Filter<T(==)>(s: seq<T>, p: T -> bool): (r: seq<T>)
    ensures |r| <= |s|
    decreases |s|
  {
    if |s| == 0 then []
    else if p(s[0]) then [s[0]] + Filter(s[1..], p) else Filter(s[1..], p)
  }

  /** What `filter` keeps: exactly the elements satisfying `p`, in their order. */
  lemma {:induction false} FilterMembers<T>(s: seq<T>, p: T -> bool)
    ensures forall i :: 0 <= i < |Filter(s, p)| ==> Filter(s, p)[i] in s && p(Filter(s, p)[i])
    ensures forall i :: 0 <= i < |s| && p(s[i]) ==> s[i] in Filter(s, p)
    ensures IsSubsequence(Filter(s, p), s)
    decreases |s|
  {
    if |s| > 0 {
      FilterMembers(s[1..], p);
      var rest := Filter(s[1..], p);
      if p(s[0]) {
        assert ([s[0]] + rest)[1..] == rest;
        forall i | 0 <= i < |s| && p(s[i]) ensures s[i] in Filter(s, p) {
          if i > 0 { assert s[i] == s[1..][i - 1]; }
        }
      } else {
        forall i | 0 <= i < |s| && p(s[i]) ensures s[i] in Filter(s, p) {
          assert i > 0;
          assert s[i] == s[1..][i - 1];
        }
      }
    }
  }

  /** `filter` keeps every kept element as often as it occurs. */
  lemma {:induction false} FilterMultiset<T>(s: seq<T>, p: T -> bool, x: T)
    ensures multiset(Filter(s, p))[x] == if p(x) then multiset(s)[x] else 0
    decreases |s|
  {
    if |s| > 0 {
      FilterMultiset(s[1..], p, x);
      assert s == [s[0]] + s[1..];
    }
  }

  /** The first `n` kept elements are kept elements of `s`, at most `n` of them. */
  lemma TakeFilterMembers<T>(s: seq<T>, p: T -> bool, n: nat)
    ensures |Take(Filter(s, p), n)| <= n
    ensures forall i :: 0 <= i < |Take(Filter(s, p), n)| ==> Take(Filter(s, p), n)[i] in s && p(Take(Filter(s, p), n)[i])
  {
    FilterMembers(s, p);
    var r := Take(Filter(s, p), n);
    forall i | 0 <= i < |r| ensures r[i] in s && p(r[i]) {
      assert r[i] == Filter(s, p)[i];
    }
  }

  /** Fewer than `n` taken means nothing kept was cut off. */
  lemma TakeFilterComplete<T>(s: seq<T>, p: T -> bool, n: nat, x: T)
    requires x in s && p(x) && |Take(Filter(s, p), n)| < n
    ensures x in Take(Filter(s, p), n)
  {
    FilterMembers(s, p);
    var k :| 0 <= k < |s| && s[k] == x;
    assert s[k] in Filter(s, p);
  }

  /** Kotlin `take(n)`: the first `n` elements, or all of them when there are fewer. */
  function Take<T>(s: seq<T>, n: nat): (r: seq<T>)
    ensures |r| == if |s| < n then |s| else n
    ensures r <= s
  {
    if |s| < n then s else s[..n]
  }

  /** Number of occurrences of `x` in `s`. */
  function Count<T(==)>(s: seq<T>, x: T): (r: nat)
    ensures r == multiset(s)[x]
    decreases |s|
  {
    if |s| == 0 then 0
    else
      assert s == [s[0]] + s[1..];
      (if s[0] == x then 1 else 0) + Count(s[1..], x)
  }

  /** Kotlin `distinct()`: the first occurrence of every element, in order. */
  function Distinct<T(==)>(s: seq<T>): (r: seq<T>)
    ensures NoDup(r)
    ensures forall i :: 0 <= i < |r| ==> r[i] in s
    ensures forall i :: 0 <= i < |s| ==> s[i] in r
    ensures IsSubsequence(r, s)
    decreases |s|
  {
    if |s| == 0 then []
    else
      var init := s[..|s| - 1];
      var d := Distinct(init);
      assert s == init + [s[|s| - 1]];
      SubsequenceSnoc(d, init, s[|s| - 1]);
      if s[|s| - 1] in d then d else d + [s[|s| - 1]]
  }

  /** Kotlin `distinctBy(key)`: the first element for every key, in order. */
  function DistinctBy<T(==), K(==)>(s: seq<T>, key: T -> K): (r: seq<T>)
    decreases |s|
  {
    if |s| == 0 then []
    else
      var d := DistinctBy(s[..|s| - 1], key);
      if exists k :: 0 <= k < |d| && key(d[k]) == key(s[|s| - 1]) then d else d + [s[|s| - 1]]
  }

  /** What `distinctBy` keeps: elements of the input, in order, with pairwise
      different keys, and an element for every key of the input. */
  lemma {:induction false} DistinctByMembers<T, K>(s: seq<T>, key: T -> K)
    ensures forall i, j :: 0 <= i < j < |DistinctBy(s, key)| ==> key(DistinctBy(s, key)[i]) != key(DistinctBy(s, key)[j])
    ensures forall i :: 0 <= i < |s| ==> exists k :: 0 <= k < |DistinctBy(s, key)| && key(DistinctBy(s, key)[k]) == key(s[i])
    ensures IsSubsequence(DistinctBy(s, key), s)
    decreases |s|
  {
    if |s| > 0 {
      var init := s[..|s| - 1];
      var last := s[|s| - 1];
      var d := DistinctBy(init, key);
      DistinctByMembers(init, key);
      assert s == init + [last];
      SubsequenceSnoc(d, init, last);
      var r := DistinctBy(s, key);
      forall i | 0 <= i < |s| ensures exists k :: 0 <= k < |r| && key(r[k]) == key(s[i]) {
        if i < |s| - 1 {
          assert s[i] == init[i];
          var k :| 0 <= k < |d| && key(d[k]) == key(init[i]);
          assert r[k] == d[k];
        } else if r != d {
          assert r[|d|] == last;
        }
      }
    }
  }

  /** Non-increasing in `f`. */
  predicate SortedDesc<T>(s: seq<T>, f: T -> int)
  {
    forall i, j :: 0 <= i < j < |s| ==> f(s[i]) >= f(s[j])
  }

  /** The elements whose key is `v`, in order. */
  function WithKey<T>(s: seq<T>, f: T -> int, v: int): (r: seq<T>)
    decreases |s|
  {
    if |s| == 0 then [] else (if f(s[0]) == v then [s[0]] else []) + WithKey(s[1..], f, v)
  }

  /** Places `x` after every element of `s` with a strictly larger key. */
  function InsertDesc<T>(x: T, s: seq<T>, f: T -> int): (r: seq<T>)
    ensures |r| == |s| + 1
    decreases |s|
  {
    if |s| == 0 then [x]
    else if f(s[0]) > f(x) then [s[0]] + InsertDesc(x, s[1..], f)
    else [x] + s
  }

  lemma {:induction false} InsertDescMultiset<T>(x: T, s: seq<T>, f: T -> int)
    ensures multiset(InsertDesc(x, s, f)) == multiset(s) + multiset{x}
    decreases |s|
  {
    if |s| > 0 && f(s[0]) > f(x) {
      InsertDescMultiset(x, s[1..], f);
      assert s == [s[0]] + s[1..];
    }
  }

  lemma {:induction false} InsertDescSorted<T>(x: T, s: seq<T>, f: T -> int)
    requires SortedDesc(s, f)
    ensures SortedDesc(InsertDesc(x, s, f), f)
    ensures |s| > 0 ==> InsertDesc(x, s, f)[0] == s[0] || InsertDesc(x, s, f)[0] == x
    decreases |s|
  {
    if |s| > 0 && f(s[0]) > f(x) {
      InsertDescSorted(x, s[1..], f);
      var rest := InsertDesc(x, s[1..], f);
      InsertDescMultiset(x, s[1..], f);
      forall j | 0 <= j < |rest| ensures f(s[0]) >= f(rest[j]) {
        assert rest[j] in multiset(rest);
        assert rest[j] == x || rest[j] in multiset(s[1..]);
      }
    }
  }

  lemma WithKeyCons<T>(a: T, t: seq<T>, f: T -> int, v: int)
    ensures WithKey([a] + t, f, v) == (if f(a) == v then [a] else []) + WithKey(t, f, v)
  {
    assert ([a] + t)[1..] == t;
  }

  lemma {:induction false} InsertDescWithKey<T>(x: T, s: seq<T>, f: T -> int, v: int)
    ensures WithKey(InsertDesc(x, s, f), f, v) == if f(x) == v then [x] + WithKey(s, f, v) else WithKey(s, f, v)
    decreases |s|
  {
    if |s| == 0 {
      assert InsertDesc(x, s, f) == [x] + [];
      WithKeyCons(x, [], f, v);
    } else if f(s[0]) > f(x) {
      var rest := InsertDesc(x, s[1..], f);
      InsertDescWithKey(x, s[1..], f, v);
      assert InsertDesc(x, s, f) == [s[0]] + rest;
      WithKeyCons(s[0], rest, f, v);
      assert s == [s[0]] + s[1..];
      WithKeyCons(s[0], s[1..], f, v);
      if f(x) == v {
        assert f(s[0]) != v;
        assert WithKey([s[0]] + rest, f, v) == WithKey(rest, f, v);
        assert WithKey(s, f, v) == WithKey(s[1..], f, v);
      } else {
        var h := if f(s[0]) == v then [s[0]] else [];
        assert WithKey([s[0]] + rest, f, v) == h + WithKey(s[1..], f, v);
      }
    } else {
      assert InsertDesc(x, s, f) == [x] + s;
      WithKeyCons(x, s, f, v);
    }
  }

  /** Kotlin `sortedByDescending(f)`: a stable sort, larger keys first. */
  function SortedByDescending<T>(s: seq<T>, f: T -> int): (r: seq<T>)
    ensures |r| == |s|
    decreases |s|
  {
    if |s| == 0 then [] else InsertDesc(s[0], SortedByDescending(s[1..], f), f)
  }

  /** The sort is a permutation of its input. */
  lemma {:induction false} SortedByDescendingPermutes<T>(s: seq<T>, f: T -> int)
    ensures multiset(SortedByDescending(s, f)) == multiset(s)
    decreases |s|
  {
    if |s| > 0 {
      SortedByDescendingPermutes(s[1..], f);
      InsertDescMultiset(s[0], SortedByDescending(s[1..], f), f);
      assert s == [s[0]] + s[1..];
    }
  }

  /** The sort's result is ordered by `f`, larger keys first. */
  lemma {:induction false} SortedByDescendingSorted<T>(s: seq<T>, f: T -> int)
    ensures SortedDesc(SortedByDescending(s, f), f)
    decreases |s|
  {
    if |s| > 0 {
      SortedByDescendingSorted(s[1..], f);
      InsertDescSorted(s[0], SortedByDescending(s[1..], f), f);
    }
  }

  /** The sort is stable: the elements of each key keep their relative order. */
  lemma {:induction false} SortedByDescendingStable<T>(s: seq<T>, f: T -> int, v: int)
    ensures WithKey(SortedByDescending(s, f), f, v) == WithKey(s, f, v)
    decreases |s|
  {
    if |s| > 0 {
      SortedByDescendingStable(s[1..], f, v);
      InsertDescWithKey(s[0], SortedByDescending(s[1..], f), f, v);
    }
  }

  /** Every element lies among the elements of its own key. */
  lemma {:induction false} WithKeyMember<T>(s: seq<T>, f: T -> int, j: int)
    requires 0 <= j < |s|
    ensures s[j] in WithKey(s, f, f(s[j]))
    decreases |s|
  {
    if j > 0 {
      assert s[j] == s[1..][j - 1];
      WithKeyMember(s[1..], f, j - 1);
    }
  }

  /** The elements of one key are a subsequence of the input. */
  lemma {:induction false} WithKeySubsequence<T>(s: seq<T>, f: T -> int, v: int)
    ensures IsSubsequence(WithKey(s, f, v), s)
    decreases |s|
  {
    if |s| > 0 {
      WithKeySubsequence(s[1..], f, v);
      var w := WithKey(s[1..], f, v);
      if f(s[0]) == v {
        assert WithKey(s, f, v) == [s[0]] + w;
        assert ([s[0]] + w)[1..] == w;
      } else {
        assert WithKey(s, f, v) == w;
      }
    }
  }

  /** Two elements of the same key keep their relative order among that key's elements. */
  lemma {:induction false} WithKeyPair<T>(s: seq<T>, f: T -> int, i: int, j: int)
    requires 0 <= i < j < |s| && f(s[i]) == f(s[j])
    ensures IsSubsequence([s[i], s[j]], WithKey(s, f, f(s[i])))
    decreases |s|
  {
    var v := f(s[i]);
    var w := WithKey(s[1..], f, v);
    assert s[j] == s[1..][j - 1];
    if i == 0 {
      WithKeyMember(s[1..], f, j - 1);
      MemberSubsequence(w, s[j]);
      assert WithKey(s, f, v) == [s[0]] + w;
      assert ([s[0]] + w)[1..] == w;
      assert [s[i], s[j]][1..] == [s[j]];
    } else {
      assert s[i] == s[1..][i - 1];
      WithKeyPair(s[1..], f, i - 1, j - 1);
      if f(s[0]) == v {
        assert WithKey(s, f, v) == [s[0]] + w;
        assert ([s[0]] + w)[1..] == w;
      } else {
        assert WithKey(s, f, v) == w;
      }
    }
  }

  lemma {:induction false} NoDupByMultiset<T>(s: seq<T>)
    ensures NoDup(s) <==> forall x :: multiset(s)[x] <= 1
    decreases |s|
  {
    if |s| > 0 {
      NoDupByMultiset(s[1..]);
      assert s == [s[0]] + s[1..];
      if NoDup(s) {
        assert NoDup(s[1..]);
        assert s[0] !in s[1..];
      } else {
        var i, j :| 0 <= i < j < |s| && s[i] == s[j];
        if i == 0 {
          assert s[j] in s[1..];
          assert multiset(s)[s[0]] >= 2;
        } else {
          assert s[1..][i - 1] == s[1..][j - 1];
          assert !NoDup(s[1..]);
          var x :| multiset(s[1..])[x] > 1;
          assert multiset(s)[x] >= multiset(s[1..])[x];
        }
      }
    }
  }

  /** A permutation of a list without duplicates has none either. */
  lemma PermutationNoDup<T>(a: seq<T>, b: seq<T>)
    requires multiset(a) == multiset(b) && NoDup(a)
    ensures NoDup(b)
  {
    NoDupByMultiset(a);
    NoDupByMultiset(b);
  }

  /** A prefix of a list without duplicates has none either. */
  lemma PrefixNoDup<T>(a: seq<T>, b: seq<T>)
    requires a <= b && NoDup(b)
    ensures NoDup(a)
  {
  }

  /** Among the `k` first of the sorted list, two elements with equal keys come in
      their input order. */
  lemma TopByKeyStable<T>(s: seq<T>, f: T -> int, k: nat, i: int, j: int)
    requires 0 <= i < j < |Take(SortedByDescending(s, f), k)|
    requires f(Take(SortedByDescending(s, f), k)[i]) == f(Take(SortedByDescending(s, f), k)[j])
    ensures IsSubsequence([Take(SortedByDescending(s, f), k)[i], Take(SortedByDescending(s, f), k)[j]], s)
  {
    var sorted := SortedByDescending(s, f);
    var r := Take(sorted, k);
    assert r[i] == sorted[i] && r[j] == sorted[j];
    var v := f(r[i]);
    WithKeyPair(sorted, f, i, j);
    SortedByDescendingStable(s, f, v);
    WithKeySubsequence(s, f, v);
    SubsequenceTransitive([r[i], r[j]], WithKey(s, f, v), s);
  }

  /** The `k` first elements of the sorted list: no duplicates if the input had none,
      drawn from the input, ordered by `f`. */
  lemma TopByKey<T>(s: seq<T>, f: T -> int, k: nat)
    ensures var r := Take(SortedByDescending(s, f), k);
      (NoDup(s) ==> NoDup(r)) && (forall x :: x in r ==> x in s) && SortedDesc(r, f)
  {
    var sorted := SortedByDescending(s, f);
    SortedByDescendingPermutes(s, f);
    SortedByDescendingSorted(s, f);
    if NoDup(s) {
      PermutationNoDup(s, sorted);
    }
    forall x | x in Take(sorted, k) ensures x in s {
      assert x in multiset(sorted);
    }
  }

  /** Nothing is left out of the top `k` unless `k` were taken and it ranks no higher
      than the last one taken. */
  lemma TopByKeyComplete<T>(s: seq<T>, f: T -> int, k: nat, x: T)
    requires k > 0 && x in s && x !in Take(SortedByDescending(s, f), k)
    ensures |Take(SortedByDescending(s, f), k)| == k
    ensures f(x) <= f(Take(SortedByDescending(s, f), k)[k - 1])
  {
    var sorted := SortedByDescending(s, f);
    SortedByDescendingPermutes(s, f);
    SortedByDescendingSorted(s, f);
    assert x in multiset(sorted);
    var j :| 0 <= j < |sorted| && sorted[j] == x;
    assert j >= k;
  }
}
