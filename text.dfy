/**
 * The Kotlin string operations the browser's logic relies on, over `seq<char>`.
 * Character classes are ASCII: `isWhitespace`, `trim()` and `lowercase()` do
 * not follow Unicode here.
 */
module Text {

  /** The ASCII characters Kotlin's `isWhitespace` accepts: tab, line feed, vertical
      tab, form feed, carriage return, the four separators 0x1C to 0x1F, and space. */
  predicate IsWhitespace(c: char)
  {
    ('\t' <= c <= '\r') || ('\U{1C}' <= c <= ' ')
  }

  /** Kotlin `isBlank()`: empty or whitespace only. */
  predicate IsBlank(s: string)
  {
    forall i :: 0 <= i < |s| ==> IsWhitespace(s[i])
  }

  /** Kotlin `startsWith(p)`. */
  predicate StartsWith(s: string, p: string)
  {
    |p| <= |s| && s[..|p|] == p
  }

  /** A common prefix can be cancelled in a prefix test. */
  lemma StartsWithCancel(p: string, s: string, q: string)
    ensures StartsWith(p + s, p + q) <==> StartsWith(s, q)
  {
    if |q| <= |s| {
      assert (p + s)[..|p| + |q|] == p + s[..|q|];
      if (p + s)[..|p| + |q|] == p + q {
        assert s[..|q|] == (p + s)[..|p| + |q|][|p|..];
      }
    }
  }

  /** `sub` occurs in `s` at position `i`. */
  predicate OccursAt(s: string, sub: string, i: nat)
  {
    i + |sub| <= |s| && s[i..i + |sub|] == sub
  }

  /** Kotlin `contains(sub)`; the empty string is contained in every string. */
  predicate Contains(s: string, sub: string)
    decreases |s|
  {
    StartsWith(s, sub) || (|s| > 0 && Contains(s[1..], sub))
  }

  /** A slice of `s[1..]` is the slice of `s` one position further on. */
  lemma DropOneSlice(s: string, j: nat, n: nat)
    requires j + n + 1 <= |s|
    ensures s[1..][j..j + n] == s[j + 1..j + 1 + n]
  {
    var a, b := s[1..][j..j + n], s[j + 1..j + 1 + n];
    forall k | 0 <= k < n ensures a[k] == b[k] {
      assert a[k] == s[1..][j + k] == s[j + 1 + k];
    }
    assert a == b;
  }

  lemma {:induction false} ContainsIffOccurs(s: string, sub: string)
    ensures Contains(s, sub) <==> exists i: nat :: OccursAt(s, sub, i)
    decreases |s|
  {
    if StartsWith(s, sub) {
      assert OccursAt(s, sub, 0);
    } else if |s| == 0 {
    } else {
      ContainsIffOccurs(s[1..], sub);
      if Contains(s[1..], sub) {
        var i: nat :| OccursAt(s[1..], sub, i);
        DropOneSlice(s, i, |sub|);
        assert OccursAt(s, sub, i + 1);
      } else {
        forall i: nat ensures !OccursAt(s, sub, i) {
          if OccursAt(s, sub, i) {
            assert i != 0 by { assert s[..|sub|] != sub; }
            DropOneSlice(s, i - 1, |sub|);
            assert OccursAt(s[1..], sub, i - 1);
          }
        }
      }
    }
  }

  /** Kotlin `lowercase()` on one character, ASCII letters only. */
  function LowerChar(c: char): (r: char)
    ensures 'A' <= c <= 'Z' ==> r != c && 'a' <= r <= 'z'
    ensures !('A' <= c <= 'Z') ==> r == c
  {
    if 'A' <= c <= 'Z' then (c as int + 32) as char else c
  }

  /** Kotlin `lowercase()` on a string, character by character. */
  function Lower(s: string): (r: string)
    ensures |r| == |s|
    ensures forall i :: 0 <= i < |s| ==> r[i] == LowerChar(s[i])
  {
    seq(|s|, i requires 0 <= i < |s| => LowerChar(s[i]))
  }

  /** No upper-case ASCII letter. */
  predicate IsLower(s: string)
  {
    forall i :: 0 <= i < |s| ==> !('A' <= s[i] <= 'Z')
  }

  lemma LowerIsLower(s: string)
    ensures IsLower(Lower(s))
    ensures Lower(Lower(s)) == Lower(s)
  {
  }

  /** Kotlin `trimStart()`: drops the leading whitespace. */
  function TrimStart(s: string): (r: string)
    ensures |r| <= |s| && r == s[|s| - |r|..]
    ensures |r| > 0 ==> !IsWhitespace(r[0])
    ensures forall i :: 0 <= i < |s| - |r| ==> IsWhitespace(s[i])
    decreases |s|
  {
    if |s| > 0 && IsWhitespace(s[0]) then TrimStart(s[1..]) else s
  }

  /** Kotlin `trimEnd()`: drops the trailing whitespace. */
  function TrimEnd(s: string): (r: string)
    ensures |r| <= |s| && r == s[..|r|]
    ensures |r| > 0 ==> !IsWhitespace(r[|r| - 1])
    ensures forall i :: |r| <= i < |s| ==> IsWhitespace(s[i])
    decreases |s|
  {
    if |s| > 0 && IsWhitespace(s[|s| - 1]) then TrimEnd(s[..|s| - 1]) else s
  }

  /** Kotlin `trim()`: drops leading and trailing whitespace. */
  function Trim(s: string): (r: string)
  {
    TrimEnd(TrimStart(s))
  }

  /** A prefix of a suffix of `s` is a slice of `s`, and whitespace after that prefix
      is whitespace of `s` (the two steps of `trim()`, apart from the functions). */
  lemma SliceOfSuffix(s: string, t: string, e: string, lo: nat)
    requires lo <= |s| && t == s[lo..] && |e| <= |t| && e == t[..|e|]
    requires forall i :: |e| <= i < |t| ==> IsWhitespace(t[i])
    ensures e == s[lo..lo + |e|]
    ensures forall i :: lo + |e| <= i < |s| ==> IsWhitespace(s[i])
  {
    forall i | lo + |e| <= i < |s| ensures IsWhitespace(s[i]) {
      assert s[i] == t[i - lo];
    }
  }

  /** What `trim()` promises: a contiguous part of the input with no whitespace at
      either end, and only whitespace cut away. */
  lemma TrimSpec(s: string)
    ensures exists lo: nat, hi: nat ::
      (lo <= hi <= |s| && Trim(s) == s[lo..hi]
       && (forall i :: 0 <= i < lo ==> IsWhitespace(s[i]))
       && (forall i :: hi <= i < |s| ==> IsWhitespace(s[i])))
    ensures |Trim(s)| > 0 ==> !IsWhitespace(Trim(s)[0]) && !IsWhitespace(Trim(s)[|Trim(s)| - 1])
    ensures |Trim(s)| <= |s|
  {
    var t := TrimStart(s);
    var e := TrimEnd(t);
    var lo := |s| - |t|;
    var hi := lo + |e|;
    SliceOfSuffix(s, t, e, lo);
    assert lo <= hi <= |s| && Trim(s) == s[lo..hi]
      && (forall i :: 0 <= i < lo ==> IsWhitespace(s[i]))
      && (forall i :: hi <= i < |s| ==> IsWhitespace(s[i]));
  }

  /** Index of the first occurrence of `c` in `s`, if any. */
  function IndexOf(s: string, c: char): (r: int)
    ensures -1 <= r < |s|
    ensures r >= 0 ==> s[r] == c && forall i :: 0 <= i < r ==> s[i] != c
    ensures r < 0 ==> forall i :: 0 <= i < |s| ==> s[i] != c
    decreases |s|
  {
    if |s| == 0 then -1
    else if s[0] == c then 0
    else var k := IndexOf(s[1..], c); if k < 0 then -1 else k + 1
  }

  /** Kotlin `substringAfter(delimiter)` for a one-character delimiter: the part
      after its first occurrence, or the whole string when it is missing. */
  function SubstringAfter(s: string, c: char): (r: string)
  {
    var k := IndexOf(s, c);
    if k < 0 then s else s[k + 1..]
  }

  lemma {:induction false} SubstringAfterMissing(s: string, c: char)
    requires forall i :: 0 <= i < |s| ==> s[i] != c
    ensures SubstringAfter(s, c) == s
  {
  }

  /** The first occurrence of `c` splits the string into `before + [c] + after`. */
  lemma {:induction false} SubstringAfterFirst(before: string, c: char, after: string)
    requires forall i :: 0 <= i < |before| ==> before[i] != c
    ensures SubstringAfter(before + [c] + after, c) == after
  {
    var s := before + [c] + after;
    assert s[|before|] == c;
    var k := IndexOf(s, c);
    assert k == |before|;
    assert s[k + 1..] == after;
  }

  /** Kotlin `split(d1, d2, ...)` with one-character delimiters: every separator
      occurrence ends a piece, so adjacent separators give empty pieces. */
  function SplitOn(s: string, seps: set<char>): (r: seq<string>)
    ensures |r| >= 1
    ensures forall k, i :: 0 <= k < |r| && 0 <= i < |r[k]| ==> r[k][i] !in seps
    decreases |s|
  {
    if |s| == 0 then [""]
    else
      var rest := SplitOn(s[1..], seps);
      if s[0] in seps then [""] + rest else [[s[0]] + rest[0]] + rest[1..]
  }

  /** Kotlin `split(Regex("[seps]+"))`: a maximal run of separators ends a piece.
      A leading or trailing run leaves an empty first or last piece. */
  function SplitRuns(s: string, seps: set<char>): (r: seq<string>)
    ensures |r| >= 1
    ensures forall k, i :: 0 <= k < |r| && 0 <= i < |r[k]| ==> r[k][i] !in seps
    ensures forall k :: 0 < k < |r| - 1 ==> |r[k]| > 0
    decreases |s|, 0
  {
    if |s| == 0 then [""]
    else if s[0] in seps then [""] + AfterRun(s[1..], seps)
    else
      var rest := SplitRuns(s[1..], seps);
      [[s[0]] + rest[0]] + rest[1..]
  }

  /** The pieces that follow a separator run that has already begun. */
  function AfterRun(t: string, seps: set<char>): (r: seq<string>)
    ensures |r| >= 1
    ensures forall k, i :: 0 <= k < |r| && 0 <= i < |r[k]| ==> r[k][i] !in seps
    ensures forall k :: 0 <= k < |r| - 1 ==> |r[k]| > 0
    decreases |t|, 1
  {
    if |t| == 0 then [""]
    else if t[0] in seps then AfterRun(t[1..], seps)
    else SplitRuns(t, seps)
  }
}
