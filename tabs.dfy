/**
 * The tab record (`TabInfo.kt`) and the list transformations that the tab store
 * and the browser screen apply to a list of tabs.
 */
module Tabs {
  import opened Wrappers
  import opened Lists

  /** One browsing context. Ids are opaque strings. */
  datatype TabInfo = TabInfo(
    id: string,
    title: string,
    url: string,
    isActive: bool,
    favicon: Option<string>,
    csNetContent: Option<string>)

  /** A tab as `TabInfo(id, title, url, isActive)` builds it: no favicon, no summary. */
  function NewTab(id: string, title: string, url: string, isActive: bool): (t: TabInfo)
  {
    TabInfo(id, title, url, isActive, None, None)
  }

  predicate HasId(tabs: seq<TabInfo>, id: string)
  {
    exists i :: 0 <= i < |tabs| && tabs[i].id == id
  }

  lemma HasIdCons(tabs: seq<TabInfo>, id: string)
    requires |tabs| > 0
    ensures HasId(tabs, id) <==> tabs[0].id == id || HasId(tabs[1..], id)
  {
    if HasId(tabs, id) && tabs[0].id != id {
      var i :| 0 <= i < |tabs| && tabs[i].id == id;
      assert tabs[1..][i - 1].id == id;
    }
    if HasId(tabs[1..], id) {
      var i :| 0 <= i < |tabs[1..]| && tabs[1..][i].id == id;
      assert tabs[i + 1].id == id;
    }
  }

  predicate UniqueIds(tabs: seq<TabInfo>)
  {
    forall i, j :: 0 <= i < j < |tabs| ==> tabs[i].id != tabs[j].id
  }

  /** Exactly the tabs whose id is `active` carry the active flag (none when `active` is None). */
  predicate FlagsMatch(tabs: seq<TabInfo>, active: Option<string>)
  {
    forall i :: 0 <= i < |tabs| ==> (tabs[i].isActive <==> active == Some(tabs[i].id))
  }

  /** Number of tabs flagged active. */
  function ActiveCount(tabs: seq<TabInfo>): (n: nat)
    ensures n <= |tabs|
    decreases |tabs|
  {
    if |tabs| == 0 then 0 else (if tabs[0].isActive then 1 else 0) + ActiveCount(tabs[1..])
  }

  /** With unique ids, flags that match a present id mark exactly one tab. */
  lemma {:induction false} ExactlyOneActive(tabs: seq<TabInfo>, id: string)
    requires UniqueIds(tabs) && FlagsMatch(tabs, Some(id)) && HasId(tabs, id)
    ensures ActiveCount(tabs) == 1
    decreases |tabs|
  {
    if tabs[0].id == id {
      NoneActive(tabs[1..], id);
    } else {
      var i :| 0 <= i < |tabs| && tabs[i].id == id;
      assert tabs[1..][i - 1].id == id;
      ExactlyOneActive(tabs[1..], id);
    }
  }

  lemma {:induction false} NoneActive(tabs: seq<TabInfo>, id: string)
    requires FlagsMatch(tabs, Some(id)) && !HasId(tabs, id)
    ensures ActiveCount(tabs) == 0
    decreases |tabs|
  {
    if |tabs| > 0 {
      HasIdCons(tabs, id);
      NoneActive(tabs[1..], id);
    }
  }

  /** Kotlin `find { it.id == id }`: the first tab with that id. A null id matches no tab. */
  function FindById(tabs: seq<TabInfo>, id: Option<string>): (r: Option<TabInfo>)
    ensures r.None? <==> id.None? || !HasId(tabs, id.value)
    ensures r.Some? ==> exists i :: 0 <= i < |tabs| && tabs[i] == r.value && Some(tabs[i].id) == id
                          && forall j :: 0 <= j < i ==> Some(tabs[j].id) != id
    decreases |tabs|
  {
    if |tabs| == 0 then None
    else if Some(tabs[0].id) == id then Some(tabs[0])
    else
      var r := FindById(tabs[1..], id);
      assert forall i :: 0 <= i < |tabs| - 1 ==> tabs[1..][i] == tabs[i + 1];
      r
  }

  /** `map { it.copy(isActive = false) }`. */
  function Deactivated(tabs: seq<TabInfo>): (r: seq<TabInfo>)
  {
    seq(|tabs|, i requires 0 <= i < |tabs| => tabs[i].(isActive := false))
  }

  /** `map { it.copy(isActive = it.id == id) }`; a null id activates nothing. */
  function ActivatedOnly(tabs: seq<TabInfo>, id: Option<string>): (r: seq<TabInfo>)
  {
    seq(|tabs|, i requires 0 <= i < |tabs| => tabs[i].(isActive := Some(tabs[i].id) == id))
  }

  /** Re-flagging changes only the flags, which then match the id. */
  lemma ActivatedOnlySpec(tabs: seq<TabInfo>, id: Option<string>)
    ensures |ActivatedOnly(tabs, id)| == |tabs|
    ensures FlagsMatch(ActivatedOnly(tabs, id), id)
    ensures forall i :: 0 <= i < |tabs| ==> ActivatedOnly(tabs, id)[i].(isActive := tabs[i].isActive) == tabs[i]
    ensures UniqueIds(tabs) ==> UniqueIds(ActivatedOnly(tabs, id))
    ensures forall x :: HasId(ActivatedOnly(tabs, id), x) <==> HasId(tabs, x)
  {
    var r := ActivatedOnly(tabs, id);
    forall x ensures HasId(r, x) <==> HasId(tabs, x) {
      if HasId(r, x) { var i :| 0 <= i < |r| && r[i].id == x; assert tabs[i].id == x; }
      if HasId(tabs, x) { var i :| 0 <= i < |tabs| && tabs[i].id == x; assert r[i].id == x; }
    }
  }

  /** `map { if (it.id == tabId) it.copy(title = title ?: it.title, url = url ?: it.url) else it }`. */
  function Patched(tabs: seq<TabInfo>, tabId: string, title: Option<string>, url: Option<string>): (r: seq<TabInfo>)
  {
    seq(|tabs|, i requires 0 <= i < |tabs| =>
      if tabs[i].id == tabId then tabs[i].(title := title.GetOr(tabs[i].title), url := url.GetOr(tabs[i].url))
      else tabs[i])
  }

  /** Patching keeps length, order, ids and flags; only the matching tabs change, only
      in title and URL, and a missing title or URL keeps the old one. */
  lemma PatchedSpec(tabs: seq<TabInfo>, tabId: string, title: Option<string>, url: Option<string>)
    ensures |Patched(tabs, tabId, title, url)| == |tabs|
    ensures forall i :: 0 <= i < |tabs| ==>
      var t := Patched(tabs, tabId, title, url)[i];
      t.id == tabs[i].id && t.isActive == tabs[i].isActive
      && t.favicon == tabs[i].favicon && t.csNetContent == tabs[i].csNetContent
      && (tabs[i].id != tabId ==> t == tabs[i])
      && (tabs[i].id == tabId ==>
            t.title == (if title.Some? then title.value else tabs[i].title)
            && t.url == (if url.Some? then url.value else tabs[i].url))
    ensures !HasId(tabs, tabId) ==> Patched(tabs, tabId, title, url) == tabs
    ensures title.None? && url.None? ==> Patched(tabs, tabId, title, url) == tabs
    ensures UniqueIds(tabs) ==> UniqueIds(Patched(tabs, tabId, title, url))
    ensures forall a :: FlagsMatch(tabs, a) ==> FlagsMatch(Patched(tabs, tabId, title, url), a)
  {
  }

  /** `filter { it.id != tabId }`. */
  function WithoutId(tabs: seq<TabInfo>, tabId: string): (r: seq<TabInfo>)
  {
    Filter(tabs, (t: TabInfo) => t.id != tabId)
  }

  /** Removing a tab id drops exactly the tabs with that id, keeps every other tab
      as often as it was there, and keeps their relative order. */
  lemma WithoutIdSpec(tabs: seq<TabInfo>, tabId: string)
    ensures !HasId(WithoutId(tabs, tabId), tabId)
    ensures forall i :: 0 <= i < |tabs| && tabs[i].id != tabId ==> tabs[i] in WithoutId(tabs, tabId)
    ensures forall t :: t in WithoutId(tabs, tabId) ==> t in tabs
    ensures forall t: TabInfo :: t.id != tabId ==> multiset(WithoutId(tabs, tabId))[t] == multiset(tabs)[t]
    ensures IsSubsequence(WithoutId(tabs, tabId), tabs)
  {
    var p := (t: TabInfo) => t.id != tabId;
    var r := WithoutId(tabs, tabId);
    FilterMembers(tabs, p);
    forall t: TabInfo | t.id != tabId ensures multiset(r)[t] == multiset(tabs)[t] {
      FilterMultiset(tabs, p, t);
    }
  }

  /** Removing an id that is present shortens the list; removing one that is absent changes nothing. */
  lemma WithoutIdLength(tabs: seq<TabInfo>, tabId: string)
    ensures HasId(tabs, tabId) ==> |WithoutId(tabs, tabId)| < |tabs|
    ensures !HasId(tabs, tabId) ==> WithoutId(tabs, tabId) == tabs
  {
    var p := (t: TabInfo) => t.id != tabId;
    var r := WithoutId(tabs, tabId);
    if HasId(tabs, tabId) {
      var i :| 0 <= i < |tabs| && tabs[i].id == tabId;
      FilterMultiset(tabs, p, tabs[i]);
      assert multiset(r) <= multiset(tabs) by {
        forall t ensures multiset(r)[t] <= multiset(tabs)[t] { FilterMultiset(tabs, p, t); }
      }
      assert multiset(r)[tabs[i]] < multiset(tabs)[tabs[i]];
      var d := multiset(tabs) - multiset(r);
      assert tabs[i] in d;
      assert multiset(tabs) == multiset(r) + d;
      assert |multiset(r)| < |multiset(tabs)|;
    } else {
      WithoutIdUnchanged(tabs, tabId);
    }
  }

  lemma {:induction false} WithoutIdUnchanged(tabs: seq<TabInfo>, tabId: string)
    requires !HasId(tabs, tabId)
    ensures WithoutId(tabs, tabId) == tabs
    decreases |tabs|
  {
    if |tabs| > 0 {
      HasIdCons(tabs, tabId);
      WithoutIdUnchanged(tabs[1..], tabId);
      assert tabs == [tabs[0]] + tabs[1..];
    }
  }

  /** With unique ids, removing an id removes at most one tab. */
  lemma {:induction false} WithoutIdUnique(tabs: seq<TabInfo>, tabId: string)
    requires UniqueIds(tabs)
    ensures |WithoutId(tabs, tabId)| >= |tabs| - 1
    ensures UniqueIds(WithoutId(tabs, tabId))
    decreases |tabs|
  {
    if |tabs| > 0 {
      WithoutIdUnique(tabs[1..], tabId);
      var rest := WithoutId(tabs[1..], tabId);
      if tabs[0].id == tabId {
        assert !HasId(tabs[1..], tabId) by {
          forall i | 0 <= i < |tabs[1..]| ensures tabs[1..][i].id != tabId {
            assert tabs[1..][i] == tabs[i + 1];
          }
        }
        WithoutIdUnchanged(tabs[1..], tabId);
      } else {
        FilterMembers(tabs[1..], (t: TabInfo) => t.id != tabId);
        assert forall t :: t in rest ==> t in tabs[1..];
        assert forall t :: t in tabs[1..] ==> t.id != tabs[0].id;
      }
    }
  }

  /** Kept tabs keep their flags, so flags that matched still match. */
  lemma WithoutIdFlags(tabs: seq<TabInfo>, tabId: string, active: Option<string>)
    requires FlagsMatch(tabs, active)
    ensures FlagsMatch(WithoutId(tabs, tabId), active)
  {
    WithoutIdSpec(tabs, tabId);
    var r := WithoutId(tabs, tabId);
    forall i | 0 <= i < |r| ensures r[i].isActive <==> active == Some(r[i].id) {
      assert r[i] in tabs;
    }
  }
}
