/**
 * The tab store (`TabManager.kt`): an ordered list of tabs and the id of the
 * active one. Kotlin's `StateFlow` holding the list becomes a plain field; the
 * UUID that `createNewTab` draws is passed in as `freshId`.
 */
module TabStore {
  import opened Wrappers
  import opened Lists
  import opened Tabs

  class TabManager {
    var tabs: seq<TabInfo>
    var activeTabId: Option<string>

    /** The flags agree with `activeTabId`: exactly the tabs with that id are active. */
    predicate Consistent()
      reads this
    {
      FlagsMatch(tabs, activeTabId)
    }

    constructor ()
      ensures tabs == [] && activeTabId == None
      ensures Consistent()
    {
      tabs := [];
      activeTabId := None;
    }

    /** `getActiveTab()`: the first tab whose id is `activeTabId`. */
    function GetActiveTab(): (r: Option<TabInfo>)
      reads this
      ensures r.Some? ==> r.value in tabs && activeTabId == Some(r.value.id)
      ensures r.None? <==> activeTabId.None? || !HasId(tabs, activeTabId.value)
    {
      FindById(tabs, activeTabId)
    }

    /** `createNewTab(title, url)`: deactivates every tab and appends an active new one. */
    method CreateNewTab(freshId: string, title: string := "New Tab", url: string := "") returns (newTabId: string)
      modifies this
      ensures newTabId == freshId && activeTabId == Some(freshId)
      ensures |tabs| == |old(tabs)| + 1
      ensures forall i :: 0 <= i < |old(tabs)| ==> tabs[i] == old(tabs)[i].(isActive := false)
      ensures tabs[|tabs| - 1] == NewTab(freshId, title, url, true)
      ensures !HasId(old(tabs), freshId) ==> GetActiveTab() == Some(NewTab(freshId, title, url, true))
      ensures !HasId(old(tabs), freshId) ==> Consistent() && ActiveCount(tabs) == 1
      ensures !HasId(old(tabs), freshId) && UniqueIds(old(tabs)) ==> UniqueIds(tabs)
    {
      var newTab := NewTab(freshId, title, url, true);
      tabs := Deactivated(tabs) + [newTab];
      activeTabId := Some(freshId);
      newTabId := freshId;
      if !HasId(old(tabs), freshId) {
        CreatedTabIsActive(old(tabs), newTab);
      }
    }

    /** `updateTab(tabId, title, url)`: patches title and URL of the tabs with that id. */
    method UpdateTab(tabId: string, title: Option<string> := None, url: Option<string> := None)
      modifies this
      ensures tabs == Patched(old(tabs), tabId, title, url)
      ensures activeTabId == old(activeTabId)
      ensures old(Consistent()) ==> Consistent()
      ensures UniqueIds(old(tabs)) ==> UniqueIds(tabs)
    {
      PatchedSpec(tabs, tabId, title, url);
      tabs := Patched(tabs, tabId, title, url);
    }

    /** `closeTab(tabId)`: drops the tabs with that id; when the active tab goes,
        the last remaining tab (if any) becomes the active one. */
    method CloseTab(tabId: string)
      modifies this
      ensures old(activeTabId) != Some(tabId) ==>
        tabs == WithoutId(old(tabs), tabId) && activeTabId == old(activeTabId)
      ensures old(activeTabId) == Some(tabId) ==>
        activeTabId == LastId(WithoutId(old(tabs), tabId))
        && tabs == ActivatedOnly(WithoutId(old(tabs), tabId), activeTabId)
        && activeTabId == LastId(tabs) && Consistent()
      ensures old(Consistent()) ==> Consistent()
      ensures UniqueIds(old(tabs)) ==> UniqueIds(tabs)
    {
      var kept := WithoutId(tabs, tabId);
      if UniqueIds(tabs) {
        WithoutIdUnique(tabs, tabId);
      }
      if activeTabId == Some(tabId) {
        var newActive := LastId(kept);
        ActivatedOnlySpec(kept, newActive);
        LastIdActivated(kept, newActive);
        tabs := ActivatedOnly(kept, newActive);
        activeTabId := newActive;
      } else {
        if Consistent() {
          WithoutIdFlags(tabs, tabId, activeTabId);
        }
        tabs := kept;
      }
    }

    /** `setActiveTab(tabId)`: flags exactly the tabs with that id, even when there is none. */
    method SetActiveTab(tabId: string)
      modifies this
      ensures tabs == ActivatedOnly(old(tabs), Some(tabId))
      ensures activeTabId == Some(tabId)
      ensures Consistent()
      ensures UniqueIds(old(tabs)) ==> UniqueIds(tabs)
      ensures !HasId(tabs, tabId) ==> ActiveCount(tabs) == 0 && GetActiveTab() == None
      ensures UniqueIds(old(tabs)) && HasId(tabs, tabId) ==>
        ActiveCount(tabs) == 1 && GetActiveTab().Some? && GetActiveTab().value.isActive
    {
      ActivatedOnlySpec(tabs, Some(tabId));
      tabs := ActivatedOnly(tabs, Some(tabId));
      activeTabId := Some(tabId);
      if HasId(tabs, tabId) {
        if UniqueIds(tabs) {
          ExactlyOneActive(tabs, tabId);
        }
      } else {
        NoneActive(tabs, tabId);
      }
    }
  }

  /** `lastOrNull()?.id`. */
  function LastId(tabs: seq<TabInfo>): (id: Option<string>)
    ensures id.None? <==> tabs == []
    ensures id.Some? ==> id.value == tabs[|tabs| - 1].id
  {
    if |tabs| == 0 then None else Some(tabs[|tabs| - 1].id)
  }

  /** Re-flagging keeps the last tab's id. */
  lemma LastIdActivated(tabs: seq<TabInfo>, id: Option<string>)
    ensures LastId(ActivatedOnly(tabs, id)) == LastId(tabs)
  {
  }

  /** Appending an active tab with a fresh id to deactivated tabs leaves exactly that
      tab active, and it is the one found by its id. */
  lemma CreatedTabIsActive(before: seq<TabInfo>, newTab: TabInfo)
    requires !HasId(before, newTab.id) && newTab.isActive
    ensures var tabs := Deactivated(before) + [newTab];
      FlagsMatch(tabs, Some(newTab.id))
      && FindById(tabs, Some(newTab.id)) == Some(newTab)
      && ActiveCount(tabs) == 1
      && (UniqueIds(before) ==> UniqueIds(tabs))
  {
    var tabs := Deactivated(before) + [newTab];
    assert forall i :: 0 <= i < |before| ==> tabs[i].id == before[i].id;
    assert !HasId(tabs[..|before|], newTab.id) by {
      forall i | 0 <= i < |before| ensures tabs[..|before|][i].id != newTab.id {
        assert tabs[i].id == before[i].id;
      }
    }
    assert HasId(tabs, newTab.id) by { assert tabs[|before|].id == newTab.id; }
    var f := FindById(tabs, Some(newTab.id));
    var i :| 0 <= i < |tabs| && tabs[i] == f.value && Some(tabs[i].id) == Some(newTab.id);
    assert i == |before|;
    if UniqueIds(before) {
      assert UniqueIds(tabs);
      ExactlyOneActive(tabs, newTab.id);
    } else {
      ExactlyOneActiveAtEnd(Deactivated(before), newTab);
    }
  }

  lemma {:induction false} ExactlyOneActiveAtEnd(front: seq<TabInfo>, last: TabInfo)
    requires forall i :: 0 <= i < |front| ==> !front[i].isActive
    requires last.isActive
    ensures ActiveCount(front + [last]) == 1
    decreases |front|
  {
    if |front| == 0 {
      assert [last][1..] == [];
    } else {
      assert (front + [last])[1..] == front[1..] + [last];
      ExactlyOneActiveAtEnd(front[1..], last);
    }
  }
}
