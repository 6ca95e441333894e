/**
 * The tab and search state of the `BrowserScreen` composable and the callbacks
 * that change it. This is a second tab policy beside `TabManager`: closing the
 * last tab is refused, closing the active tab promotes the FIRST remaining tab,
 * and closing never touches the `isActive` flags.
 */
module Screen {
  import opened Wrappers
  import opened Lists
  import opened Text
  import opened Tabs
  import opened Navigation

  /** The string `onSearch` hands to `onLoadUrl`: a Google URL with the query
      appended as it is (not encoded), or a `csnet:` search. */
  function SearchRequest(query: string, isGoogleSearch: bool): (input: string)
    ensures isGoogleSearch ==> input == GoogleSearchPrefix + query
    ensures !isGoogleSearch ==> input == "csnet:" + query
  {
    if isGoogleSearch then GoogleSearchPrefix + query else "csnet:" + query
  }

  /** What `loadUrl` does with a Google request: it has a scheme, so it is loaded
      unchanged and the query is never encoded. */
  lemma {:induction false} GoogleRequestLoadsUnchanged(query: string, encode: string -> string)
    ensures Classify(SearchRequest(query, true), encode) == Load(GoogleSearchPrefix + query)
  {
    var input := SearchRequest(query, true);
    assert input[..8] == "https://";
    SchemeInputLoadsAsTyped(input, encode);
  }

  /** What `loadUrl` does with a summarized-search request: it always reaches the
      custom search. */
  lemma {:induction false} CsNetRequestIsCustomSearch(query: string, encode: string -> string)
    ensures Classify(SearchRequest(query, false), encode) == CustomSearch(CsNetQuery("csnet:" + query))
  {
    var input := SearchRequest(query, false);
    assert input[..6] == "csnet:";
  }

  /** A summarized-search query without a slash comes back trimmed. */
  lemma {:induction false} CsNetRequestKeepsQuery(query: string, encode: string -> string)
    requires forall i :: 0 <= i < |query| ==> query[i] != '/'
    ensures Classify(SearchRequest(query, false), encode) == CustomSearch(Trim(query))
  {
    CsNetRequestIsCustomSearch(query, encode);
    ColonQuery(query);
  }

  /** A summarized-search query with a slash loses everything up to its first slash:
      searching for `a/b` runs a search for `b`. */
  lemma {:induction false} CsNetRequestTruncatesAtSlash(a: string, b: string, encode: string -> string)
    requires forall i :: 0 <= i < |a| ==> a[i] != '/'
    ensures Classify(SearchRequest(a + "/" + b, false), encode) == CustomSearch(Trim(b))
  {
    CsNetRequestIsCustomSearch(a + "/" + b, encode);
    ColonQueryDropsBeforeSlash(a, b);
  }

  class BrowserState {
    var tabs: seq<TabInfo>
    var activeTabId: string
    var isLoading: bool
    var isSearchMode: bool
    var isWebViewVisible: bool
    var isTabsOverviewVisible: bool

    /** What every reachable state keeps: at least one tab, ids unique. */
    predicate Valid()
      reads this
    {
      |tabs| >= 1 && UniqueIds(tabs)
    }

    /** The initial state: one active "New Tab" with id "1" and nothing shown. */
    constructor ()
      ensures tabs == [NewTab("1", "New Tab", "", true)] && activeTabId == "1"
      ensures !isLoading && !isSearchMode && !isWebViewVisible && !isTabsOverviewVisible
      ensures Valid() && FlagsMatch(tabs, Some(activeTabId))
    {
      tabs := [NewTab("1", "New Tab", "", true)];
      activeTabId := "1";
      isLoading := false;
      isSearchMode := false;
      isWebViewVisible := false;
      isTabsOverviewVisible := false;
    }

    /** `onPageStarted`: shows the progress bar. */
    method OnPageStarted()
      modifies this`isLoading
      ensures isLoading
    {
      isLoading := true;
    }

    /** `onPageFinished(view, url)`: records the loaded URL and the page title (the URL
        when there is no title) in the tabs whose id is `activeTabId`. */
    method OnPageFinished(url: Option<string>, pageTitle: Option<string>)
      modifies this`tabs, this`isLoading
      ensures !isLoading
      ensures url.None? ==> tabs == old(tabs)
      ensures url.Some? ==> tabs == Patched(old(tabs), activeTabId, Some(pageTitle.GetOr(url.value)), url)
      ensures |tabs| == |old(tabs)|
      ensures forall i :: 0 <= i < |tabs| && old(tabs)[i].id != activeTabId ==> tabs[i] == old(tabs)[i]
      ensures url.Some? ==> forall i :: 0 <= i < |tabs| && old(tabs)[i].id == activeTabId ==>
        tabs[i] == old(tabs)[i].(url := url.value, title := pageTitle.GetOr(url.value))
      ensures old(Valid()) ==> Valid()
      ensures FlagsMatch(old(tabs), Some(old(activeTabId))) ==> FlagsMatch(tabs, Some(activeTabId))
    {
      isLoading := false;
      if url.Some? {
        var currentUrl := url.value;
        PatchedSpec(tabs, activeTabId, Some(pageTitle.GetOr(currentUrl)), url);
        tabs := Patched(tabs, activeTabId, Some(pageTitle.GetOr(currentUrl)), url);
      }
    }

    /** `onSearch(query, isGoogleSearch)`: hands the request to `onLoadUrl`, leaves
        search mode and shows the WebView. Returns the string handed over. */
    method OnSearch(query: string, isGoogleSearch: bool) returns (request: string)
      modifies this`isSearchMode, this`isWebViewVisible
      ensures request == SearchRequest(query, isGoogleSearch)
      ensures !isSearchMode && isWebViewVisible
    {
      if isGoogleSearch {
        request := GoogleSearchPrefix + query;
      } else {
        request := "csnet:" + query;
      }
      isSearchMode := false;
      isWebViewVisible := true;
    }

    /** `onTabClose(tabId)`. With one tab left nothing happens. Otherwise the tabs
        with that id go and, if the active tab went, the first remaining tab's id
        becomes `activeTabId`; the flags are left as they were. `crashed` is set
        when that `first()` would find no tab (every tab had the closed id), the
        exception the source would throw; it cannot happen in a `Valid()` state. */
    method OnTabClose(tabId: string) returns (crashed: bool)
      modifies this`tabs, this`activeTabId
      ensures |old(tabs)| <= 1 ==> tabs == old(tabs) && activeTabId == old(activeTabId) && !crashed
      ensures |old(tabs)| > 1 ==> tabs == WithoutId(old(tabs), tabId)
      ensures crashed <==> |old(tabs)| > 1 && tabId == old(activeTabId) && tabs == []
      ensures |old(tabs)| > 1 && tabId == old(activeTabId) && !crashed ==> activeTabId == tabs[0].id
      ensures tabId != old(activeTabId) || crashed ==> activeTabId == old(activeTabId)
      ensures old(Valid()) ==> Valid() && !crashed
      ensures (old(Valid()) && FlagsMatch(old(tabs), Some(old(activeTabId))) && |old(tabs)| > 1
               && tabId == old(activeTabId) && HasId(old(tabs), tabId)) ==>
        !tabs[0].isActive && !FlagsMatch(tabs, Some(activeTabId))
    {
      crashed := false;
      if |tabs| > 1 {
        ghost var before := tabs;
        WithoutIdSpec(tabs, tabId);
        if UniqueIds(tabs) {
          WithoutIdUnique(tabs, tabId);
        }
        if FlagsMatch(tabs, Some(activeTabId)) {
          WithoutIdFlags(tabs, tabId, Some(activeTabId));
        }
        tabs := WithoutId(tabs, tabId);
        if tabId == activeTabId {
          if |tabs| == 0 {
            crashed := true;
          } else {
            activeTabId := tabs[0].id;
            if FlagsMatch(before, Some(tabId)) {
              assert tabs[0] in before;
              assert tabs[0].id != tabId;
            }
          }
        }
      }
    }

    /** `onTabSelect(tabId)`: makes that id active, flags exactly its tabs, and
        hides the tab overview. */
    method OnTabSelect(tabId: string)
      modifies this`tabs, this`activeTabId, this`isTabsOverviewVisible
      ensures activeTabId == tabId && !isTabsOverviewVisible
      ensures tabs == ActivatedOnly(old(tabs), Some(tabId))
      ensures |tabs| == |old(tabs)|
      ensures forall i :: 0 <= i < |tabs| ==> tabs[i].(isActive := old(tabs)[i].isActive) == old(tabs)[i]
      ensures FlagsMatch(tabs, Some(activeTabId))
      ensures old(Valid()) ==> Valid()
    {
      activeTabId := tabId;
      ActivatedOnlySpec(tabs, Some(tabId));
      tabs := ActivatedOnly(tabs, Some(tabId));
      isTabsOverviewVisible := false;
    }
  }
}
