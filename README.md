# CsNet Browser — a Dafny model of its core

CsNet Browser is an Android web browser written in Kotlin. It has tabs, an address bar that
picks a URL or a Google search for what the user typed, and a "csnet:" search. That search
scrapes DuckDuckGo results and the pages behind them, then builds one summary page from
those pages: images, relevant paragraphs, keywords and bullet points.

This project models that core in Dafny and proves properties of the model:

- **Tab record and tab list operations** (`tabs.dfy`). `TabInfo` with its defaults, and the
  list transformations the tab store and the screen apply to tabs: deactivate all, flag by id,
  patch by id, and filter by id.
- **The tab store** (`tab_store.dfy`). `TabManager` is a class with the tab list and the
  active id as fields. Its methods reassign those fields the way the Kotlin methods reassign
  the `StateFlow` value and `activeTabId`. The invariant proved is that the active flags
  agree with `activeTabId`.
- **The browser screen's state and callbacks** (`screen.dfy`). `BrowserState` holds the
  `remember`ed variables of `BrowserScreen`. The callbacks that change them are methods:
  `onPageStarted`, `onPageFinished`, `onSearch`, `onTabClose` and `onTabSelect`.
  This screen keeps its own tab list with a different policy from `TabManager`:
  - it never closes the last tab;
  - closing the active tab promotes the *first* remaining tab;
  - closing never re-flags tabs.
- **Address bar input handling** (`navigation.dfy`). `MainActivity.loadUrl` becomes a pure
  classifier plus a method that sets the `isCustomSearch` flag. The classifier decides:
  ignore, summarized search with the extracted query, or a URL to load.
- **The summarized search** (`search.dfy`). The text analysis of `CsNetSearch`:
  - unwanted-domain test;
  - query relevance;
  - keyword frequency ranking;
  - bullet-point selection.

  It also covers the list stages of `performSearch` that run on the scraped strings:
  result links, images with a placeholder fallback, paragraphs per page, and the unified
  analysis.
- **Search suggestions** (`search_suggestions.dfy`). The suggestion list shown while the
  user types.
- **Shared Kotlin standard-library behaviour** (`wrappers.dfy`, `text.dfy`, `lists.dfy`).
  These model how Kotlin behaves where the browser relies on it:
  - `String?` as `Option`, and `?:` as `GetOr`;
  - `trim`, `lowercase`, `isBlank`, `startsWith`, `contains` and `substringAfter`;
  - `split` on single characters: every separator splits and empty pieces are kept;
  - `split(Regex("[...]+"))`: a run of separators counts as one, and a leading or trailing
    empty piece is kept;
  - `filter`, `take`, `distinct` and `distinctBy`, which keep the first occurrence;
  - `sortedByDescending`, which is stable;
  - `groupBy` counts.

Three behaviours of the code worth knowing:

- Input such as `https://http://x` already has a scheme, so it is loaded unchanged. A loaded
  URL can therefore start with `https://http://`. `Navigation.NoDoubleScheme` states what
  does hold: `https://` is only put in front of input without a scheme.
- `csnet:a/b` searches for `b` only. `substringAfter("/")` runs after `substringAfter(":")`,
  so everything up to the first slash of the query is dropped. `Navigation.ColonQueryDropsBeforeSlash`
  and `Screen.CsNetRequestTruncatesAtSlash` model this as written. Nothing in the code says
  whether it is intended.
- The screen's `onTabClose` moves `activeTabId` without touching the `isActive` flags. After
  the active tab is closed, the flags no longer identify the active tab.
  `Screen.BrowserState.OnTabClose` states this.

## Model

| member | source | states |
|---|---|---|
| Tabs.ActivatedOnlySpec | app/src/main/java/com/csnet/browser/TabManager.kt:56-58 | re-flagging by id keeps length, ids and every other field; afterwards exactly the tabs with that id are active; unique ids stay unique |
| Tabs.PatchedSpec | app/src/main/java/com/csnet/browser/TabManager.kt:33-40 | patching keeps length, ids and flags; only tabs with the id change, and only in the given title/url; with no such tab or nothing to patch the list is unchanged; flags that matched still match |
| Tabs.WithoutIdSpec | app/src/main/java/com/csnet/browser/TabManager.kt:44 | removal drops every tab with the id, keeps every other tab with its multiplicity, invents none and keeps the order |
| Tabs.WithoutIdLength | app/src/main/java/com/csnet/browser/TabManager.kt:44 | removing a present id shortens the list; removing an absent id changes nothing |
| Tabs.WithoutIdUnique | app/src/main/java/com/csnet/browser/TabManager.kt:44 | with unique ids at most one tab is removed and ids stay unique |
| Tabs.WithoutIdFlags | app/src/main/java/com/csnet/browser/TabManager.kt:44 | kept tabs keep their flags, so flags that matched an active id still match |
| Tabs.FindById | app/src/main/java/com/csnet/browser/TabManager.kt:52 | `find`: the result is a tab with that id and no earlier tab has it; None exactly when no tab has it |
| TabStore.TabManager.constructor | app/src/main/java/com/csnet/browser/TabManager.kt:10-13 | starts with no tabs and no active id |
| TabStore.TabManager.GetActiveTab | app/src/main/java/com/csnet/browser/TabManager.kt:51-53 | a tab in the list whose id is the active id; None exactly when there is no active id or no tab carries it |
| TabStore.TabManager.CreateNewTab | app/src/main/java/com/csnet/browser/TabManager.kt:15-30 | old tabs deactivated in place, the new active tab appended, its id returned and made active; with a fresh id it is the active tab and the only active one |
| TabStore.TabManager.UpdateTab | app/src/main/java/com/csnet/browser/TabManager.kt:32-41 | the tabs become the patched list; the active id is unchanged; consistency and unique ids are kept |
| TabStore.TabManager.CloseTab | app/src/main/java/com/csnet/browser/TabManager.kt:43-49 | the tabs with the id go; when the active tab went, the last remaining tab's id (or none) becomes active and exactly its tabs are flagged; consistency and unique ids are kept |
| TabStore.TabManager.SetActiveTab | app/src/main/java/com/csnet/browser/TabManager.kt:55-60 | the id becomes active and exactly its tabs are flagged; an unknown id leaves no tab active and no active tab found; with unique ids a known id gives exactly one active tab |
| TabStore.CreatedTabIsActive | app/src/main/java/com/csnet/browser/TabManager.kt:25-27 | appending an active tab with a fresh id to deactivated tabs makes it the one active tab and the one found by its id |
| TabStore.LastId | app/src/main/java/com/csnet/browser/TabManager.kt:46 | `lastOrNull()?.id`: None exactly for an empty list, otherwise the id of the last tab |
| Navigation.CsNetQuery | app/src/main/java/com/csnet/browser/MainActivity.kt:58 | the extracted query carries no leading or trailing whitespace |
| Navigation.SlashQuery | app/src/main/java/com/csnet/browser/MainActivity.kt:56-58 | `csnet/q` with no colon in `q` searches for `q` trimmed |
| Navigation.ColonQuery | app/src/main/java/com/csnet/browser/MainActivity.kt:56-58 | `csnet:q` with no slash in `q` searches for `q` trimmed |
| Navigation.ColonQueryDropsBeforeSlash | app/src/main/java/com/csnet/browser/MainActivity.kt:58 | `csnet:a/b` (no slash in `a`) searches for `b` trimmed |
| Navigation.ResolveUrl | app/src/main/java/com/csnet/browser/MainActivity.kt:63-67 | input with a scheme is loaded as it is; otherwise input with a dot gets `https://`; anything else becomes an encoded Google search; every resolved URL has a scheme |
| Navigation.Classify | app/src/main/java/com/csnet/browser/MainActivity.kt:52-70 | ignored exactly when blank; a custom search exactly when it has the csnet prefix, with the extracted query; otherwise the resolved URL is loaded |
| Navigation.CsNetInputNotBlank | app/src/main/java/com/csnet/browser/MainActivity.kt:53-56 | csnet input is never blank, so it always reaches the search branch |
| Navigation.SchemeInputLoadsAsTyped | app/src/main/java/com/csnet/browser/MainActivity.kt:53-64 | input that starts with `http://` or `https://` is loaded exactly as typed |
| Navigation.NoDoubleScheme | app/src/main/java/com/csnet/browser/MainActivity.kt:63-67 | `https://` is only prefixed to input without a scheme; a loaded URL starting with a doubled scheme is exactly the typed input |
| Navigation.MainActivity.constructor | app/src/main/java/com/csnet/browser/MainActivity.kt:33 | the activity starts with `isCustomSearch` false |
| Navigation.MainActivity.LoadUrl | app/src/main/java/com/csnet/browser/MainActivity.kt:52-70 | the action is the classification; blank input leaves `isCustomSearch` alone, other input sets it to whether it was a csnet search |
| Screen.SearchRequest | app/src/main/java/com/csnet/browser/BrowserScreen.kt:204-208 | a Google URL with the raw query appended, or `csnet:` and the query |
| Screen.GoogleRequestLoadsUnchanged | app/src/main/java/com/csnet/browser/BrowserScreen.kt:205 | a Google request has a scheme, so `loadUrl` loads it unchanged and never encodes the query |
| Screen.CsNetRequestIsCustomSearch | app/src/main/java/com/csnet/browser/BrowserScreen.kt:207 | a summarized-search request always becomes a custom search |
| Screen.CsNetRequestKeepsQuery | app/src/main/java/com/csnet/browser/BrowserScreen.kt:207 | a summarized-search query with no slash reaches the search trimmed |
| Screen.CsNetRequestTruncatesAtSlash | app/src/main/java/com/csnet/browser/BrowserScreen.kt:207 | a summarized-search query `a/b` reaches the search as `b` |
| Screen.BrowserState.constructor | app/src/main/java/com/csnet/browser/BrowserScreen.kt:36-48 | one active "New Tab" with id "1", nothing loading or shown; the state is valid and the flags match |
| Screen.BrowserState.OnPageStarted | app/src/main/java/com/csnet/browser/BrowserScreen.kt:89-91 | loading is shown |
| Screen.BrowserState.OnPageFinished | app/src/main/java/com/csnet/browser/BrowserScreen.kt:93-106 | loading ends; with a URL the active id's tabs get that URL and the page title, or the URL when there is no title; every other tab is unchanged; validity and flag agreement are kept |
| Screen.BrowserState.OnSearch | app/src/main/java/com/csnet/browser/BrowserScreen.kt:203-211 | the request handed to `onLoadUrl` is the search request; search mode ends and the WebView shows |
| Screen.BrowserState.OnTabClose | app/src/main/java/com/csnet/browser/BrowserScreen.kt:218-224 | one tab left: nothing changes; otherwise the tabs with the id go and a closed active id moves to the first remaining tab; the `first()` failure happens exactly when no tab remains, never from a valid state; closing the active tab leaves flags that no longer match |
| Screen.BrowserState.OnTabSelect | app/src/main/java/com/csnet/browser/BrowserScreen.kt:226-230 | the id becomes active, exactly its tabs are flagged, nothing else in the tabs changes, the overview closes, validity is kept |
| Search.ContainsAny | app/src/main/java/com/csnet/browser/CsNetSearch.kt:46 | true exactly when one of the substrings occurs in the string |
| Search.ContainsUnwantedDomain | app/src/main/java/com/csnet/browser/CsNetSearch.kt:31-47 | true exactly when one of the ten unwanted substrings occurs in the URL |
| Search.RelevanceSpec | app/src/main/java/com/csnet/browser/CsNetSearch.kt:49-53 | relevant exactly when a piece of the lowercased query longer than two characters occurs in the lowercased text |
| Search.ShortQueryNeverRelevant | app/src/main/java/com/csnet/browser/CsNetSearch.kt:50-51 | a query with no piece longer than two characters is relevant to nothing |
| Search.KeywordCandidateSpec | app/src/main/java/com/csnet/browser/CsNetSearch.kt:56-58 | every counted word is a lowercase piece of the split text, longer than three characters, no stop word, and contains no separator |
| Search.ExtractKeywordsBounded | app/src/main/java/com/csnet/browser/CsNetSearch.kt:55-65 | at most eight keywords, pairwise distinct, each a counted word |
| Search.ExtractKeywordsByFrequency | app/src/main/java/com/csnet/browser/CsNetSearch.kt:59-62 | keywords come in non-increasing order of occurrence count |
| Search.ExtractKeywordsTies | app/src/main/java/com/csnet/browser/CsNetSearch.kt:59-62 | keywords with equal counts keep the order in which the words first occur, because the sort is stable over `groupBy` order |
| Search.ExtractKeywordsComplete | app/src/main/java/com/csnet/browser/CsNetSearch.kt:62-64 | a counted word is left out only when eight keywords were returned and it occurs no more often than the eighth |
| Search.ExtractBulletPointsBounded | app/src/main/java/com/csnet/browser/CsNetSearch.kt:67-74 | at most five bullet points, each a candidate sentence |
| Search.ExtractBulletPointsShape | app/src/main/java/com/csnet/browser/CsNetSearch.kt:68-70 | every bullet point is a trimmed sentence of 20 to 150 characters |
| Search.ExtractBulletPointsOrdered | app/src/main/java/com/csnet/browser/CsNetSearch.kt:71-72 | no two bullet points are equal ignoring case, and they come longest first |
| Search.ExtractBulletPointsTies | app/src/main/java/com/csnet/browser/CsNetSearch.kt:71-72 | bullet points of equal length keep the order of their sentences in the text |
| Search.ExtractBulletPointsComplete | app/src/main/java/com/csnet/browser/CsNetSearch.kt:71-73 | a candidate is left out only when a case-insensitive equal was kept, or five were kept and it is no longer than the fifth |
| Search.ResultLinksSpec | app/src/main/java/com/csnet/browser/CsNetSearch.kt:84-87 | at most five links, each `https://` plus a trimmed result text, none unwanted |
| Search.ResultLinksComplete | app/src/main/java/com/csnet/browser/CsNetSearch.kt:86-87 | fewer than five links means no wanted link was dropped |
| Search.LinkCandidatesSpec | app/src/main/java/com/csnet/browser/CsNetSearch.kt:85 | every candidate link starts with `https://` and is that prefix followed by a trimmed result text |
| Search.KeptImagesSpec | app/src/main/java/com/csnet/browser/CsNetSearch.kt:102-104 | at most three distinct scraped URLs that are non-empty and start with "http" |
| Search.ImageUrlsScraped | app/src/main/java/com/csnet/browser/CsNetSearch.kt:102-111 | when some scraped URL qualifies, one to three distinct qualifying scraped URLs are shown |
| Search.ImageUrlsPlaceholders | app/src/main/java/com/csnet/browser/CsNetSearch.kt:105-111 | the three placeholders are shown exactly when no scraped URL qualifies |
| Search.ImageUrlsComplete | app/src/main/java/com/csnet/browser/CsNetSearch.kt:102-104 | fewer than three images means every qualifying scraped URL is shown |
| Search.ParagraphsSpec | app/src/main/java/com/csnet/browser/CsNetSearch.kt:122-125 | at most two paragraphs per page, each a trimmed text of the page of 50 to 500 characters relevant to the query |
| Search.ParagraphsComplete | app/src/main/java/com/csnet/browser/CsNetSearch.kt:124-125 | fewer than two paragraphs means no trimmed text of the page that is kept for the query was dropped |
| Search.PageResultSpec | app/src/main/java/com/csnet/browser/CsNetSearch.kt:116-132 | a page contributes exactly when it loaded and kept a paragraph; then it is those paragraphs (one or two, each kept for the query) with the link's host |
| Search.ContributingFromLinks | app/src/main/java/com/csnet/browser/CsNetSearch.kt:114-132 | every page that survives `filterNotNull` is the kept paragraphs and host of one of the links it was built from, and that link's page loaded and kept a paragraph |
| Search.SummarizedSearchProvenance | app/src/main/java/com/csnet/browser/CsNetSearch.kt:114-140 | every quoted paragraph was kept from the page of a result link; every source is the host of a result link whose page kept a paragraph; no more sources than links |
| Search.SummarizedSearchBounds | app/src/main/java/com/csnet/browser/CsNetSearch.kt:84-140 | one to three images, at most five sources, at most ten paragraphs all kept for the query, at most eight keywords and five bullet points |
| Suggestions.Suggestions | app/src/main/java/com/csnet/browser/SearchSuggestions.kt:25-36 | blank query: none; otherwise four entries, the query first and then the query with each of the three suffixes |
| Suggestions.SuggestionsExtendQuery | app/src/main/java/com/csnet/browser/SearchSuggestions.kt:29-34 | every suggestion starts with the query and no suggestion repeats |

## Left out

- **Networking and HTML:** the Jsoup connections, CSS selectors, `absUrl`, removing elements and
  the HTML report (`generateUnifiedResultsHtml`, `generateErrorHtml`). The scraped strings are
  parameters: the result link texts, the concatenated image URLs of the result pages, and what
  `fetch` returns for each link. `URI(link).host` is the parameter `host`; its null case is not modelled.
- **The catch blocks of `performSearch`:** a page that throws while loading appears as `fetch`
  returning None. So does a page where `URI(link)` throws: the same `catch` drops it, so `host`
  is total and such a link is one whose `fetch` is None. The outer `try` that turns a failed search into the error page is not part of this model.
- **Concurrency:** coroutines, `withContext`, `async`/`awaitAll` and `lifecycleScope.launch`.
  The model computes page results in link order, which is the order `awaitAll` returns.
- **WebView side effects:** `loadUrl` and `loadDataWithBaseURL` on the WebView are represented
  by the returned `Action`. The no-WebView case (`webView?`) is not distinguished.
- **Platform functions as parameters:** `android.net.Uri.encode` is the parameter `encode`, and
  `UUID.randomUUID()` is the parameter `freshId`.
- **Compose UI:** layout, drawer, dialogs, settings, vibration and favicon loading. The
  remaining callbacks of `BrowserScreen.kt` are not modelled, because they only set visibility
  flags or open or close the drawer. These are the `onClick`s of the bottom bar (lines 150,
  165, 181), the `onDismiss`s (202, 231), the drawer callbacks (59-74, where `onClearData`
  sets `showClearDataDialog` and closes the drawer) and the clear-data dialog's callbacks
  (238, 243-246, 252), which only reset `showClearDataDialog`; clearing data itself is not
  implemented in the code. The second copy of
  `BrowserScreen` inside `MainActivity.kt` is not part of this model.
- Text.Lower: lowercases ASCII letters only, where Kotlin's `lowercase()` covers all of Unicode.
- Text.IsWhitespace: accepts only the ASCII characters that Kotlin's `isWhitespace` accepts,
  not the Unicode spaces beyond ASCII. `Text.Trim` and `Text.IsBlank` inherit this. The keyword
  split's `\s` is ASCII whitespace in Java regex, so that split is exact.
- Screen.BrowserState.OnTabClose: the Kotlin `first()` on an empty list throws. The model
  returns `crashed` instead and leaves `activeTabId` unchanged.
- Search.SummarizedSearchBounds: bounds only; where the content and sources come from is
  `Search.SummarizedSearchProvenance`. The exact HTML produced is not modelled.
- Search.Length: counts characters of `seq<char>`, which are Unicode scalar values, where
  Kotlin's `length` counts UTF-16 code units. Text outside the Basic Multilingual Plane is
  therefore shorter in the model. This affects every length threshold of the search: words
  longer than three characters and query pieces longer than two (`CsNetSearch.kt` lines 51
  and 58), sentences of 20 to 150 characters and their ordering (70, 72), and paragraphs of
  50 to 500 characters (124).
