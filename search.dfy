/**
 * The text analysis of the summarized search (`CsNetSearch.kt`) and the pure
 * list stages of `performSearch` that run on what was scraped. Fetching pages,
 * CSS selection and the HTML report are not part of this model: the scraped
 * strings come in as parameters, `fetch` stands for loading one result page
 * (None when it throws) and `host` for `URI(link).host`.
 */
module Search {
  import opened Wrappers
  import opened Text
  import opened Lists

  /** Substrings that mark a link as unwanted, in declaration order. */
  const UnwantedDomains: seq<string> := [
    "facebook.com", "instagram.com", "pinterest.com",
    "linkedin.com", "youtube.com", "tumblr.com",
    "microsoft.com/en-us/legal", "privacy", "terms", "cookie"]

  const StopWords: set<string> := {
    "the", "be", "to", "of", "and", "a", "in", "that", "have",
    "i", "it", "for", "not", "on", "with", "he", "as", "you",
    "do", "at", "this", "but", "his", "by", "from", "they",
    "we", "say", "her", "she", "or", "an", "will", "my",
    "one", "all", "would", "there", "their", "what", "about"}

  /** The delimiters of `query.split(" ", ",", ".")`. */
  const QuerySeparators: set<char> := {' ', ',', '.'}

  /** The class `[\s.,;:!?()]` of the keyword split; `\s` is ASCII whitespace. */
  const KeywordSeparators: set<char> := {' ', '\t', '\n', '\U{B}', '\U{C}', '\r', '.', ',', ';', ':', '!', '?', '(', ')'}

  /** The class `[.!?]` of the sentence split. */
  const SentenceSeparators: set<char> := {'.', '!', '?'}

  const PlaceholderImage: string := "https://via.placeholder.com/300x200?text=No+Image"

  const MaxLinks: nat := 5
  const MaxImages: nat := 3
  const MaxParagraphs: nat := 2
  const MaxKeywords: nat := 8
  const MaxBulletPoints: nat := 5

  /** Kotlin `subs.any { s.contains(it) }`. */
  function ContainsAny(s: string, subs: seq<string>): (r: bool)
    ensures r <==> exists i :: 0 <= i < |subs| && Contains(s, subs[i])
    ensures r <==> exists d :: d in subs && Contains(s, d)
    decreases |subs|
  {
    if |subs| == 0 then false
    else Contains(s, subs[0]) || (assert forall i :: 0 <= i < |subs| - 1 ==> subs[1..][i] == subs[i + 1]; ContainsAny(s, subs[1..]))
  }

  /** `containsUnwantedDomain(url)`. */
  function ContainsUnwantedDomain(url: string): (r: bool)
    ensures r <==> exists d :: d in UnwantedDomains && Contains(url, d)
  {
    ContainsAny(url, UnwantedDomains)
  }

  /** The words of a query that take part in the relevance test: the pieces of the
      lowercased query longer than two characters. */
  function QueryWords(query: string): (ws: seq<string>)
  {
    Filter(SplitOn(Lower(query), QuerySeparators), (w: string) => |w| > 2)
  }

  /** `isRelevantToQuery(text, query)`. */
  function IsRelevantToQuery(text: string, query: string): (r: bool)
  {
    ContainsAny(Lower(text), QueryWords(query))
  }

  /** Relevance holds exactly when some piece of the lowercased query that is longer
      than two characters occurs in the lowercased text. */
  lemma RelevanceSpec(text: string, query: string)
    ensures IsRelevantToQuery(text, query) <==>
      exists w :: w in SplitOn(Lower(query), QuerySeparators) && |w| > 2 && Contains(Lower(text), w)
  {
    var pieces := SplitOn(Lower(query), QuerySeparators);
    FilterMembers(pieces, (w: string) => |w| > 2);
    var ws := QueryWords(query);
    if IsRelevantToQuery(text, query) {
      var i :| 0 <= i < |ws| && Contains(Lower(text), ws[i]);
      assert ws[i] in pieces;
    }
    if exists w :: w in pieces && |w| > 2 && Contains(Lower(text), w) {
      var w :| w in pieces && |w| > 2 && Contains(Lower(text), w);
      var k :| 0 <= k < |pieces| && pieces[k] == w;
      assert w in ws;
    }
  }

  /** A query with no piece longer than two characters is relevant to no text. */
  lemma ShortQueryNeverRelevant(text: string, query: string)
    requires forall w :: w in SplitOn(Lower(query), QuerySeparators) ==> |w| <= 2
    ensures !IsRelevantToQuery(text, query)
  {
    RelevanceSpec(text, query);
  }

  predicate IsKeywordCandidate(w: string)
  {
    |w| > 3 && w !in StopWords
  }

  /** The words `extractKeywords` counts: the pieces of the lowercased text that are
      longer than three characters and not stop words. */
  function KeywordCandidates(text: string): (ws: seq<string>)
  {
    Filter(SplitRuns(Lower(text), KeywordSeparators), IsKeywordCandidate)
  }

  /** How often a word occurs among the candidates (`groupBy` then `size`). */
  function Occurrences(words: seq<string>): string -> int
  {
    (w: string) => Count(words, w)
  }

  /** `extractKeywords(text)`: the distinct candidates in order of first occurrence,
      stably sorted by occurrence count, most frequent first, at most eight. */
  function ExtractKeywords(text: string): (r: seq<string>)
  {
    var words := KeywordCandidates(text);
    Take(SortedByDescending(Distinct(words), Occurrences(words)), MaxKeywords)
  }

  lemma KeywordCandidateSpec(text: string)
    ensures forall w :: w in KeywordCandidates(text) ==>
      w in SplitRuns(Lower(text), KeywordSeparators) && |w| > 3 && w !in StopWords
      && IsLower(w) && (forall i :: 0 <= i < |w| ==> w[i] !in KeywordSeparators)
  {
    var pieces := SplitRuns(Lower(text), KeywordSeparators);
    FilterMembers(pieces, IsKeywordCandidate);
    LowerIsLower(text);
    PiecesAreLower(Lower(text), KeywordSeparators);
    forall w | w in KeywordCandidates(text) ensures w in pieces && IsKeywordCandidate(w) {
      var k :| 0 <= k < |KeywordCandidates(text)| && KeywordCandidates(text)[k] == w;
    }
  }

  /** The pieces of a lowercase string are lowercase. */
  lemma PiecesAreLower(s: string, seps: set<char>)
    requires IsLower(s)
    ensures forall w :: w in SplitRuns(s, seps) ==> IsLower(w)
  {
    PieceChars(s, seps);
    forall w | w in SplitRuns(s, seps) ensures IsLower(w) {
      var k :| 0 <= k < |SplitRuns(s, seps)| && SplitRuns(s, seps)[k] == w;
      forall i | 0 <= i < |w| ensures !('A' <= w[i] <= 'Z') {
        assert w[i] in s;
      }
    }
  }

  lemma {:induction false} PieceChars(s: string, seps: set<char>)
    ensures forall k, i :: 0 <= k < |SplitRuns(s, seps)| && 0 <= i < |SplitRuns(s, seps)[k]| ==>
      SplitRuns(s, seps)[k][i] in s
    decreases |s|, 0
  {
    if |s| > 0 {
      if s[0] in seps {
        AfterRunChars(s[1..], seps);
      } else {
        PieceChars(s[1..], seps);
      }
    }
  }

  lemma {:induction false} AfterRunChars(t: string, seps: set<char>)
    ensures forall k, i :: 0 <= k < |AfterRun(t, seps)| && 0 <= i < |AfterRun(t, seps)[k]| ==>
      AfterRun(t, seps)[k][i] in t
    decreases |t|, 1
  {
    if |t| > 0 {
      if t[0] in seps {
        AfterRunChars(t[1..], seps);
      } else {
        PieceChars(t, seps);
      }
    }
  }

  /** `extractKeywords` returns at most eight words, pairwise distinct, each one
      of the candidates. */
  lemma ExtractKeywordsBounded(text: string)
    ensures |ExtractKeywords(text)| <= MaxKeywords
    ensures NoDup(ExtractKeywords(text))
    ensures forall i :: 0 <= i < |ExtractKeywords(text)| ==> ExtractKeywords(text)[i] in KeywordCandidates(text)
  {
    var words := KeywordCandidates(text);
    var keys := Distinct(words);
    var r := ExtractKeywords(text);
    TopByKey(keys, Occurrences(words), MaxKeywords);
    forall i | 0 <= i < |r| ensures r[i] in words {
      assert r[i] in keys;
    }
  }

  /** The keywords come most frequent first. */
  lemma ExtractKeywordsByFrequency(text: string)
    ensures var r := ExtractKeywords(text); var words := KeywordCandidates(text);
      forall i, j :: 0 <= i < j < |r| ==> Count(words, r[i]) >= Count(words, r[j])
  {
    var words := KeywordCandidates(text);
    var f := Occurrences(words);
    var r := ExtractKeywords(text);
    TopByKey(Distinct(words), f, MaxKeywords);
    forall i, j | 0 <= i < j < |r| ensures Count(words, r[i]) >= Count(words, r[j]) {
      assert f(r[i]) >= f(r[j]);
    }
  }

  /** A candidate is left out only when eight keywords were returned and it occurs
      no more often than the last of them. */
  lemma ExtractKeywordsComplete(text: string, w: string)
    requires w in KeywordCandidates(text) && w !in ExtractKeywords(text)
    ensures |ExtractKeywords(text)| == MaxKeywords
    ensures Count(KeywordCandidates(text), w) <= Count(KeywordCandidates(text), ExtractKeywords(text)[MaxKeywords - 1])
  {
    var words := KeywordCandidates(text);
    TopByKeyComplete(Distinct(words), Occurrences(words), MaxKeywords, w);
  }

  /** Keywords with equal counts keep the order in which `groupBy` met them. */
  lemma ExtractKeywordsTies(text: string, i: int, j: int)
    requires 0 <= i < j < |ExtractKeywords(text)|
    requires Count(KeywordCandidates(text), ExtractKeywords(text)[i]) == Count(KeywordCandidates(text), ExtractKeywords(text)[j])
    ensures IsSubsequence([ExtractKeywords(text)[i], ExtractKeywords(text)[j]], Distinct(KeywordCandidates(text)))
  {
    var words := KeywordCandidates(text);
    TopByKeyStable(Distinct(words), Occurrences(words), MaxKeywords, i, j);
  }

  /** Length as the sort key of `sortedByDescending { it.length }`. */
  function Length(s: string): (n: int)
  {
    |s|
  }

  /** Kotlin `map { it.trim() }`. */
  function TrimEach(ss: seq<string>): (ts: seq<string>)
  {
    seq(|ss|, i requires 0 <= i < |ss| => Trim(ss[i]))
  }

  /** Every trimmed string has no whitespace at either end. */
  lemma TrimEachTrimmed(ss: seq<string>)
    ensures forall t :: t in TrimEach(ss) && |t| > 0 ==> !IsWhitespace(t[0]) && !IsWhitespace(t[|t| - 1])
  {
    forall t | t in TrimEach(ss) && |t| > 0 ensures !IsWhitespace(t[0]) && !IsWhitespace(t[|t| - 1]) {
      var i :| 0 <= i < |ss| && TrimEach(ss)[i] == t;
      TrimSpec(ss[i]);
    }
  }

  /** The trimmed pieces of `text.split(Regex("[.!?]+")).map { it.trim() }`. */
  function Sentences(text: string): (ss: seq<string>)
  {
    TrimEach(SplitRuns(text, SentenceSeparators))
  }

  /** The sentences of 20 to 150 characters. */
  function BulletCandidates(text: string): (ss: seq<string>)
  {
    Filter(Sentences(text), (s: string) => 20 <= |s| <= 150)
  }

  /** `extractBulletPoints(text)`: one sentence per lowercase form, the first one met,
      stably sorted by length, longest first, at most five. */
  function ExtractBulletPoints(text: string): (r: seq<string>)
  {
    Take(SortedByDescending(DistinctBy(BulletCandidates(text), Lower), Length), MaxBulletPoints)
  }

  /** `extractBulletPoints` returns at most five of the candidate sentences. */
  lemma ExtractBulletPointsBounded(text: string)
    ensures |ExtractBulletPoints(text)| <= MaxBulletPoints
    ensures forall i :: 0 <= i < |ExtractBulletPoints(text)| ==> ExtractBulletPoints(text)[i] in BulletCandidates(text)
  {
    var cands := BulletCandidates(text);
    var d := DistinctBy(cands, Lower);
    var r := ExtractBulletPoints(text);
    DistinctByMembers(cands, Lower);
    SubsequenceMembers(d, cands);
    TopByKey(d, Length, MaxBulletPoints);
    forall i | 0 <= i < |r| ensures r[i] in cands {
      assert r[i] in d;
    }
  }

  /** Every bullet point is a trimmed sentence of the text with 20 to 150 characters. */
  lemma ExtractBulletPointsShape(text: string)
    ensures var r := ExtractBulletPoints(text);
      (forall i :: 0 <= i < |r| ==> r[i] in Sentences(text) && 20 <= |r[i]| <= 150)
      && (forall i :: 0 <= i < |r| && |r[i]| > 0 ==> !IsWhitespace(r[i][0]) && !IsWhitespace(r[i][|r[i]| - 1]))
  {
    var r := ExtractBulletPoints(text);
    ExtractBulletPointsBounded(text);
    FilterMembers(Sentences(text), (s: string) => 20 <= |s| <= 150);
    SentencesTrimmed(text);
    forall i | 0 <= i < |r| ensures r[i] in Sentences(text) && 20 <= |r[i]| <= 150 {
      var c := r[i];
      assert c in BulletCandidates(text);
      var k :| 0 <= k < |BulletCandidates(text)| && BulletCandidates(text)[k] == c;
    }
  }

  /** No two bullet points are equal ignoring case, and they come longest first. */
  lemma ExtractBulletPointsOrdered(text: string)
    ensures var r := ExtractBulletPoints(text);
      (forall i, j :: 0 <= i < j < |r| ==> Lower(r[i]) != Lower(r[j]))
      && (forall i, j :: 0 <= i < j < |r| ==> |r[i]| >= |r[j]|)
  {
    var d := DistinctBy(BulletCandidates(text), Lower);
    var sorted := SortedByDescending(d, Length);
    var r := ExtractBulletPoints(text);
    DistinctByMembers(BulletCandidates(text), Lower);
    SortedByDescendingPermutes(d, Length);
    TopByKey(d, Length, MaxBulletPoints);
    forall i, j | 0 <= i < j < |r| ensures Lower(r[i]) != Lower(r[j]) && |r[i]| >= |r[j]| {
      DistinctKeysPermuted(d, sorted, i, j);
      assert Length(r[i]) >= Length(r[j]);
    }
  }

  /** A candidate sentence is left out only when one equal to it ignoring case was
      returned, or five were returned and it is no longer than the last of them. */
  lemma ExtractBulletPointsComplete(text: string, s: string)
    requires s in BulletCandidates(text)
    ensures var r := ExtractBulletPoints(text);
      (exists m :: 0 <= m < |r| && Lower(r[m]) == Lower(s))
      || (|r| == MaxBulletPoints && |s| <= |r[MaxBulletPoints - 1]|)
  {
    LongestDistinctComplete(BulletCandidates(text), s);
  }

  /** The selection step of `extractBulletPoints` on any list of candidates. */
  lemma LongestDistinctComplete(cands: seq<string>, s: string)
    requires s in cands
    ensures var r := Take(SortedByDescending(DistinctBy(cands, Lower), Length), MaxBulletPoints);
      (exists m :: 0 <= m < |r| && Lower(r[m]) == Lower(s))
      || (|r| == MaxBulletPoints && |s| <= |r[MaxBulletPoints - 1]|)
  {
    var d := DistinctBy(cands, Lower);
    var r := Take(SortedByDescending(d, Length), MaxBulletPoints);
    DistinctByMembers(cands, Lower);
    var i :| 0 <= i < |cands| && cands[i] == s;
    var m :| 0 <= m < |d| && Lower(d[m]) == Lower(cands[i]);
    assert |s| == |d[m]|;
    if d[m] in r {
      var j :| 0 <= j < |r| && r[j] == d[m];
      assert Lower(r[j]) == Lower(s);
    } else {
      TopByKeyComplete(d, Length, MaxBulletPoints, d[m]);
    }
  }

  /** Bullet points of equal length keep the order of their sentences in the text. */
  lemma ExtractBulletPointsTies(text: string, i: int, j: int)
    requires 0 <= i < j < |ExtractBulletPoints(text)|
    requires |ExtractBulletPoints(text)[i]| == |ExtractBulletPoints(text)[j]|
    ensures IsSubsequence([ExtractBulletPoints(text)[i], ExtractBulletPoints(text)[j]], BulletCandidates(text))
  {
    var cands := BulletCandidates(text);
    var d := DistinctBy(cands, Lower);
    var r := ExtractBulletPoints(text);
    TopByKeyStable(d, Length, MaxBulletPoints, i, j);
    DistinctByMembers(cands, Lower);
    SubsequenceTransitive([r[i], r[j]], d, cands);
  }

  /** Keys that are pairwise different stay so under a permutation. */
  lemma DistinctKeysPermuted(d: seq<string>, sorted: seq<string>, i: int, j: int)
    requires forall a, b :: 0 <= a < b < |d| ==> Lower(d[a]) != Lower(d[b])
    requires multiset(sorted) == multiset(d)
    requires 0 <= i < j < |sorted|
    ensures Lower(sorted[i]) != Lower(sorted[j])
  {
    assert NoDup(d) by {
      forall a, b | 0 <= a < b < |d| ensures d[a] != d[b] {
        assert Lower(d[a]) != Lower(d[b]);
      }
    }
    PermutationNoDup(d, sorted);
    assert sorted[i] in multiset(d) && sorted[j] in multiset(d);
    var a :| 0 <= a < |d| && d[a] == sorted[i];
    var b :| 0 <= b < |d| && d[b] == sorted[j];
    assert a != b;
  }

  lemma SentencesTrimmed(text: string)
    ensures forall s :: s in Sentences(text) && |s| > 0 ==> !IsWhitespace(s[0]) && !IsWhitespace(s[|s| - 1])
  {
    TrimEachTrimmed(SplitRuns(text, SentenceSeparators));
  }

  // ---------------------------------------------------------------------------
  // The list stages of performSearch, on what the fetches returned.

  /** `"https://${it.text().trim()}"` for the text of every result link. */
  function LinkCandidates(linkTexts: seq<string>): (links: seq<string>)
  {
    seq(|linkTexts|, i requires 0 <= i < |linkTexts| => "https://" + Trim(linkTexts[i]))
  }

  predicate IsWantedLink(link: string)
  {
    !ContainsUnwantedDomain(link)
  }

  /** The links whose pages are scraped: the first five wanted ones. */
  function ResultLinks(linkTexts: seq<string>): (links: seq<string>)
  {
    Take(Filter(LinkCandidates(linkTexts), IsWantedLink), MaxLinks)
  }

  /** Every candidate is `https://` followed by a trimmed result text. */
  lemma LinkCandidatesSpec(linkTexts: seq<string>)
    ensures forall c :: c in LinkCandidates(linkTexts) ==>
      StartsWith(c, "https://") && exists j :: 0 <= j < |linkTexts| && c == "https://" + Trim(linkTexts[j])
  {
    var cands := LinkCandidates(linkTexts);
    forall c | c in cands
      ensures StartsWith(c, "https://") && exists j :: 0 <= j < |linkTexts| && c == "https://" + Trim(linkTexts[j])
    {
      var j :| 0 <= j < |cands| && cands[j] == c;
      assert c == "https://" + Trim(linkTexts[j]);
      assert c[..8] == "https://";
    }
  }

  /** At most five links, each `https://` and a trimmed result text, none unwanted. */
  lemma ResultLinksSpec(linkTexts: seq<string>)
    ensures var r := ResultLinks(linkTexts);
      |r| <= MaxLinks
      && (forall i :: 0 <= i < |r| ==> StartsWith(r[i], "https://") && !ContainsUnwantedDomain(r[i]))
      && (forall i :: 0 <= i < |r| ==> exists j :: 0 <= j < |linkTexts| && r[i] == "https://" + Trim(linkTexts[j]))
  {
    TakeFilterMembers(LinkCandidates(linkTexts), IsWantedLink, MaxLinks);
    LinkCandidatesSpec(linkTexts);
  }

  /** Fewer than five links means no wanted link was dropped. */
  lemma ResultLinksComplete(linkTexts: seq<string>, j: int)
    requires 0 <= j < |linkTexts| && IsWantedLink("https://" + Trim(linkTexts[j]))
    requires |ResultLinks(linkTexts)| < MaxLinks
    ensures "https://" + Trim(linkTexts[j]) in ResultLinks(linkTexts)
  {
    var cands := LinkCandidates(linkTexts);
    assert cands[j] == "https://" + Trim(linkTexts[j]);
    TakeFilterComplete(cands, IsWantedLink, MaxLinks, cands[j]);
  }

  predicate IsImageUrl(url: string)
  {
    |url| > 0 && StartsWith(url, "http")
  }

  /** The scraped image URLs that are kept: the first three distinct ones that start with "http". */
  function KeptImages(scraped: seq<string>): (urls: seq<string>)
  {
    Take(Distinct(Filter(scraped, IsImageUrl)), MaxImages)
  }

  /** `ifEmpty { three placeholders }` over the kept image URLs. */
  function ImageUrls(scraped: seq<string>): (urls: seq<string>)
  {
    var kept := KeptImages(scraped);
    if kept == [] then [PlaceholderImage, PlaceholderImage, PlaceholderImage] else kept
  }

  /** The kept URLs are distinct scraped URLs starting with "http", at most three. */
  lemma KeptImagesSpec(scraped: seq<string>)
    ensures var kept := KeptImages(scraped);
      |kept| <= MaxImages && NoDup(kept)
      && forall k :: 0 <= k < |kept| ==> kept[k] in scraped && IsImageUrl(kept[k])
  {
    var f := Filter(scraped, IsImageUrl);
    var kept := KeptImages(scraped);
    FilterMembers(scraped, IsImageUrl);
    PrefixNoDup(kept, Distinct(f));
    forall k | 0 <= k < |kept| ensures kept[k] in scraped && IsImageUrl(kept[k]) {
      assert kept[k] in Distinct(f);
      assert kept[k] in f;
    }
  }

  /** When some scraped URL qualifies, the images are one to three distinct
      scraped URLs starting with "http". */
  lemma ImageUrlsScraped(scraped: seq<string>, i: int)
    requires 0 <= i < |scraped| && IsImageUrl(scraped[i])
    ensures var r := ImageUrls(scraped);
      1 <= |r| <= MaxImages && NoDup(r)
      && forall k :: 0 <= k < |r| ==> r[k] in scraped && IsImageUrl(r[k])
  {
    var f := Filter(scraped, IsImageUrl);
    FilterMembers(scraped, IsImageUrl);
    assert scraped[i] in f;
    assert |Distinct(f)| > 0;
    KeptImagesSpec(scraped);
  }

  /** The three placeholders are shown exactly when no scraped URL qualifies. */
  lemma ImageUrlsPlaceholders(scraped: seq<string>)
    ensures ImageUrls(scraped) == [PlaceholderImage, PlaceholderImage, PlaceholderImage]
      <==> forall i :: 0 <= i < |scraped| ==> !IsImageUrl(scraped[i])
  {
    var f := Filter(scraped, IsImageUrl);
    FilterMembers(scraped, IsImageUrl);
    KeptImagesSpec(scraped);
    if forall i :: 0 <= i < |scraped| ==> !IsImageUrl(scraped[i]) {
      assert |f| == 0;
    } else {
      var i :| 0 <= i < |scraped| && IsImageUrl(scraped[i]);
      ImageUrlsScraped(scraped, i);
      var r := ImageUrls(scraped);
      assert |r| >= 2 ==> r[0] != r[1];
    }
  }

  /** Fewer than three scraped images means no qualifying URL was dropped. */
  lemma ImageUrlsComplete(scraped: seq<string>, i: int)
    requires 0 <= i < |scraped| && IsImageUrl(scraped[i])
    requires |ImageUrls(scraped)| < MaxImages
    ensures scraped[i] in ImageUrls(scraped)
  {
    var f := Filter(scraped, IsImageUrl);
    FilterMembers(scraped, IsImageUrl);
    var j :| 0 <= j < |f| && f[j] == scraped[i];
    assert f[j] in Distinct(f);
  }

  predicate IsKeptParagraph(p: string, query: string)
  {
    50 <= |p| <= 500 && IsRelevantToQuery(p, query)
  }

  function KeptFor(query: string): string -> bool
  {
    (p: string) => IsKeptParagraph(p, query)
  }

  /** The paragraphs kept from one page: the first two trimmed texts of 50 to 500
      characters that are relevant to the query. */
  function Paragraphs(texts: seq<string>, query: string): (ps: seq<string>)
  {
    Take(Filter(TrimEach(texts), KeptFor(query)), MaxParagraphs)
  }

  /** At most two paragraphs per page, each a trimmed text of the page with 50 to 500
      characters and relevant to the query. */
  lemma ParagraphsSpec(texts: seq<string>, query: string)
    ensures var r := Paragraphs(texts, query);
      |r| <= MaxParagraphs
      && (forall k :: 0 <= k < |r| ==> 50 <= |r[k]| <= 500 && IsRelevantToQuery(r[k], query))
      && (forall k :: 0 <= k < |r| ==> exists j :: 0 <= j < |texts| && r[k] == Trim(texts[j]))
  {
    var trimmed := TrimEach(texts);
    var r := Paragraphs(texts, query);
    TakeFilterMembers(trimmed, KeptFor(query), MaxParagraphs);
    forall k | 0 <= k < |r|
      ensures 50 <= |r[k]| <= 500 && IsRelevantToQuery(r[k], query)
      ensures exists j :: 0 <= j < |texts| && r[k] == Trim(texts[j])
    {
      assert KeptFor(query)(r[k]);
      var j :| 0 <= j < |trimmed| && trimmed[j] == r[k];
    }
  }

  /** Fewer than two paragraphs means no kept text of the page was dropped. */
  lemma ParagraphsComplete(texts: seq<string>, query: string, j: int)
    requires 0 <= j < |texts| && IsKeptParagraph(Trim(texts[j]), query)
    requires |Paragraphs(texts, query)| < MaxParagraphs
    ensures Trim(texts[j]) in Paragraphs(texts, query)
  {
    var trimmed := TrimEach(texts);
    assert trimmed[j] == Trim(texts[j]);
    TakeFilterComplete(trimmed, KeptFor(query), MaxParagraphs, trimmed[j]);
  }

  /** What one scraped page contributes: its paragraphs and the host it came from. */
  datatype PageContent = PageContent(paragraphs: seq<string>, host: string)

  /** A page that failed to load or kept no paragraph contributes nothing. */
  function PageResult(fetched: Option<seq<string>>, link: string, query: string, host: string -> string): (r: Option<PageContent>)
  {
    match fetched
    case None => None
    case Some(texts) =>
      var ps := Paragraphs(texts, query);
      if |ps| > 0 then Some(PageContent(ps, host(link))) else None
  }

  /** Kotlin `joinToString(" ")`. */
  function JoinWithSpace(ss: seq<string>): (s: string)
    decreases |ss|
  {
    if |ss| == 0 then "" else if |ss| == 1 then ss[0] else ss[0] + " " + JoinWithSpace(ss[1..])
  }

  /** The report's inputs: the hosts of the pages that contributed, all their
      paragraphs, and the keywords and bullet points of those paragraphs joined. */
  datatype Analysis = Analysis(sources: seq<string>, content: seq<string>, keywords: seq<string>, bulletPoints: seq<string>)

  /** `filterNotNull()` of the page results. */
  function Contributing(results: seq<Option<PageContent>>): (pages: seq<PageContent>)
    ensures |pages| <= |results|
    decreases |results|
  {
    if |results| == 0 then []
    else (if results[0].Some? then [results[0].value] else []) + Contributing(results[1..])
  }

  function AllParagraphs(pages: seq<PageContent>): (content: seq<string>)
    decreases |pages|
  {
    if |pages| == 0 then [] else pages[0].paragraphs + AllParagraphs(pages[1..])
  }

  /** `map { it.second }`: the host of every contributing page, in order. */
  function Hosts(pages: seq<PageContent>): (hosts: seq<string>)
    ensures |hosts| == |pages|
    ensures forall i :: 0 <= i < |pages| ==> hosts[i] == pages[i].host
  {
    seq(|pages|, i requires 0 <= i < |pages| => pages[i].host)
  }

  function Analyze(results: seq<Option<PageContent>>): (a: Analysis)
  {
    var pages := Contributing(results);
    var content := AllParagraphs(pages);
    var joined := JoinWithSpace(content);
    Analysis(Hosts(pages), content,
             ExtractKeywords(joined), ExtractBulletPoints(joined))
  }

  /** `links.map { ... }.awaitAll()`: one page result per link, in link order. */
  function PageResults(links: seq<string>, query: string,
                       fetch: string -> Option<seq<string>>, host: string -> string): (results: seq<Option<PageContent>>)
    ensures |results| == |links|
    ensures forall i :: 0 <= i < |links| ==> results[i] == PageResult(fetch(links[i]), links[i], query, host)
  {
    seq(|links|, i requires 0 <= i < |links| => PageResult(fetch(links[i]), links[i], query, host))
  }

  /** The pure part of `performSearch`: the scraped images and the analysis of the
      pages behind the result links. `fetch` stands for loading one page (None when
      that throws) and `host` for `URI(link).host`. */
  function SummarizedSearch(query: string, linkTexts: seq<string>, scrapedImages: seq<string>,
                            fetch: string -> Option<seq<string>>, host: string -> string): (r: (seq<string>, Analysis))
  {
    (ImageUrls(scrapedImages), Analyze(PageResults(ResultLinks(linkTexts), query, fetch, host)))
  }

  /** Every page result carries one or two relevant paragraphs of the right length. */
  lemma PageResultSpec(fetched: Option<seq<string>>, link: string, query: string, host: string -> string)
    ensures var r := PageResult(fetched, link, query, host);
      r.Some? <==> fetched.Some? && Paragraphs(fetched.value, query) != []
    ensures var r := PageResult(fetched, link, query, host);
      r.Some? ==> (r.value == PageContent(Paragraphs(fetched.value, query), host(link))
        && 1 <= |r.value.paragraphs| && PageKept(r.value, query))
  {
    if fetched.Some? {
      ParagraphsSpec(fetched.value, query);
    }
  }

  /** A page result keeps at most two paragraphs, each one kept for the query. */
  predicate PageKept(page: PageContent, query: string)
  {
    |page.paragraphs| <= MaxParagraphs
    && forall k :: 0 <= k < |page.paragraphs| ==> IsKeptParagraph(page.paragraphs[k], query)
  }

  lemma {:induction false} AllParagraphsBound(pages: seq<PageContent>, query: string)
    requires forall i :: 0 <= i < |pages| ==> PageKept(pages[i], query)
    ensures |AllParagraphs(pages)| <= MaxParagraphs * |pages|
    ensures forall k :: 0 <= k < |AllParagraphs(pages)| ==> IsKeptParagraph(AllParagraphs(pages)[k], query)
    decreases |pages|
  {
    if |pages| > 0 {
      assert forall i :: 0 <= i < |pages| - 1 ==> pages[1..][i] == pages[i + 1];
      AllParagraphsBound(pages[1..], query);
      var rest := AllParagraphs(pages[1..]);
      assert PageKept(pages[0], query);
      forall k | 0 <= k < |AllParagraphs(pages)| ensures IsKeptParagraph(AllParagraphs(pages)[k], query) {
        if k >= |pages[0].paragraphs| {
          assert AllParagraphs(pages)[k] == rest[k - |pages[0].paragraphs|];
        } else {
          assert AllParagraphs(pages)[k] == pages[0].paragraphs[k];
        }
      }
    }
  }

  lemma {:induction false} ContributingPages(results: seq<Option<PageContent>>, query: string)
    requires forall i :: 0 <= i < |results| && results[i].Some? ==> PageKept(results[i].value, query)
    ensures forall i :: 0 <= i < |Contributing(results)| ==> PageKept(Contributing(results)[i], query)
    decreases |results|
  {
    if |results| > 0 {
      assert forall i :: 0 <= i < |results| - 1 ==> results[1..][i] == results[i + 1];
      ContributingPages(results[1..], query);
      var rest := Contributing(results[1..]);
      var head := if results[0].Some? then [results[0].value] else [];
      assert Contributing(results) == head + rest;
      forall i | 0 <= i < |Contributing(results)| ensures PageKept(Contributing(results)[i], query) {
        if i >= |head| {
          assert Contributing(results)[i] == rest[i - |head|];
        }
      }
    }
  }

  /** The summarized search shows one to three images, cites at most five sources,
      and quotes at most ten paragraphs, each of 50 to 500 characters and relevant
      to the query, with at most eight keywords and five bullet points. */
  lemma SummarizedSearchBounds(query: string, linkTexts: seq<string>, scrapedImages: seq<string>,
                               fetch: string -> Option<seq<string>>, host: string -> string)
    ensures var (images, a) := SummarizedSearch(query, linkTexts, scrapedImages, fetch, host);
      1 <= |images| <= MaxImages
      && |a.sources| <= MaxLinks
      && |a.content| <= MaxLinks * MaxParagraphs
      && (forall k :: 0 <= k < |a.content| ==> IsKeptParagraph(a.content[k], query))
      && |a.keywords| <= MaxKeywords && |a.bulletPoints| <= MaxBulletPoints
  {
    var links := ResultLinks(linkTexts);
    var results := PageResults(links, query, fetch, host);
    var pages := Contributing(results);
    var joined := JoinWithSpace(AllParagraphs(pages));
    KeptImagesSpec(scrapedImages);
    forall i | 0 <= i < |results| && results[i].Some?
      ensures PageKept(results[i].value, query)
    {
      PageResultSpec(fetch(links[i]), links[i], query, host);
    }
    ContributingPages(results, query);
    AllParagraphsBound(pages, query);
    ExtractKeywordsBounded(joined);
    ExtractBulletPointsBounded(joined);
  }

  /** Every page that contributes is the result of one of the page results, in order. */
  lemma {:induction false} ContributingMembers(results: seq<Option<PageContent>>)
    ensures forall k :: 0 <= k < |Contributing(results)| ==> Some(Contributing(results)[k]) in results
    decreases |results|
  {
    if |results| > 0 {
      ContributingMembers(results[1..]);
      var rest := Contributing(results[1..]);
      var head := if results[0].Some? then [results[0].value] else [];
      assert Contributing(results) == head + rest;
      forall k | 0 <= k < |Contributing(results)| ensures Some(Contributing(results)[k]) in results {
        if k >= |head| {
          assert Contributing(results)[k] == rest[k - |head|];
          assert Some(rest[k - |head|]) in results[1..];
        }
      }
    }
  }

  /** Every paragraph of the content comes from one of the pages. */
  lemma {:induction false} AllParagraphsMembers(pages: seq<PageContent>)
    ensures forall k :: 0 <= k < |AllParagraphs(pages)| ==>
      (exists i :: 0 <= i < |pages| && AllParagraphs(pages)[k] in pages[i].paragraphs)
    decreases |pages|
  {
    if |pages| > 0 {
      AllParagraphsMembers(pages[1..]);
      var rest := AllParagraphs(pages[1..]);
      var n := |pages[0].paragraphs|;
      assert AllParagraphs(pages) == pages[0].paragraphs + rest;
      forall k | 0 <= k < |AllParagraphs(pages)|
        ensures exists i :: 0 <= i < |pages| && AllParagraphs(pages)[k] in pages[i].paragraphs
      {
        if k < n {
          assert AllParagraphs(pages)[k] in pages[0].paragraphs;
        } else {
          assert AllParagraphs(pages)[k] == rest[k - n];
          var i :| 0 <= i < |pages[1..]| && rest[k - n] in pages[1..][i].paragraphs;
          assert pages[1..][i] == pages[i + 1];
          assert 0 <= i + 1 < |pages| && AllParagraphs(pages)[k] in pages[i + 1].paragraphs;
        }
      }
    } else {
      assert AllParagraphs(pages) == [];
    }
  }

  /** The page that `PageResult` builds for one of the result links, when it keeps a paragraph. */
  predicate FromLink(p: PageContent, links: seq<string>, query: string,
                     fetch: string -> Option<seq<string>>, host: string -> string)
  {
    exists i :: 0 <= i < |links| && fetch(links[i]).Some? && Paragraphs(fetch(links[i]).value, query) != []
      && p == PageContent(Paragraphs(fetch(links[i]).value, query), host(links[i]))
  }

  /** Every page that survives `filterNotNull` is the page of one of the links. */
  lemma ContributingFromLinks(links: seq<string>, query: string,
                              fetch: string -> Option<seq<string>>, host: string -> string)
    ensures forall k :: 0 <= k < |Contributing(PageResults(links, query, fetch, host))| ==>
      FromLink(Contributing(PageResults(links, query, fetch, host))[k], links, query, fetch, host)
  {
    var results := PageResults(links, query, fetch, host);
    ContributingMembers(results);
    forall k | 0 <= k < |Contributing(results)|
      ensures FromLink(Contributing(results)[k], links, query, fetch, host)
    {
      var i :| 0 <= i < |results| && results[i] == Some(Contributing(results)[k]);
      PageResultSpec(fetch(links[i]), links[i], query, host);
    }
  }

  /** Every paragraph in `content` was kept from the page of one of the links. */
  predicate QuotedFromLinks(content: seq<string>, links: seq<string>, query: string,
                            fetch: string -> Option<seq<string>>)
  {
    forall k :: 0 <= k < |content| ==>
      (exists i :: 0 <= i < |links| && fetch(links[i]).Some?
         && content[k] in Paragraphs(fetch(links[i]).value, query))
  }

  /** Every source is the host of one of the links whose page kept a paragraph. */
  predicate SourcedFromLinks(sources: seq<string>, links: seq<string>, query: string,
                             fetch: string -> Option<seq<string>>, host: string -> string)
  {
    forall k :: 0 <= k < |sources| ==>
      (exists i :: 0 <= i < |links| && sources[k] == host(links[i])
         && fetch(links[i]).Some? && Paragraphs(fetch(links[i]).value, query) != [])
  }

  /** The contributing pages of some links quote only those pages and name only
      their hosts, at most one per link. */
  lemma PagesProvenance(links: seq<string>, query: string,
                        fetch: string -> Option<seq<string>>, host: string -> string)
    ensures var pages := Contributing(PageResults(links, query, fetch, host));
      QuotedFromLinks(AllParagraphs(pages), links, query, fetch) && |Hosts(pages)| <= |links|
      && SourcedFromLinks(Hosts(pages), links, query, fetch, host)
  {
    var pages := Contributing(PageResults(links, query, fetch, host));
    var content := AllParagraphs(pages);
    var sources := Hosts(pages);
    ContributingFromLinks(links, query, fetch, host);
    AllParagraphsMembers(pages);
    forall k | 0 <= k < |content|
      ensures exists i :: (0 <= i < |links| && fetch(links[i]).Some?
        && content[k] in Paragraphs(fetch(links[i]).value, query))
    {
      var m :| 0 <= m < |pages| && content[k] in pages[m].paragraphs;
      assert FromLink(pages[m], links, query, fetch, host);
    }
    forall k | 0 <= k < |sources|
      ensures exists i :: (0 <= i < |links| && sources[k] == host(links[i])
        && fetch(links[i]).Some? && Paragraphs(fetch(links[i]).value, query) != [])
    {
      assert k < |pages| && sources[k] == pages[k].host;
      assert FromLink(pages[k], links, query, fetch, host);
    }
  }

  /** Where the summary comes from: every quoted paragraph was kept from the page of a
      result link, and every source is the host of a result link whose page kept a
      paragraph, at most one per link. */
  lemma SummarizedSearchProvenance(query: string, linkTexts: seq<string>, scrapedImages: seq<string>,
                                   fetch: string -> Option<seq<string>>, host: string -> string)
    ensures var links := ResultLinks(linkTexts);
      var a := SummarizedSearch(query, linkTexts, scrapedImages, fetch, host).1;
      QuotedFromLinks(a.content, links, query, fetch) && |a.sources| <= |links|
      && SourcedFromLinks(a.sources, links, query, fetch, host)
  {
    PagesProvenance(ResultLinks(linkTexts), query, fetch, host);
  }
}
