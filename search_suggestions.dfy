/**
 * The suggestion list shown under the search field while the user types.
 */
module Suggestions {
  import opened Text
  import opened Lists

  /** What is appended to the query for the second, third and fourth suggestion. */
  const SuggestionSuffixes: seq<string> := [" Technische Daten", " Laptops kaufen", " Reviews"]

  /** A blank query suggests nothing; any other query suggests itself and three completions. */
  function Suggestions(query: string): (r: seq<string>)
    ensures IsBlank(query) <==> r == []
    ensures !IsBlank(query) ==> |r| == 1 + |SuggestionSuffixes| && r[0] == query
    ensures !IsBlank(query) ==> forall i :: 0 <= i < |SuggestionSuffixes| ==> r[i + 1] == query + SuggestionSuffixes[i]
  {
    if IsBlank(query) then []
    else [query] + seq(|SuggestionSuffixes|, i requires 0 <= i < |SuggestionSuffixes| => query + SuggestionSuffixes[i])
  }

  /** Every suggestion starts with the query, and no suggestion is listed twice. */
  lemma SuggestionsExtendQuery(query: string)
    ensures forall i :: 0 <= i < |Suggestions(query)| ==> StartsWith(Suggestions(query)[i], query)
    ensures NoDup(Suggestions(query))
  {
    var r := Suggestions(query);
    if !IsBlank(query) {
      forall i | 0 <= i < |r| ensures StartsWith(r[i], query) {
        if i > 0 {
          assert r[i] == query + SuggestionSuffixes[i - 1];
          assert r[i][..|query|] == query;
        }
      }
      assert |r[0]| == |query|;
      assert |r[1]| == |query| + 17;
      assert |r[2]| == |query| + 15;
      assert |r[3]| == |query| + 8;
    }
  }
}
