/**
 * How `MainActivity.loadUrl` turns what the user typed into a navigation:
 * nothing, a summarized `csnet:` search, or a URL for the WebView.
 * `android.net.Uri.encode` is not part of this model and is passed in as `encode`.
 */
module Navigation {
  import opened Text

  const GoogleSearchPrefix: string := "https://www.google.com/search?q="

  datatype Action =
    | Ignore                       // blank input: nothing is loaded
    | CustomSearch(query: string)  // summarized search for `query`
    | Load(url: string)            // the WebView loads `url`

  predicate IsCsNetInput(input: string)
  {
    StartsWith(input, "csnet:") || StartsWith(input, "csnet/")
  }

  predicate HasScheme(input: string)
  {
    StartsWith(input, "http://") || StartsWith(input, "https://")
  }

  /** `input.substringAfter(":").substringAfter("/").trim()`. */
  function CsNetQuery(input: string): (q: string)
    ensures |q| > 0 ==> !IsWhitespace(q[0]) && !IsWhitespace(q[|q| - 1])
  {
    var q := Trim(SubstringAfter(SubstringAfter(input, ':'), '/'));
    TrimSpec(SubstringAfter(SubstringAfter(input, ':'), '/'));
    q
  }

  /** `csnet/q` searches for `q` when `q` has no colon (no colon, so the first
      `substringAfter` keeps the whole input). */
  lemma {:induction false} SlashQuery(q: string)
    requires forall i :: 0 <= i < |q| ==> q[i] != ':'
    ensures CsNetQuery("csnet/" + q) == Trim(q)
  {
    var input := "csnet/" + q;
    forall i | 0 <= i < |input| ensures input[i] != ':' {
      if i >= 6 { assert input[i] == q[i - 6]; }
    }
    SubstringAfterMissing(input, ':');
    SubstringAfterFirst("csnet", '/', q);
    assert input == "csnet" + ['/'] + q;
  }

  /** `csnet:q` searches for `q` when `q` has no slash. */
  lemma {:induction false} ColonQuery(q: string)
    requires forall i :: 0 <= i < |q| ==> q[i] != '/'
    ensures CsNetQuery("csnet:" + q) == Trim(q)
  {
    assert "csnet:" + q == "csnet" + [':'] + q;
    SubstringAfterFirst("csnet", ':', q);
    SubstringAfterMissing(q, '/');
  }

  /** `csnet:a/b` searches only for `b`: everything up to the first slash after the
      colon is dropped. */
  lemma {:induction false} ColonQueryDropsBeforeSlash(a: string, b: string)
    requires forall i :: 0 <= i < |a| ==> a[i] != '/'
    ensures CsNetQuery("csnet:" + (a + "/" + b)) == Trim(b)
  {
    var q := a + "/" + b;
    assert "csnet:" + q == "csnet" + [':'] + q;
    SubstringAfterFirst("csnet", ':', q);
    assert q == a + ['/'] + b;
    SubstringAfterFirst(a, '/', b);
  }

  /** The `when` that picks the URL for input that is not a csnet search. */
  function ResolveUrl(input: string, encode: string -> string): (url: string)
    ensures HasScheme(input) ==> url == input
    ensures !HasScheme(input) && Contains(input, ".") ==> url == "https://" + input
    ensures !HasScheme(input) && !Contains(input, ".") ==> url == GoogleSearchPrefix + encode(input)
    ensures HasScheme(url)
  {
    if HasScheme(input) then input
    else if Contains(input, ".") then
      assert ("https://" + input)[..8] == "https://";
      "https://" + input
    else
      assert (GoogleSearchPrefix + encode(input))[..8] == "https://";
      GoogleSearchPrefix + encode(input)
  }

  /** The decision `loadUrl` makes, in the order it tests: blank, csnet prefix, URL. */
  function Classify(input: string, encode: string -> string): (a: Action)
    ensures a.Ignore? <==> IsBlank(input)
    ensures a.CustomSearch? <==> IsCsNetInput(input)
    ensures a.CustomSearch? ==> a.query == CsNetQuery(input)
    ensures a.Load? ==> !IsBlank(input) && !IsCsNetInput(input) && a.url == ResolveUrl(input, encode)
  {
    CsNetInputNotBlank(input);
    if IsBlank(input) then Ignore
    else if IsCsNetInput(input) then CustomSearch(CsNetQuery(input))
    else Load(ResolveUrl(input, encode))
  }

  /** A csnet prefix is never blank, so it always reaches the custom search. */
  lemma CsNetInputNotBlank(input: string)
    ensures IsCsNetInput(input) ==> !IsBlank(input)
  {
    if IsCsNetInput(input) {
      assert input[0] == 'c';
    }
  }

  /** Input that starts with a scheme is loaded exactly as typed. */
  lemma SchemeInputLoadsAsTyped(input: string, encode: string -> string)
    requires HasScheme(input)
    ensures Classify(input, encode) == Load(input)
  {
    assert |input| >= 7 && input[0] == 'h' by {
      if StartsWith(input, "http://") {
        assert input[..7][0] == 'h';
      } else {
        assert input[..8][0] == 'h';
      }
    }
    assert !IsBlank(input) by { assert !IsWhitespace(input[0]); }
    assert input[..6] != "csnet:" && input[..6] != "csnet/" by { assert input[..6][0] == 'h'; }
  }

  /** The scheme test comes before the dot test: `https://` is only ever put in
      front of input that has no scheme, so a loaded URL that starts with
      `https://http://` or `https://https://` was typed that way. */
  lemma {:induction false} NoDoubleScheme(input: string, encode: string -> string)
    requires Classify(input, encode).Load?
    ensures var url := Classify(input, encode).url;
      (url == "https://" + input ==> !HasScheme(input))
      && (StartsWith(url, "https://http://") || StartsWith(url, "https://https://") ==> url == input)
  {
    var url := Classify(input, encode).url;
    if !HasScheme(input) {
      if Contains(input, ".") {
        StartsWithCancel("https://", input, "http://");
        StartsWithCancel("https://", input, "https://");
      } else {
        assert url[8] == 'w';
      }
    }
  }

  /** `MainActivity`'s `isCustomSearch` flag and its `loadUrl`. */
  class MainActivity {
    var isCustomSearch: bool

    constructor ()
      ensures !isCustomSearch
    {
      isCustomSearch := false;
    }

    /** Blank input changes nothing; otherwise the flag records whether the input
        was a csnet search. */
    method LoadUrl(input: string, encode: string -> string) returns (a: Action)
      modifies this
      ensures a == Classify(input, encode)
      ensures a.Ignore? ==> isCustomSearch == old(isCustomSearch)
      ensures !a.Ignore? ==> isCustomSearch == a.CustomSearch?
    {
      if IsBlank(input) {
        return Ignore;
      }
      if IsCsNetInput(input) {
        isCustomSearch := true;
        a := CustomSearch(CsNetQuery(input));
      } else {
        isCustomSearch := false;
        a := Load(ResolveUrl(input, encode));
      }
    }
  }
}
