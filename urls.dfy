/** MainWindow.NormalizeUrl: the check that a configured tab URL looks like
    a web address, and the https:// completion of a bare host name.  The
    Uri.TryCreate / Uri.ToString canonicalisation of a URL that already has
    a scheme is a parameter (`canon`). */
module Urls {
  import opened Wrappers
  import opened Text

  /** Contains a dot and no space character (U+0020 only). */
  predicate IsLikelyUrl(t: string) {
    ContainsChar(t, '.') && !ContainsChar(t, ' ')
  }

  /** Starts with http:// or https://, ignoring case. */
  predicate HasHttpScheme(t: string) {
    StartsWithIgnoreCase(t, "http://") || StartsWithIgnoreCase(t, "https://")
  }

  /** The URL a tab navigates to, or None when the text is not accepted.
      `canon(t)` is Some(Uri.ToString()) when Uri.TryCreate(t, Absolute)
      succeeds and None when it fails. */
  function NormalizeUrl(raw: string, canon: string -> Option<string>): (r: Option<string>)
    ensures IsBlank(raw) ==> r == None
    ensures !IsLikelyUrl(Trim(raw)) ==> r == None
    ensures IsLikelyUrl(Trim(raw)) && !HasHttpScheme(Trim(raw)) ==> r == Some("https://" + Trim(raw))
    ensures IsLikelyUrl(Trim(raw)) && HasHttpScheme(Trim(raw)) ==> r == canon(Trim(raw))
  {
    var t := Trim(raw);
    TrimEmptyIffBlank(raw);
    if t == [] then None
    else if IsLikelyUrl(t) then
      if !HasHttpScheme(t) then Some("https://" + t)
      else canon(t)
    else None
  }

  /** A string with no white space at either end is its own trim. */
  lemma TrimKeeps(s: string)
    requires s != [] && !IsWhiteSpace(s[0]) && !IsWhiteSpace(s[|s| - 1])
    ensures Trim(s) == s
  {
    assert TrimStart(s) == s;
  }

  /** A first letter that differs, ignoring case, rules out the prefix. */
  lemma FirstLetterRulesOut(s: string, prefix: string)
    requires s != [] && prefix != [] && !CharEqualsIgnoreCase(s[0], prefix[0])
    ensures !StartsWithIgnoreCase(s, prefix)
  {
    if |prefix| <= |s| {
      assert s[..|prefix|][0] == s[0];
    }
  }

  /** Trimmed text that looks like a host name without a scheme is
      completed with https:// and nothing else. */
  lemma CompletesBareHost(s: string, canon: string -> Option<string>)
    requires Trim(s) == s && IsLikelyUrl(s) && !HasHttpScheme(s)
    ensures NormalizeUrl(s, canon) == Some("https://" + s)
  {
  }

  /** Trimmed text with an http or https scheme is left to the Uri class. */
  lemma DelegatesToUri(s: string, canon: string -> Option<string>)
    requires Trim(s) == s && IsLikelyUrl(s) && HasHttpScheme(s)
    ensures NormalizeUrl(s, canon) == canon(s)
  {
  }

  lemma ExampleComTrimmed() ensures Trim("example.com") == "example.com" {
    TrimKeeps("example.com");
  }

  lemma ExampleComLikely() ensures IsLikelyUrl("example.com") {
    var s := "example.com";
    assert s[7] == '.';
    assert forall i :: 0 <= i < |s| ==> s[i] != ' ';
  }

  lemma ExampleComNoScheme() ensures !HasHttpScheme("example.com") {
    FirstLetterRulesOut("example.com", "http://");
    FirstLetterRulesOut("example.com", "https://");
  }

  /** A bare host name gets the https scheme and nothing else: no trailing
      slash is added, whatever the Uri class would do. */
  lemma BareHostGetsHttps(canon: string -> Option<string>)
    ensures NormalizeUrl("example.com", canon) == Some("https://example.com")
  {
    ExampleComTrimmed();
    ExampleComLikely();
    ExampleComNoScheme();
    CompletesBareHost("example.com", canon);
    assert "https://" + "example.com" == "https://example.com";
  }

  lemma InnerTabTrimmed() ensures Trim("a.b\tc") == "a.b\tc" {
    TrimKeeps("a.b\tc");
  }

  lemma InnerTabLikely() ensures IsLikelyUrl("a.b\tc") {
    var s := "a.b\tc";
    assert s[1] == '.';
    assert forall i :: 0 <= i < |s| ==> s[i] != ' ';
  }

  lemma InnerTabNoScheme() ensures !HasHttpScheme("a.b\tc") {
    FirstLetterRulesOut("a.b\tc", "http://");
    FirstLetterRulesOut("a.b\tc", "https://");
  }

  /** Only the space character counts as a space: a tab inside the text
      is accepted and kept. */
  lemma InnerTabIsKept(canon: string -> Option<string>)
    ensures NormalizeUrl("a.b\tc", canon) == Some("https://a.b\tc")
  {
    InnerTabTrimmed();
    InnerTabLikely();
    InnerTabNoScheme();
    CompletesBareHost("a.b\tc", canon);
    assert "https://" + "a.b\tc" == "https://a.b\tc";
  }

  lemma UpperSchemeTrimmed() ensures Trim("HTTPS://x.com") == "HTTPS://x.com" {
    TrimKeeps("HTTPS://x.com");
  }

  lemma UpperSchemeLikely() ensures IsLikelyUrl("HTTPS://x.com") {
    var s := "HTTPS://x.com";
    assert s[9] == '.';
    assert forall i :: 0 <= i < |s| ==> s[i] != ' ';
  }

  lemma UpperSchemeHasScheme() ensures HasHttpScheme("HTTPS://x.com") {
    var s := "HTTPS://x.com";
    assert EqualsIgnoreCase(s[..8], "https://");
  }

  /** A URL with an http or https scheme is whatever the Uri class makes of
      it, in any letter case of the scheme. */
  lemma SchemeGoesToUri(canon: string -> Option<string>)
    ensures NormalizeUrl("HTTPS://x.com", canon) == canon("HTTPS://x.com")
  {
    UpperSchemeTrimmed();
    UpperSchemeLikely();
    UpperSchemeHasScheme();
    DelegatesToUri("HTTPS://x.com", canon);
  }

  /** Prefixing https:// to trimmed text that looks like a host name gives
      trimmed text that looks like a URL with a scheme. */
  lemma CompletedHostFacts(t: string)
    requires t != [] && !IsWhiteSpace(t[|t| - 1]) && IsLikelyUrl(t)
    ensures Trim("https://" + t) == "https://" + t
    ensures IsLikelyUrl("https://" + t) && HasHttpScheme("https://" + t)
  {
    var u := "https://" + t;
    assert u[|u| - 1] == t[|t| - 1];
    TrimKeeps(u);
    var k :| 0 <= k < |t| && t[k] == '.';
    assert u[8 + k] == '.';
    forall i | 0 <= i < |u| ensures u[i] != ' ' {
      if i >= 8 { assert u[i] == t[i - 8]; }
    }
    assert u[..8] == "https://";
    assert EqualsIgnoreCase(u[..8], "https://");
  }

  /** The completed form of a bare host is accepted again, this time as a
      URL with a scheme: normalising it a second time (as the main window
      does with the URL stored in a tab item) hands it to the Uri class. */
  lemma RenormalizeUsesUri(raw: string, canon: string -> Option<string>)
    requires IsLikelyUrl(Trim(raw)) && !HasHttpScheme(Trim(raw))
    ensures NormalizeUrl(raw, canon) == Some("https://" + Trim(raw))
    ensures NormalizeUrl("https://" + Trim(raw), canon) == canon("https://" + Trim(raw))
  {
    var t := Trim(raw);
    TrimIsSlice(raw);
    assert t != [];
    CompletedHostFacts(t);
    DelegatesToUri("https://" + t, canon);
  }
}
