/** FaviconService: the icon cache path and the fallback chain that fetches
    a site's icon (cache, page DOM, /favicon.ico, Google's s2 service).
    HTTP, the DOM lookup, Uri parsing, file state and image decoding are
    oracles passed in as parameters. */
module Favicon {
  import opened Wrappers
  import opened Text
  import opened Paths

  type Bytes = seq<bv8>

  /** IconsDir: the icons folder under the configuration directory. */
  function IconsDir(configDir: string): string {
    Combine(configDir, "icons")
  }

  /** GetIconPath: `{tabId}.png` in IconsDir. */
  function GetIconPath(configDir: string, tabId: string): string {
    Combine(IconsDir(configDir), tabId + ".png")
  }

  /** A tab id that starts with neither a separator nor a drive prefix,
      such as the hex GUIDs the application generates. */
  predicate PlainName(t: string) {
    t != [] && !IsDirectorySeparator(t[0]) && (|t| < 2 || t[1] != ':')
  }

  lemma PlainNameNotRooted(t: string)
    requires PlainName(t)
    ensures t + ".png" != [] && !IsPathRooted(t + ".png")
    ensures !IsDirectorySeparator((t + ".png")[0])
  {
    var name := t + ".png";
    assert name[0] == t[0];
    if |t| >= 2 { assert name[1] == t[1]; } else { assert name[1] == '.'; }
  }

  /** The cache file of a plain tab id lies directly in IconsDir and is
      named after the id. */
  lemma IconPathShape(configDir: string, tabId: string)
    requires PlainName(tabId)
    ensures exists mid :: GetIconPath(configDir, tabId) == IconsDir(configDir) + mid + (tabId + ".png")
                          && (mid == "" || mid == "\\")
  {
    PlainNameNotRooted(tabId);
    CombineRelative(IconsDir(configDir), tabId + ".png");
  }

  /** Distinct tab ids get distinct cache files. */
  lemma IconPathsDistinct(configDir: string, a: string, b: string)
    requires PlainName(a) && PlainName(b)
    requires GetIconPath(configDir, a) == GetIconPath(configDir, b)
    ensures a == b
  {
    PlainNameNotRooted(a);
    PlainNameNotRooted(b);
    CombineInjective(IconsDir(configDir), a + ".png", b + ".png");
    assert a == (a + ".png")[..|a|];
    assert b == (b + ".png")[..|b|];
  }

  /** The outcome of `_http.GetAsync(url)` and the body read. */
  datatype Response = Ok(body: Bytes) | NotSuccess | Throws

  /** DownloadBytesAsync: null for a blank URL, a non-success status or any
      exception (including the three-second timeout); the body otherwise. */
  function DownloadBytes(url: Option<string>, http: string -> Response): (r: Option<Bytes>)
    ensures IsNullOrWhiteSpace(url) ==> r == None
    ensures !IsNullOrWhiteSpace(url) ==> (r.Some? <==> http(url.value).Ok?)
    ensures r.Some? ==> r == Some(http(url.value).body)
  {
    if IsNullOrWhiteSpace(url) then None
    else match http(url.value)
      case Ok(body) => Some(body)
      case _ => None
  }

  /** Bytes too few to be an icon: the fallback continues. */
  predicate Short(b: Option<Bytes>) {
    b.None? || |b.value| < 10
  }

  /** The parts of an absolute URI the fallbacks use. */
  datatype PageUri = PageUri(scheme: string, host: string)

  function FaviconIcoUrl(u: PageUri): string {
    u.scheme + "://" + u.host + "/favicon.ico"
  }

  function GoogleS2Url(u: PageUri): string {
    "https://www.google.com/s2/favicons?domain=" + u.host + "&sz=64"
  }

  /** File.Exists(finalPath) and FileInfo.Length. */
  datatype CacheState = NoFile | Length(n: int) | LengthThrows

  /** What awaiting getIconUrlFromDom gave. */
  datatype DomResult = DomValue(url: Option<string>) | DomThrows

  /** The URL the DOM step downloads, when there is one: the DOM's answer,
      made absolute against the page when both parse; nothing when the DOM
      lookup threw or answered blank. */
  function DomIconUrl(pageUrl: string, dom: DomResult, parseAbsolute: string -> Option<PageUri>,
                      resolve: (PageUri, string) -> Option<string>): (r: Option<string>)
    ensures dom.DomThrows? || IsNullOrWhiteSpace(dom.url) ==> r == None
    ensures dom.DomValue? && !IsNullOrWhiteSpace(dom.url) && parseAbsolute(pageUrl).None? ==> r == dom.url
    ensures r.Some? && r != dom.url ==> r == resolve(parseAbsolute(pageUrl).value, dom.url.value)
  {
    if dom.DomThrows? || IsNullOrWhiteSpace(dom.url) then None
    else
      var b := parseAbsolute(pageUrl);
      if b.Some? && resolve(b.value, dom.url.value).Some? then resolve(b.value, dom.url.value) else dom.url
  }

  /** The URLs the chain would try, in order: the DOM's icon (when it is not
      blank), then /favicon.ico and Google's s2 service for an absolute
      page URL. */
  function Candidates(pageUrl: string, dom: DomResult, parseAbsolute: string -> Option<PageUri>,
                      resolve: (PageUri, string) -> Option<string>): (r: seq<string>)
    ensures parseAbsolute(pageUrl).Some? ==>
              |r| >= 2 && r[|r| - 2..] == [FaviconIcoUrl(parseAbsolute(pageUrl).value), GoogleS2Url(parseAbsolute(pageUrl).value)]
    ensures !IsNullOrWhiteSpace(DomIconUrl(pageUrl, dom, parseAbsolute, resolve)) ==>
              |r| >= 1 && r[0] == DomIconUrl(pageUrl, dom, parseAbsolute, resolve).value
    ensures |r| <= 3
  {
    var v := DomIconUrl(pageUrl, dom, parseAbsolute, resolve);
    var p := parseAbsolute(pageUrl);
    (if IsNullOrWhiteSpace(v) then [] else [v.value])
      + (if p.Some? then [FaviconIcoUrl(p.value), GoogleS2Url(p.value)] else [])
  }

  /** The fallback chain as a rule: candidates are requested in order, and
      the chain stops at the first one that answers with at least ten
      bytes. */
  function Attempts(candidates: seq<string>, http: string -> Response): seq<string>
  {
    if candidates == [] then []
    else if Short(DownloadBytes(Some(candidates[0]), http)) then [candidates[0]] + Attempts(candidates[1..], http)
    else [candidates[0]]
  }

  /** The chain is a prefix of the candidates, every request but the last
      answered short, and it stops before the end only at an answer of at
      least ten bytes. */
  lemma {:induction false} AttemptsShape(candidates: seq<string>, http: string -> Response)
    ensures var r := Attempts(candidates, http);
            && |r| <= |candidates| && r == candidates[..|r|]
            && (forall i :: 0 <= i < |r| - 1 ==> Short(DownloadBytes(Some(r[i]), http)))
            && (r != candidates ==> r != [] && !Short(DownloadBytes(Some(r[|r| - 1]), http)))
  {
    if candidates != [] && Short(DownloadBytes(Some(candidates[0]), http)) {
      AttemptsShape(candidates[1..], http);
      var r := Attempts(candidates, http);
      var t := Attempts(candidates[1..], http);
      assert r == [candidates[0]] + t;
      forall i | 0 <= i < |r| - 1 ensures Short(DownloadBytes(Some(r[i]), http)) {
        if i > 0 { assert r[i] == t[i - 1]; }
      }
      if r != candidates {
        assert t != candidates[1..] by { assert candidates == [candidates[0]] + candidates[1..]; }
        assert r[|r| - 1] == t[|t| - 1];
      }
    }
  }

  /** Every candidate answered short. */
  predicate AllShort(a: seq<string>, http: string -> Response) {
    forall i :: 0 <= i < |a| ==> Short(DownloadBytes(Some(a[i]), http))
  }

  lemma AllShortCons(a: seq<string>, http: string -> Response)
    requires a != []
    ensures AllShort(a, http) <==> Short(DownloadBytes(Some(a[0]), http)) && AllShort(a[1..], http)
  {
    if Short(DownloadBytes(Some(a[0]), http)) && AllShort(a[1..], http) {
      forall i | 0 <= i < |a| ensures Short(DownloadBytes(Some(a[i]), http)) {
        if i > 0 { assert a[i] == a[1..][i - 1]; }
      }
    }
  }

  /** A chain of two parts tries the second part only when every candidate
      of the first answered short. */
  lemma {:induction false} AttemptsConcat(a: seq<string>, b: seq<string>, http: string -> Response)
    ensures Attempts(a + b, http) == if AllShort(a, http) then a + Attempts(b, http) else Attempts(a, http)
  {
    if a == [] {
      assert a + b == b;
    } else {
      assert (a + b)[1..] == a[1..] + b;
      assert (a + b)[0] == a[0];
      AttemptsConcat(a[1..], b, http);
      AllShortCons(a, http);
      if Short(DownloadBytes(Some(a[0]), http)) && AllShort(a[1..], http) {
        assert a == [a[0]] + a[1..];
      }
    }
  }

  /** TryDownloadFaviconAsync.  `dirOk` is whether Directory.CreateDirectory
      succeeded; `parseAbsolute` is Uri.TryCreate(pageUrl, Absolute);
      `resolve` is Uri.TryCreate(baseUri, iconUrl) followed by ToString;
      `saves(b)` is whether decoding `b` as an image, deleting the old file
      and writing the PNG all succeed.  Besides the result, the method
      returns the URLs requested over HTTP, whether the DOM was asked, and
      the bytes saved as the new cache file. */
  method TryDownloadFavicon(configDir: string, pageUrl: string, tabId: string, dirOk: bool,
                            cache: CacheState, dom: DomResult,
                            parseAbsolute: string -> Option<PageUri>,
                            resolve: (PageUri, string) -> Option<string>,
                            http: string -> Response, saves: Bytes -> bool)
    returns (result: Option<string>, requests: seq<string>, domAsked: bool, saved: Option<Bytes>)
    ensures result == None || result == Some(GetIconPath(configDir, tabId))
    ensures !dirOk ==> result == None && requests == [] && !domAsked && saved == None
    ensures dirOk && cache.Length? && cache.n > 0 ==>
              result == Some(GetIconPath(configDir, tabId)) && requests == [] && !domAsked && saved == None
    ensures domAsked <==> dirOk && !(cache.Length? && cache.n > 0)
    ensures |requests| <= 3
    ensures forall i {:trigger DownloadBytes(Some(requests[i]), http)} :: 0 <= i < |requests| - 1 ==> Short(DownloadBytes(Some(requests[i]), http))
    ensures forall i {:trigger IsBlank(requests[i])} :: 0 <= i < |requests| ==> !IsBlank(requests[i])
    ensures parseAbsolute(pageUrl).None? ==> |requests| <= 1
    ensures parseAbsolute(pageUrl).Some? && domAsked && requests != []
              && Short(DownloadBytes(Some(requests[|requests| - 1]), http)) ==>
              |requests| >= 2
              && requests[|requests| - 2] == FaviconIcoUrl(parseAbsolute(pageUrl).value)
              && requests[|requests| - 1] == GoogleS2Url(parseAbsolute(pageUrl).value)
    ensures parseAbsolute(pageUrl).Some? && domAsked ==> requests != []
    ensures saved.Some? <==> result.Some? && domAsked
    ensures saved.Some? ==> requests != [] && |saved.value| >= 10 && saves(saved.value)
                            && DownloadBytes(Some(requests[|requests| - 1]), http) == saved
    ensures (domAsked && requests != [] && !Short(DownloadBytes(Some(requests[|requests| - 1]), http))
             && saves(DownloadBytes(Some(requests[|requests| - 1]), http).value)) ==> saved.Some?
    ensures domAsked ==> requests == Attempts(Candidates(pageUrl, dom, parseAbsolute, resolve), http)
  {
    result, requests, domAsked, saved := None, [], false, None;
    if !dirOk { return; }
    var finalPath := GetIconPath(configDir, tabId);
    if cache.Length? && cache.n > 0 {
      result := Some(finalPath);
      return;
    }

    domAsked := true;
    result, requests, saved := FetchAndSave(finalPath, pageUrl, dom, parseAbsolute, resolve, http, saves);
  }

  /** Steps 2 to 6 of TryDownloadFaviconAsync, once the cache missed: the
      chain of downloads, then the save to `finalPath` of an answer of at
      least ten bytes that decodes. */
  method FetchAndSave(finalPath: string, pageUrl: string, dom: DomResult, parseAbsolute: string -> Option<PageUri>,
                      resolve: (PageUri, string) -> Option<string>,
                      http: string -> Response, saves: Bytes -> bool)
    returns (result: Option<string>, requests: seq<string>, saved: Option<Bytes>)
    ensures result == None || result == Some(finalPath)
    ensures saved.Some? <==> result.Some?
    ensures |requests| <= 3
    ensures forall i {:trigger DownloadBytes(Some(requests[i]), http)} :: 0 <= i < |requests| - 1 ==> Short(DownloadBytes(Some(requests[i]), http))
    ensures forall i {:trigger IsBlank(requests[i])} :: 0 <= i < |requests| ==> !IsBlank(requests[i])
    ensures parseAbsolute(pageUrl).None? ==> |requests| <= 1
    ensures parseAbsolute(pageUrl).Some? && requests != []
              && Short(DownloadBytes(Some(requests[|requests| - 1]), http)) ==>
              |requests| >= 2
              && requests[|requests| - 2] == FaviconIcoUrl(parseAbsolute(pageUrl).value)
              && requests[|requests| - 1] == GoogleS2Url(parseAbsolute(pageUrl).value)
    ensures parseAbsolute(pageUrl).Some? ==> requests != []
    ensures saved.Some? ==> requests != [] && |saved.value| >= 10 && saves(saved.value)
                            && DownloadBytes(Some(requests[|requests| - 1]), http) == saved
    ensures (requests != [] && !Short(DownloadBytes(Some(requests[|requests| - 1]), http))
             && saves(DownloadBytes(Some(requests[|requests| - 1]), http).value)) ==> saved.Some?
    ensures requests == Attempts(Candidates(pageUrl, dom, parseAbsolute, resolve), http)
  {
    var bytes;
    requests, bytes := FetchChain(pageUrl, dom, parseAbsolute, resolve, http);
    ChainFacts(pageUrl, dom, parseAbsolute, resolve, http, requests);
    result, saved := None, None;
    if !Short(bytes) && saves(bytes.value) {
      result, saved := Some(finalPath), bytes;
    }
  }

  /** Plans A, B and C: the requests are the chain of the candidates, and
      the bytes are what the last request answered. */
  method FetchChain(pageUrl: string, dom: DomResult, parseAbsolute: string -> Option<PageUri>,
                    resolve: (PageUri, string) -> Option<string>, http: string -> Response)
    returns (requests: seq<string>, bytes: Option<Bytes>)
    ensures requests == Attempts(Candidates(pageUrl, dom, parseAbsolute, resolve), http)
    ensures bytes == if requests == [] then None else DownloadBytes(Some(requests[|requests| - 1]), http)
  {
    requests, bytes := DomStep(pageUrl, dom, parseAbsolute, resolve, http);
    var pageUri := parseAbsolute(pageUrl);
    ghost var domPart := requests;
    ghost var chain := ChainOfCandidates(pageUrl, dom, parseAbsolute, resolve, http);
    assert Short(bytes) <==> AllShort(domPart, http) by {
      if domPart != [] { AllShortCons(domPart, http); assert domPart[1..] == []; }
    }
    if Short(bytes) && pageUri.Some? {
      var fallbackUrl := FaviconIcoUrl(pageUri.value);
      requests := requests + [fallbackUrl];
      bytes := DownloadBytes(Some(fallbackUrl), http);
    }

    if Short(bytes) && pageUri.Some? {
      var googleApiUrl := GoogleS2Url(pageUri.value);
      requests := requests + [googleApiUrl];
      bytes := DownloadBytes(Some(googleApiUrl), http);
    }
  }

  /** What the chain of the candidates guarantees: at most three requests,
      none blank, each but the last answered short; without an absolute
      page URL at most the DOM's; with one, at least one request, and a
      chain whose last answer is still short ended with /favicon.ico and
      Google s2. */
  lemma ChainFacts(pageUrl: string, dom: DomResult, parseAbsolute: string -> Option<PageUri>,
                   resolve: (PageUri, string) -> Option<string>, http: string -> Response, r: seq<string>)
    requires r == Attempts(Candidates(pageUrl, dom, parseAbsolute, resolve), http)
    ensures && |r| <= 3
            && (forall i :: 0 <= i < |r| - 1 ==> Short(DownloadBytes(Some(r[i]), http)))
            && (forall i {:trigger IsBlank(r[i])} :: 0 <= i < |r| ==> !IsBlank(r[i]))
            && (parseAbsolute(pageUrl).None? ==> |r| <= 1)
            && (parseAbsolute(pageUrl).Some? ==> r != [])
            && (parseAbsolute(pageUrl).Some? && r != [] && Short(DownloadBytes(Some(r[|r| - 1]), http)) ==>
                  |r| >= 2
                  && r[|r| - 2] == FaviconIcoUrl(parseAbsolute(pageUrl).value)
                  && r[|r| - 1] == GoogleS2Url(parseAbsolute(pageUrl).value))
  {
    var c := Candidates(pageUrl, dom, parseAbsolute, resolve);
    var chain := ChainOfCandidates(pageUrl, dom, parseAbsolute, resolve, http);
    AttemptsShape(c, http);
    var page := parseAbsolute(pageUrl);
    if page.Some? {
      NotBlankFavicon(page.value);
      NotBlankGoogle(page.value);
    }
    forall i | 0 <= i < |r| ensures !IsBlank(r[i]) {
      assert r[i] == c[i];
    }
  }

  /** Plan A of TryDownloadFaviconAsync: the DOM's icon URL, made absolute
      when it parses, is downloaded unless it is blank. */
  method DomStep(pageUrl: string, dom: DomResult, parseAbsolute: string -> Option<PageUri>,
                 resolve: (PageUri, string) -> Option<string>, http: string -> Response)
    returns (requests: seq<string>, bytes: Option<Bytes>)
    ensures requests == if IsNullOrWhiteSpace(DomIconUrl(pageUrl, dom, parseAbsolute, resolve)) then []
                        else [DomIconUrl(pageUrl, dom, parseAbsolute, resolve).value]
    ensures bytes == DownloadBytes(DomIconUrl(pageUrl, dom, parseAbsolute, resolve), http)
  {
    requests, bytes := [], None;
    var iconUrl: Option<string> := None;
    if dom.DomValue? {
      iconUrl := dom.url;
    }
    if !IsNullOrWhiteSpace(iconUrl) {
      var baseUri := parseAbsolute(pageUrl);
      if baseUri.Some? && resolve(baseUri.value, iconUrl.value).Some? {
        iconUrl := resolve(baseUri.value, iconUrl.value);
      }
      if !IsNullOrWhiteSpace(iconUrl) {
        requests := requests + [iconUrl.value];
      }
      bytes := DownloadBytes(iconUrl, http);
    }
  }

  /** The chain of the candidates, written out: the DOM's URL, then each
      fallback while the answers so far were short. */
  lemma ChainOfCandidates(pageUrl: string, dom: DomResult, parseAbsolute: string -> Option<PageUri>,
                          resolve: (PageUri, string) -> Option<string>, http: string -> Response)
    returns (chain: seq<string>)
    ensures chain == Attempts(Candidates(pageUrl, dom, parseAbsolute, resolve), http)
    ensures var v := DomIconUrl(pageUrl, dom, parseAbsolute, resolve);
            var domPart := if IsNullOrWhiteSpace(v) then [] else [v.value];
            var page := parseAbsolute(pageUrl);
            chain == if !AllShort(domPart, http) then domPart
              else if page.None? then domPart
              else if !Short(DownloadBytes(Some(FaviconIcoUrl(page.value)), http)) then domPart + [FaviconIcoUrl(page.value)]
              else domPart + [FaviconIcoUrl(page.value), GoogleS2Url(page.value)]
  {
    var v := DomIconUrl(pageUrl, dom, parseAbsolute, resolve);
    var domPart := if IsNullOrWhiteSpace(v) then [] else [v.value];
    ChainSplit(domPart, parseAbsolute(pageUrl), http);
    chain := Attempts(Candidates(pageUrl, dom, parseAbsolute, resolve), http);
  }

  /** The chain for a DOM part of at most one URL followed by the two
      fallbacks of the page, if it has any. */
  lemma ChainSplit(domPart: seq<string>, page: Option<PageUri>, http: string -> Response)
    requires |domPart| <= 1
    ensures var fallbacks := if page.Some? then [FaviconIcoUrl(page.value), GoogleS2Url(page.value)] else [];
            Attempts(domPart + fallbacks, http) ==
              if !AllShort(domPart, http) then domPart
              else if page.None? then domPart
              else if !Short(DownloadBytes(Some(FaviconIcoUrl(page.value)), http)) then domPart + [FaviconIcoUrl(page.value)]
              else domPart + [FaviconIcoUrl(page.value), GoogleS2Url(page.value)]
  {
    var fallbacks := if page.Some? then [FaviconIcoUrl(page.value), GoogleS2Url(page.value)] else [];
    AttemptsConcat(domPart, fallbacks, http);
    if domPart != [] {
      AllShortCons(domPart, http);
      assert domPart == [domPart[0]] && domPart[1..] == [];
      AttemptsSingle(domPart[0], http);
    }
    if page.Some? {
      AttemptsPair(FaviconIcoUrl(page.value), GoogleS2Url(page.value), http);
    }
  }

  lemma AttemptsSingle(x: string, http: string -> Response)
    ensures Attempts([x], http) == [x]
  {
    assert [x][1..] == [];
  }

  lemma AttemptsPair(x: string, y: string, http: string -> Response)
    ensures Attempts([x, y], http) == if Short(DownloadBytes(Some(x), http)) then [x, y] else [x]
  {
    assert [x, y][1..] == [y];
    AttemptsSingle(y, http);
  }

  lemma NotBlankFavicon(u: PageUri)
    ensures !IsBlank(FaviconIcoUrl(u))
  {
    var s := FaviconIcoUrl(u);
    assert s[|s| - 1] == 'o';
  }

  lemma NotBlankGoogle(u: PageUri)
    ensures !IsBlank(GoogleS2Url(u))
  {
    var p := "https://www.google.com/s2/favicons?domain=";
    var s := GoogleS2Url(u);
    assert s == p + (u.host + "&sz=64");
    assert s[0] == p[0];
  }
}
