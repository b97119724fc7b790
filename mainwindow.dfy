/** The main window: the tab list built from the configuration, the pool of
    live browser engines keyed by tab id with its recency list and capacity
    of five, the engine event handlers (title, loading state, one icon fetch
    per engine), and the refresh button.  The engine, the shared browser
    environment, the message boxes and the Uri class are oracles: what
    initialisation, navigation and canonicalisation gave is passed in. */
module Shell {
  import opened Wrappers
  import opened Seqs
  import opened Text
  import opened Models
  import opened Urls
  import Lru
  import Config
  import Theme

  datatype Visibility = Visible | Collapsed

  /** CoreWebView2PreferredColorScheme as UpdateWebViewTheme chooses it. */
  datatype ColorScheme = LightScheme | DarkScheme

  /** DefaultBackgroundColor: ARGB(255, 30, 30, 30) or White. */
  datatype Background = Grey30 | White

  /** The page colour scheme for an effective theme: light only for
      "Light" compared without case. */
  function PreferredColorScheme(theme: string): (c: ColorScheme)
    ensures c == LightScheme <==> EqualsIgnoreCase(theme, "Light")
  {
    if EqualsIgnoreCase(theme, "Light") then LightScheme else DarkScheme
  }

  /** The background a new engine gets: dark grey only for exactly "Dark"
      (an ordinal comparison). */
  function DefaultBackground(theme: string): (b: Background)
    ensures b == Grey30 <==> theme == "Dark"
  {
    if theme == "Dark" then Grey30 else White
  }

  /** The two choices agree for "Dark" and for "Light" in any case but the
      background's own spelling: a page gets a dark background and a light
      scheme only for a theme that is "Light" ignoring case; it gets a white
      background and a dark scheme exactly for the themes that are not
      "Dark" as spelled and not "Light" ignoring case. */
  lemma BackgroundAndSchemeAgreement(theme: string)
    ensures DefaultBackground(theme) == Grey30 ==> PreferredColorScheme(theme) == DarkScheme
    ensures (DefaultBackground(theme) == White && PreferredColorScheme(theme) == DarkScheme)
            <==> (theme != "Dark" && !EqualsIgnoreCase(theme, "Light"))
  {
    if theme == "Dark" {
      assert theme[0] == 'D';
      assert !CharEqualsIgnoreCase(theme[0], "Light"[0]);
    }
  }

  /** "dark" in lower case gets a white background under a dark page. */
  lemma LowerCaseDarkIsMixed()
    ensures DefaultBackground("dark") == White && PreferredColorScheme("dark") == DarkScheme
  {
    assert "dark"[0] != "Dark"[0];
    assert !CharEqualsIgnoreCase("dark"[0], "Light"[0]);
  }

  /** What ExecuteScriptAsync gave: the JSON-encoded script result, or an
      exception. */
  datatype ScriptResult = Returned(json: string) | ScriptThrows

  /** getIconUrlFromDom: a blank answer is no icon; otherwise the trimmed
      answer is unquoted. */
  function IconUrlFromScript(r: ScriptResult): (u: Option<string>)
    ensures r.ScriptThrows? ==> u == None
    ensures u.Some? ==> !IsBlank(u.value)
    ensures r.Returned? && IsBlank(r.json) ==> u == None
  {
    match r
    case ScriptThrows => None
    case Returned(json) => if IsBlank(json) then None else Unquote(Trim(json))
  }

  /** One pair of surrounding quotes is dropped, and a blank remainder is
      no icon.  A lone `"` both starts and ends with a quote, so the range
      `[1..^1]` throws and the catch answers null. */
  function Unquote(t: string): (u: Option<string>)
    ensures u.Some? ==> !IsBlank(u.value)
    ensures |t| >= 2 && t[0] == '"' && t[|t| - 1] == '"' && !IsBlank(t[1..|t| - 1]) ==> u == Some(t[1..|t| - 1])
    ensures t == "\"" ==> u == None
  {
    if t != [] && t[0] == '"' && t[|t| - 1] == '"' then
      if |t| < 2 then None
      else
        var inner := t[1..|t| - 1];
        if IsBlank(inner) then None else Some(inner)
    else if IsBlank(t) then None else Some(t)
  }

  /** The script's JSON string of a link's href decodes back to the href
      (for an href without quotes to escape and without white space at
      its ends), and an empty string answer decodes to no icon. */
  lemma IconUrlRoundTrip(href: string)
    requires !IsBlank(href)
    ensures IconUrlFromScript(Returned("\"" + href + "\"")) == Some(href)
    ensures IconUrlFromScript(Returned("\"\"")) == None
  {
    var j := "\"" + href + "\"";
    assert j[0] == '"' && j[|j| - 1] == '"';
    assert j[1..|j| - 1] == href;
    ScriptIsUnquoted(j);
    var e := "\"\"";
    assert e[0] == '"' && e[1] == '"';
    ScriptIsUnquoted(e);
    assert e[1..|e| - 1] == [];
  }

  /** An answer with no white space at either end is unquoted as it is. */
  lemma ScriptIsUnquoted(j: string)
    requires j != [] && !IsWhiteSpace(j[0]) && !IsWhiteSpace(j[|j| - 1])
    ensures IconUrlFromScript(Returned(j)) == Unquote(j)
  {
    TrimKeeps(j);
  }

  /** The lone quote is the case the range cannot take. */
  lemma LoneQuoteIsNoIcon()
    ensures IconUrlFromScript(Returned("\"")) == None
  {
    TrimKeeps("\"");
  }

  /** The NavigationCompleted handler keeps the tab's icon only when it is
      set, names an existing file, and is not a bundled asset (a path
      containing "Assets", ignoring case). */
  predicate KeepsOwnIcon(iconPath: Option<string>, fileExists: string -> bool) {
    !IsNullOrWhiteSpace(iconPath) && fileExists(iconPath.value)
    && !ContainsIgnoreCase(iconPath.value, "Assets")
  }

  /** Tabs built from the default template never keep their icon: their
      first successful navigation always fetches the site's own. */
  lemma DefaultTabsFetchIcons(newId: nat -> string, baseDir: string, fileExists: string -> bool)
    ensures forall t :: t in Config.GetDefaultTabs(newId, baseDir) ==> !KeepsOwnIcon(t.iconPath, fileExists)
  {
    Config.DefaultIconsAreAssets(newId, baseDir);
  }

  /** The index of the first configured tab with the given id, or -1
      (`cfg.Tabs.FirstOrDefault(x => x.Id == id)`). */
  function FirstIndexWithId(tabs: seq<TabConfig>, id: string): (i: int)
    ensures -1 <= i < |tabs|
    ensures i == -1 <==> forall k :: 0 <= k < |tabs| ==> tabs[k].id != id
    ensures i >= 0 ==> tabs[i].id == id && forall k :: 0 <= k < i ==> tabs[k].id != id
  {
    if tabs == [] then -1
    else if tabs[0].id == id then 0
    else
      var j := FirstIndexWithId(tabs[1..], id);
      if j == -1 then -1 else j + 1
  }

  /** The configuration after a fetched icon is recorded: the first tab
      with the id gets the path, nothing else changes. */
  function WithIcon(tabs: seq<TabConfig>, id: string, path: string): (r: seq<TabConfig>)
    ensures |r| == |tabs|
    ensures FirstIndexWithId(tabs, id) == -1 ==> r == tabs
    ensures var i := FirstIndexWithId(tabs, id);
            i >= 0 ==> r[i] == tabs[i].(iconPath := Some(path))
                       && forall k :: 0 <= k < |tabs| && k != i ==> r[k] == tabs[k]
  {
    var i := FirstIndexWithId(tabs, id);
    if i == -1 then tabs else tabs[i := tabs[i].(iconPath := Some(path))]
  }

  /** The face of one tab as BuildTabsFromConfig creates it. */
  const NotLoaded: string := "未加载"

  /** The item built for a configured tab. */
  predicate BuiltFrom(t: TabItemModel, c: TabConfig, canon: string -> Option<string>)
    reads t
  {
    && t.id == c.id
    && t.url == NormalizeUrl(c.url, canon).GetOr("")
    && t.customTitle == c.name
    && t.autoTitle == NotLoaded
    && t.iconPath == (if IsNullOrWhiteSpace(c.iconPath) then None else c.iconPath)
    && !t.isLoading
  }

  /** One WebView2 control and the state its event handlers close over. */
  class Session {
    /** The tab the handlers captured. */
    const tab: TabItemModel
    /** The URL the engine was created for. */
    const navUrl: string
    var visibility: Visibility
    var background: Background
    /** Whether CoreWebView2 exists (initialisation completed). */
    var hasCore: bool
    var scheme: Option<ColorScheme>
    /** The handler's local `iconFetched` flag. */
    var iconFetched: bool
    /** The URLs passed to CoreWebView2.Navigate, in order. */
    var navigations: seq<string>

    /** `new WebView2 { Visibility = Collapsed }` with the background the
        effective theme asks for. */
    constructor (tab: TabItemModel, navUrl: string, theme: string)
      ensures this.tab == tab && this.navUrl == navUrl
      ensures visibility == Collapsed && background == DefaultBackground(theme)
      ensures !hasCore && scheme == None && !iconFetched && navigations == []
    {
      this.tab, this.navUrl := tab, navUrl;
      visibility := Collapsed;
      background := DefaultBackground(theme);
      hasCore, scheme, iconFetched, navigations := false, None, false, [];
    }

    /** UpdateWebViewTheme: nothing without an engine. */
    method UpdateTheme(theme: string)
      modifies this
      ensures hasCore ==> scheme == Some(PreferredColorScheme(theme))
      ensures !hasCore ==> scheme == old(scheme)
      ensures unchanged(this`visibility, this`background, this`hasCore, this`iconFetched)
      ensures unchanged(this`navigations)
    {
      if hasCore {
        scheme := Some(PreferredColorScheme(theme));
      }
    }

    /** The NavigationStarting handler. */
    method OnNavigationStarting()
      modifies tab
      ensures tab.isLoading
      ensures tab.autoTitle == old(tab.autoTitle) && tab.iconPath == old(tab.iconPath)
    {
      tab.isLoading := true;
    }

    /** The DocumentTitleChanged handler. */
    method OnDocumentTitleChanged(title: string)
      modifies tab
      ensures tab.autoTitle == title
      ensures tab.iconPath == old(tab.iconPath) && tab.isLoading == old(tab.isLoading)
      ensures IsBlank(tab.customTitle) ==> tab.DisplayTitle() == title
    {
      tab.SetAutoTitle(title);
    }

    /** The first half of the NavigationCompleted handler: loading stops,
        and the answer says whether an icon fetch starts.  A fetch starts
        at most once per engine, only after a successful navigation, and
        not for a tab that keeps its own icon; a successful navigation uses
        up the one chance even when the icon is kept. */
    method OnNavigationCompleted(isSuccess: bool, fileExists: string -> bool) returns (fetch: bool)
      modifies this, tab
      ensures !tab.isLoading
      ensures tab.iconPath == old(tab.iconPath) && tab.autoTitle == old(tab.autoTitle)
      ensures fetch <==> isSuccess && !old(iconFetched) && !KeepsOwnIcon(tab.iconPath, fileExists)
      ensures iconFetched == (old(iconFetched) || isSuccess)
      ensures unchanged(this`visibility, this`background, this`hasCore, this`scheme)
      ensures unchanged(this`navigations)
    {
      tab.isLoading := false;
      fetch := false;
      if !isSuccess { return; }
      if iconFetched { return; }
      iconFetched := true;
      var isDefaultAsset := !IsNullOrWhiteSpace(tab.iconPath) && ContainsIgnoreCase(tab.iconPath.value, "Assets");
      if !IsNullOrWhiteSpace(tab.iconPath) && fileExists(tab.iconPath.value) && !isDefaultAsset {
        return;
      }
      fetch := true;
    }

    /** The end of the NavigationCompleted handler: a blank saved path
        changes nothing; otherwise the tab shows the new icon and the first
        configured tab with the id records it, saved without raising
        ConfigChanged. */
    method ApplyFetchedIcon(savedPath: Option<string>, config: Config.ConfigService, writeOk: bool)
      modifies tab, config
      ensures IsNullOrWhiteSpace(savedPath) ==> unchanged(tab, config)
      ensures !IsNullOrWhiteSpace(savedPath) ==>
                && tab.iconPath == savedPath
                && (FirstIndexWithId(old(config.current).tabs, tab.id) == -1 ==> unchanged(config))
                && (FirstIndexWithId(old(config.current).tabs, tab.id) >= 0 ==>
                      && config.current == old(config.current).(tabs :=
                           WithIcon(old(config.current).tabs, tab.id, savedPath.value))
                      && config.persisted == (if writeOk then Some(config.current) else old(config.persisted)))
      ensures config.changedEvents == old(config.changedEvents)
      ensures tab.autoTitle == old(tab.autoTitle) && tab.isLoading == old(tab.isLoading)
    {
      if IsNullOrWhiteSpace(savedPath) { return; }
      tab.iconPath := savedPath;
      var cfg := config.current;
      var i := FirstIndexWithId(cfg.tabs, tab.id);
      if i >= 0 {
        config.Save(cfg.(tabs := WithIcon(cfg.tabs, tab.id, savedPath.value)), false, writeOk);
      }
    }
  }

  /** The sessions whose keys left the pool. */
  ghost function Dropped(before: map<string, Session>, after: map<string, Session>): set<Session> {
    set id | id in before && id !in after :: before[id]
  }

  /** What every handler keeps: the recency list has no repeats and its
      node index names exactly its ids; every pooled engine is hosted,
      undisposed and belongs to the tab of its key.  With the corrected
      rotation each index entry also names its own node in the list
      (Nodes.Linked), so the nodes themselves are not kept here. */
  ghost predicate PoolOk(webviews: map<string, Session>, lru: seq<string>, lruNodes: set<string>,
                         host: seq<Session>, disposed: set<Session>)
  {
    && Distinct(lru) && lruNodes == Elems(lru)
    && Distinct(host)
    && (forall id :: id in webviews ==>
          webviews[id] in host && webviews[id].tab.id == id && webviews[id] !in disposed)
  }

  lemma PoolOkRotate(w: map<string, Session>, l: seq<string>, n: set<string>, h: seq<Session>, x: set<Session>)
    requires PoolOk(w, l, n, h, x) && l != []
    ensures PoolOk(w, l[1..] + [l[0]], n, h, x)
  {
    assert l == [l[0]] + l[1..];
    var r := l[1..] + [l[0]];
    forall i, j | 0 <= i < j < |r| ensures r[i] != r[j] {
      if j == |r| - 1 { assert r[i] == l[i + 1]; } else { assert r[i] == l[i + 1] && r[j] == l[j + 1]; }
    }
  }

  lemma PoolOkRollBack(w: map<string, Session>, l: seq<string>, n: set<string>, h: seq<Session>,
                       x: set<Session>, s: Session)
    requires PoolOk(w, l, n, h, x)
    ensures PoolOk(w - {s.tab.id}, l, n, Without(h, s), x + {s})
  {
    var h' := Without(h, s);
    forall id | id in w - {s.tab.id} ensures w[id] in h' && w[id] != s {
      assert w[id].tab.id == id;
      assert w[id] in Elems(h);
      assert w[id] in Elems(h');
    }
  }

  /** What EnsureWebViewForSelectedTab did before its first await. */
  datatype Ensured = NoSelection | InvalidUrl | Hit(existing: Session) | Reserved(session: Session)

  /** What RefreshBtn_Click did: nothing, a new Navigate on the tab's
      running engine, a Navigate that threw out of the click handler (it is
      outside any try), or EnsureWebViewForSelectedTab. */
  datatype Refreshed = Ignored | Renavigated(target: Session) | NavigateThrew(target: Session) | Ensured(outcome: Ensured)

  /** The main window's tab list, engine pool and recency list. */
  class MainWindow {
    /** _webviews. */
    var webviews: map<string, Session>
    /** _lru, oldest first. */
    var lru: seq<string>
    /** The keys of _lruNodes; each names its id's node in _lru. */
    var lruNodes: set<string>
    /** ContentHost.Children, in order. */
    var host: seq<Session>
    /** _tabs, which is the tab list's item source. */
    var tabs: seq<TabItemModel>
    /** TabList.SelectedIndex. */
    var selectedIndex: int
    /** The engines whose Dispose has been called. */
    var disposed: set<Session>

    /** `new MainWindow()`: the pool is empty, then the window runs what
        the ConfigChanged handler runs, on the configuration as loaded. */
    constructor (config: AppConfig, themes: Theme.ThemeService, reg: Theme.RegistryRead,
                 canon: string -> Option<string>)
      requires themes.Valid()
      modifies themes
      ensures Valid() && themes.Valid()
      ensures |tabs| == |EnabledTabs(config.tabs)|
      ensures forall i :: 0 <= i < |tabs| ==> BuiltFrom(tabs[i], EnabledTabs(config.tabs)[i], canon)
      ensures selectedIndex == if |tabs| > 0 then 0 else -1
      ensures EqualsIgnoreCase(config.theme, "System") ==> themes.currentEffectiveTheme == Theme.GetSystemTheme(reg)
      ensures !EqualsIgnoreCase(config.theme, "System") ==> themes.currentEffectiveTheme == config.theme
    {
      webviews, lru, lruNodes, host := map[], [], {}, [];
      tabs, selectedIndex, disposed := [], -1, {};
      new;
      OnConfigChanged(config, themes, reg, canon);
    }

    /** What every handler keeps: the recency list has no repeats and its
        node index names exactly its ids; every pooled engine is hosted,
        undisposed and belongs to the tab of its key; the selection is a
        tab or none. */
    ghost predicate Valid()
      reads this
    {
      PoolOk(webviews, lru, lruNodes, host, disposed) && -1 <= selectedIndex < |tabs|
    }

    /** The recency list lists exactly the pooled engines. */
    ghost predicate InStep()
      reads this
    {
      Elems(lru) == webviews.Keys
    }

    /** TabList.SelectedItem. */
    function SelectedTab(): (t: Option<TabItemModel>)
      reads this
      ensures t.Some? <==> 0 <= selectedIndex < |tabs|
      ensures t.Some? ==> t.value == tabs[selectedIndex]
    {
      if 0 <= selectedIndex < |tabs| then Some(tabs[selectedIndex]) else None
    }

    /** The id of the selected tab, which eviction spares. */
    function SelectedId(): (id: Option<string>)
      reads this, tabs
      ensures id.Some? <==> SelectedTab().Some?
      ensures id.Some? ==> id.value == SelectedTab().value.id
    {
      if 0 <= selectedIndex < |tabs| then Some(tabs[selectedIndex].id) else None
    }

    /** MarkWebViewUsed: the id moves to, or is added at, the recent end.
        Its `_lru.Remove(node)` cannot throw while the index is linked
        (Nodes.MarkUsedLinked). */
    method MarkWebViewUsed(id: string)
      requires Valid()
      modifies this
      ensures lru == Lru.MarkUsed(old(lru), id)
      ensures webviews == old(webviews) && host == old(host) && disposed == old(disposed)
      ensures tabs == old(tabs) && selectedIndex == old(selectedIndex)
      ensures Valid()
    {
      if id in lruNodes {
        lru := Without(lru, id) + [id];
      } else {
        lru := lru + [id];
        lruNodes := lruNodes + {id};
      }
    }
 
    /** ShowOnly: the target is shown and every other hosted engine
        collapsed; an engine that is not hosted is left alone. */
    method ShowOnly(target: Session)
      requires Valid()
      modifies host`visibility
      ensures forall h :: h in host ==> h.visibility == (if h == target then Visible else Collapsed)
      ensures Valid()
    {
      var i := 0;
      while i < |host|
        invariant 0 <= i <= |host|
        invariant forall k :: 0 <= k < i ==> host[k].visibility == (if host[k] == target then Visible else Collapsed)
      {
        host[i].visibility := if host[i] == target then Visible else Collapsed;
        i := i + 1;
      }
    }

    /** EvictIfNeeded, with the loop stopping when the selected tab is the
        only id left to consider (as written it rotates that id forever, see
        Lru.EvictAsWrittenSpins).  The pool and the recency list end as
        Lru.Evict says; every engine that left the pool was taken off the
        host and disposed, and nothing else changed. */
    method EvictIfNeeded()
      requires Valid()
      modifies this
      ensures Valid()
      ensures var r := Lru.Evict(Lru.Residency(old(webviews).Keys, old(lru)), SelectedId());
              webviews.Keys == r.pool && lru == r.lru
      ensures forall id :: id in webviews ==> id in old(webviews) && webviews[id] == old(webviews)[id]
      ensures host == WithoutAll(old(host), Dropped(old(webviews), webviews))
      ensures disposed == old(disposed) + Dropped(old(webviews), webviews)
      ensures tabs == old(tabs) && selectedIndex == old(selectedIndex)
    {
      ghost var w0, h0, x0 := webviews, host, disposed;
      var sel := SelectedId();
      ghost var target := Lru.Evict(Lru.Residency(webviews.Keys, lru), sel);
      assert Dropped(w0, webviews) == {};
      WithoutAllDisjoint(h0, {});
      while |webviews| > Lru.MaxAliveWebViews
        invariant Valid()
        invariant tabs == old(tabs) && selectedIndex == old(selectedIndex)
        invariant Lru.Evict(Lru.Residency(webviews.Keys, lru), sel) == target
        invariant forall id :: id in webviews ==> id in w0 && webviews[id] == w0[id]
        invariant host == WithoutAll(h0, Dropped(w0, webviews))
        invariant disposed == x0 + Dropped(w0, webviews)
        decreases Lru.Measure(Lru.Residency(webviews.Keys, lru), sel)
      {
        if lru == [] { break; }
        if sel == Some(lru[0]) && |lru| == 1 { break; }
        ghost var w1, h1, x1 := webviews, host, disposed;
        Advance(sel);
        ChainStep(w0, w1, webviews, h0, h1, host, x0, x1, disposed);
      }
      EvictStopped(Lru.Residency(webviews.Keys, lru), sel);
    }

    /** One pass, with what the loop needs to know about the specification:
        the evicted result is unchanged and the measure went down. */
    method Advance(sel: Option<string>)
      requires Valid() && lru != [] && !(sel == Some(lru[0]) && |lru| == 1)
      requires |webviews| > Lru.MaxAliveWebViews
      modifies this
      ensures Valid()
      ensures Lru.Evict(Lru.Residency(webviews.Keys, lru), sel)
              == Lru.Evict(Lru.Residency(old(webviews).Keys, old(lru)), sel)
      ensures Lru.Measure(Lru.Residency(webviews.Keys, lru), sel)
              < Lru.Measure(Lru.Residency(old(webviews).Keys, old(lru)), sel)
      ensures forall id :: id in webviews ==> id in old(webviews) && webviews[id] == old(webviews)[id]
      ensures host == WithoutAll(old(host), Dropped(old(webviews), webviews))
      ensures disposed == old(disposed) + Dropped(old(webviews), webviews)
      ensures tabs == old(tabs) && selectedIndex == old(selectedIndex)
    {
      ghost var before := Lru.Residency(webviews.Keys, lru);
      assert !Lru.Stops(before, sel);
      Lru.StepShrinks(before, sel);
      EvictOnce(sel);
    }

    /** The synchronous part of EnsureWebViewForSelectedTab: with no
        selection or a URL that does not normalise, nothing changes (the URL
        is checked before the pool is consulted); a pooled tab is marked,
        shown and followed by eviction; otherwise a collapsed engine is
        created, hosted and pooled, but not yet listed as used.  The
        continuation after the engine's initialisation is CompleteEnsure. */
    method EnsureWebViewForSelectedTab(theme: string, canon: string -> Option<string>) returns (o: Ensured)
      requires Valid()
      modifies this, host`visibility
      ensures Valid()
      ensures tabs == old(tabs) && selectedIndex == old(selectedIndex)
      ensures o.NoSelection? <==> SelectedTab().None?
      ensures o.InvalidUrl? <==> SelectedTab().Some? && NormalizeUrl(SelectedTab().value.url, canon).None?
      ensures o.NoSelection? || o.InvalidUrl? ==>
                && webviews == old(webviews) && lru == old(lru) && host == old(host) && disposed == old(disposed)
                && forall h :: h in host ==> h.visibility == old(h.visibility)
      ensures o.Hit? <==> SelectedTab().Some? && NormalizeUrl(SelectedTab().value.url, canon).Some?
                          && SelectedTab().value.id in old(webviews)
      ensures o.Hit? ==>
                var id := SelectedTab().value.id;
                var r := Lru.Evict(Lru.Residency(old(webviews).Keys, Lru.MarkUsed(old(lru), id)), Some(id));
                && o.existing == old(webviews)[id]
                && webviews.Keys == r.pool && lru == r.lru
                && (forall k :: k in webviews ==> k in old(webviews) && webviews[k] == old(webviews)[k])
                && host == WithoutAll(old(host), Dropped(old(webviews), webviews))
                && disposed == old(disposed) + Dropped(old(webviews), webviews)
                && (forall h :: h in host ==> h.visibility == (if h == o.existing then Visible else Collapsed))
      ensures o.Hit? && old(InStep()) ==>
                && InStep() && |webviews| <= Lru.MaxAliveWebViews
                && SelectedTab().value.id in webviews && lru[|lru| - 1] == SelectedTab().value.id
      ensures o.Reserved? ==>
                var tab := SelectedTab().value;
                && fresh(o.session) && o.session.tab == tab
                && Some(o.session.navUrl) == NormalizeUrl(tab.url, canon)
                && o.session.visibility == Collapsed && o.session.background == DefaultBackground(theme)
                && !o.session.hasCore && o.session.scheme == None && !o.session.iconFetched
                && o.session.navigations == []
                && webviews == old(webviews)[tab.id := o.session] && host == old(host) + [o.session]
                && lru == old(lru) && disposed == old(disposed)
                && forall h :: h in old(host) ==> h.visibility == old(h.visibility)
    {
      var sel := SelectedTab();
      if sel.None? { return NoSelection; }
      var tab := sel.value;
      var navUrl := NormalizeUrl(tab.url, canon);
      if navUrl.None? { return InvalidUrl; }
      if tab.id in webviews {
        var existing := Reuse(tab.id);
        return Hit(existing);
      }
      var wv := Reserve(tab, navUrl.value, theme);
      o := Reserved(wv);
    }

    /** EnsureWebViewForSelectedTab as BuildTabsFromConfig calls it (once
        from TabList_SelectionChanged, once directly), with what a later
        call needs to know: the hosted engines are old ones or the one just
        reserved, and the selected tab ends up pooled unless a check
        failed. */
    method EnsureSelected(theme: string, canon: string -> Option<string>) returns (o: Ensured)
      requires Valid()
      modifies this, host`visibility
      ensures Valid()
      ensures tabs == old(tabs) && selectedIndex == old(selectedIndex)
      ensures forall i :: 0 <= i < |host| ==> host[i] in old(host) || fresh(host[i])
      ensures o.NoSelection? <==> SelectedTab().None?
      ensures o.InvalidUrl? <==> SelectedTab().Some? && NormalizeUrl(SelectedTab().value.url, canon).None?
      ensures o.Hit? <==> SelectedTab().Some? && NormalizeUrl(SelectedTab().value.url, canon).Some?
                          && SelectedTab().value.id in old(webviews)
      ensures o.Hit? ==> o.existing == old(webviews)[SelectedTab().value.id]
      ensures o.Hit? && old(InStep()) ==> InStep() && SelectedTab().value.id in webviews
                                          && webviews[SelectedTab().value.id] == o.existing
      ensures o.Reserved? ==> SelectedTab().value.id in webviews && webviews[SelectedTab().value.id] == o.session
    {
      o := EnsureWebViewForSelectedTab(theme, canon);
      if o.Hit? {
        WithoutAllSubset(old(host), Dropped(old(webviews), webviews));
      } else if o.Reserved? {
        assert host == old(host) + [o.session];
      }
    }

    /** The hit branch: mark, show, evict. */
    method Reuse(id: string) returns (existing: Session)
      requires Valid() && id in webviews && SelectedId() == Some(id)
      modifies this, host`visibility
      ensures Valid()
      ensures tabs == old(tabs) && selectedIndex == old(selectedIndex)
      ensures existing == old(webviews)[id]
      ensures var r := Lru.Evict(Lru.Residency(old(webviews).Keys, Lru.MarkUsed(old(lru), id)), Some(id));
                && webviews.Keys == r.pool && lru == r.lru
                && (forall k :: k in webviews ==> k in old(webviews) && webviews[k] == old(webviews)[k])
                && host == WithoutAll(old(host), Dropped(old(webviews), webviews))
                && disposed == old(disposed) + Dropped(old(webviews), webviews)
      ensures forall h :: h in host ==> h.visibility == (if h == existing then Visible else Collapsed)
      ensures old(InStep()) ==>
                && InStep() && |webviews| <= Lru.MaxAliveWebViews
                && id in webviews && lru[|lru| - 1] == id
    {
      existing := webviews[id];
      ghost var l0, w0 := lru, webviews;
      Activate(id, existing);
      if old(InStep()) {
        Lru.MarkThenEvict(w0.Keys, l0, id);
        assert |webviews| == |webviews.Keys|;
      }
    }

    /** MarkWebViewUsed, ShowOnly and EvictIfNeeded, as both the hit branch
        and the end of a successful initialisation run them. */
    method Activate(id: string, shown: Session)
      requires Valid()
      modifies this, host`visibility
      ensures Valid()
      ensures tabs == old(tabs) && selectedIndex == old(selectedIndex)
      ensures var r := Lru.Evict(Lru.Residency(old(webviews).Keys, Lru.MarkUsed(old(lru), id)), SelectedId());
                && webviews.Keys == r.pool && lru == r.lru
      ensures forall k :: k in webviews ==> k in old(webviews) && webviews[k] == old(webviews)[k]
      ensures host == WithoutAll(old(host), Dropped(old(webviews), webviews))
      ensures disposed == old(disposed) + Dropped(old(webviews), webviews)
      ensures forall h :: h in host ==> h.visibility == (if h == shown then Visible else Collapsed)
    {
      ghost var l0, w0, x0, h0 := lru, webviews, disposed, host;
      MarkWebViewUsed(id);
      ShowOnly(shown);
      assert webviews == w0 && disposed == x0 && host == h0 && lru == Lru.MarkUsed(l0, id);
      EvictIfNeeded();
      WithoutAllSubset(h0, Dropped(w0, webviews));
    }

    /** The miss branch: a new collapsed engine is hosted and pooled. */
    method Reserve(tab: TabItemModel, navUrl: string, theme: string) returns (wv: Session)
      requires Valid() && tab.id !in webviews
      modifies this
      ensures Valid()
      ensures tabs == old(tabs) && selectedIndex == old(selectedIndex)
      ensures fresh(wv) && wv.tab == tab && wv.navUrl == navUrl
      ensures wv.visibility == Collapsed && wv.background == DefaultBackground(theme)
      ensures !wv.hasCore && wv.scheme == None && !wv.iconFetched && wv.navigations == []
      ensures webviews == old(webviews)[tab.id := wv] && host == old(host) + [wv]
      ensures lru == old(lru) && lruNodes == old(lruNodes) && disposed == old(disposed)
    {
      wv := new Session(tab, navUrl, theme);
      host := host + [wv];
      webviews := webviews[tab.id := wv];
    }

    /** The continuation of EnsureWebViewForSelectedTab after awaiting the
        engine.  Initialisation fails when the environment or the engine
        throws (`initOk` false) or when the engine was disposed meanwhile;
        the engine is then unhosted and disposed and its tab's key leaves
        the pool, whichever engine that key names by now.  Otherwise the
        engine takes the page colour scheme and navigates; only when
        Navigate returns is the tab marked used, shown and followed by
        eviction.  When Navigate throws, the engine stays pooled and
        hosted but never enters the recency list. */
    method CompleteEnsure(s: Session, initOk: bool, navigateOk: bool, theme: string) returns (ok: bool)
      requires Valid()
      modifies this, s, host`visibility
      ensures Valid()
      ensures tabs == old(tabs) && selectedIndex == old(selectedIndex)
      ensures ok == (initOk && s !in old(disposed))
      ensures !ok ==>
                && host == Without(old(host), s) && webviews == old(webviews) - {s.tab.id}
                && disposed == old(disposed) + {s} && lru == old(lru)
                && s.navigations == old(s.navigations) && s.hasCore == old(s.hasCore)
      ensures ok ==> s.hasCore && s.scheme == Some(PreferredColorScheme(theme))
      ensures ok && !navigateOk ==>
                && webviews == old(webviews) && lru == old(lru) && host == old(host)
                && disposed == old(disposed) && s.navigations == old(s.navigations)
      ensures ok && navigateOk ==> s.navigations == old(s.navigations) + [s.navUrl]
      ensures ok && navigateOk ==>
                var r := Lru.Evict(Lru.Residency(old(webviews).Keys, Lru.MarkUsed(old(lru), s.tab.id)), SelectedId());
                && webviews.Keys == r.pool && lru == r.lru
                && (forall k :: k in webviews ==> k in old(webviews) && webviews[k] == old(webviews)[k])
                && host == WithoutAll(old(host), Dropped(old(webviews), webviews))
                && disposed == old(disposed) + Dropped(old(webviews), webviews)
                && (forall h :: h in host ==> h.visibility == (if h == s then Visible else Collapsed))
      ensures ok && navigateOk && Elems(old(lru)) + {s.tab.id} == old(webviews).Keys ==>
                InStep() && |webviews| <= Lru.MaxAliveWebViews
    {
      ok := initOk && s !in disposed;
      if !ok {
        RollBack(s);
        return;
      }
      s.hasCore := true;
      s.UpdateTheme(theme);
      if navigateOk {
        s.navigations := s.navigations + [s.navUrl];
        Commit(s);
      }
    }

    /** Reserving an engine and then rolling it back, as a failed
        initialisation does, restores the pool, the recency list and the
        host; only the disposal of the new engine remains. */
    method ReserveThenRollBack(tab: TabItemModel, navUrl: string, theme: string) returns (wv: Session)
      requires Valid() && tab.id !in webviews
      modifies this
      ensures Valid()
      ensures webviews == old(webviews) && lru == old(lru) && host == old(host)
      ensures disposed == old(disposed) + {wv} && fresh(wv)
    {
      ghost var h0 := host;
      wv := Reserve(tab, navUrl, theme);
      WithoutConcat(h0, [wv], wv);
      assert Without([wv], wv) == [];
      RollBack(wv);
      assert webviews == old(webviews);
    }

    /** The catch block after a failed initialisation. */
    method RollBack(s: Session)
      requires Valid()
      modifies this
      ensures Valid()
      ensures tabs == old(tabs) && selectedIndex == old(selectedIndex)
      ensures host == Without(old(host), s) && webviews == old(webviews) - {s.tab.id}
      ensures disposed == old(disposed) + {s} && lru == old(lru)
    {
      PoolOkRollBack(webviews, lru, lruNodes, host, disposed, s);
      host := Without(host, s);
      disposed := disposed + {s};
      webviews := webviews - {s.tab.id};
    }

    /** MarkWebViewUsed, ShowOnly and EvictIfNeeded after Navigate. */
    method Commit(s: Session)
      requires Valid()
      modifies this, host`visibility
      ensures Valid()
      ensures tabs == old(tabs) && selectedIndex == old(selectedIndex)
      ensures var r := Lru.Evict(Lru.Residency(old(webviews).Keys, Lru.MarkUsed(old(lru), s.tab.id)), SelectedId());
                && webviews.Keys == r.pool && lru == r.lru
                && (forall k :: k in webviews ==> k in old(webviews) && webviews[k] == old(webviews)[k])
                && host == WithoutAll(old(host), Dropped(old(webviews), webviews))
                && disposed == old(disposed) + Dropped(old(webviews), webviews)
      ensures forall h :: h in host ==> h.visibility == (if h == s then Visible else Collapsed)
      ensures Elems(old(lru)) + {s.tab.id} == old(webviews).Keys ==>
                InStep() && |webviews| <= Lru.MaxAliveWebViews
    {
      ghost var l0, w0 := lru, webviews;
      ghost var sel := SelectedId();
      Activate(s.tab.id, s);
      if Elems(l0) + {s.tab.id} == w0.Keys {
        Lru.EvictRestoresCapacity(Lru.Residency(w0.Keys, Lru.MarkUsed(l0, s.tab.id)), sel);
        assert |webviews| == |webviews.Keys|;
      }
    }

    /** The first part of BuildTabsFromConfig: every pooled engine whose
        tab is not enabled is unhosted, disposed and forgotten, its id also
        leaving the recency list; then the tab list is rebuilt from the
        enabled tabs in order, and the first tab is selected when there is
        one.  The rebuilt items are new objects: handlers of live engines
        still hold the old ones. */
    method Reconcile(configTabs: seq<TabConfig>, canon: string -> Option<string>)
      requires Valid()
      modifies this
      ensures Valid()
      ensures forall id :: id in webviews <==> id in old(webviews) && id in EnabledIds(configTabs)
      ensures forall id :: id in webviews ==> webviews[id] == old(webviews)[id]
      ensures lru == WithoutAll(old(lru), old(webviews).Keys - EnabledIds(configTabs))
      ensures host == WithoutAll(old(host), Dropped(old(webviews), webviews))
      ensures disposed == old(disposed) + Dropped(old(webviews), webviews)
      ensures |tabs| == |EnabledTabs(configTabs)|
      ensures forall i :: 0 <= i < |tabs| ==> fresh(tabs[i]) && BuiltFrom(tabs[i], EnabledTabs(configTabs)[i], canon)
      ensures selectedIndex == if |tabs| > 0 then 0 else -1
      ensures old(InStep()) ==> InStep() && Elems(lru) <= EnabledIds(configTabs)
      ensures forall i :: 0 <= i < |host| ==> host[i] in old(host)
    {
      RemoveDisabled(EnabledIds(configTabs));
      WithoutAllSubset(old(host), Dropped(old(webviews), webviews));
      var items := BuildItems(configTabs, canon);
      tabs := items;
      selectedIndex := if |tabs| > 0 then 0 else -1;
    }

    /** BuildTabsFromConfig: Reconcile, then the SelectionChanged handler
        when the first tab gets selected, then the explicit call.  Both
        ensures run their synchronous part before any engine finishes
        initialising, so a reservation made by the first is a hit for the
        second. */
    method BuildTabsFromConfig(configTabs: seq<TabConfig>, theme: string, canon: string -> Option<string>)
      returns (first: Option<Ensured>, last: Ensured)
      requires Valid()
      modifies this, host`visibility
      ensures Valid()
      ensures forall i :: 0 <= i < |host| ==> host[i] in old(host) || fresh(host[i])
      ensures |tabs| == |EnabledTabs(configTabs)|
      ensures forall i :: 0 <= i < |tabs| ==> fresh(tabs[i]) && BuiltFrom(tabs[i], EnabledTabs(configTabs)[i], canon)
      ensures selectedIndex == if |tabs| > 0 then 0 else -1
      ensures first.Some? <==> |tabs| > 0
      ensures first.None? ==> last == NoSelection
      ensures first == Some(InvalidUrl) ==> last == InvalidUrl
      ensures first.Some? && first.value.Reserved? ==> last == Hit(first.value.session)
      ensures old(InStep()) && first.Some? && first.value.Hit? ==> last == Hit(first.value.existing)
    {
      Reconcile(configTabs, canon);
      first, last := EnsureAfterRebuild(theme, canon);
    }

    /** The end of BuildTabsFromConfig: the handler of the selection
        change, when a first tab got selected, then the explicit call. */
    method EnsureAfterRebuild(theme: string, canon: string -> Option<string>)
      returns (first: Option<Ensured>, last: Ensured)
      requires Valid() && selectedIndex == if |tabs| > 0 then 0 else -1
      modifies this, host`visibility
      ensures Valid()
      ensures forall i :: 0 <= i < |host| ==> host[i] in old(host) || fresh(host[i])
      ensures tabs == old(tabs) && selectedIndex == old(selectedIndex)
      ensures first.Some? <==> |tabs| > 0
      ensures first.None? ==> last == NoSelection
      ensures first == Some(InvalidUrl) ==> last == InvalidUrl
      ensures first.Some? && first.value.Reserved? ==> last == Hit(first.value.session)
      ensures old(InStep()) && first.Some? && first.value.Hit? ==> last == Hit(first.value.existing)
    {
      first := None;
      if |tabs| > 0 {
        var o := EnsureSelected(theme, canon);
        first := Some(o);
      }
      last := EnsureSelected(theme, canon);
    }

    /** RefreshBtn_Click: nothing without a selection or with a URL that
        does not normalise; a pooled engine that has finished initialising
        navigates again to the normalised URL, and when that Navigate
        throws (`navigateOk` false) the exception leaves the handler with
        nothing changed; otherwise the tab goes through
        EnsureWebViewForSelectedTab. */
    method RefreshClick(theme: string, canon: string -> Option<string>, navigateOk: bool) returns (r: Refreshed)
      requires Valid()
      modifies this, host`visibility, host`navigations
      ensures Valid()
      ensures r.Ignored? <==> SelectedTab().None? || NormalizeUrl(SelectedTab().value.url, canon).None?
      ensures r.Ignored? ==> webviews == old(webviews) && lru == old(lru) && host == old(host)
      ensures r.Renavigated? <==>
                && SelectedTab().Some? && NormalizeUrl(SelectedTab().value.url, canon).Some?
                && SelectedTab().value.id in old(webviews) && old(webviews)[SelectedTab().value.id].hasCore
                && navigateOk
      ensures r.NavigateThrew? <==>
                && SelectedTab().Some? && NormalizeUrl(SelectedTab().value.url, canon).Some?
                && SelectedTab().value.id in old(webviews) && old(webviews)[SelectedTab().value.id].hasCore
                && !navigateOk
      ensures r.NavigateThrew? ==>
                && r.target == old(webviews)[SelectedTab().value.id]
                && r.target.navigations == old(r.target.navigations)
                && webviews == old(webviews) && lru == old(lru) && host == old(host)
      ensures r.Renavigated? ==>
                && r.target == old(webviews)[SelectedTab().value.id]
                && r.target.navigations == old(r.target.navigations) + [NormalizeUrl(SelectedTab().value.url, canon).value]
                && webviews == old(webviews) && lru == old(lru) && host == old(host)
      ensures r.Ensured? ==> SelectedTab().Some? && (r.outcome.Reserved? <==> SelectedTab().value.id !in old(webviews))
    {
      var sel := SelectedTab();
      if sel.None? { return Ignored; }
      var tab := sel.value;
      var originalUrl := NormalizeUrl(tab.url, canon);
      if originalUrl.None? { return Ignored; }
      if tab.id in webviews && webviews[tab.id].hasCore {
        var wv := webviews[tab.id];
        if !navigateOk { return NavigateThrew(wv); }
        wv.navigations := wv.navigations + [originalUrl.value];
        return Renavigated(wv);
      }
      var o := EnsureWebViewForSelectedTab(theme, canon);
      r := Ensured(o);
    }

    /** The EffectiveThemeChanged handler: every pooled engine that has
        finished initialising takes the new page colour scheme. */
    method OnEffectiveThemeChanged(theme: string)
      modifies webviews.Values
      ensures forall s :: s in old(webviews.Values) ==>
                && (s.hasCore ==> s.scheme == Some(PreferredColorScheme(theme)))
                && (!s.hasCore ==> s.scheme == old(s.scheme))
                && s.visibility == old(s.visibility) && s.navigations == old(s.navigations)
    {
      var pending := webviews.Values;
      while pending != {}
        invariant pending <= webviews.Values
        invariant forall s :: s in webviews.Values && s !in pending ==>
                    && (s.hasCore ==> s.scheme == Some(PreferredColorScheme(theme)))
                    && (!s.hasCore ==> s.scheme == old(s.scheme))
                    && s.visibility == old(s.visibility) && s.navigations == old(s.navigations)
        invariant forall s :: s in pending ==> unchanged(s)
        decreases |pending|
      {
        var wv :| wv in pending;
        wv.UpdateTheme(theme);
        pending := pending - {wv};
      }
    }

    /** The ConfigChanged handler: the tabs are rebuilt with the effective
        theme as it was, then the configured theme is applied, and the
        EffectiveThemeChanged handler runs with the new effective theme. */
    method OnConfigChanged(config: AppConfig, themes: Theme.ThemeService, reg: Theme.RegistryRead,
                           canon: string -> Option<string>)
      requires Valid() && themes.Valid()
      modifies this, host, themes
      ensures Valid() && themes.Valid()
      ensures |tabs| == |EnabledTabs(config.tabs)|
      ensures forall i :: 0 <= i < |tabs| ==> BuiltFrom(tabs[i], EnabledTabs(config.tabs)[i], canon)
      ensures selectedIndex == if |tabs| > 0 then 0 else -1
      ensures EqualsIgnoreCase(config.theme, "System") ==> themes.currentEffectiveTheme == Theme.GetSystemTheme(reg)
      ensures !EqualsIgnoreCase(config.theme, "System") ==> themes.currentEffectiveTheme == config.theme
      ensures forall s :: s in webviews.Values && s.hasCore ==> s.scheme == Some(PreferredColorScheme(themes.currentEffectiveTheme))
    {
      var effective := themes.currentEffectiveTheme;
      var first, last := BuildTabsFromConfig(config.tabs, effective, canon);
      themes.ApplyTheme(config.theme, reg);
      assert forall v :: v in webviews.Values ==> v in host;
      OnEffectiveThemeChanged(themes.currentEffectiveTheme);
    }

    /** The removal loop over the pooled ids that are not enabled. */
    method RemoveDisabled(enabled: set<string>)
      requires Valid()
      modifies this
      ensures Valid()
      ensures tabs == old(tabs) && selectedIndex == old(selectedIndex)
      ensures forall id :: id in webviews <==> id in old(webviews) && id in enabled
      ensures forall id :: id in webviews ==> webviews[id] == old(webviews)[id]
      ensures lru == WithoutAll(old(lru), old(webviews).Keys - enabled)
      ensures host == WithoutAll(old(host), Dropped(old(webviews), webviews))
      ensures disposed == old(disposed) + Dropped(old(webviews), webviews)
      ensures old(InStep()) ==> InStep() && Elems(lru) <= enabled
    {
      var toRemove := set id | id in webviews && id !in enabled;
      ghost var w0, l0, h0, x0 := webviews, lru, host, disposed;
      ghost var done: set<string> := {};
      RemovedNone(webviews, lru, host, disposed);
      while toRemove != {}
        invariant Valid()
        invariant Removed(w0, l0, h0, x0, webviews, lru, host, disposed, done)
        invariant forall id :: id in toRemove <==> id in webviews && id !in enabled
        invariant forall id :: id in done ==> id !in enabled
        invariant tabs == old(tabs) && selectedIndex == old(selectedIndex)
        decreases |toRemove|
      {
        var id :| id in toRemove;
        RemoveStep(id, w0, l0, h0, x0, done);
        toRemove := toRemove - {id};
        done := done + {id};
      }
      RemovedAll(w0, l0, h0, x0, webviews, lru, host, disposed, done, enabled);
    }

    /** One pass of the removal loop, with the bookkeeping of what the
        loop has removed so far. */
    method RemoveStep(id: string, ghost w0: map<string, Session>, ghost l0: seq<string>,
                      ghost h0: seq<Session>, ghost x0: set<Session>, ghost done: set<string>)
      requires Valid() && id in webviews
      requires Removed(w0, l0, h0, x0, webviews, lru, host, disposed, done)
      modifies this
      ensures Valid()
      ensures Removed(w0, l0, h0, x0, webviews, lru, host, disposed, done + {id})
      ensures webviews == old(webviews) - {id}
      ensures tabs == old(tabs) && selectedIndex == old(selectedIndex)
    {
      ghost var w1, l1, h1, x1 := webviews, lru, host, disposed;
      RemoveSession(id);
      RemovedStep(w0, l0, h0, x0, w1, l1, h1, x1, done, id);
    }

    /** One pass of the removal loop.  Its `_lru.Remove(node)` cannot throw
        while the index is linked (Nodes.ForgetLinked). */
    method RemoveSession(id: string)
      requires Valid() && id in webviews
      modifies this
      ensures Valid()
      ensures tabs == old(tabs) && selectedIndex == old(selectedIndex)
      ensures webviews == old(webviews) - {id} && lru == Without(old(lru), id)
      ensures host == WithoutAll(old(host), {old(webviews)[id]}) && disposed == old(disposed) + {old(webviews)[id]}
    {
      var wv := webviews[id];
      PoolOkRollBack(webviews, lru, lruNodes, host, disposed, wv);
      WithoutAllSingle(host, wv);
      host := Without(host, wv);
      disposed := disposed + {wv};
      webviews := webviews - {id};
      if id in lruNodes {
        lru := Without(lru, id);
        lruNodes := lruNodes - {id};
      }
    }

    /** One pass of the loop body: the selected id at the head is moved to
        the recent end; any other head is dropped. */
    method EvictOnce(sel: Option<string>)
      requires Valid() && lru != [] && !(sel == Some(lru[0]) && |lru| == 1)
      modifies this
      ensures Valid()
      ensures Lru.Residency(webviews.Keys, lru) == Lru.EvictStep(Lru.Residency(old(webviews).Keys, old(lru)), sel)
      ensures forall id :: id in webviews ==> id in old(webviews) && webviews[id] == old(webviews)[id]
      ensures host == WithoutAll(old(host), Dropped(old(webviews), webviews))
      ensures disposed == old(disposed) + Dropped(old(webviews), webviews)
      ensures tabs == old(tabs) && selectedIndex == old(selectedIndex)
    {
      if sel == Some(lru[0]) {
        RotateHead();
        assert Dropped(old(webviews), webviews) == {};
        WithoutAllDisjoint(host, {});
      } else {
        DropHead();
      }
    }

    /** The selected head moves to the recent end, and its index entry
        names the new node: the corrected rotation (Nodes.Rotate).  As
        written the entry is left on the detached node
        (Nodes.RotateAsWrittenStale). */
    method RotateHead()
      requires Valid() && lru != []
      modifies this
      ensures Valid()
      ensures lru == old(lru)[1..] + [old(lru)[0]]
      ensures webviews == old(webviews) && host == old(host) && disposed == old(disposed)
      ensures tabs == old(tabs) && selectedIndex == old(selectedIndex)
    {
      PoolOkRotate(webviews, lru, lruNodes, host, disposed);
      lru := lru[1..] + [lru[0]];
    }

    /** Any other head leaves the list; its engine, if pooled, is unhosted,
        disposed and forgotten. */
    method DropHead()
      requires Valid() && lru != []
      modifies this
      ensures Valid()
      ensures lru == old(lru)[1..] && webviews == old(webviews) - {old(lru)[0]}
      ensures host == WithoutAll(old(host), Dropped(old(webviews), webviews))
      ensures disposed == old(disposed) + Dropped(old(webviews), webviews)
      ensures tabs == old(tabs) && selectedIndex == old(selectedIndex)
    {
      var idToEvict := lru[0];
      PopHead();
      if idToEvict in webviews {
        ghost var w1 := webviews;
        RemoveSession(idToEvict);
        DroppedOne(w1, idToEvict);
      } else {
        assert Dropped(old(webviews), webviews) == {};
        WithoutAllDisjoint(host, {});
      }
    }

    /** The oldest id leaves the recency list and its node index. */
    method PopHead()
      requires Valid() && lru != []
      modifies this
      ensures Valid()
      ensures lru == old(lru)[1..] && old(lru)[0] !in lruNodes
      ensures webviews == old(webviews) && host == old(host) && disposed == old(disposed)
      ensures tabs == old(tabs) && selectedIndex == old(selectedIndex)
    {
      var head := lru[0];
      DropHeadFacts(lru);
      lru := lru[1..];
      lruNodes := lruNodes - {head};
    }
  }

  /** The rebuild loop of BuildTabsFromConfig: one new item per enabled
      tab, in configuration order. */
  method BuildItems(configTabs: seq<TabConfig>, canon: string -> Option<string>) returns (items: seq<TabItemModel>)
    ensures |items| == |EnabledTabs(configTabs)|
    ensures forall i :: 0 <= i < |items| ==> fresh(items[i]) && BuiltFrom(items[i], EnabledTabs(configTabs)[i], canon)
  {
    items := [];
    ghost var built: seq<TabConfig> := [];
    var i := 0;
    while i < |configTabs|
      invariant 0 <= i <= |configTabs|
      invariant EnabledTabs(configTabs) == built + EnabledTabs(configTabs[i..])
      invariant |items| == |built|
      invariant forall k :: 0 <= k < |items| ==> fresh(items[k])
      invariant forall k :: 0 <= k < |items| ==> BuiltFrom(items[k], built[k], canon)
    {
      var c := configTabs[i];
      SuffixStep(configTabs, i);
      if c.enabled {
        var t := NewItem(c, canon);
        items := items + [t];
        built := built + [c];
      }
      i := i + 1;
    }
    assert configTabs[i..] == [];
  }

  /** The item initializer of BuildTabsFromConfig. */
  method NewItem(c: TabConfig, canon: string -> Option<string>) returns (t: TabItemModel)
    ensures fresh(t) && BuiltFrom(t, c, canon)
  {
    t := new TabItemModel(c.id, NormalizeUrl(c.url, canon).GetOr(""), c.name, NotLoaded,
                          if IsNullOrWhiteSpace(c.iconPath) then None else c.iconPath, false);
  }

  /** The state of the removal loop: the ids in `done` and only those were
      removed from the pool and the recency list, their engines unhosted
      and disposed. */
  ghost predicate Removed(w0: map<string, Session>, l0: seq<string>, h0: seq<Session>, x0: set<Session>,
                          w: map<string, Session>, l: seq<string>, h: seq<Session>, x: set<Session>,
                          done: set<string>)
  {
    && (forall id :: id in w <==> id in w0 && id !in done)
    && (forall id :: id in done ==> id in w0)
    && (forall id :: id in w ==> w[id] == w0[id])
    && l == WithoutAll(l0, done)
    && h == WithoutAll(h0, Dropped(w0, w))
    && x == x0 + Dropped(w0, w)
  }

  lemma RemovedNone(w: map<string, Session>, l: seq<string>, h: seq<Session>, x: set<Session>)
    ensures Removed(w, l, h, x, w, l, h, x, {})
  {
    assert Dropped(w, w) == {};
    WithoutAllDisjoint(h, {});
    WithoutAllDisjoint(l, {});
  }

  lemma RemovedStep(w0: map<string, Session>, l0: seq<string>, h0: seq<Session>, x0: set<Session>,
                    w1: map<string, Session>, l1: seq<string>, h1: seq<Session>, x1: set<Session>,
                    done: set<string>, id: string)
    requires Removed(w0, l0, h0, x0, w1, l1, h1, x1, done) && id in w1
    ensures Removed(w0, l0, h0, x0, w1 - {id}, Without(l1, id), WithoutAll(h1, {w1[id]}), x1 + {w1[id]}, done + {id})
  {
    WithoutAllStep(l0, done, id);
    DroppedOne(w1, id);
    ChainStep(w0, w1, w1 - {id}, h0, h1, WithoutAll(h1, {w1[id]}), x0, x1, x1 + {w1[id]});
  }

  lemma RemovedAll(w0: map<string, Session>, l0: seq<string>, h0: seq<Session>, x0: set<Session>,
                   w: map<string, Session>, l: seq<string>, h: seq<Session>, x: set<Session>,
                   done: set<string>, enabled: set<string>)
    requires Removed(w0, l0, h0, x0, w, l, h, x, done)
    requires forall id :: id in w ==> id in enabled
    requires forall id :: id in done ==> id !in enabled
    ensures done == w0.Keys - enabled
    ensures forall id :: id in w <==> id in w0 && id in enabled
  {
  }

  /** Sessions dropped in two stages are the ones dropped overall. */
  lemma DroppedChain(w0: map<string, Session>, w1: map<string, Session>, w2: map<string, Session>)
    requires forall k :: k in w1 ==> k in w0 && w1[k] == w0[k]
    requires forall k :: k in w2 ==> k in w1 && w2[k] == w1[k]
    ensures Dropped(w0, w2) == Dropped(w0, w1) + Dropped(w1, w2)
  {
  }

  /** Where the loop stops, eviction has nothing left to do. */
  lemma EvictStopped(s: Lru.Residency, sel: Option<string>)
    requires Distinct(s.lru)
    requires |s.pool| <= Lru.MaxAliveWebViews || s.lru == [] || (sel == Some(s.lru[0]) && |s.lru| == 1)
    ensures Lru.Evict(s, sel) == s
  {
  }

  /** The enabled tabs of a suffix: its head, if enabled, then the rest. */
  lemma SuffixStep(tabs: seq<TabConfig>, i: nat)
    requires i < |tabs|
    ensures EnabledTabs(tabs[i..]) == (if tabs[i].enabled then [tabs[i]] else []) + EnabledTabs(tabs[i + 1..])
  {
    assert tabs[i..][1..] == tabs[i + 1..];
  }

  /** Removing one key drops exactly its session. */
  lemma DroppedOne(w: map<string, Session>, id: string)
    requires id in w
    ensures Dropped(w, w - {id}) == {w[id]}
  {
  }

  /** Two stages of dropping compose into one. */
  lemma ChainStep(w0: map<string, Session>, w1: map<string, Session>, w2: map<string, Session>,
                  h0: seq<Session>, h1: seq<Session>, h2: seq<Session>,
                  x0: set<Session>, x1: set<Session>, x2: set<Session>)
    requires forall k :: k in w1 ==> k in w0 && w1[k] == w0[k]
    requires forall k :: k in w2 ==> k in w1 && w2[k] == w1[k]
    requires h1 == WithoutAll(h0, Dropped(w0, w1)) && x1 == x0 + Dropped(w0, w1)
    requires h2 == WithoutAll(h1, Dropped(w1, w2)) && x2 == x1 + Dropped(w1, w2)
    ensures forall k :: k in w2 ==> k in w0 && w2[k] == w0[k]
    ensures h2 == WithoutAll(h0, Dropped(w0, w2)) && x2 == x0 + Dropped(w0, w2)
  {
    DroppedChain(w0, w1, w2);
    WithoutAllUnion(h0, Dropped(w0, w1), Dropped(w1, w2));
  }

  lemma DropHeadFacts(lru: seq<string>)
    requires lru != [] && Distinct(lru)
    ensures Elems(lru[1..]) == Elems(lru) - {lru[0]} && Distinct(lru[1..])
  {
    assert lru == [lru[0]] + lru[1..];
  }
}
