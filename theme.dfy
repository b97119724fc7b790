/** ThemeService: resolving the theme setting to an effective theme, the
    system-theme listener flag, and the swap of the theme resource
    dictionary.  The registry, the DWM call and WPF resource loading are
    oracles or left out; only the decisions around them are modelled. */
module Theme {
  import opened Wrappers
  import opened Text

  /** What reading HKCU\...\Themes\Personalize\AppsUseLightTheme gave. */
  datatype RegistryValue = DWord(i: int) | Str(s: string) | OtherKind
  datatype RegistryRead = NoKey | Throws | Value(v: RegistryValue)

  /** GetSystemTheme: "Light" only for the integer value 1; "Dark" for every
      other value, a missing key and a failing read. */
  function GetSystemTheme(reg: RegistryRead): (t: string)
    ensures t == "Light" <==> reg == Value(DWord(1))
    ensures t == "Light" || t == "Dark"
  {
    match reg
    case Value(DWord(i)) => if i == 1 then "Light" else "Dark"
    case _ => "Dark"
  }

  /** ApplyTitleBarTheme's test: the title bar is dark for "Dark" in any
      letter case. */
  predicate IsDarkTitleBar(theme: string) {
    EqualsIgnoreCase(theme, "Dark")
  }

  /** The value passed for DWMWA_USE_IMMERSIVE_DARK_MODE (attribute 20). */
  function ImmersiveDarkMode(theme: string): (v: int)
    ensures v == 1 <==> IsDarkTitleBar(theme)
    ensures v == 0 || v == 1
  {
    if IsDarkTitleBar(theme) then 1 else 0
  }

  const LightXaml: string := "Themes/Light.xaml"
  const DarkXaml: string := "Themes/Dark.xaml"

  /** The dictionary UpdateResourceDictionary loads. */
  function ThemeSource(theme: string): (src: string)
    ensures src == LightXaml <==> EqualsIgnoreCase(theme, "Light")
    ensures src == LightXaml || src == DarkXaml
  {
    if EqualsIgnoreCase(theme, "Light") then LightXaml else DarkXaml
  }

  /** A merged dictionary, by its Source (None when it has none), that
      the swap treats as a theme dictionary. */
  predicate IsThemeDictionary(source: Option<string>) {
    source.Some? && (Contains(source.value, LightXaml) || Contains(source.value, DarkXaml))
  }

  /** The first theme dictionary (FirstOrDefault), or -1. */
  function FirstThemeDictionary(merged: seq<Option<string>>): (i: int)
    ensures -1 <= i < |merged|
    ensures i >= 0 ==> IsThemeDictionary(merged[i])
    ensures forall k :: 0 <= k < |merged| && (i == -1 || k < i) ==> !IsThemeDictionary(merged[k])
  {
    if merged == [] then -1
    else if IsThemeDictionary(merged[0]) then 0
    else
      var j := FirstThemeDictionary(merged[1..]);
      if j == -1 then -1 else j + 1
  }

  /** The merged dictionary list after UpdateResourceDictionary(theme). */
  function SwapThemeDictionary(merged: seq<Option<string>>, theme: string): seq<Option<string>> {
    var i := FirstThemeDictionary(merged);
    (if i >= 0 then merged[..i] + merged[i + 1..] else merged) + [Some(ThemeSource(theme))]
  }

  /** The number of theme dictionaries in the list. */
  function CountTheme(merged: seq<Option<string>>): nat {
    if merged == [] then 0
    else (if IsThemeDictionary(merged[0]) then 1 else 0) + CountTheme(merged[1..])
  }

  /** The dictionaries that are not theme dictionaries, in order. */
  function NonTheme(merged: seq<Option<string>>): seq<Option<string>> {
    if merged == [] then []
    else (if IsThemeDictionary(merged[0]) then [] else [merged[0]]) + NonTheme(merged[1..])
  }

  lemma {:induction false} CountThemeConcat(a: seq<Option<string>>, b: seq<Option<string>>)
    ensures CountTheme(a + b) == CountTheme(a) + CountTheme(b)
    ensures NonTheme(a + b) == NonTheme(a) + NonTheme(b)
  {
    if a != [] {
      assert (a + b)[1..] == a[1..] + b;
      CountThemeConcat(a[1..], b);
    } else {
      assert a + b == b;
    }
  }

  lemma {:induction false} NoThemeBefore(merged: seq<Option<string>>, i: nat)
    requires i <= |merged|
    requires forall k :: 0 <= k < i ==> !IsThemeDictionary(merged[k])
    ensures CountTheme(merged[..i]) == 0 && NonTheme(merged[..i]) == merged[..i]
  {
    if i > 0 {
      assert merged[..i] == merged[..i - 1] + [merged[i - 1]];
      NoThemeBefore(merged, i - 1);
      CountThemeConcat(merged[..i - 1], [merged[i - 1]]);
      assert [merged[i - 1]][1..] == [];
    }
  }

  lemma ThemeSourceIsTheme(theme: string)
    ensures IsThemeDictionary(Some(ThemeSource(theme)))
  {
    var s := ThemeSource(theme);
    assert s[0..|s|] == s;
    assert OccursAt(s, s, 0);
  }

  /** Removing the first theme dictionary removes one from the count and
      none of the others. */
  lemma RemoveFirstTheme(merged: seq<Option<string>>, i: nat)
    requires i < |merged| && IsThemeDictionary(merged[i])
    requires forall k :: 0 <= k < i ==> !IsThemeDictionary(merged[k])
    ensures CountTheme(merged[..i] + merged[i + 1..]) == CountTheme(merged) - 1
    ensures NonTheme(merged[..i] + merged[i + 1..]) == NonTheme(merged)
  {
    var pre, post := merged[..i], merged[i + 1..];
    var rest := [merged[i]] + post;
    assert merged == pre + rest;
    NoThemeBefore(merged, i);
    CountThemeConcat(pre, rest);
    ConsTheme(merged[i], post);
    CountThemeConcat(pre, post);
  }

  lemma ConsTheme(x: Option<string>, post: seq<Option<string>>)
    requires IsThemeDictionary(x)
    ensures CountTheme([x] + post) == 1 + CountTheme(post)
    ensures NonTheme([x] + post) == NonTheme(post)
  {
    assert ([x] + post)[1..] == post;
  }

  /** Appending the new theme dictionary adds one to the count and none to
      the others. */
  lemma AppendTheme(merged: seq<Option<string>>, theme: string)
    ensures CountTheme(merged + [Some(ThemeSource(theme))]) == CountTheme(merged) + 1
    ensures NonTheme(merged + [Some(ThemeSource(theme))]) == NonTheme(merged)
  {
    var last := [Some(ThemeSource(theme))];
    ThemeSourceIsTheme(theme);
    assert last[1..] == [];
    assert CountTheme(last) == 1 && NonTheme(last) == [];
    CountThemeConcat(merged, last);
  }

  /** The swap removes one theme dictionary (the first), appends exactly
      one, the one for `theme`, and leaves the other dictionaries in their
      order: a list with at most one theme dictionary ends with exactly
      one. */
  lemma SwapKeepsOneTheme(merged: seq<Option<string>>, theme: string)
    ensures var r := SwapThemeDictionary(merged, theme);
      && r[|r| - 1] == Some(ThemeSource(theme))
      && NonTheme(r) == NonTheme(merged)
      && CountTheme(r) == (if CountTheme(merged) == 0 then 1 else CountTheme(merged))
  {
    var i := FirstThemeDictionary(merged);
    if i >= 0 {
      RemoveFirstTheme(merged, i);
      AppendTheme(merged[..i] + merged[i + 1..], theme);
    } else {
      NoThemeBefore(merged, |merged|);
      assert merged[..|merged|] == merged;
      AppendTheme(merged, theme);
    }
  }

  /** The kinds of UserPreferenceChanged notifications. */
  datatype PreferenceCategory = General | Color | Accessibility | Desktop | Icon | Keyboard
                              | Locale | Menu | Mouse | Policy | Power | Screensaver
                              | VisualStyle | Window

  /** ThemeService's static state. */
  class ThemeService {
    var currentEffectiveTheme: string
    var isListening: bool
    /** OnUserPreferenceChanged handlers attached to SystemEvents. */
    var subscriptions: nat
    /** The application's merged dictionaries, by Source. */
    var merged: seq<Option<string>>
    /** The arguments of the EffectiveThemeChanged invocations, in order. */
    var notified: seq<string>

    /** The flag mirrors the subscription: there is never more than one. */
    ghost predicate Valid()
      reads this
    {
      subscriptions == if isListening then 1 else 0
    }

    constructor (merged: seq<Option<string>>)
      ensures Valid() && currentEffectiveTheme == "Dark" && !isListening
      ensures this.merged == merged && notified == []
    {
      currentEffectiveTheme := "Dark";
      isListening := false;
      subscriptions := 0;
      this.merged := merged;
      notified := [];
    }

    /** StartSystemThemeListener: subscribes once, at most. */
    method StartSystemThemeListener()
      requires Valid()
      modifies this
      ensures Valid() && isListening && subscriptions == 1
      ensures currentEffectiveTheme == old(currentEffectiveTheme)
      ensures merged == old(merged) && notified == old(notified)
    {
      if isListening { return; }
      subscriptions := subscriptions + 1;
      isListening := true;
    }

    /** StopSystemThemeListener: unsubscribes when subscribed. */
    method StopSystemThemeListener()
      requires Valid()
      modifies this
      ensures Valid() && !isListening && subscriptions == 0
      ensures currentEffectiveTheme == old(currentEffectiveTheme)
      ensures merged == old(merged) && notified == old(notified)
    {
      if !isListening { return; }
      subscriptions := subscriptions - 1;
      isListening := false;
    }

    /** UpdateResourceDictionary. */
    method UpdateResourceDictionary(theme: string)
      modifies this
      ensures merged == SwapThemeDictionary(old(merged), theme)
      ensures currentEffectiveTheme == old(currentEffectiveTheme) && isListening == old(isListening)
      ensures subscriptions == old(subscriptions) && notified == old(notified)
    {
      var src := ThemeSource(theme);
      var i := FirstThemeDictionary(merged);
      if i >= 0 {
        merged := merged[..i] + merged[i + 1..];
      }
      merged := merged + [Some(src)];
    }

    /** ApplyTheme: "System" in any case follows the registry and turns the
        listener on; any other setting becomes the effective theme as it is
        and turns the listener off.  The title bars of the open windows are
        set from the same theme (see ImmersiveDarkMode). */
    method ApplyTheme(setting: string, reg: RegistryRead)
      requires Valid()
      modifies this
      ensures Valid()
      ensures EqualsIgnoreCase(setting, "System") ==> currentEffectiveTheme == GetSystemTheme(reg) && isListening
      ensures !EqualsIgnoreCase(setting, "System") ==> currentEffectiveTheme == setting && !isListening
      ensures merged == SwapThemeDictionary(old(merged), currentEffectiveTheme)
      ensures notified == old(notified) + [currentEffectiveTheme]
    {
      var target := setting;
      if EqualsIgnoreCase(setting, "System") {
        target := GetSystemTheme(reg);
        StartSystemThemeListener();
      } else {
        StopSystemThemeListener();
      }
      currentEffectiveTheme := target;
      UpdateResourceDictionary(target);
      notified := notified + [target];
    }

    /** OnUserPreferenceChanged: re-applies "System" only for a General or
        Color change and only while the configured theme is "System". */
    method OnUserPreferenceChanged(category: PreferenceCategory, configuredTheme: string, reg: RegistryRead)
      requires Valid()
      modifies this
      ensures Valid()
      ensures (category == General || category == Color) && EqualsIgnoreCase(configuredTheme, "System") ==>
                currentEffectiveTheme == GetSystemTheme(reg) && isListening
                && merged == SwapThemeDictionary(old(merged), currentEffectiveTheme)
                && notified == old(notified) + [currentEffectiveTheme]
      ensures !((category == General || category == Color) && EqualsIgnoreCase(configuredTheme, "System")) ==>
                currentEffectiveTheme == old(currentEffectiveTheme) && isListening == old(isListening)
                && merged == old(merged) && notified == old(notified)
    {
      if category == General || category == Color {
        if EqualsIgnoreCase(configuredTheme, "System") {
          assert EqualsIgnoreCase("System", "System");
          ApplyTheme("System", reg);
        }
      }
    }
  }

  /** A resolved "System" setting is always one of the two known themes. */
  lemma SystemResolvesToKnownTheme(reg: RegistryRead)
    ensures IsDarkTitleBar(GetSystemTheme(reg)) != EqualsIgnoreCase(GetSystemTheme(reg), "Light")
    ensures ThemeSource(GetSystemTheme(reg)) == LightXaml <==> reg == Value(DWord(1))
  {
    var t := GetSystemTheme(reg);
    if t == "Light" {
      assert !IsDarkTitleBar(t);
      assert EqualsIgnoreCase(t, "Light");
    } else {
      assert EqualsIgnoreCase(t, "Dark");
      assert !EqualsIgnoreCase(t, "Light");
    }
  }
}
