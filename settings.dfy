/** The settings window: an editable copy of the configuration, the list
    editing buttons, and saving with the chosen theme. */
module Settings {
  import opened Wrappers
  import opened Seqs
  import opened Text
  import opened Models
  import Config
  import Theme

  /** The per-tab projection of LoadFromConfig: every field copied, a
      blank icon path replaced by null. */
  function CopyTab(t: TabConfig): (c: TabConfig)
    ensures c.id == t.id && c.name == t.name && c.url == t.url && c.enabled == t.enabled
    ensures IsNullOrWhiteSpace(t.iconPath) ==> c.iconPath == None
    ensures !IsNullOrWhiteSpace(t.iconPath) ==> c.iconPath == t.iconPath
  {
    t.(iconPath := if IsNullOrWhiteSpace(t.iconPath) then None else t.iconPath)
  }

  /** The editable tab list: the configured tabs, projected, in order. */
  function CopyForEditing(tabs: seq<TabConfig>): (r: seq<TabConfig>)
    ensures |r| == |tabs|
    ensures forall i :: 0 <= i < |tabs| ==> r[i] == CopyTab(tabs[i])
  {
    seq(|tabs|, i requires 0 <= i < |tabs| => CopyTab(tabs[i]))
  }

  /** After the copy no icon path is blank, and copying a copy changes
      nothing. */
  lemma CopyForEditingNormalises(tabs: seq<TabConfig>)
    ensures forall t :: t in CopyForEditing(tabs) ==> t.iconPath == None || !IsBlank(t.iconPath.value)
    ensures CopyForEditing(CopyForEditing(tabs)) == CopyForEditing(tabs)
  {
    var c := CopyForEditing(tabs);
    forall i | 0 <= i < |c| ensures CopyTab(c[i]) == c[i] {
      assert c[i] == CopyTab(tabs[i]);
    }
  }

  /** The theme the editor starts from: a blank setting reads as "Dark". */
  function EditedTheme(theme: string): (r: string)
    ensures IsBlank(theme) ==> r == "Dark"
    ensures !IsBlank(theme) ==> r == theme
  {
    if IsBlank(theme) then "Dark" else theme
  }

  /** `item.Tag?.ToString() ?? ""` for each theme combo item. */
  function TagTexts(tags: seq<Option<string>>): (r: seq<string>)
    ensures |r| == |tags|
    ensures forall i :: 0 <= i < |tags| ==> r[i] == tags[i].GetOr("")
  {
    seq(|tags|, i requires 0 <= i < |tags| => tags[i].GetOr(""))
  }

  /** The item Save_Click reads its theme from. */
  function ChosenTheme(tags: seq<Option<string>>, index: int): (r: string)
    ensures 0 <= index < |tags| && tags[index].Some? ==> r == tags[index].value
    ensures !(0 <= index < |tags| && tags[index].Some?) ==> r == "Dark"
  {
    if 0 <= index < |tags| then tags[index].GetOr("Dark") else "Dark"
  }

  /** The name AddTab_Click gives the tab appended to a list of `count`. */
  function NewTabName(count: nat): string {
    "网站 " + NatToString(count + 1)
  }

  /** Tabs added to lists of different lengths get different names. */
  lemma NewTabNamesDiffer(m: nat, n: nat)
    requires NewTabName(m) == NewTabName(n)
    ensures m == n
  {
    var p := "网站 ";
    assert NatToString(m + 1) == NewTabName(m)[|p|..];
    assert NatToString(n + 1) == NewTabName(n)[|p|..];
    NatToStringInjective(m + 1, n + 1);
  }

  class SettingsWindow {
    /** _editing.Tabs. */
    var tabs: seq<TabConfig>
    /** _editing.Theme. */
    var theme: string
    /** _editing.StartOnBoot. */
    var startOnBoot: bool
    /** The theme combo items' tags, in order. */
    const comboTags: seq<Option<string>>
    /** ThemeCombo.SelectedIndex (-1 for no selection). */
    var comboIndex: int

    /** `new SettingsWindow()`, which runs LoadFromConfig on `src`.  The
        combo box selects the first item whose tag is the theme, or the
        first item; the start-on-boot flag comes from the registry
        (`runOnStartup`), not from the configuration. */
    constructor (src: AppConfig, comboTags: seq<Option<string>>, runOnStartup: bool)
      ensures tabs == CopyForEditing(src.tabs)
      ensures theme == EditedTheme(src.theme)
      ensures this.comboTags == comboTags
      ensures 0 <= comboIndex < |comboTags| || (comboIndex == -1 && comboTags == [])
      ensures theme in TagTexts(comboTags) ==> comboIndex == IndexOf(TagTexts(comboTags), theme)
      ensures theme !in TagTexts(comboTags) && comboTags != [] ==> comboIndex == 0
      ensures startOnBoot == runOnStartup
    {
      var edited := EditedTheme(src.theme);
      var texts := TagTexts(comboTags);
      var found := false;
      var selected := -1;
      var i := 0;
      while i < |comboTags|
        invariant 0 <= i <= |comboTags|
        invariant edited !in texts[..i]
        invariant !found && selected == -1
      {
        if comboTags[i].GetOr("") == edited {
          selected := i;
          found := true;
          break;
        }
        assert texts[..i + 1] == texts[..i] + [texts[i]];
        i := i + 1;
      }
      if found {
        IndexOfFirst(texts, edited, i);
      } else {
        assert texts[..i] == texts;
      }
      tabs := CopyForEditing(src.tabs);
      theme := edited;
      this.comboTags := comboTags;
      comboIndex := if found then selected else if |comboTags| > 0 then 0 else -1;
      startOnBoot := runOnStartup;
    }

    /** ResetDefaults_Click: only a Yes answer replaces the list, by the
        default template, item by item. */
    method ResetDefaults(answeredYes: bool, newId: nat -> string, baseDir: string)
      modifies this
      ensures answeredYes ==> tabs == Config.GetDefaultTabs(newId, baseDir)
      ensures !answeredYes ==> tabs == old(tabs)
      ensures theme == old(theme) && startOnBoot == old(startOnBoot) && comboIndex == old(comboIndex)
    {
      if !answeredYes { return; }
      var defaults := Config.GetDefaultTabs(newId, baseDir);
      tabs := [];
      var i := 0;
      while i < |defaults|
        invariant 0 <= i <= |defaults|
        invariant tabs == defaults[..i]
        invariant theme == old(theme) && startOnBoot == old(startOnBoot) && comboIndex == old(comboIndex)
      {
        tabs := tabs + [defaults[i]];
        assert defaults[..i + 1] == defaults[..i] + [defaults[i]];
        i := i + 1;
      }
      assert defaults[..i] == defaults;
    }

    /** AddTab_Click: one enabled tab with an empty URL, no icon, a fresh
        id and the next number in its name. */
    method AddTab(newId: string)
      modifies this
      ensures tabs == old(tabs) + [TabConfig(newId, NewTabName(|old(tabs)|), "", true, None)]
      ensures theme == old(theme) && startOnBoot == old(startOnBoot) && comboIndex == old(comboIndex)
    {
      tabs := tabs + [TabConfig(newId, NewTabName(|tabs|), "", true, None)];
    }

    /** Delete_Click: the tab's first occurrence leaves the list. */
    method Delete(tab: TabConfig)
      modifies this
      ensures tabs == RemoveFirst(old(tabs), tab)
      ensures theme == old(theme) && startOnBoot == old(startOnBoot) && comboIndex == old(comboIndex)
    {
      tabs := RemoveFirst(tabs, tab);
    }

    /** MoveUp_Click: nothing happens for the first tab or a tab not in the
        list; otherwise the tab changes places with its predecessor.  The
        list keeps its elements either way. */
    method MoveUp(tab: TabConfig)
      modifies this
      ensures var idx := IndexOf(old(tabs), tab);
        && (idx <= 0 ==> tabs == old(tabs))
        && (idx > 0 ==> tabs == SwapAdjacent(old(tabs), idx - 1))
      ensures multiset(tabs) == multiset(old(tabs))
      ensures theme == old(theme) && startOnBoot == old(startOnBoot) && comboIndex == old(comboIndex)
    {
      var idx := IndexOf(tabs, tab);
      if idx <= 0 { return; }
      MoveEarlierIsSwap(tabs, idx);
      tabs := RemoveAt(tabs, idx);
      tabs := Insert(tabs, idx - 1, tab);
    }

    /** MoveDown_Click: nothing happens for the last tab or a tab not in
        the list; otherwise the tab changes places with its successor. */
    method MoveDown(tab: TabConfig)
      modifies this
      ensures var idx := IndexOf(old(tabs), tab);
        && (idx < 0 || idx >= |old(tabs)| - 1 ==> tabs == old(tabs))
        && (0 <= idx < |old(tabs)| - 1 ==> tabs == SwapAdjacent(old(tabs), idx))
      ensures multiset(tabs) == multiset(old(tabs))
      ensures theme == old(theme) && startOnBoot == old(startOnBoot) && comboIndex == old(comboIndex)
    {
      var idx := IndexOf(tabs, tab);
      if idx < 0 || idx >= |tabs| - 1 { return; }
      MoveLaterIsSwap(tabs, idx);
      tabs := RemoveAt(tabs, idx);
      tabs := Insert(tabs, idx + 1, tab);
    }

    /** Save_Click: the theme is the selected item's tag (or "Dark"), the
        start-on-boot flag the check box; the edited configuration is saved
        with ConfigChanged raised and the theme applied at once.  The
        startup registry entry is not modelled. */
    method SaveClick(bootChecked: bool, config: Config.ConfigService, writeOk: bool,
                     themes: Theme.ThemeService, reg: Theme.RegistryRead)
      requires themes.Valid()
      modifies this, config, themes
      ensures theme == ChosenTheme(comboTags, comboIndex) && startOnBoot == bootChecked
      ensures tabs == old(tabs)
      ensures config.current == Models.AppConfig(tabs, bootChecked, theme)
      ensures config.changedEvents ==
                old(config.changedEvents) + (if writeOk then [config.current] else [])
      ensures themes.Valid()
      ensures EqualsIgnoreCase(theme, "System") ==> themes.isListening
      ensures !EqualsIgnoreCase(theme, "System") ==> themes.currentEffectiveTheme == theme
    {
      if 0 <= comboIndex < |comboTags| {
        theme := comboTags[comboIndex].GetOr("Dark");
      } else {
        theme := "Dark";
      }
      startOnBoot := bootChecked;
      config.Save(AppConfig(tabs, startOnBoot, theme), true, writeOk);
      themes.ApplyTheme(theme, reg);
    }
  }

  /** The first index at which `x` occurs, named by its position. */
  lemma IndexOfFirst<T>(s: seq<T>, x: T, i: nat)
    requires i < |s| && s[i] == x && x !in s[..i]
    ensures IndexOf(s, x) == i
  {
    var k := IndexOf(s, x);
    assert forall j :: 0 <= j < i ==> s[..i][j] == s[j];
    assert forall j :: 0 <= j < k ==> s[..k][j] == s[j];
  }

  /** Saving without touching the theme combo keeps a theme that one of
      the items carries: what LoadFromConfig selected is what Save_Click
      reads back. */
  lemma ChosenThemeRoundTrip(tags: seq<Option<string>>, theme: string)
    requires theme != "" && theme in TagTexts(tags)
    ensures ChosenTheme(tags, IndexOf(TagTexts(tags), theme)) == theme
  {
    var i := IndexOf(TagTexts(tags), theme);
    assert TagTexts(tags)[i] == tags[i].GetOr("");
  }
}
