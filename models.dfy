/** The configuration records (AppConfig, TabConfig) and the tab view item
    shown in the main window's tab list (TabItemModel). */
module Models {
  import opened Wrappers
  import opened Text

  /** One configured web destination. */
  datatype TabConfig = TabConfig(
    id: string,
    name: string,
    url: string,
    enabled: bool,
    iconPath: Option<string>)

  /** The persisted application configuration. */
  datatype AppConfig = AppConfig(
    tabs: seq<TabConfig>,
    startOnBoot: bool,
    theme: string)

  /** `new TabConfig()`: empty strings, enabled, no icon. */
  function NewTabConfig(): (t: TabConfig)
    ensures t.id == "" && t.name == "" && t.url == ""
    ensures t.enabled
    ensures t.iconPath == None
  {
    TabConfig("", "", "", true, None)
  }

  /** `new AppConfig()`: no tabs, not started on boot, dark theme. */
  function NewAppConfig(): (c: AppConfig)
    ensures c.tabs == []
    ensures !c.startOnBoot
    ensures c.theme == "Dark"
  {
    AppConfig([], false, "Dark")
  }

  /** The ids of the enabled tabs. */
  function EnabledIds(tabs: seq<TabConfig>): (ids: set<string>)
    ensures forall t :: t in tabs && t.enabled ==> t.id in ids
    ensures forall id :: id in ids ==> exists t :: t in tabs && t.enabled && t.id == id
  {
    set t | t in tabs && t.enabled :: t.id
  }

  /** The enabled tabs in configuration order. */
  function EnabledTabs(tabs: seq<TabConfig>): (r: seq<TabConfig>)
    ensures |r| <= |tabs|
  {
    if tabs == [] then []
    else if tabs[0].enabled then [tabs[0]] + EnabledTabs(tabs[1..])
    else EnabledTabs(tabs[1..])
  }

  /** The filter keeps exactly the enabled tabs, and their ids are the
      enabled ids. */
  lemma {:induction false} EnabledTabsMembers(tabs: seq<TabConfig>)
    ensures forall t :: t in EnabledTabs(tabs) <==> t in tabs && t.enabled
    ensures forall t :: t in EnabledTabs(tabs) ==> t.id in EnabledIds(tabs)
  {
    if tabs != [] {
      EnabledTabsMembers(tabs[1..]);
      assert tabs == [tabs[0]] + tabs[1..];
    }
  }

  /** The view item of one tab in the main window.  Id, Url and CustomTitle
      are only set when the item is built; the engine events update
      AutoTitle, IconPath and IsLoading in place. */
  class TabItemModel {
    const id: string
    const url: string
    const customTitle: string
    var autoTitle: string
    var iconPath: Option<string>
    var isLoading: bool

    /** `new TabItemModel()`. */
    constructor Default()
      ensures id == "" && url == "" && customTitle == "" && autoTitle == ""
      ensures iconPath == None
      ensures !isLoading
    {
      id, url, customTitle, autoTitle := "", "", "", "";
      iconPath := None;
      isLoading := false;
    }

    /** An object initializer setting every property. */
    constructor (id: string, url: string, customTitle: string, autoTitle: string,
                 iconPath: Option<string>, isLoading: bool)
      ensures this.id == id && this.url == url && this.customTitle == customTitle
      ensures this.autoTitle == autoTitle && this.iconPath == iconPath
      ensures this.isLoading == isLoading
    {
      this.id, this.url, this.customTitle := id, url, customTitle;
      this.autoTitle, this.iconPath, this.isLoading := autoTitle, iconPath, isLoading;
    }

    /** The title shown: the custom title unless it is blank, else the
        automatic one.  It is read from the current fields on every call. */
    function DisplayTitle(): (r: string)
      reads this
      ensures !IsBlank(customTitle) ==> r == customTitle
      ensures IsBlank(customTitle) ==> r == autoTitle
      ensures IsBlank(r) ==> IsBlank(customTitle) && IsBlank(autoTitle)
    {
      if !IsBlank(customTitle) then customTitle else autoTitle
    }

    /** The DocumentTitleChanged handler's assignment.  The displayed title
        follows it exactly when no custom title is set. */
    method SetAutoTitle(title: string)
      modifies this
      ensures autoTitle == title
      ensures iconPath == old(iconPath) && isLoading == old(isLoading)
      ensures IsBlank(customTitle) ==> DisplayTitle() == title
      ensures !IsBlank(customTitle) ==> DisplayTitle() == old(DisplayTitle())
    {
      autoTitle := title;
    }
  }
}
