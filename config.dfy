/** ConfigService: the default tab template, loading with default
    substitution, and saving with the optional ConfigChanged event.  The
    JSON file is an oracle: what a read produced is a parameter, and a
    write either succeeds or throws. */
module Config {
  import opened Wrappers
  import opened Text
  import opened Models
  import opened Paths

  /** The bundled icon directory under the program's base directory. */
  function AssetsDir(baseDir: string): string {
    Combine(baseDir, "Assets")
  }

  /** One template entry; `newId(i)` stands for the i-th Guid.NewGuid(). */
  function DefaultTab(newId: nat -> string, i: nat, baseDir: string, name: string,
                      url: string, icon: string): (t: TabConfig)
    ensures t.id == newId(i) && t.name == name && t.url == url && t.enabled
    ensures t.iconPath == Some(Combine(AssetsDir(baseDir), icon))
  {
    TabConfig(newId(i), name, url, true, Some(Combine(AssetsDir(baseDir), icon)))
  }

  /** GetDefaultTabs: five enabled tabs in a fixed order, each with its icon
      under Assets and a fresh id. */
  function GetDefaultTabs(newId: nat -> string, baseDir: string): (r: seq<TabConfig>)
    ensures |r| == 5
    ensures forall i :: 0 <= i < |r| ==> r[i].enabled && r[i].id == newId(i) && r[i].iconPath.Some?
    ensures r[0].name == "ChatGPT" && r[1].name == "Kimi" && r[2].name == "腾讯元宝"
    ensures r[3].name == "Bohrium" && r[4].name == "Gemini"
  {
    [ DefaultTab(newId, 0, baseDir, "ChatGPT", "https://chat.openai.com/chat", "chatgpt.png"),
      DefaultTab(newId, 1, baseDir, "Kimi", "https://www.kimi.com/", "kimi.png"),
      DefaultTab(newId, 2, baseDir, "腾讯元宝", "https://yuanbao.tencent.com/", "yuanbao.png"),
      DefaultTab(newId, 3, baseDir, "Bohrium", "https://sdu.bohrium.com/", "bohrium.png"),
      DefaultTab(newId, 4, baseDir, "Gemini", "https://gemini.google.com/", "gemini.png") ]
  }

  lemma AssetsIsRelative()
    ensures "Assets" != [] && !IsPathRooted("Assets")
  {
    assert "Assets"[1] == 's';
  }

  /** A file placed in the Assets directory has "Assets" in its path,
      whatever the base directory. */
  lemma UnderAssets(baseDir: string, file: string)
    requires file != [] && !IsPathRooted(file)
    ensures Contains(Combine(AssetsDir(baseDir), file), "Assets")
  {
    AssetsIsRelative();
    CombineRelative(baseDir, "Assets");
    var mid :| AssetsDir(baseDir) == baseDir + mid + "Assets";
    CombineRelative(AssetsDir(baseDir), file);
    var mid2 :| Combine(AssetsDir(baseDir), file) == AssetsDir(baseDir) + mid2 + file;
    assert Combine(AssetsDir(baseDir), file) == (baseDir + mid) + "Assets" + (mid2 + file);
    ContainsMiddle(baseDir + mid, "Assets", mid2 + file);
  }

  lemma IconNameRelative(icon: string)
    requires |icon| >= 2 && icon[0] != '\\' && icon[0] != '/' && icon[1] != ':'
    ensures !IsPathRooted(icon)
  {
  }

  /** Every default icon path contains "Assets" (so the main window treats
      it as a bundled asset and still fetches the site's own icon). */
  lemma DefaultIconsAreAssets(newId: nat -> string, baseDir: string)
    ensures forall t :: t in GetDefaultTabs(newId, baseDir) ==>
              t.iconPath.Some? && ContainsIgnoreCase(t.iconPath.value, "Assets")
  {
    var r := GetDefaultTabs(newId, baseDir);
    var icons := ["chatgpt.png", "kimi.png", "yuanbao.png", "bohrium.png", "gemini.png"];
    forall i | 0 <= i < 5
      ensures r[i].iconPath == Some(Combine(AssetsDir(baseDir), icons[i]))
      ensures ContainsIgnoreCase(r[i].iconPath.value, "Assets")
    {
      IconNameRelative(icons[i]);
      UnderAssets(baseDir, icons[i]);
      ContainsIsContainsIgnoreCase(Combine(AssetsDir(baseDir), icons[i]), "Assets");
    }
  }

  /** What reading config.json produced: no file, a read or parse that
      threw, a JSON null, a record whose tab list is null (the Count access
      throws), or a record. */
  datatype ReadOutcome = NoFile | ReadFails | NullConfig | NullTabs | Parsed(config: AppConfig)

  /** The configuration LoadOrCreateDefault settles on. */
  function LoadedConfig(read: ReadOutcome, newId: nat -> string, baseDir: string): (c: AppConfig)
    ensures read.Parsed? && read.config.tabs != [] ==> c == read.config
    ensures read.Parsed? && read.config.tabs == [] ==>
              c == read.config.(tabs := GetDefaultTabs(newId, baseDir))
    ensures !read.Parsed? ==> c == AppConfig(GetDefaultTabs(newId, baseDir), false, "Dark")
  {
    match read
    case Parsed(cfg) =>
      if cfg.tabs == [] then cfg.(tabs := GetDefaultTabs(newId, baseDir)) else cfg
    case _ => AppConfig(GetDefaultTabs(newId, baseDir), false, "Dark")
  }

  /** Whatever the file held, the loaded configuration has at least one
      tab, and a parsed file keeps its start-on-boot flag and theme. */
  lemma LoadedConfigHasTabs(read: ReadOutcome, newId: nat -> string, baseDir: string)
    ensures |LoadedConfig(read, newId, baseDir).tabs| > 0
    ensures read.Parsed? ==> (LoadedConfig(read, newId, baseDir).startOnBoot == read.config.startOnBoot
                              && LoadedConfig(read, newId, baseDir).theme == read.config.theme)
    ensures !read.Parsed? ==> LoadedConfig(read, newId, baseDir) == NewAppConfig().(tabs := GetDefaultTabs(newId, baseDir))
  {
  }

  /** Loading what was loaded changes nothing: a parsed configuration with
      tabs is taken as it is. */
  lemma LoadedConfigStable(read: ReadOutcome, newId: nat -> string, baseDir: string)
    ensures var c := LoadedConfig(read, newId, baseDir);
            LoadedConfig(Parsed(c), newId, baseDir) == c
  {
    LoadedConfigHasTabs(read, newId, baseDir);
  }

  class ConfigService {
    const configDir: string
    const configPath: string
    var current: AppConfig
    /** The configuration last written to config.json, if any. */
    var persisted: Option<AppConfig>
    /** The arguments of the ConfigChanged invocations, in order. */
    var changedEvents: seq<AppConfig>

    /** `new ConfigService(appName)`; the local application data folder
        is a parameter. */
    constructor (appName: string, localAppData: string, file: Option<AppConfig>)
      ensures configDir == Combine(localAppData, appName)
      ensures configPath == Combine(configDir, "config.json")
      ensures current == NewAppConfig()
      ensures persisted == file && changedEvents == []
    {
      configDir := Combine(localAppData, appName);
      configPath := Combine(Combine(localAppData, appName), "config.json");
      current := NewAppConfig();
      persisted := file;
      changedEvents := [];
    }

    /** Save: Current is replaced even when the write throws; the event is
        raised only when asked for and only after a successful write. */
    method Save(config: AppConfig, raiseEvent: bool, writeOk: bool)
      modifies this
      ensures current == config
      ensures persisted == if writeOk then Some(config) else old(persisted)
      ensures changedEvents == old(changedEvents) + (if raiseEvent && writeOk then [config] else [])
    {
      current := config;
      if writeOk {
        persisted := Some(config);
        if raiseEvent {
          changedEvents := changedEvents + [current];
        }
      }
    }

    /** LoadOrCreateDefault: a parsed file is used (its empty tab list
        replaced by the template) and not written back; otherwise the
        defaults are saved without raising ConfigChanged. */
    method LoadOrCreateDefault(read: ReadOutcome, newId: nat -> string, baseDir: string, writeOk: bool)
      modifies this
      ensures current == LoadedConfig(read, newId, baseDir)
      ensures read.Parsed? ==> persisted == old(persisted)
      ensures !read.Parsed? ==> persisted == if writeOk then Some(current) else old(persisted)
      ensures changedEvents == old(changedEvents)
    {
      if read.Parsed? {
        current := read.config;
        if |current.tabs| == 0 {
          current := current.(tabs := GetDefaultTabs(newId, baseDir));
        }
        return;
      }
      current := AppConfig(GetDefaultTabs(newId, baseDir), false, "Dark");
      Save(current, false, writeOk);
    }
  }
}
