# AIBrowser, modelled in Dafny

AIBrowser is a small Windows desktop shell. It shows a fixed list of AI chat
sites as tabs, and each tab is backed by an embedded browser engine (WebView2).
This project models the application's core and proves properties of the model.

The core covers:

- the configuration records and their loading with defaults (`Config`, `Models`);
- URL normalisation of a tab's address (`Urls`);
- the main window's pool of live engines (`Shell`), keyed by tab id, with a
  least-recently-used list and a capacity of five. Eviction enforces the
  capacity once the recency list covers the pool; it drops the oldest
  engine but never the selected tab's. The recency bookkeeping is specified
  as functions in `Lru`, and the linked list with its node index behind it
  in `Nodes`;
- the engine event handlers: title, loading flag, and one icon fetch per
  engine;
- the icon download fallback chain (`Favicon`);
- the theme service: resolving the setting, the system listener, and the
  resource dictionary swap (`Theme`);
- the settings window's list editing (`Settings`).

The engine, HTTP, the file system, the registry, `Uri` parsing and the
message boxes have no Dafny counterpart. What they answered becomes a
parameter:

- `canon` stands for the `Uri` canonicalisation;
- `http`, `dom` and `saves` stand for the network, the page script and image
  decoding;
- `initOk` and `navigateOk` stand for whether the engine initialised and
  whether it navigated;
- `writeOk` stands for whether the JSON write succeeded;
- `RegistryRead` stands for the registry value.

Modules:

- `Wrappers`: `Option`.
- `Seqs`: sequence operations (`Without`, `IndexOf`, `RemoveAt`,
  `Insert`, `RemoveFirst`).
- `Text`: .NET white space, `Trim`, ordinal comparison ignoring case.
- `Paths`: `Path.Combine`.
- `Models`: `TabConfig`, `AppConfig` and `TabItemModel`.
- `Urls`, `Lru`, `Nodes`, `Config`, `Theme`, `Favicon`, `Settings`, `Shell`: as
  listed above.

## Model

| member | source | states |
|---|---|---|
| Models.NewTabConfig | AIBrowser/Models/AppConfig.cs:12-21 | a new tab record has empty id, name and URL, is enabled, and has no icon |
| Models.NewAppConfig | AIBrowser/Models/AppConfig.cs:3-10 | a new configuration has no tabs, is not started on boot, and has theme "Dark" |
| Models.EnabledIds | AIBrowser/MainWindow.xaml.cs:312 | an id is in the set exactly when some enabled configured tab has it |
| Models.EnabledTabsMembers | AIBrowser/MainWindow.xaml.cs:331-333 | the filtered list holds exactly the enabled tabs, and their ids are the enabled ids |
| Models.TabItemModel.Default | AIBrowser/Models/TabItemModel.cs:3-13 | a default item has empty strings, no icon, and is not loading |
| Models.TabItemModel.constructor | AIBrowser/MainWindow.xaml.cs:335-343 | the object initializer sets every property to its argument |
| Models.TabItemModel.DisplayTitle | AIBrowser/Models/TabItemModel.cs:15 | the custom title unless it is blank, else the automatic title; a blank result means both are blank |
| Models.TabItemModel.SetAutoTitle | AIBrowser/MainWindow.xaml.cs:230-233 | the automatic title is replaced; the displayed title follows it exactly when no custom title is set |
| Seqs.Without | AIBrowser/MainWindow.xaml.cs:106 | removes exactly the given element, keeps the order, and keeps a list free of duplicates |
| Seqs.WithoutAll | AIBrowser/MainWindow.xaml.cs:315-328 | removes exactly the elements of the set, keeping the order and the absence of duplicates |
| Seqs.WithoutTwice | AIBrowser/MainWindow.xaml.cs:106-107 | removing an element twice is removing it once |
| Seqs.WithoutAllUnion | AIBrowser/MainWindow.xaml.cs:315-328 | removing by two sets in turn is removing by their union |
| Seqs.IndexOf | AIBrowser/SettingsWindow.xaml.cs:131 | List.IndexOf: -1 exactly when the element is absent, otherwise the position of its first occurrence |
| Seqs.RemoveAt | AIBrowser/SettingsWindow.xaml.cs:134 | List.RemoveAt: elements before the index stay, later ones move down by one |
| Seqs.Insert | AIBrowser/SettingsWindow.xaml.cs:135 | List.Insert: the element sits at the index, and the others keep their order around it |
| Seqs.RemoveFirst | AIBrowser/SettingsWindow.xaml.cs:122 | List.Remove: an absent element changes nothing; otherwise one occurrence, the first, leaves the list |
| Seqs.MoveEarlierIsSwap | AIBrowser/SettingsWindow.xaml.cs:131-135 | RemoveAt followed by Insert one place earlier swaps the tab with its predecessor and keeps the multiset |
| Seqs.MoveLaterIsSwap | AIBrowser/SettingsWindow.xaml.cs:149-153 | RemoveAt followed by Insert one place later swaps the tab with its successor and keeps the multiset |
| Text.TrimStartShape | AIBrowser/MainWindow.xaml.cs:415 | TrimStart keeps a suffix, drops only white space, and the result does not start with white space |
| Text.TrimEndShape | AIBrowser/MainWindow.xaml.cs:415 | TrimEnd keeps a prefix, drops only white space, and the result does not end with white space |
| Text.TrimIsSlice | AIBrowser/MainWindow.xaml.cs:415 | Trim cuts the input only at white space, and the result has no white space at either end |
| Text.TrimEmptyIffBlank | AIBrowser/MainWindow.xaml.cs:415-416 | a string trims to empty exactly when it is white space only |
| Text.TrimIdempotent | AIBrowser/MainWindow.xaml.cs:415 | trimming twice is trimming once |
| Text.UpperAscii | AIBrowser/MainWindow.xaml.cs:423-424 | the ordinal upper-casing moves a to z down by 32 and leaves every other character alone |
| Text.ContainsIsContainsIgnoreCase | AIBrowser/MainWindow.xaml.cs:254-255 | an exact occurrence is also an occurrence that ignores case |
| Text.NatToString | AIBrowser/SettingsWindow.xaml.cs:109 | the decimal rendering is non-empty, digits only, and has no leading zero |
| Text.NatToStringRoundTrip | AIBrowser/SettingsWindow.xaml.cs:109 | reading the rendering back gives the number |
| Text.NatToStringInjective | AIBrowser/SettingsWindow.xaml.cs:109 | different numbers render differently |
| Paths.Combine | AIBrowser/Models/ConfigService.cs:22-23 | Path.Combine: an empty part yields the other, and a rooted second part replaces the first |
| Paths.CombineRelative | AIBrowser/Services/FaviconService.cs:15-19 | a relative name is appended after at most one separator |
| Paths.CombineInjective | AIBrowser/Services/FaviconService.cs:18-19 | two names combined with the same directory coincide only when they are the same name |
| Urls.NormalizeUrl | AIBrowser/MainWindow.xaml.cs:413-436 | blank text, or text without a dot or with a space, gives null; dotted text without http(s) gets "https://" prefixed; text with a scheme is what the Uri class makes of it |
| Urls.TrimKeeps | AIBrowser/MainWindow.xaml.cs:415 | text with no white space at either end is its own trim |
| Urls.FirstLetterRulesOut | AIBrowser/MainWindow.xaml.cs:423-424 | a first letter that differs ignoring case rules out the prefix |
| Urls.CompletesBareHost | AIBrowser/MainWindow.xaml.cs:421-427 | trimmed dotted text without a scheme is completed with https:// and nothing else |
| Urls.DelegatesToUri | AIBrowser/MainWindow.xaml.cs:428 | trimmed dotted text with a scheme is handed to the Uri class |
| Urls.BareHostGetsHttps | AIBrowser/MainWindow.xaml.cs:423-427 | "example.com" becomes "https://example.com", with no trailing slash |
| Urls.InnerTabIsKept | AIBrowser/MainWindow.xaml.cs:419 | only U+0020 counts as a space: a tab inside the text is kept |
| Urls.SchemeGoesToUri | AIBrowser/MainWindow.xaml.cs:423-428 | an upper-case HTTPS scheme is recognised and left to the Uri class |
| Urls.CompletedHostFacts | AIBrowser/MainWindow.xaml.cs:419-426 | a completed bare host is trimmed, dotted and has a scheme |
| Urls.RenormalizeUsesUri | AIBrowser/MainWindow.xaml.cs:338 | a bare host is completed once; normalising the stored result again hands it to the Uri class |
| Lru.MarkUsed | AIBrowser/MainWindow.xaml.cs:102-114 | the id ends the list, the ids are the old ones plus it, and the list stays free of duplicates |
| Lru.MarkUsedMovesToEnd | AIBrowser/MainWindow.xaml.cs:102-114 | the id occurs only at the end; the other ids keep their order; an unlisted id is appended |
| Lru.MarkUsedIdempotent | AIBrowser/MainWindow.xaml.cs:102-114 | marking twice is marking once |
| Lru.EvictAsWrittenSpins | AIBrowser/MainWindow.xaml.cs:118-130 | with more than five engines and only the selected id listed, the loop as written never leaves its guard |
| Lru.SpinWitness | AIBrowser/MainWindow.xaml.cs:118-130 | a concrete six-engine state on which the loop as written spins |
| Lru.StepShrinks | AIBrowser/MainWindow.xaml.cs:120-133 | a pass of the corrected loop keeps the list free of duplicates and lowers the measure |
| Lru.StepFacts | AIBrowser/MainWindow.xaml.cs:125-140 | a rotation changes neither the pool nor the listed ids; an eviction removes the oldest id from both |
| Lru.EvictRemovesTogether | AIBrowser/MainWindow.xaml.cs:116-142 | eviction removes ids from the pool only as they leave the list, never adds one, and changes nothing within capacity |
| Lru.EvictKeepsSelected | AIBrowser/MainWindow.xaml.cs:125-130 | the selected id stays pooled and listed |
| Lru.OthersStep | AIBrowser/MainWindow.xaml.cs:125-133 | a rotation leaves the other ids alone; an eviction takes the first of them |
| Lru.EvictDropsOldest | AIBrowser/MainWindow.xaml.cs:116-142 | the ids evicted are a prefix of the non-selected ids: the least recently used ones |
| Lru.EvictRestoresCapacity | AIBrowser/MainWindow.xaml.cs:116-142 | while list and pool agree, eviction brings the pool to exactly min(size, 5) and they still agree |
| Lru.EvictKeepsLast | AIBrowser/MainWindow.xaml.cs:125-130 | a selected id at the recent end stays there |
| Lru.MarkThenEvict | AIBrowser/MainWindow.xaml.cs:175-180 | mark then evict: list and pool agree, at most five remain, and the marked id is pooled and most recent |
| Lru.OrphanNeverEvicted | AIBrowser/MainWindow.xaml.cs:132-140 | a pooled id missing from the list is never evicted |
| Config.DefaultTab | AIBrowser/Models/ConfigService.cs:38-45 | a template entry is enabled, has a fresh id, and its icon lies in the Assets folder |
| Config.GetDefaultTabs | AIBrowser/Models/ConfigService.cs:30-75 | five enabled tabs with fresh ids and icons: ChatGPT, Kimi, 腾讯元宝, Bohrium, Gemini |
| Config.UnderAssets | AIBrowser/Models/ConfigService.cs:33-34 | a file placed in the Assets folder has "Assets" in its path, whatever the base directory |
| Config.DefaultIconsAreAssets | AIBrowser/Models/ConfigService.cs:44-72 | every default icon path contains "Assets", ignoring case |
| Config.LoadedConfig | AIBrowser/Models/ConfigService.cs:77-107 | a parsed file is used, with an empty tab list replaced by the template; otherwise the defaults with theme "Dark" |
| Config.LoadedConfigHasTabs | AIBrowser/Models/ConfigService.cs:77-107 | the loaded configuration always has tabs, and a parsed file keeps its flag and theme |
| Config.LoadedConfigStable | AIBrowser/Models/ConfigService.cs:85-93 | loading what was loaded gives it back |
| Config.ConfigService.constructor | AIBrowser/Models/ConfigService.cs:18-25 | the directory and file paths are combined from the local data folder and the application name |
| Config.ConfigService.Save | AIBrowser/Models/ConfigService.cs:109-121 | Current is replaced even when the write throws; the event fires only when requested and after a successful write |
| Config.ConfigService.LoadOrCreateDefault | AIBrowser/Models/ConfigService.cs:77-107 | Current becomes LoadedConfig; only the default path writes, and no event is raised |
| Theme.GetSystemTheme | AIBrowser/Services/ThemeService.cs:131-146 | "Light" exactly for the integer value 1, otherwise "Dark" |
| Theme.ImmersiveDarkMode | AIBrowser/Services/ThemeService.cs:63-68 | 1 exactly when the theme is "Dark" ignoring case, else 0 |
| Theme.ThemeSource | AIBrowser/Services/ThemeService.cs:75-77 | the Light dictionary exactly for "Light" ignoring case, else the Dark one |
| Theme.FirstThemeDictionary | AIBrowser/Services/ThemeService.cs:86-89 | the first merged dictionary whose source names a theme file, or -1 when there is none |
| Theme.SwapKeepsOneTheme | AIBrowser/Services/ThemeService.cs:86-92 | the swap ends with the new theme's dictionary, keeps the other dictionaries in order, and removes exactly one old theme dictionary |
| Theme.ThemeService.constructor | AIBrowser/Services/ThemeService.cs:16 | the effective theme starts as "Dark" and the listener as off |
| Theme.ThemeService.StartSystemThemeListener | AIBrowser/Services/ThemeService.cs:99-104 | results in exactly one subscription, however often it is called |
| Theme.ThemeService.StopSystemThemeListener | AIBrowser/Services/ThemeService.cs:106-111 | results in no subscription |
| Theme.ThemeService.UpdateResourceDictionary | AIBrowser/Services/ThemeService.cs:73-93 | the merged list becomes the swap for the theme |
| Theme.ThemeService.ApplyTheme | AIBrowser/Services/ThemeService.cs:18-48 | "System" in any case follows the registry and listens; any other setting is taken as it is and stops listening; the dictionary is swapped; the change is notified |
| Theme.ThemeService.OnUserPreferenceChanged | AIBrowser/Services/ThemeService.cs:113-129 | only a General or Color change with the setting "System" re-applies the theme; any other change alters nothing |
| Theme.SystemResolvesToKnownTheme | AIBrowser/Services/ThemeService.cs:131-146 | a resolved system theme is dark for the title bar exactly when it is not Light, and takes the Light dictionary exactly for value 1 |
| Favicon.IconPathShape | AIBrowser/Services/FaviconService.cs:15-19 | the cache file of a plain tab id lies directly in the icons folder and is named `{id}.png` |
| Favicon.IconPathsDistinct | AIBrowser/Services/FaviconService.cs:18-19 | distinct tab ids get distinct cache files |
| Favicon.DownloadBytes | AIBrowser/Services/FaviconService.cs:104-120 | null for a blank URL, a failed status or an exception; otherwise the body |
| Favicon.DomIconUrl | AIBrowser/Services/FaviconService.cs:42-57 | nothing when the DOM lookup threw or answered blank; the DOM's answer when the page URL does not parse; otherwise the answer or its resolution against the page |
| Favicon.Candidates | AIBrowser/Services/FaviconService.cs:42-73 | at most three URLs: a non-blank DOM URL first; for an absolute page URL, /favicon.ico and then Google s2 last |
| Favicon.AttemptsShape | AIBrowser/Services/FaviconService.cs:59-76 | the candidates are requested in order, every request but the last answered short, and the chain stops early only at an answer of at least 10 bytes |
| Favicon.AttemptsConcat | AIBrowser/Services/FaviconService.cs:59-73 | a later fallback is tried exactly when every earlier candidate answered short |
| Favicon.ChainSplit | AIBrowser/Services/FaviconService.cs:59-73 | /favicon.ico is requested exactly when the DOM step left the bytes short, and Google s2 right after it exactly when /favicon.ico answered short too |
| Favicon.ChainOfCandidates | AIBrowser/Services/FaviconService.cs:42-76 | the chain of the candidates, written out step by step for the DOM URL and the two fallbacks |
| Favicon.DomStep | AIBrowser/Services/FaviconService.cs:42-57 | plan A requests the DOM URL (resolved when it parses) exactly when it is not blank, and its bytes are that download |
| Favicon.TryDownloadFavicon | AIBrowser/Services/FaviconService.cs:21-102 | returns null or the cache path; a non-empty cached file needs no request; otherwise the requests are exactly Attempts of the Candidates: the DOM URL first, then /favicon.ico and Google s2 in order while answers are short; a save only for at least 10 bytes that decode |
| Favicon.FetchAndSave | AIBrowser/Services/FaviconService.cs:42-95 | after a cache miss the requests are exactly Attempts of the Candidates, and the icon is saved to the cache path (and that path returned) exactly when the last answer has at least 10 bytes and decodes |
| Favicon.FetchChain | AIBrowser/Services/FaviconService.cs:42-76 | plans A to C request exactly Attempts of the Candidates, and the bytes are the last request's answer |
| Favicon.ChainFacts | AIBrowser/Services/FaviconService.cs:42-76 | the chain has at most three non-blank URLs, each but the last answered short; with an absolute page URL it is never empty, and a still-short chain ended with /favicon.ico then Google s2; without one it holds at most the DOM URL |
| Favicon.AttemptsSingle | AIBrowser/Services/FaviconService.cs:59-76 | a single candidate is requested once, whatever it answers |
| Favicon.AttemptsPair | AIBrowser/Services/FaviconService.cs:59-76 | of two candidates the second is requested exactly when the first answered short |
| Favicon.NotBlankFavicon | AIBrowser/Services/FaviconService.cs:62 | the /favicon.ico fallback URL is never blank |
| Favicon.NotBlankGoogle | AIBrowser/Services/FaviconService.cs:71 | the Google s2 fallback URL is never blank |
| Settings.CopyTab | AIBrowser/SettingsWindow.xaml.cs:35-43 | every field is copied, and a blank icon path becomes null |
| Settings.CopyForEditing | AIBrowser/SettingsWindow.xaml.cs:35-43 | the edited list is the configured list copied in order |
| Settings.CopyForEditingNormalises | AIBrowser/SettingsWindow.xaml.cs:41-42 | no copied icon path is blank, and copying a copy changes nothing |
| Settings.EditedTheme | AIBrowser/SettingsWindow.xaml.cs:34 | a blank theme reads as "Dark" |
| Settings.TagTexts | AIBrowser/SettingsWindow.xaml.cs:54 | each combo item's tag, with a missing tag read as "" |
| Settings.ChosenTheme | AIBrowser/SettingsWindow.xaml.cs:163-166 | the selected item's tag, or "Dark" when there is no selection or no tag |
| Settings.NewTabNamesDiffer | AIBrowser/SettingsWindow.xaml.cs:109 | tabs added to lists of different lengths get different names |
| Settings.SettingsWindow.constructor | AIBrowser/SettingsWindow.xaml.cs:27-68 | the edited copy, the theme, the first combo item matching the theme (or item 0), and the boot flag taken from the registry |
| Settings.SettingsWindow.ResetDefaults | AIBrowser/SettingsWindow.xaml.cs:74-99 | only a Yes answer replaces the list, by the template |
| Settings.SettingsWindow.AddTab | AIBrowser/SettingsWindow.xaml.cs:104-115 | appends one enabled tab with an empty URL, no icon, a fresh id and the next number in its name |
| Settings.SettingsWindow.Delete | AIBrowser/SettingsWindow.xaml.cs:117-125 | the tab's first occurrence leaves the list |
| Settings.SettingsWindow.MoveUp | AIBrowser/SettingsWindow.xaml.cs:126-142 | the first or an absent tab changes nothing; otherwise the tab swaps with its predecessor; the list is a permutation |
| Settings.SettingsWindow.MoveDown | AIBrowser/SettingsWindow.xaml.cs:144-158 | the last or an absent tab changes nothing; otherwise the tab swaps with its successor; the list is a permutation |
| Settings.SettingsWindow.SaveClick | AIBrowser/SettingsWindow.xaml.cs:160-191 | the chosen theme and the check box are saved with the event raised, and the theme is applied |
| Settings.IndexOfFirst | AIBrowser/SettingsWindow.xaml.cs:52-59 | the combo scan's stopping index is the first index of the theme |
| Settings.ChosenThemeRoundTrip | AIBrowser/SettingsWindow.xaml.cs:49-62 | saving untouched reads back the theme the window selected on load |
| Shell.PreferredColorScheme | AIBrowser/MainWindow.xaml.cs:56-65 | a light page scheme exactly for "Light" ignoring case |
| Shell.DefaultBackground | AIBrowser/MainWindow.xaml.cs:185-192 | the dark grey background exactly for "Dark" as spelled |
| Shell.BackgroundAndSchemeAgreement | AIBrowser/MainWindow.xaml.cs:56-65 | a dark background always gets a dark scheme; a white background gets a dark scheme exactly when the theme is neither "Dark" nor "Light" ignoring case |
| Shell.LowerCaseDarkIsMixed | AIBrowser/MainWindow.xaml.cs:185-192 | "dark" in lower case gets a white background and a dark scheme |
| Shell.IconUrlFromScript | AIBrowser/MainWindow.xaml.cs:265-278 | an exception or a blank answer gives no icon, and an icon URL is never blank |
| Shell.Unquote | AIBrowser/MainWindow.xaml.cs:273-275 | one pair of quotes is dropped; a lone quote gives null, as the catch does |
| Shell.IconUrlRoundTrip | AIBrowser/MainWindow.xaml.cs:269-275 | a JSON-quoted href decodes back to the href, and an empty string decodes to no icon |
| Shell.ScriptIsUnquoted | AIBrowser/MainWindow.xaml.cs:272 | an answer with no white space at its ends is unquoted as it is |
| Shell.LoneQuoteIsNoIcon | AIBrowser/MainWindow.xaml.cs:273-277 | a lone quote gives no icon |
| Shell.DefaultTabsFetchIcons | AIBrowser/MainWindow.xaml.cs:254-262 | tabs from the template never keep their icon: their first successful navigation fetches one |
| Shell.FirstIndexWithId | AIBrowser/MainWindow.xaml.cs:288 | the first configured tab with the id, or -1 when there is none |
| Shell.WithIcon | AIBrowser/MainWindow.xaml.cs:288-291 | only the first tab with the id gets the path |
| Shell.Session.constructor | AIBrowser/MainWindow.xaml.cs:183-192 | a new engine is collapsed, has the theme's background, and has no core, scheme or navigation |
| Shell.Session.UpdateTheme | AIBrowser/MainWindow.xaml.cs:56-65 | an engine with a core takes the preferred scheme; one without a core is left alone |
| Shell.Session.OnNavigationStarting | AIBrowser/MainWindow.xaml.cs:236-239 | the tab is loading |
| Shell.Session.OnDocumentTitleChanged | AIBrowser/MainWindow.xaml.cs:230-233 | the tab's automatic title is the document title |
| Shell.Session.OnNavigationCompleted | AIBrowser/MainWindow.xaml.cs:243-262 | loading stops; a fetch starts exactly for the first successful navigation when the tab does not keep its icon |
| Shell.Session.ApplyFetchedIcon | AIBrowser/MainWindow.xaml.cs:281-294 | a blank path changes nothing; otherwise the tab and the first configured tab with the id get the path, saved without the event |
| Shell.PoolOkRotate | AIBrowser/MainWindow.xaml.cs:127-129 | rotating the selected head keeps the pool invariant, which holds the keys of the node index, not the nodes |
| Nodes.RemoveNode | AIBrowser/MainWindow.xaml.cs:106 | LinkedList.Remove(node) succeeds exactly when the node is in the list, and then takes out exactly that node |
| Nodes.MarkUsed | AIBrowser/MainWindow.xaml.cs:102-114 | a new id never throws; a listed id throws exactly when its entry names a node outside the list |
| Nodes.RotateAsWritten | AIBrowser/MainWindow.xaml.cs:127-128 | the rotation as written leaves the index as it was |
| Nodes.Rotate | AIBrowser/MainWindow.xaml.cs:127-128 | the corrected rotation builds the same list as the one as written; only the index entry differs |
| Nodes.DropHead | AIBrowser/MainWindow.xaml.cs:132-133 | the list loses exactly one node |
| Nodes.Forget | AIBrowser/MainWindow.xaml.cs:323-327 | an id without an entry changes nothing; the removal throws exactly when the entry names a node outside the list |
| Nodes.EmptyLinked | AIBrowser/MainWindow.xaml.cs:20-21 | the empty list and index of a new window are linked |
| Nodes.MarkUsedLinked | AIBrowser/MainWindow.xaml.cs:102-114 | with a linked index MarkWebViewUsed never throws, keeps the index linked, and moves the ids exactly as Lru.MarkUsed |
| Nodes.MarkUsedHit | AIBrowser/MainWindow.xaml.cs:104-108 | re-linking a listed id's own node keeps the index linked and is Lru.MarkUsed on the ids |
| Nodes.MarkUsedMiss | AIBrowser/MainWindow.xaml.cs:109-113 | a new node and entry for a new id keep the index linked and append the id |
| Nodes.RotateLinked | AIBrowser/MainWindow.xaml.cs:127-128 | the corrected rotation keeps the index linked and moves the head id to the end |
| Nodes.RotateIndex | AIBrowser/MainWindow.xaml.cs:127-128 | after the corrected rotation every entry names a node in the list |
| Nodes.RotatedDistinct | AIBrowser/MainWindow.xaml.cs:127-128 | moving the head to the end keeps the ids distinct and the same set |
| Nodes.RotateIds | AIBrowser/MainWindow.xaml.cs:127-128 | the rotation moves the head id to the end of the ids |
| Nodes.RotateTokens | AIBrowser/MainWindow.xaml.cs:127-128 | after the rotation every node in the list is older than the next identity |
| Nodes.DropHeadLinked | AIBrowser/MainWindow.xaml.cs:132-133 | dropping the oldest node and its entry keeps the index linked, and the ids lose their head |
| Nodes.DropHeadIndex | AIBrowser/MainWindow.xaml.cs:132-133 | after the eviction every remaining entry names a node still in the list |
| Nodes.ForgetLinked | AIBrowser/MainWindow.xaml.cs:323-327 | with a linked index the removal never throws, keeps the index linked, and takes the id out of the list |
| Nodes.RotateAsWrittenStale | AIBrowser/MainWindow.xaml.cs:127-128 | as written the ids turn correctly, but the rotated id's entry names a detached node: the index is not linked, and the next MarkWebViewUsed or removal of that id throws |
| Shell.PoolOkRollBack | AIBrowser/MainWindow.xaml.cs:204-206 | unhosting, disposing and forgetting an engine keeps the pool invariant |
| Shell.MainWindow.constructor | AIBrowser/MainWindow.xaml.cs:23-54 | the window starts empty, builds one item per enabled tab, selects the first, and applies the configured theme |
| Shell.MainWindow.SelectedTab | AIBrowser/MainWindow.xaml.cs:165 | the selected item exactly when the index names a tab |
| Shell.MainWindow.SelectedId | AIBrowser/MainWindow.xaml.cs:125 | the id of the selected item, if any |
| Shell.MainWindow.MarkWebViewUsed | AIBrowser/MainWindow.xaml.cs:102-114 | the recency list becomes Lru.MarkUsed, and nothing else changes |
| Shell.MainWindow.ShowOnly | AIBrowser/MainWindow.xaml.cs:151-158 | the target is visible and every other hosted engine is collapsed |
| Shell.MainWindow.EvictIfNeeded | AIBrowser/MainWindow.xaml.cs:116-142 | pool and list end as Lru.Evict says, and every evicted engine is unhosted and disposed |
| Shell.MainWindow.Advance | AIBrowser/MainWindow.xaml.cs:118-140 | one pass keeps the eviction target and lowers the measure |
| Shell.MainWindow.EvictOnce | AIBrowser/MainWindow.xaml.cs:120-140 | one pass is exactly Lru.EvictStep on the pool keys and the list |
| Shell.MainWindow.RotateHead | AIBrowser/MainWindow.xaml.cs:125-129 | the selected head moves to the recent end, under the corrected rotation (Nodes.Rotate) |
| Shell.MainWindow.DropHead | AIBrowser/MainWindow.xaml.cs:132-140 | the head leaves the list, and its engine, if pooled, is unhosted, disposed and forgotten |
| Shell.MainWindow.PopHead | AIBrowser/MainWindow.xaml.cs:132-133 | the head leaves the list and the node index |
| Shell.MainWindow.EnsureWebViewForSelectedTab | AIBrowser/MainWindow.xaml.cs:163-194 | no selection or bad URL changes nothing; a pooled tab is marked, shown and evicted around; otherwise a collapsed engine is hosted and pooled but not listed |
| Shell.MainWindow.EnsureSelected | AIBrowser/MainWindow.xaml.cs:163-194 | the same outcomes, and afterwards the selected tab's key names the existing or the newly reserved engine |
| Shell.MainWindow.Reuse | AIBrowser/MainWindow.xaml.cs:175-181 | the hit branch: mark, show and evict; with list and pool in step, at most five remain and the tab is most recent |
| Shell.MainWindow.Activate | AIBrowser/MainWindow.xaml.cs:177-179 | mark, show, evict: pool and list are Lru.Evict of the marked list |
| Shell.MainWindow.Reserve | AIBrowser/MainWindow.xaml.cs:183-194 | a new collapsed engine is hosted and pooled under the tab's id |
| Shell.MainWindow.CompleteEnsure | AIBrowser/MainWindow.xaml.cs:196-307 | failed init (or a disposed engine) rolls back; success sets the scheme and navigates; only a returning Navigate marks, shows and evicts |
| Shell.MainWindow.RollBack | AIBrowser/MainWindow.xaml.cs:202-208 | the engine is unhosted and disposed, and its key leaves the pool |
| Shell.MainWindow.ReserveThenRollBack | AIBrowser/MainWindow.xaml.cs:183-208 | a failed initialisation restores pool, list and host; only the disposal remains |
| Shell.MainWindow.Commit | AIBrowser/MainWindow.xaml.cs:300-302 | mark, show, evict after Navigate; with the list in step the pool is within capacity |
| Shell.MainWindow.RemoveDisabled | AIBrowser/MainWindow.xaml.cs:312-328 | exactly the pooled ids that are not enabled leave the pool, the list and the host, and their engines are disposed |
| Shell.MainWindow.RemoveSession | AIBrowser/MainWindow.xaml.cs:317-327 | one id leaves the pool and the list, and its engine is unhosted and disposed |
| Shell.MainWindow.RemoveStep | AIBrowser/MainWindow.xaml.cs:315-328 | one pass extends the loop's bookkeeping by the id |
| Shell.RemovedAll | AIBrowser/MainWindow.xaml.cs:314-328 | when the loop ends it has removed exactly the disabled pooled ids |
| Shell.BuildItems | AIBrowser/MainWindow.xaml.cs:330-344 | one new item per enabled tab, in configuration order |
| Shell.NewItem | AIBrowser/MainWindow.xaml.cs:335-343 | the item carries the id, the normalised URL or "", the name, "未加载", the icon or null, and is not loading |
| Shell.SuffixStep | AIBrowser/MainWindow.xaml.cs:331-333 | the enabled tabs of a suffix are its head, if enabled, then the rest |
| Shell.MainWindow.Reconcile | AIBrowser/MainWindow.xaml.cs:310-349 | pool pruned to the enabled ids, fresh items built from the enabled tabs in order, the first selected |
| Shell.MainWindow.EnsureAfterRebuild | AIBrowser/MainWindow.xaml.cs:349-351 | the selection change and the explicit call: a reservation by the first is a hit for the second |
| Shell.MainWindow.BuildTabsFromConfig | AIBrowser/MainWindow.xaml.cs:310-352 | Reconcile, then the ensures, whose second answer follows from the first |
| Shell.MainWindow.RefreshClick | AIBrowser/MainWindow.xaml.cs:396-411 | no selection or a bad URL is ignored; an initialised pooled engine navigates again, or its Navigate throws out of the handler with nothing changed; otherwise the tab is ensured |
| Shell.MainWindow.OnEffectiveThemeChanged | AIBrowser/MainWindow.xaml.cs:30-40 | every pooled engine with a core takes the new scheme, and nothing else changes |
| Shell.MainWindow.OnConfigChanged | AIBrowser/MainWindow.xaml.cs:43-50 | the tabs are rebuilt, the theme applied, and the core engines recoloured |

## Left out

- The startup registry entry (StartupService) is not modelled. SaveClick does not model it, and the constructor takes the flag it read as a parameter.
- ClearBrowserData, PopupWindow and the NewWindowRequested handler drive the browser engine and open windows. Only the engine's decision points are modelled.
- Window chrome is not modelled: the title bar drag, maximise and close, OnClosing hiding the window, ShowAndActivate, the settings singleton and About.
- ApplyTitleBarTheme's DWM call is not modelled; its value is `Theme.ImmersiveDarkMode`. The handler it installs to wait for a window handle is not modelled.
- Dispatcher.Invoke and async continuations are not modelled as concurrency. An await is split into a synchronous part (EnsureWebViewForSelectedTab) and a continuation (CompleteEnsure) that the caller runs later.
- Uri.TryCreate and Uri.ToString, HTTP, the file system, JSON serialisation, image decoding and the registry are oracle parameters.
- Guid.NewGuid is a parameter `newId`, and ids are assumed distinct only where a lemma says so.
- Disposal is recorded as a set of disposed engines on the window. The engine object itself is not modelled.
- ContentHost.Children.Remove removes the first occurrence. The model uses `Without`, which removes all occurrences; the pool invariant keeps the children distinct, so the two agree.
- The ItemsSource reset at MainWindow.xaml.cs:346-347 is not modelled separately. Setting SelectedIndex to 0 fires SelectionChanged, which is modelled as the first EnsureSelected call in EnsureAfterRebuild.
- On an empty tab list SelectedIndex is modelled as -1.
- Case-insensitive comparison folds ASCII letters only. Path.Combine follows the .NET rules for Windows separators and drive prefixes.
- TabItemModel.cs does not declare IsLoading, but MainWindow.xaml.cs assigns it at lines 238, 246 and 342. The model gives TabItemModel an `isLoading` field.
- TabConfig is a value, so List.IndexOf and List.Remove in the settings window compare by value, not by reference.
- Observed behaviour, modelled as written:
  - NormalizeUrl checks the URL before the pool is consulted.
  - A bare host gets "https://" with no trailing slash.
  - A download of 10 bytes or more that decodes is saved.
  - A Navigate that throws in RefreshBtn_Click is outside any try and leaves the click handler (the NavigateThrew outcome).
  - An engine whose Navigate throws stays pooled and hosted but never enters the recency list, so eviction never reaches it (Lru.OrphanNeverEvicted).
  - A rollback removes the tab's key whichever engine it names by then.
  - An engine disposed while it was initialising counts as an initialisation failure.
  - Handlers of live engines keep the TabItemModel they captured, even after a rebuild creates new items.
  - BuildTabsFromConfig runs with the effective theme from before ApplyTheme, and EffectiveThemeChanged runs synchronously at the end of ApplyTheme.
- Shell.MainWindow.EvictIfNeeded: it models the corrected loop, which also stops when the selected id is the only one left in the list (see Findings); as written, that case never exits.
- Shell.MainWindow.EnsureWebViewForSelectedTab: it has no ensures about the provenance of hosted engines. EnsureSelected states that.
- The window keeps the ids along `_lru` and the keys of `_lruNodes`, not the nodes. `Nodes` models the nodes and proves that the two views agree while every entry names its node in the list (Nodes.MarkUsedLinked, Nodes.RotateLinked, Nodes.DropHeadLinked, Nodes.ForgetLinked).
- Shell.PoolOkRotate: the invariant holds the keys of the node index only. That each entry names its own node holds for the corrected rotation (Nodes.RotateLinked) and fails for the rotation as written (Nodes.RotateAsWrittenStale; see Findings).
- Shell.MainWindow.RotateHead: it models the corrected rotation, which points the entry at the new node. As written the entry keeps the detached node (see Findings).
- Shell.MainWindow.MarkWebViewUsed: it has no throwing outcome. Under the corrected rotation `_lru.Remove(node)` at line 106 cannot throw (Nodes.MarkUsedLinked); as written it throws after a rotation of the same id (Nodes.RotateAsWrittenStale).
- Shell.MainWindow.RemoveSession: it has no throwing outcome. Under the corrected rotation `_lru.Remove(node)` at line 325 cannot throw (Nodes.ForgetLinked); as written it throws after a rotation of the same id (Nodes.RotateAsWrittenStale).
- Shell.MainWindow.RefreshClick: in the Ensured case its contract states only which outcome occurred. The state is described by EnsureWebViewForSelectedTab's contract.
- Shell.MainWindow.OnConfigChanged: it does not restate the pool after the rebuild. Reconcile and BuildTabsFromConfig state it.

## Findings

| source | as written | input that shows it | evidently intended | confidence | as-written member | corrected member |
|---|---|---|---|---|---|---|
| AIBrowser/MainWindow.xaml.cs:118-130 | `while (_webviews.Count > 5)` rotates the selected head to the end and `continue`s when it is the selected tab | six pooled engines (five still initialising, or orphaned by a failed Navigate) and a recency list holding only the selected tab's id: every pass rotates that id onto itself | stop once the only id left to consider is the selected one | not executed | Lru.EvictAsWrittenSpins | Shell.MainWindow.EvictIfNeeded |
| AIBrowser/MainWindow.xaml.cs:127-128 | the rotation `_lru.RemoveFirst(); _lru.AddLast(idToEvict);` makes a new node for the selected id but leaves `_lruNodes[idToEvict]` on the detached one | the selected id at the head of the list when the loop runs with six engines pooled, for example a pooled tab whose URL was edited to an invalid one is selected (so no MarkWebViewUsed moves it) while another tab's engine finishes initialising; afterwards MarkWebViewUsed of that id (line 106) or its removal in BuildTabsFromConfig (line 325) calls `_lru.Remove` on the detached node and throws InvalidOperationException | point the entry at the new node, as `_lruNodes[id] = _lru.AddLast(id)` does in MarkWebViewUsed | not executed | Nodes.RotateAsWrittenStale | Nodes.RotateLinked |
