# Game catalog of RetroPangui EmulationStation, in Dafny

This project models the game-catalog core of the RetroPangui fork of
EmulationStation, a front end that lists a system's games and launches them
through libretro cores. The model covers these parts:

- **The catalog tree.** `FileData` nodes are games or folders. A folder owns
  an ordered child list and an index from key to child. The key is the file
  name, or the full path for a collection alias (`CollectionFileData`).
- **`addChild` / `removeChild`.** The folder operations keep the list, the
  index and the parent links in agreement.
- **Recursive stable sort and sort types.** A folder's children are sorted
  stably, ascending or descending, and every child with children is then
  sorted in turn. A sort type is looked up by its description.
- **`getFilesRecursive`.** The pre-order list of every descendant whose type
  matches a type mask, optionally narrowed by the filter.
- **`getChildrenListToDisplay`.** The list a folder shows, under the
  "ShowFolders" setting (ALL, SCRAPED, AUTO or another value):
  - a pass-through when nothing filters;
  - the children that pass the filter;
  - the registered games of the gamelist (SCRAPED);
  - registered games first, then the AUTO collapse of folders into their
    `.m3u` or lone `.cue`, with a `.bin` hidden behind its `.cue` sheet.
- **Names.** `getName`, `getSortName`, and a collection alias's cached label.
- **Launching a game, without the process spawn.**
  - The core is chosen by the ROM's extension.
  - The placeholders %CORE%, %CONFIG%, %ROM%, %BASENAME% and %ROM_RAW% are
    substituted in that order.
  - The template and the cores come from the file's environment; %CONFIG%
    names the system that owns the object, which for a collection alias is
    the collection (see "## Findings").
  - The launch bookkeeping counts the play on the source game: its
    "playcount" goes up and its "lastplayed" is set.
- **The emulator-settings menu.**
  - Each system's list marks the current default core.
  - Saving a new default bumps every priority, makes the chosen core
    priority 1 and re-sorts the cores.
  - An option list keeps the user's current setting selectable.

Layout, one module per file:

| file | module | what it holds |
|---|---|---|
| `wrappers.dfy` | `Wrappers` | `Option`, and `Outcome` (a run that passes, or one that fails an `assert`) |
| `paths.dfy` | `Paths` | the path and string helpers the core calls: file name, parent, extension, stem, lower/upper case, `replace`, shell escaping, `removeParenthesis` |
| `metadata.dfy` | `MetaData` | the metadata list: a key→value map with a changed flag, integer fields, sort name, launch bookkeeping |
| `sorting.dfy` | `Sorting` | strict weak orders, stable insertion sort, the descending order through a reversed view |
| `file_tree.dfy` | `FileTree` | the catalog tree as a value, type masks, `getFilesRecursive`, the path search, the recursive sort, sort types |
| `display.dfy` | `Display` | `getChildrenListToDisplay`, as a specification function and as the loops of the source |
| `catalog.dfy` | `Catalog` | the `FileData` class: ownership, keys, aliases, names, the launch count |
| `template.dfy` | `Template` | a command template as text and placeholders, and what `replace` does to it |
| `launch.dfy` | `Launch` | core selection and the command template |
| `emulator_settings.dfy` | `EmulatorSettings` | the default-emulator save and the option-list rule |

The filter index (`FileFilterIndex`) is passed in as a `FilterIndex`: an
`isFiltered` flag and a `showFile` predicate. Several other inputs become
parameters:

- the "ShowFolders" setting;
- the "CollectionShowSystemInfo" setting;
- the set of registered gamelist paths, in set order;
- the set of files that exist on disk;
- the current time.

## Model

| member | source | states |
|---|---|---|
| `FileTree.JoinKey` | es-app/src/FileData.cpp:398-400 | a plain file's key is a bare file name (no '/'); an alias's key is its full path |
| `FileTree.FilesRecursiveSpec` | es-app/src/FileData.cpp:375-396 | `getFilesRecursive` is the pre-order list of descendants whose type is in the mask and that pass the filter when asked; the receiver is never in it; with `displayedOnly` false the filter is ignored |
| `FileTree.SelectAllSub` | es-app/src/FileData.cpp:380-392 | every node returned is a descendant that matches the mask (and the filter) |
| `FileTree.SelectAllComplete` | es-app/src/FileData.cpp:380-392 | every descendant that matches the mask (and the filter) is returned, including those under folders that do not match |
| `FileTree.FindFileByPathSpec` | es-app/src/FileData.cpp:145-158 | the path search returns the first game in pre-order with that path; it returns nothing exactly when no game of the subtree has that path, and never returns a folder |
| `FileTree.FirstWithPathSpec` | es-app/src/FileData.cpp:147-155 | the first node with a path is a member with that path, and none exists when the search fails |
| `FileTree.Sort` | es-app/src/FileData.cpp:451-471 | the in-place recursive sort computes `SortTree`: the children stably ordered, and each child with children sorted in turn |
| `FileTree.SortForward` | es-app/src/FileData.cpp:456-460 | the ascending pass sorts each child that has children, front to back, and leaves the others as they are |
| `FileTree.SortBackward` | es-app/src/FileData.cpp:465-469 | the descending pass does the same back to front |
| `FileTree.SortTreeLevel` | es-app/src/FileData.cpp:453-464 | after the sort, a folder's children are a permutation of the old ones; they are non-decreasing (ascending) or non-increasing (descending); equivalent children keep their relative order either way |
| `FileTree.SortTreeIsSorted` | es-app/src/FileData.cpp:451-471 | after the sort, every folder of the tree is in order, all the way down |
| `FileTree.SortTreeChildren` | es-app/src/FileData.cpp:456-469 | a sorted folder's child at each place keeps the file of the ordered child there; it is sorted itself when it has children and unchanged otherwise |
| `FileTree.SortByType` | es-app/src/FileData.cpp:473-477 | sorting by a sort type sorts with its comparator and direction and records its description |
| `FileTree.SortTypeIndex` | es-app/src/FileData.cpp:620-633 | the lookup finds the first sort type with the description, or falls back to entry 0 when there is none |
| `FileTree.SortTypeFromString` | es-app/src/FileData.cpp:620-633 | the sort type returned has the description asked for, or is the first entry |
| `Sorting.OrderSpec` | es-app/src/FileData.cpp:453-464 | for a strict weak order: a permutation, sorted ascending or descending, and stable in both directions (`stable_sort` on the reversed view) |
| `Sorting.StableSortStable` | es-app/src/FileData.cpp:455 | the insertion sort keeps each equivalence class in input order |
| `Sorting.StableSortSorted` | es-app/src/FileData.cpp:455 | the insertion sort's result is non-decreasing |
| `Sorting.ClassReverse` | es-app/src/FileData.cpp:464 | reversing a sequence reverses each equivalence class, which makes the reverse-sort-reverse descending order stable |
| `Display.ParseShowFolders` | es-app/src/FileData.cpp:112-115 | the setting string "ALL", "SCRAPED" or "AUTO" gives that mode, and any other string is `Other` with that string, never one of the three |
| `Display.ShouldShowFile` | es-app/src/FileData.cpp:161-182 | a file is hidden exactly when its lower-cased extension is `.bin` and `<parent>/<stem>.cue` exists |
| `Display.DisplayOtherModes` | es-app/src/FileData.cpp:296-312 | outside SCRAPED and AUTO a folder shows the children that pass the filter, in their order: there is an increasing choice of child positions whose children are exactly the list, and a position is chosen exactly when its child passes; with nothing filtering, the list is the children as they are |
| `Display.FilterChildrenPicks` | es-app/src/FileData.cpp:297-304 | the filter loop's result is the children at the passing positions, listed in increasing order, and a position is listed exactly when its child passes |
| `Display.RegisteredMembers` | es-app/src/FileData.cpp:185-196 | SCRAPED shows at most one node per registered path; each is a game of the subtree with a registered path that passes the filter; every registered path whose game is found and passes contributes it |
| `Display.RegisteredDistinct` | es-app/src/FileData.cpp:187-194 | with the paths in set order, no two registered games shown share a path |
| `Display.AddedPathsSpec` | es-app/src/FileData.cpp:203-210 | the paths AUTO records as added are exactly the registered paths whose game was found and passed the filter |
| `Display.SkippedFolder` | es-app/src/FileData.cpp:222-236 | a folder's scan finds an added game exactly when a game of its subtree has an added path |
| `Display.LastWithExt` | es-app/src/FileData.cpp:244-249 | the scan keeps the last game of the subtree with the extension, and has none exactly when no game has it |
| `Display.CountPlayable` | es-app/src/FileData.cpp:244-256 | the playable count is at most the number of games, and is zero exactly when none of them is a `.cue`, `.chd`, `.iso` or `.pbp` |
| `Display.LoneCue` | es-app/src/FileData.cpp:267-273 | with exactly one playable file and a `.cue` present, that `.cue` is the only playable file |
| `Display.AutoFolder` | es-app/src/FileData.cpp:223-276 | a folder child contributes at most one node; anything other than the folder itself is a game of its subtree that passes the filter, from a folder none of whose games was added |
| `Display.AutoChild` | es-app/src/FileData.cpp:218-291 | every child contributes at most one node, and that node passes the filter |
| `Display.AutoFolderSkipped` | es-app/src/FileData.cpp:224-237 | a folder one of whose games was already added as registered shows nothing |
| `Display.AutoFolderM3u` | es-app/src/FileData.cpp:244-264 | otherwise, when its games hold an `.m3u`, the last `.m3u` in `getFilesRecursive` order shows, or nothing when the filter hides it |
| `Display.AutoFolderLoneCue` | es-app/src/FileData.cpp:244-272 | otherwise, with no `.m3u`, exactly one playable game and a `.cue` among the games, that `.cue` shows, or nothing when the filter hides it |
| `Display.AutoFolderItself` | es-app/src/FileData.cpp:258-276 | in every remaining case (no `.m3u`, and not exactly one playable game with a `.cue`) the folder itself shows |
| `Display.M3uCollapse` | es-app/src/FileData.cpp:258-264 | a folder holding a `.cue`, a `.bin` and an `.m3u`, none registered and nothing filtered, shows the `.m3u` alone |
| `Display.CueCollapse` | es-app/src/FileData.cpp:266-272 | a folder holding a `.cue` and a `.bin`, none registered and nothing filtered, shows the `.cue` alone |
| `Display.TwoCuesKeepFolder` | es-app/src/FileData.cpp:274-276 | a folder holding two `.cue` sheets shows the folder itself |
| `Display.AutoGameShape` | es-app/src/FileData.cpp:278-291 | a game child added as registered is not shown again; otherwise it is shown unless it is a `.bin` with its cue sheet on disk or the filter hides it |
| `Display.AutoNeverRepeats` | es-app/src/FileData.cpp:278-282 | the AUTO collapse never shows a game whose path was already added |
| `Display.AutoChildrenSound` | es-app/src/FileData.cpp:213-292 | everything the AUTO collapse shows passes the filter and lies in the folder's subtree |
| `Display.DisplaySound` | es-app/src/FileData.cpp:109-313 | in every mode, every node shown passes the filter and lies in the folder's subtree |
| `Display.FilterChildren` | es-app/src/FileData.cpp:296-305 | the other modes show exactly the children that pass the filter, never more than there are |
| `Display.ScanFolder` | es-app/src/FileData.cpp:238-257 | the scan loop over a folder's games finds the last `.m3u`, the last `.cue` and the playable count |
| `Display.HasRegisteredGame` | es-app/src/FileData.cpp:224-231 | the search loop finds an added game exactly when one exists |
| `Display.AutoStep` | es-app/src/FileData.cpp:217-291 | one turn of the AUTO loop emits what the specification function gives for that child |
| `Display.CollectRegistered` | es-app/src/FileData.cpp:202-211 | the registered-games loop builds the registered list and the added-path set |
| `Display.CollapseChildren` | es-app/src/FileData.cpp:213-292 | the AUTO loop over the children builds the collapse |
| `Display.KeepShown` | es-app/src/FileData.cpp:296-305 | the filter loop keeps the children that pass |
| `Display.ChildrenListToDisplay` | es-app/src/FileData.cpp:109-313 | the whole projection, as its loops compute it, equals the specification function |
| `Paths.PathSplits` | es-app/src/FileData.cpp:170-171 | parent, "/", stem and extension put back together give the path, so the `.cue` sheet of a `.bin` is its sibling with the same stem |
| `Paths.ReplaceAbsent` | es-app/src/FileData.cpp:536-538 | replacing a placeholder the text does not contain leaves the text unchanged |
| `Paths.RemoveParenthesis` | es-app/src/FileData.cpp:609 | the base of an alias's label keeps no '(' or '[' group and no surrounding spaces |
| `MetaData.SortName` | es-app/src/FileData.cpp:101-107 | the sort name is "sortname" when set, otherwise "name"; it is empty only when both are |
| `MetaData.RecordLaunchCounts` | es-app/src/FileData.cpp:560-564 | a launch raises "playcount" by exactly one, sets "lastplayed" to the launch time, leaves every other field alone and marks the metadata changed |
| `MetaData.ParseIntToString` | es-app/src/FileData.cpp:561-562 | writing a count and reading it back gives the count |
| `Catalog.FileData.constructor` | es-app/src/FileData.cpp:25-33 | a new file keeps its environment and owning system, and its system name is the owner's; it has no parent and no children; a missing name is filled from the path's stem; the metadata starts unchanged |
| `Catalog.FileData.Alias` | es-app/src/FileData.cpp:572-598 | an alias of an alias points to the root source; it takes the source's type, path, environment and metadata; it is owned by the collection it is made for, while its system name is the source's system; its key is the full path; it starts dirty and parentless |
| `Catalog.FileData.AddChild` | es-app/src/FileData.cpp:417-429 | a fresh key is appended last, indexed and parented; a duplicate key changes nothing and the node stays parentless; the folder stays consistent either way |
| `Catalog.FileData.RemoveChild` | es-app/src/FileData.cpp:431-449 | the key is dropped from the index; the call passes exactly when the node was a child, and then only that node leaves the list, the others keep their order, and its parent is cleared; otherwise the trailing assertion fails with the list untouched |
| `Catalog.FileData.SourceFileData` | es-app/src/FileData.cpp:412-415 | a plain file is its own source; an alias's source is the file it was made from (`CollectionFileData::getSourceFileData`, lines 595-598) |
| `Catalog.FileData.Detach` | es-app/src/FileData.cpp:438-442 | erasing the found child removes that one entry, clears its parent and restores the folder's consistency |
| `Catalog.KeysAgreeRemove` | es-app/src/FileData.cpp:435-441 | dropping a child together with its key keeps the list and the index in agreement |
| `Catalog.RemoveThenAdd` | es-app/src/FileData.cpp:417-449 | removing a child and adding it back moves it to the end of the list |
| `Catalog.FileData.RefreshMetadata` | es-app/src/FileData.cpp:600-604 | an alias's metadata becomes the source's and the alias is marked dirty |
| `Catalog.FileData.GetName` | es-app/src/FileData.cpp:606-617 | an alias rebuilds its label when dirty and returns the label or the source's name; a plain file's name (lines 88-99) is its file name when the ShowFolders setting is the string "ALL" and its "name" otherwise |
| `Catalog.CollectionLabel` | es-app/src/FileData.cpp:609-610 | the label is the cleaned name, " [", the upper-cased system name and "]" |
| `Catalog.FileData.LaunchCommand` | es-app/src/FileData.cpp:488-539 | a file launches with its environment's template and cores, its path, and %CONFIG% filled from the name of the system that owns it |
| `Catalog.FileData.IntendedLaunchCommand` | es-app/src/FileData.cpp:488-539 | the command with %CONFIG% filled from the file's own system name, the name an alias shares with its source (line 580) |
| `Catalog.LaunchAlias` | es-app/src/FileData.cpp:488-580 | an alias launches with its source's template, cores and path but with %CONFIG% filled from the collection's name; the intended command equals the source's own; with the template "%CONFIG%", a collection other than the source's system, and neither name holding '%', the two differ |
| `Catalog.FileData.RecordLaunched` | es-app/src/FileData.cpp:558-564 | the launch bookkeeping updates the source file's metadata |
| `Catalog.LaunchThroughAlias` | es-app/src/FileData.cpp:558-564 | launching through an alias raises the source's playcount by exactly one, and a refresh of the alias (lines 600-604) then shows the same metadata on it |
| `Launch.MatchIndex` | es-app/src/FileData.cpp:497-510 | the search stops at the first core, in list order, that accepts the extension and has a name |
| `Launch.FirstMatch` | es-app/src/FileData.cpp:497-510 | the search finds no core exactly when no core with a name accepts the extension |
| `Launch.ChosenCore` | es-app/src/FileData.cpp:497-518 | the chosen core is the first match, else the first core of the list, else none |
| `Launch.SelectCore` | es-app/src/FileData.cpp:497-518 | the nested search loop with its breaks and the fallback chooses `ChosenCore` |
| `Launch.Command` | es-app/src/FileData.cpp:488-539 | a template that holds none of %CORE%, %CONFIG%, %ROM%, %BASENAME% and %ROM_RAW% is launched as it is |
| `Launch.BuildCommand` | es-app/src/FileData.cpp:488-539 | the statement-by-statement rewriting of the command, with the core search loop, gives `Command` |
| `Launch.CommandFills` | es-app/src/FileData.cpp:491-539 | for a template of text and placeholders, the command is the template with %CORE% replaced by the chosen core's library (left as written when no core is chosen), %CONFIG% by the system's configuration file, %ROM% by the escaped path, %BASENAME% by the stem and %ROM_RAW% by the path; all other text stays as written |
| `Launch.CommandReplacesAll` | es-app/src/FileData.cpp:520-539 | no %CONFIG%, %ROM%, %BASENAME% or %ROM_RAW% remains in the command, and no %CORE% once a core is chosen |
| `Launch.CommandComplete` | es-app/src/FileData.cpp:520-539 | with a core chosen and only these five placeholders in the template, no '%' remains in the command |
| `Launch.NoCoresLeavesCore` | es-app/src/FileData.cpp:513-529 | with no core chosen, a %CORE% of the template survives in the command, while %CONFIG%, %ROM%, %BASENAME% and %ROM_RAW% are all replaced |
| `Launch.RomOnly` | es-app/src/FileData.cpp:532-537 | when the path holds no '%', the template "%ROM%" launches the escaped path, whatever the cores and the system |
| `Launch.RomPercentPath` | es-app/src/FileData.cpp:532-537 | a path holding '%' can break RomOnly: for the path `a%ROM_RAW%`, the %ROM_RAW% step rewrites the inserted path, and the command is `aa%ROM_RAW%`, not the escaped path |
| `Launch.RomExample` | es-app/src/FileData.cpp:532-537 | the template "%ROM%" for the game `/roms/a.bin` launches `/roms/a.bin` |
| `Launch.ConfigTemplate` | es-app/src/FileData.cpp:527-529 | when the system name holds no '%', the template "%CONFIG%" launches that system's configuration file, whatever the cores and the path |
| `Launch.ConfigFollowsSystem` | es-app/src/FileData.cpp:527-529 | two different system names without '%' give two different commands from the template "%CONFIG%", whatever the cores and the path |
| `Launch.CoresIrrelevant` | es-app/src/FileData.cpp:491 | the cores change the command only when the template holds %CORE% or %CONFIG% |
| `Template.ReplaceRendered` | es-app/src/FileData.cpp:524-539 | replacing one placeholder in a well-formed template turns exactly its occurrences into the value and leaves all other text and placeholders alone |
| `Template.FilledGone` | es-app/src/FileData.cpp:524-539 | a placeholder that has a value no longer occurs in the filled template |
| `EmulatorSettings.LastDefaultIndex` | es-app/src/guis/GuiMenu.cpp:763-767 | the current default is the last listed core with priority 1 |
| `EmulatorSettings.CurrentDefault` | es-app/src/guis/GuiMenu.cpp:763-767 | with no core at priority 1 the current default is ""; otherwise it is the name of a core at priority 1 with none after it |
| `EmulatorSettings.EmulatorList` | es-app/src/guis/GuiMenu.cpp:763-773 | the menu loop computes the current default; each entry stands for one core, is pre-selected exactly when the core has priority 1, and is then labelled "(Current Default)" |
| `EmulatorSettings.Bumped` | es-app/src/guis/GuiMenu.cpp:790-793 | every core's priority goes up by exactly one, and nothing else changes |
| `EmulatorSettings.FirstNamed` | es-app/src/guis/GuiMenu.cpp:796-803 | the second loop stops at the first core with the selected name |
| `EmulatorSettings.Marked` | es-app/src/guis/GuiMenu.cpp:796-803 | only the first core with the selected name gets priority 1; every other core is unchanged |
| `EmulatorSettings.Reprioritised` | es-app/src/guis/GuiMenu.cpp:790-803 | after both loops, the first core named as selected has priority 1 and every other core's priority is one more than before; names and extensions are kept |
| `EmulatorSettings.BumpAll` | es-app/src/guis/GuiMenu.cpp:790-793 | the in-place bump loop computes `Bumped` |
| `EmulatorSettings.MarkDefault` | es-app/src/guis/GuiMenu.cpp:796-803 | the in-place loop with its break computes `Marked` |
| `EmulatorSettings.SortByPriority` | es-app/src/guis/GuiMenu.cpp:806-810 | the re-sort leaves a permutation in non-decreasing priority |
| `EmulatorSettings.SaveDefaultCore` | es-app/src/guis/GuiMenu.cpp:777-810 | choosing the current default leaves the cores untouched; any other choice leaves a permutation of the reprioritised cores in non-decreasing priority |
| `EmulatorSettings.SelectedComesFirst` | es-app/src/guis/GuiMenu.cpp:790-810 | with priorities of at least 1 and the chosen core listed, the saved list starts with that core at priority 1; it is the next current default, and the launch fallback when no core claims the extension |
| `EmulatorSettings.OnlyChosenIsFirst` | es-app/src/guis/GuiMenu.cpp:790-803 | when every priority is at least 1, priority 1 belongs to the chosen core alone after the reprioritisation |
| `EmulatorSettings.ZeroPriorityShares` | es-app/src/guis/GuiMenu.cpp:790-803 | a core listed at priority 0 shares priority 1 with the chosen core after the reprioritisation, so OnlyChosenIsFirst needs priorities of at least 1 |
| `EmulatorSettings.WithCurrentSetting` | es-app/src/guis/GuiMenu.cpp:111-115 | the built-in entries keep their order; the current setting is appended exactly when it is non-empty and not listed; a non-empty setting is always in the list; no duplicates are added |
| `EmulatorSettings.OptionList` | es-app/src/guis/GuiMenu.cpp:135-138 | the search and append compute `WithCurrentSetting` (the same rule recurs at lines 181-184) |

## Findings

| source | as written | input that shows it | evidently intended | confidence | as-written member | corrected member |
|---|---|---|---|---|---|---|
| es-app/src/FileData.cpp:528 | %CONFIG% is filled from `mSystem->getName()`. For a `CollectionFileData`, `mSystem` is the collection (line 573), while the template and the cores come from the source's environment (lines 573, 498-516). | An alias of a `psx` game in the collection `favorites`, with the template `%CONFIG%`, launches `/home/pangui/share/system/configs/cores/favorites/retroarch.cfg`. | The source system's configuration: `mSystemName`, which line 580 sets to the source's system, so that an alias launches like its source. `launchGame` is meant to run on aliases, since it counts the play on `getSourceFileData()` (line 560). | medium, not executed | `Catalog.LaunchAlias` | `Catalog.FileData.IntendedLaunchCommand` |

## Left out

- Reading gamelist.xml with pugixml and resolving each relative path. The registered paths are an input sequence in `std::set` order.
- `Utils::FileSystem::exists` is modelled as membership in an input set of paths.
- The `Utils::FileSystem` and `Utils::String` helpers are not part of this model. `paths.dfy` defines them as the core uses them:
  - the extension is the suffix from the last '.' of the last component;
  - the stem is the file name without it;
  - `replace` replaces every occurrence, left to right;
  - `getPreferredPath` is the identity.
- `Paths.RemoveParenthesis` drops every `(`…`)` and `[`…`]` group and trims spaces. This is a stand-in for the helper of the same name, whose text is not part of this model.
- `Paths.EscapedPath`: backslash-escapes shell special characters. It is a stand-in for `getEscapedPath`, whose text is not part of this model. Its contracts state only that the result is no shorter than the path, that it adds nothing but backslashes, and that a path without special characters is unchanged.
- Launching runs the command through a shell, and saving a default persists the choice through a shell script. Both are process I/O; the model stops at the command text and ignores the exit codes. This includes:
  - the subsystem deinit/init around the launch;
  - the window, audio and input work;
  - `Scripting::fireEvent`.
- `CollectionSystemManager::refreshCollectionSystems` and `onMetaDataSavePoint` are calls into code that is not part of this model.
- `Utils::Time::now` is a parameter; "lastplayed" receives it as text.
- `MetaData.GetInt` reads the leading decimal digits of a field, so the model has no negative counts.
  - `atoi`'s sign handling is not modelled.
  - The 32-bit overflow of `timesPlayed` is not modelled; the count is unbounded.
- `getDisplayName`'s MAME name lookups are not modelled. A new file with no name is named after its path's stem.
- The art-path probes and `isArcadeAsset` only inspect the disk or MAME tables, so they are left out.
- Destructors and object lifetime are left out. An alias's destructor removing itself from its parent is not modelled.
- The function-local `static` string that `getName` returns by reference is not modelled; only its value is.
- File types are GAME and FOLDER only. The header that declares the type enumeration is not part of this model.
- `FileTree.Sort`: the tree is a value, so the model sorts a copy and returns it rather than reordering shared nodes in place.
  - Aliasing between folders is not captured.
  - `Catalog.FileData` holds no sort; the `Sort` model works on the value tree.
- `EmulatorSettings.SortByPriority`: `std::sort` is not stable. The model sorts with the stable insertion sort of `Sorting`, and its contract promises only what `std::sort` promises: a permutation in non-decreasing priority. The order among equal priorities is left open.
- `EmulatorSettings.SelectedComesFirst` requires priorities of at least 1, as the system configuration assigns them. A core at priority 0 would share priority 1 after the bump.
- `EmulatorSettings.OnlyChosenIsFirst` requires priorities of at least 1, for the same reason. `EmulatorSettings.ZeroPriorityShares` shows a core at priority 0 reaching priority 1 beside the chosen one.
- The menu widgets, settings storage and help prompts are left out. The ShowFolders and CollectionShowSystemInfo settings are parameters.
- `LocaleES` (gettext translations) is left out. Labels are the untranslated strings.
- Core selection follows the code: a core that accepts the extension but has an empty name does not end the search.
- `EmulatorSettings.BumpAll`: `core.priority++` (GuiMenu.cpp line 792) is an `int` increment. The model's priorities are unbounded, so a priority at `INT_MAX` does not wrap around as it would in C++.
- `Launch.CommandFills`, `Launch.CommandReplacesAll`, `Launch.CommandComplete` and `Launch.NoCoresLeavesCore` hold for well-formed templates and for a path, a system name and core names without '%'. The left-to-right `replace` can otherwise build a placeholder out of the text around one: the template `%%ROM%OM%` with the path `R` becomes `%ROM%` after the %ROM% step. Each placeholder must be followed by the end or by a character that cannot continue a name.
- `Launch.RomOnly` holds only for a path without '%'. A path that spells a later placeholder, such as `a%ROM_RAW%`, is rewritten again by the later step, as `Launch.RomPercentPath` shows. The system name does not matter.
- `Launch.ConfigTemplate` holds only for a system name without '%'. A name that spells %ROM%, %BASENAME% or %ROM_RAW% would have that text rewritten by the later steps. The cores and the path do not matter.
- `Launch.ConfigFollowsSystem` holds only for two system names without '%'. A name that spells %ROM% could turn into the other name once the path is substituted.
- `Catalog.LaunchAlias`: the clause showing that the two commands differ assumes that neither the collection name nor the source system name holds '%'. It rests on `Launch.ConfigFollowsSystem`.
- `Catalog.FileData` (the objects with their parent links, keys and aliases) and `FileTree.Node` (the value tree that the search, the sort and the display projection work on) are two models of the same `FileData`. No abstraction function links them, so the sort and display results are stated about value trees, not about the objects.
