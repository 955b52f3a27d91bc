# Barotrauma Modding Tool core, modelled in Dafny

The core of the Barotrauma Modding Tool is modelled here. It covers these parts:

- **Package value types.** Mods are identified by id. Parsing turns a mod folder's `filelist.xml`, content files and `metadata.xml` into a `ModUnit`. The identifier extractor collects the ids that a content file adds and the ones it overrides.
- **Fingerprint cache.** Parsed mods are stored under their folder, together with an MD5 fingerprint of two files.
- **Content toggler (`PartsManager`).** It switches regions of content files and entries of `filelist.xml` on and off, and it renames files between `.xml` and `.xml_off`.
- **Mod-set manager (`ModManager`).** It keeps the registry of installed mods, the active list in load order and the inactive list. It loads them from the game's configuration, reads and writes presets, and rearranges the lists. It checks dependencies and sorts the active mods by their dependencies, breaking cycles.

XML documents are abstract trees (`Xml.Node`). The files themselves are passed in as parameters:

- the parsed document, or `None` when a file is missing or does not load;
- a set of existing paths, for the folder.

These are parameters too:

- the condition evaluator;
- MD5;
- `Path.resolve` (`resolve`, in the cache) and `Path.as_posix` (`posix`, in the toggler);
- Python's set iteration order.

Modules and files:

| file | module | what it holds |
|---|---|---|
| `wrappers.dfy` | `Wrappers` | `Option` |
| `xml.dfy` | `Xml` | nodes, attributes, ASCII lower-casing, `strip`, `splitlines` |
| `idparser.dfy` | `IdParser` | the identifier extractor |
| `package.dfy` | `Package` | identity, dependencies, settings, the parsing of a mod |
| `cache.dfy` | `Cache` | the fingerprint cache, as a class |
| `parts.dfy` | `Parts` | the content toggler |
| `lists.dfy` | `ModLists` | the list moves of the manager |
| `loading.dfy` | `Loading` | `load_mods` and `_get_active_mod_configs` |
| `dedup.dfy` | `Dedup` | the selection of one mod per name in `load_mods` |
| `presets.dfy` | `Presets` | `load_preset` and `save_preset` |
| `issues.dfy` | `Issues` | `process_errors` |
| `sorting.dfy` | `Sorting` | the scan, auto-activation and edge building of `sort` |
| `loadorder.dfy` | `LoadOrder` | the resolver of `sort` (Kahn's algorithm, then the soft phase, then the forced phase) |
| `manager.dfy` | `Manager` | the `ModManager` class |

The code works by changing state in several places, and the model keeps that form:

- **Loops and in-place mutation** are methods with loop invariants. Each is proved equal to a specification function, and the lemmas are about those functions.
- **`CacheManager`, `IDExtractor` and `ModManager`** are classes.
- **Document rewrites in the toggler** work on an `array<Node>`.
- **The sort resolver** is a class over its queue, in-degrees and child lists.

## Model

| member | source | states |
|---|---|---|
| Xml.ToComment | Code/handlers/parts_manager.py:105-110 | commenting an element out gives a comment that converts back to that same element |
| Xml.ToElement | Code/handlers/parts_manager.py:157-161 | only a commented-out element converts to an element |
| Xml.NonCommentChildren | Code/package/dataclasses.py:270 | exactly the element children, in order |
| Xml.Get | Code/package/dataclasses.py:172 | present exactly when an attribute has that name, and then its value |
| Xml.Remove | Code/package/dataclasses.py:315-317 | `pop` removes the key and leaves every other key's value alone |
| Xml.GetIgnoreCase | Code/handlers/parts_manager.py:140-146 | present exactly when some attribute's name matches in lower case |
| Xml.GetIgnoreCaseFirst | Code/handlers/parts_manager.py:140-146 | the value found is that of the first attribute whose name matches in lower case |
| Xml.LowerSpec | Code/package/id_parser.py:33 | lower-casing works character by character and keeps the length |
| Xml.FindElements | Code/handlers/mod_manager.py:277 | every element found has the requested tag |
| Xml.FindElementsComplete | Code/handlers/mod_manager.py:277 | the elements found are exactly the tree's elements with that tag, in document order |
| Xml.StripSpec | Code/package/dataclasses.py:288 | `strip` leaves a slice of the input with no whitespace at either end, and everything it drops before and after that slice is whitespace |
| Xml.SplitLinesSpec | Code/package/dataclasses.py:295-297 | no line holds a line break; there are lines exactly when there is text |
| Xml.SplitLinesJoin | Code/package/dataclasses.py:295-297 | splitting on `\n` and joining again gives the text back |
| IdParser.Emit | Code/package/id_parser.py:113-136 | a rule records exactly one id, in the overrides when the flag is set and in the adds otherwise |
| IdParser.ItemsOf | Code/package/id_parser.py:94-96 | one stack item per non-comment child, carrying the same flag and context |
| IdParser.ApplySound | Code/package/id_parser.py:46-62 | one pop of the loop equals the reference walk of that item, and the stack measure decreases |
| IdParser.ParseLoop | Code/package/id_parser.py:41-62 | the explicit-stack loop computes exactly the recursive reference walk of the root |
| IdParser.IdExtractor.constructor | Code/package/id_parser.py:26-28 | the unknown-tag cache starts empty |
| IdParser.IdExtractor.ExtractIds | Code/package/id_parser.py:30-39 | the id sets depend only on the document; unknown tags are added to the cache |
| IdParser.WrapperTagsAreIgnored | Code/package/id_parser.py:33-35 | the early return for wrapper tags agrees with the walk, which finds nothing under them |
| IdParser.IdRuleEmitsOne | Code/package/id_parser.py:113-124 | an id rule records its attribute value (or the tag) with its prefix, in the set the flag selects, and stops there |
| IdParser.IgnoreAndSpecialRules | Code/package/id_parser.py:127-140 | ignore rules contribute nothing; special rules contribute their fixed name |
| IdParser.MissionContextFallsBack | Code/package/id_parser.py:199-200 | children of `mission` get the context `Mission`, which no rule has, so they reach the fallback |
| IdParser.MissionNamesNoRule | Code/package/id_parser.py:143-245 | the table has no rule keyed `Mission` |
| IdParser.FallbackIgnoresChildren | Code/package/id_parser.py:64-83 | an unmatched node contributes only its animation id, whatever its children |
| IdParser.OverrideFlagSticks | Code/package/id_parser.py:100-110 | under an `override` element everything found lands in the overrides and nothing in the adds |
| IdParser.OverrideNodeAddsNothing | Code/package/id_parser.py:144 | an `override` element adds no id |
| Package.IdentityIsById | Code/package/dataclasses.py:24-36 | equality is by id, is an equivalence, and agrees with the hash; the id is the Steam id when set, else the name |
| Package.SameSteamIdSameMod | Code/package/dataclasses.py:24-30 | two identifiers with the same non-empty Steam id are equal whatever their names; an empty Steam id falls back to the name |
| Package.ValidTypesAreCaseSensitive | Code/package/dataclasses.py:58-60 | exactly the four dependency kinds are valid, compared case-sensitively |
| Package.ParseFilelist | Code/package/dataclasses.py:162-176 | a missing filelist raises; a present one yields a mod |
| Package.FilelistDecidesIdentity | Code/package/dataclasses.py:162-176 | the filelist's Steam id, or else its name, decides the id; the versions and core flag have their defaults; nothing else changes |
| Package.ProcessSingleXml | Code/package/dataclasses.py:198-228 | one content file adds its ids and toggle flag, and the extractor's unknown tags grow by the file's |
| Package.ParseFiles | Code/package/dataclasses.py:178-196 | the loop over the content files computes the scan of all of them |
| Package.ScanFilesClosedForm | Code/package/dataclasses.py:198-225 | after the scan the id sets are the union over the files, and only these fields change |
| Package.ScanFileEffects | Code/package/dataclasses.py:198-225 | one file adds its ids to the sets and may set the toggle flag, and changes nothing else |
| Package.ScanOrderIrrelevant | Code/package/dataclasses.py:185-196 | the concurrent scan's outcome does not depend on the order files finish in |
| Package.ExtractMetaInfo | Code/package/dataclasses.py:285-297 | the loop over the `meta` children computes the metadata fold |
| Package.MetaFoldEffects | Code/package/dataclasses.py:285-297 | the author and license are the last ones given; warnings and errors gain every line in order; the rest is kept |
| Package.MetaStepEffects | Code/package/dataclasses.py:286-297 | one child sets its own field from its stripped content and leaves the others |
| Package.ExtractDependencies | Code/package/dataclasses.py:299-328 | the dependency loop appends one dependency per qualifying child, in order |
| Package.DependencyOfChild | Code/package/dataclasses.py:302-326 | one child gives a dependency exactly when it qualifies, and then the one the specification builds |
| Package.DependenciesOfSpec | Code/package/dataclasses.py:299-326 | each qualifying child gives a dependency, and each dependency comes from one, with `name`, `steamID` and `condition` removed from its attributes |
| Package.ApplyStepBySection | Code/package/dataclasses.py:269-283 | a `settings`, `meta` or `dependencies` section updates only its own part of the mod; other tags change nothing |
| Package.ApplyMetadataXml | Code/package/dataclasses.py:269-283 | the loop over the sections computes the section fold |
| Package.ApplyFoldKeeps | Code/package/dataclasses.py:269-283 | applying `metadata.xml` changes only the settings and the metadata |
| Package.ReadSettings | Code/package/dataclasses.py:273-277 | the settings loop computes the settings fold |
| Package.SettingsFoldLastWins | Code/package/dataclasses.py:274-277 | a setting is present if it was already there or some child names it, and then it holds the last such value |
| Package.XmlSettingAsBool | Code/package/dataclasses.py:105-115 | a setting read from XML is true exactly when its text is `true` in lower case; an absent one is false |
| Package.LastSettingIsXmlValue | Code/package/dataclasses.py:277 | a setting read from XML is a string or `None`, never a number or a bool |
| Package.UpdateMetaErrors | Code/package/dataclasses.py:254-267 | the method computes the refreshed metadata |
| Package.UpdatedMetaSpec | Code/package/dataclasses.py:254-267 | the messages are rebuilt from the `meta` elements alone (empty without a document); the dependencies and versions are kept |
| Package.UpdatedMetaFromDoc | Code/package/dataclasses.py:254-267 | from a document, the refreshed errors and warnings are the lines of every `meta` child, and the author and license are the last given or kept |
| Package.UpdatedMetaIdempotent | Code/package/dataclasses.py:254-267 | refreshing twice gives what refreshing once gives |
| Package.Build | Code/package/dataclasses.py:117-148 | the method computes the build: filelist, then the scripting flags, the content files and `metadata.xml` |
| Package.BuiltModIsNotCore | Code/package/dataclasses.py:129-133 | a built mod has a filelist, is not a core package, and is local exactly when its path has a `LocalMods` part |
| Parts.ValueBeforeQuote | Code/handlers/parts_manager.py:19-20 | `(.*?)"` takes the shortest prefix before a quote, which holds no quote and no newline |
| Parts.SearchAttrSound | Code/handlers/parts_manager.py:74-75 | a match is the text right after `key="`, up to the next quote |
| Parts.SearchAttrFinds | Code/handlers/parts_manager.py:74-75 | `key="v"` at the start of a comment yields `v` |
| Parts.RegionDesire | Code/handlers/parts_manager.py:74-92 | no `setState` means no change; a rollback wants the opposite of the state; otherwise the state, when the condition holds |
| Parts.RollbackIgnoresConditions | Code/handlers/parts_manager.py:85-86 | in a rollback a region's wanted state ignores the active mods and the condition evaluator |
| Parts.Flip | Code/handlers/parts_manager.py:98-110 | a node changes exactly when it is in the wrong state: a commented element is restored, an element is commented out |
| Parts.FlipSettles | Code/handlers/parts_manager.py:98-110 | a flipped node needs no second flip |
| Parts.ToggleRegions | Code/handlers/parts_manager.py:70-114 | the document array and the modified flag end as the toggle pass over the old document states |
| Parts.SwitchRegion | Code/handlers/parts_manager.py:94-114 | one region's members are flipped in place, as the region pass states |
| Parts.ProcessContentFile | Code/handlers/parts_manager.py:64-120 | a content file is saved exactly when some node changed, and then with the toggled nodes |
| Parts.RegionPassFlag | Code/handlers/parts_manager.py:112-114 | the modified flag is set exactly when some member was flipped |
| Parts.TogglePassFlag | Code/handlers/parts_manager.py:112-114 | the modified flag is set exactly when some member of some region was flipped |
| Parts.NotSavedMeansUnchanged | Code/handlers/parts_manager.py:116-117 | a file that is not saved has every node as it was |
| Parts.RegionPassFrame | Code/handlers/parts_manager.py:94-114 | only the region's own members can change, and the length stays |
| Parts.RegionPassSettles | Code/handlers/parts_manager.py:94-114 | after the pass every member of the region is in its wanted state |
| Parts.TogglePassFrame | Code/handlers/parts_manager.py:70-114 | only region members can change, and the length stays |
| Parts.TogglePassSettles | Code/handlers/parts_manager.py:70-114 | after the pass every member of every region (regions disjoint) is in its wanted state |
| Parts.RegionPassNoop | Code/handlers/parts_manager.py:94-114 | a region already in its wanted state leaves the document and the flag as they were |
| Parts.TogglePassNoop | Code/handlers/parts_manager.py:70-114 | a document already in the wanted state is left as it is |
| Parts.SecondRunSavesNothing | Code/handlers/parts_manager.py:64-117 | running the toggler twice with the same inputs saves nothing the second time |
| Parts.TogglePassRollbackIgnoresConditions | Code/handlers/parts_manager.py:85-86 | a rollback pass does not depend on the active mods or the evaluator |
| Parts.ActionTarget | Code/handlers/parts_manager.py:138-152 | a target carries the action's non-empty `file` and `type`, and its wanted state is `setState`, inverted in a rollback |
| Parts.ActionTargetGate | Code/handlers/parts_manager.py:138-149 | going forward, a target is given only when a non-empty `conditions` holds; conversely, an action with non-empty `file`, `type` and `setState` whose condition holds (or any such action in a rollback) always gives a target |
| Parts.TargetsOf | Code/handlers/parts_manager.py:138-152 | one target per action, in order |
| Parts.TargetsOfRollbackIgnoresConditions | Code/handlers/parts_manager.py:139-152 | in a rollback the targets do not depend on the active mods or the evaluator |
| Parts.FirstMatchSpec | Code/handlers/parts_manager.py:154-182 | the entry chosen is the first in filelist order whose tag matches ignoring case and whose path matches |
| Parts.FindEntry | Code/handlers/parts_manager.py:154-182 | the search loop finds that first matching entry |
| Parts.ApplyAction | Code/handlers/parts_manager.py:154-182 | one action changes the filelist array, the flag, the renames and the last new node as the configuration step states |
| Parts.ConfigFoldFailed | Code/handlers/parts_manager.py:173 | once the unbound name has been hit, nothing more happens |
| Parts.ProcessConfig | Code/handlers/parts_manager.py:123-185 | nothing runs without both documents; otherwise the action loop's outcome is the configuration fold |
| Parts.RunActions | Code/handlers/parts_manager.py:136-185 | the action loop over the filelist array computes the configuration fold |
| Parts.ActivationStaysComment | Code/handlers/parts_manager.py:172-174 | as written, activating a commented-out entry never puts an element in its place |
| Parts.ActivationUnboundExample | Code/handlers/parts_manager.py:172-174 | as written, a lone activation ends with the unbound-name failure, and the file is neither renamed nor saved |
| Parts.IntendedStepSettles | Code/handlers/parts_manager.py:172-181 | with the intended replacement, the matched entry ends in the wanted state |
| Parts.DeactivationParks | Code/handlers/parts_manager.py:177-181 | deactivating a live matched entry puts its commented-out form in its place (which converts back to the entry), marks the filelist modified, binds `new_node` to that comment and requests the `.xml` to `.xml_off` rename of the action's file |
| Parts.DeactivatingCommentIsNoop | Code/handlers/parts_manager.py:172-182 | deactivating an entry that is already commented out changes nothing and requests no rename |
| Parts.ConfigFoldIntendedNeverFails | Code/handlers/parts_manager.py:136-185 | the intended loop never fails and keeps the filelist's length |
| Parts.ConfigOutcomeIntended | Code/handlers/parts_manager.py:123-185 | the intended outcome runs exactly when both documents are present, and never fails |
| Parts.ReplaceAll | Code/handlers/parts_manager.py:190-191 | a string without the pattern is unchanged |
| Parts.ReplaceAllLeading | Code/handlers/parts_manager.py:190-191 | an occurrence at the front becomes the replacement, and the scan goes on after it |
| Parts.ResolvePath | Code/handlers/parts_manager.py:190-191 | a path with neither placeholder is used as given |
| Parts.ResolveModDir | Code/handlers/parts_manager.py:190-191 | `%ModDir%` followed by the rest becomes the Steam mod folder followed by that rest |
| Parts.ResolveLocalMods | Code/handlers/parts_manager.py:190-191 | `LocalMods` followed by the rest becomes the local mod folder followed by that rest |
| Parts.NameOf | Code/handlers/parts_manager.py:193-197 | the file name is the last piece of the path, without separators |
| Parts.DisabledPathAppends | Code/handlers/parts_manager.py:196-197 | for a `.xml` path, `stem + ".xml_off"` is the path with `_off` appended |
| Parts.OffNameIsNotXml | Code/handlers/parts_manager.py:196-202 | a parked `.xml_off` file is no `.xml` file |
| Parts.RenameMove | Code/handlers/parts_manager.py:188-206 | activation moves an existing parked file back; deactivation parks an existing `.xml` file; otherwise nothing moves |
| Parts.RenameRoundTrip | Code/handlers/parts_manager.py:195-203 | parking a file and then activating it restores the disk |
| Parts.ParkRenameMoves | Code/handlers/parts_manager.py:200-203 | a deactivation rename of an existing `.xml` file moves it to its `_off` name, and that is the only move |
| Parts.ApplyRenamesMovesXmlOnly | Code/handlers/parts_manager.py:188-206 | every move is between a `.xml` path and its `_off` twin |
| Parts.ParkedIsNoTarget | Code/handlers/parts_manager.py:44-48 | a parked file is never a target content file |
| Parts.TargetFiles | Code/handlers/parts_manager.py:44-48 | the targets are the `.xml` files under the mod that are not system files |
| Parts.ContentSaves | Code/handlers/parts_manager.py:51-61 | exactly the target files whose toggling changed something are saved, with their new nodes |
| Parts.ContentSavesSeesOutcomes | Code/handlers/parts_manager.py:51-61 | the saves depend on the condition inputs only through each file's outcome |
| Parts.RunAfter | Code/handlers/parts_manager.py:23-25 | the disk and the moves are the manifest pass's renames applied in the order requested, even when it then raises; the unbound-name failure stops everything before the content files; otherwise every target file on the renamed disk is processed |
| Parts.DoChangesIntended | Code/handlers/parts_manager.py:23-25 | with the intended configuration step, `do_changes` never fails |
| Parts.ParkedFilesNotRewritten | Code/handlers/parts_manager.py:23-25 | no parked file is saved |
| Parts.RollbackIgnoresEval | Code/handlers/parts_manager.py:27-39 | a rollback does not depend on the condition evaluator |
| Cache.Contribution | Code/handlers/cache_manager.py:93-102 | a missing file feeds nothing; a readable one feeds all its bytes; a failing read stops at a prefix |
| Cache.HashInputOrder | Code/handlers/cache_manager.py:83-104 | the hasher is fed `filelist.xml` first, then `metadata.xml` |
| Cache.FeedFile | Code/handlers/cache_manager.py:96-102 | the chunk loop feeds exactly the file's contribution |
| Cache.ComputeModHash | Code/handlers/cache_manager.py:83-104 | the fingerprint is MD5 of what the two files feed |
| Cache.Lookup | Code/handlers/cache_manager.py:56-68 | a stored mod comes back exactly when its fingerprint matches the current one |
| Cache.LookupAfterStore | Code/handlers/cache_manager.py:51-80 | a key just stored comes back; other keys are unaffected |
| Cache.CacheManager.constructor | Code/handlers/cache_manager.py:13-17 | the cache starts empty and clean |
| Cache.CacheManager.Init | Code/handlers/cache_manager.py:19-34 | the cache file sits under the data root; a missing file keeps the map, an unreadable one empties it, a readable one replaces it |
| Cache.CacheManager.Save | Code/handlers/cache_manager.py:36-48 | nothing happens unless dirty; once the file is opened, only an empty map is written, and a non-empty map leaves an unreadable file and the cache dirty |
| Cache.CacheManager.GetCachedMod | Code/handlers/cache_manager.py:50-68 | the stored mod for the resolved path, if its fingerprint still matches |
| Cache.CacheManager.UpdateCache | Code/handlers/cache_manager.py:70-80 | the entry of the mod's resolved path becomes its current fingerprint and the mod, and the cache is dirty |
| Cache.CacheManager.Clear | Code/handlers/cache_manager.py:106-114 | the map is emptied and marked dirty; the file is deleted when it exists and the unlink works |
| Cache.RestartLosesStoredMod | Code/handlers/cache_manager.py:20-48 | as written, a mod stored in the cache is not found after `save` and `init` |
| Cache.RestartKeepsStoredMod | Code/handlers/cache_manager.py:20-80 | with the whole map written, a stored mod is found after `save` and `init` |
| Cache.UpdateThenGet | Code/handlers/cache_manager.py:50-80 | with unchanged files, a mod stored by `update_cache` is what `get_cached_mod` returns |
| ModLists.IndexOf | Code/handlers/mod_manager.py:396-397 | `list.index` gives the first position of a member |
| ModLists.RemoveFirst | Code/handlers/mod_manager.py:342 | `list.remove` drops the first occurrence and keeps the rest in order |
| ModLists.Swap | Code/handlers/mod_manager.py:383-386 | two positions exchange their members, and nothing else moves |
| ModLists.Activate | Code/handlers/mod_manager.py:336-345 | a known inactive mod moves to the end of the active list; otherwise nothing changes and the result is false |
| ModLists.Deactivate | Code/handlers/mod_manager.py:348-357 | a known active mod moves to the end of the inactive list; otherwise nothing changes and the result is false |
| ModLists.MoveToEnd | Code/handlers/mod_manager.py:404-416 | a known listed mod moves to the end of its list; the members are kept |
| ModLists.FindPair | Code/handlers/mod_manager.py:373-380 | the scan finds each id's last position before both are found, and stops there |
| ModLists.SwapExchanges | Code/handlers/mod_manager.py:368-402 | swapping two listed mods exchanges them and keeps every other position |
| ModLists.ActivateMoves | Code/handlers/mod_manager.py:336-345 | activation keeps the two lists together a permutation of what they were |
| ModLists.NumberLoadOrder | Code/handlers/mod_manager.py:145-146 | each active mod's load order becomes its position counted from 1; other mods are kept |
| ModLists.NumberedKeepsRegistry | Code/handlers/mod_manager.py:728-729 | numbering keeps the registry's keys and every mod's id |
| Loading.SplitJoin | Code/handlers/mod_manager.py:285 | `split('/')` loses nothing: the pieces join back to the string and hold no separator |
| Loading.PathRoundTrip | Code/handlers/mod_manager.py:285-288 | `parts[-2]` of `<path>/<file>` is the last piece of the path |
| Loading.ConfigPathRoundTrip | Code/handlers/mod_manager.py:285-288 | a package path `<str_path>/filelist.xml` names the last piece of `str_path` |
| Loading.LocalConfigPath | Code/handlers/mod_manager.py:285-288 | `LocalMods/<folder>/filelist.xml` names the folder |
| Loading.StrPathNamesLocalFolder | Code/package/dataclasses.py:99-103 | a local mod's `str_path` followed by `/filelist.xml` reads back as the mod's folder name |
| Loading.ConfigsComplete | Code/handlers/mod_manager.py:279-288 | every package naming a mod id is recorded, and nothing else is |
| Loading.ConfigsLastWins | Code/handlers/mod_manager.py:279-288 | a mod id gets the position of the last package naming it |
| Loading.ConfigsDistinct | Code/handlers/mod_manager.py:279-288 | two configured mods never share a position |
| Loading.ActiveModConfigs | Code/handlers/mod_manager.py:268-292 | a missing or unloadable file gives no configs; otherwise the package loop's map |
| Loading.ConfigsLoop | Code/handlers/mod_manager.py:276-292 | the loop over the packages computes that map |
| Loading.RegistryOfSpec | Code/handlers/mod_manager.py:255-256 | each mod is filed under its own id, the keys are exactly the ids seen, and a later mod replaces an earlier one |
| Loading.Register | Code/handlers/mod_manager.py:255-256 | the registration loop yields the key order of first appearance and that registry |
| Loading.RegisterWellFormed | Code/handlers/mod_manager.py:255-256 | the key order lists every registered id once |
| Loading.SplitByConfig | Code/handlers/mod_manager.py:258-263 | configured mods go to the active list with their position as load order, the rest to the inactive list, both in key order |
| Loading.SortByKey | Code/handlers/mod_manager.py:265 | the sort keeps every mod with its multiplicity |
| Loading.SortSorted | Code/handlers/mod_manager.py:265 | the sort orders by load order (9999 when unset) and is a permutation; stability is not stated, which matters only for equal keys, and active mods have distinct ones (`Loading.ConfigsDistinct`) |
| Dedup.FirstSeen | Code/handlers/mod_manager.py:222-228 | the dictionary's keys: each name once, exactly the names seen |
| Dedup.Group | Code/handlers/mod_manager.py:222-224 | a name's group holds mods of that name, and is non-empty exactly for the names seen |
| Dedup.GroupMapGroups | Code/handlers/mod_manager.py:222-224 | the grouping dictionary has a key per name seen, holding that name's group |
| Dedup.GroupByName | Code/handlers/mod_manager.py:222-224 | the grouping loop builds the names in first-appearance order and those groups |
| Dedup.Keep | Code/handlers/mod_manager.py:234-235 | a filtered list holds exactly the members passing the filter |
| Dedup.KeepKeep | Code/handlers/mod_manager.py:243 | the local copies among those with a Steam id are the local copies with one |
| Dedup.Select | Code/handlers/mod_manager.py:229-253 | the copy kept for a name is one of that name's copies |
| Dedup.SelectRule | Code/handlers/mod_manager.py:229-253 | a lone copy is kept as it is |
| Dedup.SelectMixed | Code/handlers/mod_manager.py:239-240 | with copies with and without a Steam id, the first with one is kept |
| Dedup.SelectAllSteam | Code/handlers/mod_manager.py:242-247 | with several copies all with a Steam id, the first local one is kept, or else the first |
| Dedup.SelectNoSteam | Code/handlers/mod_manager.py:248-250 | with no copy with a Steam id, the first is kept |
| Dedup.Dedup | Code/handlers/mod_manager.py:222-253 | the grouping and selection loops compute the deduplicated list |
| Dedup.DedupOnePerName | Code/handlers/mod_manager.py:222-253 | exactly one mod per name is kept, names in first-appearance order, each the pick from its group |
| Dedup.DedupDistinct | Code/handlers/mod_manager.py:228-253 | the kept names are distinct |
| Dedup.DedupCovers | Code/handlers/mod_manager.py:228-253 | every parsed name is kept |
| Dedup.DedupPicks | Code/handlers/mod_manager.py:228-253 | each kept mod is the pick from the group of its name |
| Presets.Entries | Code/handlers/mod_manager.py:162-169 | one entry per active mod, in order |
| Presets.PresetDoc | Code/handlers/mod_manager.py:152-176 | the document is `Vanilla` followed by the entries |
| Presets.BuildPreset | Code/handlers/mod_manager.py:158-169 | the entry loop builds that document |
| Presets.WorkshopIdIsId | Code/handlers/mod_manager.py:168 | the id a `Workshop` entry records is the mod's id |
| Presets.LocalsByNameSpec | Code/handlers/mod_manager.py:105-107 | the lookup maps only local mods' names to them, and finds every local mod's name |
| Presets.FirstByName | Code/handlers/mod_manager.py:124 | the first mod in registry order with that name, local or not, or none when none has it |
| Presets.WorkshopEffect | Code/handlers/mod_manager.py:115-121 | a `Workshop` entry adds the mod its `id` names exactly when that mod is registered |
| Presets.LocalEffect | Code/handlers/mod_manager.py:122-130 | a `Local` entry adds the local mod of that name, else the first of that name, else reports the name |
| Presets.LowerTag | Code/handlers/mod_manager.py:110 | the tags the tool writes match the lower-case comparisons |
| Presets.PresetFold | Code/handlers/mod_manager.py:109-135 | the selection has no repeats and holds only registered mods |
| Presets.SelectPreset | Code/handlers/mod_manager.py:109-135 | the entry loop computes the selection and the missing names |
| Presets.ApplyEntry | Code/handlers/mod_manager.py:110-135 | one entry adds its mod unless already selected, or reports it |
| Presets.LocalLookup | Code/handlers/mod_manager.py:105-107 | with unique local names, a local mod's name leads back to it |
| Presets.EntryRoundTrip | Code/handlers/mod_manager.py:109-169 | the entry saved for a registered mod adds that same mod when read back |
| Presets.LocalRoundTrip | Code/handlers/mod_manager.py:122-126 | a local mod's saved `Local` entry finds it again by name |
| Presets.WorkshopRoundTrip | Code/handlers/mod_manager.py:115-118 | any other mod's saved `Workshop` entry finds it again by id |
| Presets.SavedEffects | Code/handlers/mod_manager.py:158-169 | a saved preset reads back as one skipped entry, then one added mod per active mod |
| Presets.FoldAddsInTurn | Code/handlers/mod_manager.py:132-134 | entries that add a repeat-free list in turn select exactly that list, with nothing missing |
| Presets.LoadAfterSave | Code/handlers/mod_manager.py:89-176 | loading a saved preset restores the active list exactly, with nothing missing |
| Issues.IssueOf | Code/handlers/mod_manager.py:532-553 | an active conflict warns or errs by its level; `requiredAnyOrder` is ignored; any other kind errs when missing and its condition applies |
| Issues.SatisfiedDepsAreQuiet | Code/handlers/mod_manager.py:532-553 | with all requirements active and all conflicts inactive, no dependency message is added |
| Issues.BindFirstOverrider | Code/handlers/mod_manager.py:520-524 | an id is bound exactly when some active mod overrides it, and then to the first one that does |
| Issues.BindMod | Code/handlers/mod_manager.py:521-524 | one mod binds its overridden ids that are not yet bound |
| Issues.BuildBind | Code/handlers/mod_manager.py:520-524 | the loop builds the first-overrider map |
| Issues.OverrideWarningsSpec | Code/handlers/mod_manager.py:555-565 | a warning is given for an overridden id exactly when another mod holds its binding |
| Issues.FirstOverriderQuiet | Code/handlers/mod_manager.py:555-565 | the first overrider of an id is never warned about it |
| Issues.LaterOverriderWarned | Code/handlers/mod_manager.py:520-565 | a later mod overriding an id that an earlier mod overrides is warned, naming the earlier mod |
| Issues.DepMessages | Code/handlers/mod_manager.py:532-553 | the dependency loop appends those warnings and errors |
| Issues.OverrideLoop | Code/handlers/mod_manager.py:555-565 | the override loop appends those warnings |
| Issues.CheckMod | Code/handlers/mod_manager.py:526-565 | one mod is refreshed and then gets its dependency and override messages |
| Issues.CheckedKeeps | Code/handlers/mod_manager.py:526-565 | checking changes only the messages |
| Issues.CheckedIdempotent | Code/handlers/mod_manager.py:526-565 | checking twice gives the same messages as checking once; nothing accumulates |
| Issues.UpdatedMetaIgnoresMessages | Code/package/dataclasses.py:254-256 | the refresh does not read the messages already there |
| Sorting.ScanDepsSpec | Code/handlers/mod_manager.py:587-605 | over one mod's dependencies only active ids are banned, and exactly the wanted known inactive mods are recorded |
| Sorting.ScanModsSpec | Code/handlers/mod_manager.py:586-605 | over all active mods the same holds |
| Sorting.ScanModDeps | Code/handlers/mod_manager.py:587-605 | the inner scan loop computes the scan of one mod |
| Sorting.ScanLoop | Code/handlers/mod_manager.py:586-605 | the scan loop computes the scan of the active mods |
| Sorting.ActivatePassSpec | Code/handlers/mod_manager.py:607-616 | the pass activates only the candidates; both lists keep each mod once |
| Sorting.ActivatePass | Code/handlers/mod_manager.py:607-616 | the new active list holds only mods that were active or are registered |
| Sorting.AddedFirstAdder | Code/handlers/mod_manager.py:618-622 | each added id maps to the first active mod that adds it |
| Sorting.AddMod | Code/handlers/mod_manager.py:620-622 | one mod maps its added ids that are not yet mapped |
| Sorting.AddedLoop | Code/handlers/mod_manager.py:618-622 | the loop builds the first-adder map |
| Sorting.HardParentsSpec | Code/handlers/mod_manager.py:628-636 | the hard parents are the active targets of applicable `requirement` and `patch` dependencies |
| Sorting.NameParentsSpec | Code/handlers/mod_manager.py:638-644 | the name parents are the other mods whose lower-case name of four or more characters is inside this one's |
| Sorting.OverrideParentsSpec | Code/handlers/mod_manager.py:646-651 | the override parents are the first adders, other than the mod itself, of its overridden ids |
| Sorting.ParentsWithin | Code/handlers/mod_manager.py:624-651 | every parent is an active mod |
| Sorting.EdgesClosed | Code/handlers/mod_manager.py:624-651 | the dependency graph has keys and parents only among the active mods |
| Sorting.HardInParents | Code/handlers/mod_manager.py:624-636 | every hard edge is also a parent link |
| Sorting.EdgesOfMod | Code/handlers/mod_manager.py:624-651 | with distinct ids, each mod's parent set is exactly the one computed for it |
| Sorting.Pairs | Code/handlers/mod_manager.py:635-636 | the hard edges of a mod are the pairs of it with each hard parent |
| Sorting.HardLoop | Code/handlers/mod_manager.py:628-636 | the dependency loop computes the hard parents |
| Sorting.NameLoop | Code/handlers/mod_manager.py:638-644 | the name loop computes the name parents |
| Sorting.OverrideLoop | Code/handlers/mod_manager.py:646-651 | the override loop computes the override parents |
| Sorting.CollectParents | Code/handlers/mod_manager.py:624-651 | the three loops together compute one mod's hard parents and all its parents |
| Sorting.RecordParents | Code/handlers/mod_manager.py:624-651 | one pass of the edge loop extends the graph by that mod |
| Sorting.EdgesLoop | Code/handlers/mod_manager.py:624-651 | the edge loop builds the dependency graph and the hard edges |
| LoadOrder.Filter | Code/handlers/mod_manager.py:663-667 | the filtered list holds exactly the members in the set |
| LoadOrder.ChildrenOfMembers | Code/handlers/mod_manager.py:658-661 | a mod's children are exactly the mods that have it as a parent |
| LoadOrder.InitQueue | Code/handlers/mod_manager.py:663-669 | the first queue holds the parentless mods, in the current order |
| LoadOrder.ProcessQueue | Code/handlers/mod_manager.py:674-687 | the drain empties the queue |
| LoadOrder.ProcessQueueGrows | Code/handlers/mod_manager.py:674-687 | the processed set only grows, and every queued active mod ends processed |
| LoadOrder.SoftRoundShrinks | Code/handlers/mod_manager.py:695-713 | a soft round that queues something drops at least one edge, so the soft loop ends |
| LoadOrder.SoftRoundDropsSoftOnly | Code/handlers/mod_manager.py:700-711 | a soft round drops only non-hard edges between unresolved mods, and adds none |
| LoadOrder.SoftPhaseKeepsHard | Code/handlers/mod_manager.py:695-713 | the soft loop keeps every hard edge |
| LoadOrder.Pick | Code/handlers/mod_manager.py:719-722 | the forced pick is an unresolved mod with the fewest unresolved parents |
| LoadOrder.MinScanLeast | Code/handlers/mod_manager.py:719-722 | `min` returns the first member with the least key |
| LoadOrder.ForcedStepEmits | Code/handlers/mod_manager.py:715-726 | each forced step emits the picked mod |
| LoadOrder.ForcedPhaseBasic | Code/handlers/mod_manager.py:715-726 | the forced loop ends with every active mod emitted once |
| LoadOrder.ResolvePermutation | Code/handlers/mod_manager.py:654-726 | the sorted list holds every active mod exactly once, whatever the cycles |
| LoadOrder.Phase1Complete | Code/handlers/mod_manager.py:654-689 | on an acyclic graph the first drain emits every mod |
| LoadOrder.AcyclicRespected | Code/handlers/mod_manager.py:654-726 | on an acyclic graph every mod comes after all its parents and nothing is forced |
| LoadOrder.NoEdgesKeepsOrder | Code/handlers/mod_manager.py:663-689 | with no edges the current order is kept |
| LoadOrder.FixedRespectsHard | Code/handlers/mod_manager.py:695-726 | with the corrected soft phase, every mod not forced out comes after all its hard parents |
| LoadOrder.SoftPhaseDoubleCount | Code/handlers/mod_manager.py:658-713 | as written, a mod can be emitted before its hard parent although nothing was forced |
| LoadOrder.AddChild | Code/handlers/mod_manager.py:659-661 | a child is appended to the list of each of its parents and no other |
| LoadOrder.ChildGraph | Code/handlers/mod_manager.py:658-661 | the child lists built are those of the parent sets |
| LoadOrder.MinHolder | Code/handlers/mod_manager.py:719-722 | the loop computes `min`'s pick |
| LoadOrder.DropSoft | Code/handlers/mod_manager.py:702-711 | one mod's soft unresolved parents are dropped, each lowering its in-degree, and it is queued when the in-degree reaches zero |
| LoadOrder.Resolver.constructor | Code/handlers/mod_manager.py:654-669 | in-degrees, child lists and the first queue, as the initial state states |
| LoadOrder.Resolver.Seeds | Code/handlers/mod_manager.py:663-669 | the loop builds the first queue of the initial state |
| LoadOrder.Resolver.ReleaseChildren | Code/handlers/mod_manager.py:684-687 | each child loses one in-degree, and those reaching zero join the queue |
| LoadOrder.Resolver.Drain | Code/handlers/mod_manager.py:674-687 | the drain loop computes the drain |
| LoadOrder.Resolver.EmitOne | Code/handlers/mod_manager.py:680-687 | emitting a mod appends it, marks it processed and releases its children |
| LoadOrder.Resolver.SoftPass | Code/handlers/mod_manager.py:698-711 | one soft round over the unresolved mods |
| LoadOrder.Resolver.SoftLoop | Code/handlers/mod_manager.py:695-713 | the soft loop computes the soft phase |
| LoadOrder.Resolver.PickBest | Code/handlers/mod_manager.py:719-722 | the forced pick read from the current state |
| LoadOrder.Resolver.ForceOne | Code/handlers/mod_manager.py:716-726 | one forced step queues the pick with in-degree zero and drains |
| LoadOrder.Resolver.Force | Code/handlers/mod_manager.py:724-726 | the given mod is queued with in-degree zero, marked forced, and the queue drained |
| LoadOrder.Resolver.ForcedLoop | Code/handlers/mod_manager.py:715-726 | the forced loop computes the forced phase |
| LoadOrder.ResolveOrder | Code/handlers/mod_manager.py:654-726 | the resolver computes the specified order (as written or corrected), which lists each active mod once |
| Manager.ConsistentLists | Code/handlers/mod_manager.py:258-263 | in a consistent state the lists have no repeats, share nothing, and together hold exactly the registered mods |
| Manager.LoadState | Code/handlers/mod_manager.py:184-265 | the registry comes from the deduplicated mods, and the lists are split by configuration, the active one sorted by load order |
| Manager.ParseModSafe | Code/handlers/mod_manager.py:43-61 | no filelist gives nothing; a matching cached mod is reused; otherwise the build result, which is cached when there is one |
| Manager.ApplyPreset | Code/handlers/mod_manager.py:105-146 | the preset selects the active list, every other mod is inactive in registry order, and the active mods are numbered |
| Manager.NumberedIs | Code/handlers/mod_manager.py:145-146 | a numbering of a repeat-free list is the one computed |
| Manager.NumberedMap | Code/handlers/mod_manager.py:728-729 | numbering keeps the registry's keys |
| Manager.CheckAll | Code/handlers/mod_manager.py:517-565 | every active mod is checked against the active set and the first-overrider map; the others are kept |
| Manager.ErrorsKeepRegistry | Code/handlers/mod_manager.py:517-565 | the check keeps every mod's id, so the registry stays well formed |
| Manager.Activated | Code/handlers/mod_manager.py:586-616 | the activated lists hold only registered mods |
| Manager.ActivatedSpec | Code/handlers/mod_manager.py:586-616 | auto-activation moves exactly the requested known inactive mods, and keeps both lists repeat-free |
| Manager.ActivateLoop | Code/handlers/mod_manager.py:607-614 | the activation loop computes the activation pass |
| Manager.AutoActivated | Code/handlers/mod_manager.py:586-616 | the scan and pass keep the state consistent and compute the activated lists |
| Manager.ActiveWithin | Code/handlers/mod_manager.py:618-622 | the active mods and the first adders are among the active ids |
| Manager.SortGraphClosed | Code/handlers/mod_manager.py:624-651 | every parent is active, every hard edge is a parent link, and only active mods have parents |
| Manager.SortGraphParents | Code/handlers/mod_manager.py:624-651 | each active mod's parents are exactly those the edge loop computes |
| Manager.SortOrderSpec | Code/handlers/mod_manager.py:624-726 | the sorted list is a permutation of the active list, and every mod not forced out follows its hard parents |
| Manager.OrderMods | Code/handlers/mod_manager.py:618-726 | the edges and the corrected resolver give an order of exactly the active mods |
| Manager.Reorder | Code/handlers/mod_manager.py:618-731 | the ordered list replaces the active one and is numbered, and the state stays consistent |
| Manager.SortedMembers | Code/handlers/mod_manager.py:568-731 | after `sort` the active list holds exactly the activated mods, each once |
| Manager.SortNoParentsKeepsOrder | Code/handlers/mod_manager.py:568-731 | when no mod has a parent, the active order is kept |
| Manager.ModManager.constructor | Code/handlers/mod_manager.py:20-23 | the class starts with nothing registered |
| Manager.ModManager.ListsDisjoint | Code/handlers/mod_manager.py:336-416 | the invariant gives repeat-free, disjoint lists covering the registry |
| Manager.ModManager.Install | Code/handlers/mod_manager.py:255-263 | the new registry and lists become the state, and the invariant holds |
| Manager.ModManager.GetModById | Code/handlers/mod_manager.py:329-331 | the registered mod of that id, which carries the id, or none |
| Manager.ModManager.ActivateMod | Code/handlers/mod_manager.py:335-345 | `activate_mod` on the manager's lists, keeping the invariant |
| Manager.ModManager.DeactivateMod | Code/handlers/mod_manager.py:347-357 | `deactivate_mod` on the manager's lists, keeping the invariant |
| Manager.ModManager.ActivateAll | Code/handlers/mod_manager.py:359-365 | the inactive list is appended to the active one and emptied |
| Manager.ModManager.SwapActive | Code/handlers/mod_manager.py:367-388 | two known, distinct active mods exchange places; otherwise nothing changes |
| Manager.ModManager.SwapInactive | Code/handlers/mod_manager.py:390-401 | two known inactive mods exchange places; otherwise nothing changes |
| Manager.ModManager.MoveActiveToEnd | Code/handlers/mod_manager.py:403-408 | a known active mod moves to the end of the active list |
| Manager.ModManager.MoveInactiveToEnd | Code/handlers/mod_manager.py:410-415 | a known inactive mod moves to the end of the inactive list |
| Manager.ModManager.LoadMods | Code/handlers/mod_manager.py:178-265 | without a game folder nothing changes; otherwise the state is rebuilt as `LoadState` states |
| Manager.ModManager.LoadPreset | Code/handlers/mod_manager.py:88-149 | a preset that cannot be read changes nothing and reports failure; otherwise the lists are those of the preset |
| Manager.ModManager.SavePreset | Code/handlers/mod_manager.py:151-176 | without a preset folder nothing is written; otherwise the preset document of the active list, with success as the write reports it |
| Manager.ToggleIds | Code/handlers/mod_manager.py:446-447 | exactly the listed mods that have toggle content, in list order |
| Manager.ModManager.SaveModsToggles | Code/handlers/mod_manager.py:444-464 | `do_changes` runs with the set of active ids on the active mods with toggle content in load order; the mods toggled and whether the configuration is rewritten are those of `SaveRun` |
| Manager.SaveRunWrittenIff | Code/handlers/mod_manager.py:446-466 | the configuration is rewritten exactly when no active mod with toggle content raises in `do_changes` |
| Manager.SaveRunAllToggled | Code/handlers/mod_manager.py:446-464 | when none raises (as with `Parts.DoChangesIntended`), every active mod with toggle content is toggled, in load order, and the configuration is rewritten |
| Manager.SaveRunStopsAtFirstRaise | Code/handlers/mod_manager.py:446-466 | the first active mod whose `do_changes` raises ends the save: the toggled mods are the toggle mods up to and including it, none after it, and the configuration is not rewritten |
| Manager.ModManager.ProcessErrors | Code/handlers/mod_manager.py:516-565 | every active mod's messages are rebuilt; the lists stay as they are |
| Manager.ModManager.AutoActivate | Code/handlers/mod_manager.py:586-616 | the lists become the activated ones |
| Manager.ModManager.Sort | Code/handlers/mod_manager.py:567-734 | an empty active list is left alone; otherwise activation, the corrected ordering, numbering and the error check, keeping the invariant |

## Left out

- File and folder I/O, `Path.exists`, `rglob` and folder listing are left out. The model takes their results: parsed documents (`None` for a missing or unloadable file), a set of existing paths, and the list of parsed mods.
- The XML library (`XMLBuilder.load`, `save`, `find_between_comments`, `replace`) is not part of this model beyond the abstract tree. The regions of a content file are inputs.
- Threads and `ThreadPoolExecutor` are left out. The folder loops are sequential. A lemma (`Package.ScanOrderIrrelevant`) states that the order of the concurrent file scan does not matter.
- Pickle persistence reduces to what the cache file reloads to (`Cache.StoredCache`). A dump of a non-empty map always fails, because every `ModUnit` holds a `threading.Lock` (`Code/package/dataclasses.py:97`); see Findings.
- MD5 is the parameter `md5`, applied to the concatenation of what is fed.
- `process_condition` is the parameter `eval`. It receives the active ids.
- The keyword mismatch at `Code/handlers/mod_manager.py:549` (`active_mods_ids`) is not modelled: the evaluator is called as `eval`.
- `loc.get_string` is the message datatype `Package.Message`. It is not translated.
- Python's set iteration order is a parameter (`order`) where it decides the outcome, and `:|` where it does not.
- Logging is left out.
- `save_mods` is modelled in its toggling loop only (`Manager.ModManager.SaveModsToggles`). `PartsManager.do_chenges` does not exist, so the `AttributeError` fallback runs `do_changes` (`Parts.DoChanges`) on each active mod with toggle content. The `regularpackages` entries it builds and the temp-file replace of `config_player.xml` are left out; the model keeps only whether that rewrite is reached.
- `_on_exit` is left out. It rewrites `config_player.xml` and runs `rollback_changes_no_thread` (what `Parts.RollbackChanges` computes, without threads) on each active mod with toggle content, catching each mod's error, so one failure does not stop the others.
- `load_cslua_config`, `get_game_path`, `get_presets_dir`, `get_available_presets` and `init` are left out: they only read or write files or app settings.
- `Package.Build`: `_has_file` globbing becomes the parameters `hasLua` and `hasCs`.
- `Package.Build`: `_resolve_metadata_path` with the `InternalLibrary` search becomes the parameter `metaDocFor`.
- Exceptions other than the unbound name in `_process_config` are left out: a parse failure is an absent document.
- `Package.GetBoolSetting`: the float branch of `get_bool_setting` is not modelled. Settings read from XML are always strings.
- `Manager.ModManager.SavePreset`: whether the write succeeds is the parameter `writeOk`.
- `ModUnit` objects are values in the registry map, and the lists hold ids. Aliasing of the same object from the UI is not modelled.
- `mod.load_order` assignments update the registry entry.
- `Manager.ModManager.Sort` uses the corrected soft phase (`LoadOrder.ResolveFixed`). The as-written resolver, `LoadOrder.Resolve`, is modelled beside it; see Findings.
- LowerSpec: `Xml.Lower` lower-cases ASCII letters only, while Python's `str.lower()` is Unicode-aware. Names and tags with other letters compare differently in the model. This affects `Sorting.NameParents` (a Cyrillic mod name and its upper-case patch form a name parent in Python but not here), `Parts.ActionTarget` and `Parts.FirstMatchSpec` (the case-insensitive attribute and tag tests), the rule lookup and wrapper test in `IdParser`, and the file-name tests in `Package`.
- StripSpec: `Xml.Strip` drops ASCII whitespace only, while Python's `str.strip()` also drops Unicode whitespace such as U+00A0 and U+0085. Metadata text with such characters at its ends keeps them in the model (`Package.MetaStep`).
- `ModUnit` and `Dependency` use dataclass equality in the source, which compares every field, the lock included, so two distinct `ModUnit` objects are never equal. Only `Identifier` compares by id. The model's id-based list operations (`ModLists.RemoveFirst`, `ModLists.IndexOf`, the `not in` tests in `Presets`) stand for those object comparisons. They agree because the lists hold the registry's objects, one per id.
- NameOf: `Path.name` is taken after the last `/` only. A trailing `/` and Windows `\` separators are not modelled.
- `Loading.SortSorted`: the stability of Python's `sorted` is not stated. Only mods with equal keys could tell, and the active mods sorted at `Code/handlers/mod_manager.py:265` have distinct positions (`Loading.ConfigsDistinct`).
- `Sorting.ScanMods`: `ban_ids` holds only active ids, so the `not in ban_ids` check in the auto-activation pass never excludes a candidate. The model keeps the check.

## Findings

| source | as written | input that shows it | evidently intended | confidence | as-written member | corrected member |
|---|---|---|---|---|---|---|
| Code/handlers/parts_manager.py:172-174 | activating a commented-out `filelist.xml` entry replaces it with `new_node`, which is bound only by an earlier deactivation in the same call | a `modparts.xml` with one action `setState="on"` for an entry that is commented out: `new_node` is unbound, the call raises, and nothing is renamed or saved; in `save_mods` (`Code/handlers/mod_manager.py:446-466`) that `NameError` passes the `AttributeError` handler, so the later active mods are not toggled and `config_player.xml` is not rewritten (`Manager.SaveRunStopsAtFirstRaise`) | replace the entry with `item.to_element()` | not executed | Parts.ActivationUnboundExample | Parts.IntendedStepSettles |
| Code/handlers/mod_manager.py:695-713 | dropping a soft edge lowers the in-degree but leaves the child in `children_graph`, so emitting that parent later lowers it a second time | with the active list [A, B, C], A has parents B (soft) and C (hard), B has parent A (soft), C has parent B (hard): after the soft round B is emitted, A and C both reach zero, and A is emitted before its hard parent C with nothing forced | remove the child link from `children_graph` when the soft edge is dropped | not executed | LoadOrder.SoftPhaseDoubleCount | LoadOrder.FixedRespectsHard |
| Code/handlers/cache_manager.py:37-47 | `save` writes the map of `ModUnit` objects with `pickle.dump`; each holds a `threading.Lock` (`Code/package/dataclasses.py:97`), which pickle refuses, and the error is caught after the `"wb"` open has already truncated the file | a cache holding one mod: `save` leaves a truncated file and the cache dirty, and the next `init` loads an empty map, so the mod is parsed again | leave the lock out of what is pickled, so the whole map is written | not executed | Cache.RestartLosesStoredMod | Cache.RestartKeepsStoredMod |
