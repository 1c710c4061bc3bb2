# Verified model of a game front end's back end

The repository is a front end for launching games: a Qt program that collects games from many
providers, shows them in lists, stores settings, starts the games and comes back afterwards. The
modules here model its most intricate parts in Dafny and prove what callers rely on. State that the
program updates in place is a class here, each method proved against a function on values; what
holds over whole runs is proved about those functions.

- **Game database** (`Wrappers`, `StdHelpers`, `GameDb`, `SearchContext`). Providers create collections, games and
  files in any order; the tables they fill are an explicit state, each call a step. `finalize` prunes in
  several passes. What it returns is told from the history of calls alone.
- **Settings** (`Text`, `MetaFile`, `EntryText`, `KeyMap`, `KeyText`, `SettingsFile`, `Settings`). A printer, a line-oriented
  reader, and a key map in which adding a binding takes it from the other events. Saving and loading
  is the identity, whatever the iteration order of the hash maps.
- **INI store and string codecs** (`StringOps`, `IniText`, `IniRoundTrip`, `IniFile`, `Utf8`, `Numbers`). An overlay of pending
  writes, lines rewritten in place by a loop that changes its own key, UTF-8 with cursors, and numbers
  printed backwards into tight buffers.
- **Sort and filter proxy** (`SorterOrder`, `ProxyProtocol`, `Filters`). The row order, the delayed invalidation
  with its flags and queue, and signals travelling up through nested filters.
- **Launching** (`CommandLine`, `Launch`). Escaping, splitting and joining a command line; the asynchronous
  protocol between Api, launcher and frontend.
- **Observed lists** (`ObjectListModel`, `MountMonitor`). Index, count and row events against the plain list; a
  difference of two lists by striking out pairs.
- **File writer and animated images** (`FileWriter`, `Apng`). A producer and a consumer step by step; integer
  blending and disposal.

Several results are exact conditions, because the plain statement does not hold of the code. The
most notable: a game in two collections keeps only one of them (`SearchContext.StoredCollectionComplete`);
saving an INI value is undone by a second line for its key (`IniRoundTrip.SaveLoadExactly`); an empty option
value ends its entry (`EntryText.ItemRoundTripExactly`); a null item in an inserted list puts the views out of
step (`ObjectListModel.InsertionFollowedExactly`); data handed over after the last copy never reaches the file
(`FileWriter.FinishedExactly`); an unknown sort role name leaves the old order, and a proxy role change can come too
early to be announced (`ProxyProtocol.NothingIsLost`), and completion can leave a full invalidation queued that the next
change posts again (`ProxyProtocol.SecondCallExactly`); a device mounted elsewhere between two polls goes unnoticed
(`MountMonitor.EntriesExactly`). The comment on `AllOfFilter` says it returns true "if all filters return false";
the code requires all to accept, and so does the model. The launch error for a
missing command sits in a branch the code cannot reach (`CommandLine.PrepareLaunch`).

Files, the mount table, the process list, settings read by other parts, and Qt's own classes appear
as parameters or abstract values. Signals are steps or entries of a ghost log.

Check the whole project with `dafny verify dfyconfig.toml`.

## Model

| member | source | states |
|---|---|---|
| `SearchContext.GamesReturned` | src/backend/providers/SearchContext.cpp:171-315 | After any calls of the providers and then finalize, the games returned are, without duplicates, exactly the created games that own a file and were put in some collection |
| `SearchContext.CollectionsReturned` | src/backend/providers/SearchContext.cpp:171-315 | The collections returned are exactly those given a game that owns a file; a collection lists a game, and the game is handed that collection, if and only if some call put the one in the other and the game owns a file |
| `SearchContext.FinalizedTwoWay` | src/backend/providers/SearchContext.cpp:220-255 | Both directions of the games/collections relation agree, neither list has duplicates or names a dropped object |
| `SearchContext.FinalizedOneWay` | src/backend/providers/SearchContext.cpp:171-315 | What is kept, the relation and its lists do not depend on the order in which the hash maps are walked |
| `SearchContext.StoredCollectionComplete` | src/backend/model/gaming/Game.cpp:309-314 | setCollections keeps one collection only: a game's own view of its collections is complete if and only if no two collections were given that game |
| `SearchContext.StoredIsListed` | src/backend/model/gaming/Game.cpp:309-314 | The one collection a game keeps does list that game |
| `SearchContext.KeptByRun` | src/backend/providers/SearchContext.cpp:171-218 | What survives pruning, told from the calls alone, for any reachable state |
| `SearchContext.CleanedGood` | src/backend/providers/SearchContext.cpp:171-218 | The two pruning passes together keep exactly the games with entries and a collection, exactly the collections with such a game, and leave no entry list, game list or name behind that refers to anything else; the objects not deleted are exactly the games in a collection with their files, and the collections kept |
| `SearchContext.SearchContext.Finalize` | src/backend/providers/SearchContext.cpp:257-315 | Prunes, applies and returns: the result is as the state before the call demands, both lists sorted, every object returned is alive, and the objects left alive are told from the state before |
| `SearchContext.SearchContext.CleanupGames` | src/backend/providers/SearchContext.cpp:171-195 | Deletes parentless games with their files, drops entryless games from every list, then the lists left empty, and changes nothing else |
| `SearchContext.SearchContext.CleanupCollections` | src/backend/providers/SearchContext.cpp:197-218 | Deletes exactly the collections without a game list, from the names and the name table alike |
| `SearchContext.SearchContext.GameList` | src/backend/providers/SearchContext.cpp:273-310 | Every game with entries, once, sorted |
| `SearchContext.SearchContext.CollectionList` | src/backend/providers/SearchContext.cpp:293-307 | Every collection left, once, sorted |
| `SearchContext.SearchContext.ApplyFiles` | src/backend/providers/SearchContext.cpp:225-230 | Each game takes its own entries, sorted; the assertion that they are not empty holds |
| `SearchContext.SearchContext.GatherCollections` | src/backend/providers/SearchContext.cpp:234-239 | Turns games-of-a-collection into collections-of-a-game: a pair is in one if and only if it is in the other |
| `SearchContext.SearchContext.ApplyCollections` | src/backend/providers/SearchContext.cpp:242-245 | Each game is handed its collections sorted and without duplicates, and keeps the first |
| `SearchContext.SearchContext.ApplyGames` | src/backend/providers/SearchContext.cpp:248-252 | Each collection takes its games sorted and without duplicates, none lost |
| `SearchContext.SearchContext.ApplyLists` | src/backend/providers/SearchContext.cpp:220-255 | The four loops together, from the pruned state |
| `SearchContext.SearchContext.GetOrCreateCollection` | src/backend/providers/SearchContext.cpp:75-84 | One collection for one name, found again by every later call |
| `SearchContext.SearchContext.CreateGameFor` | src/backend/providers/SearchContext.cpp:86-93 | A new game at the end of the collection's list, nothing else changed, invariant kept |
| `SearchContext.SearchContext.CreateGame` | src/backend/providers/SearchContext.cpp:95-100 | A new parentless game, nothing else changed, invariant kept |
| `SearchContext.SearchContext.GameAddFilepath` | src/backend/providers/SearchContext.cpp:134-150 | A known path returns its first file and changes nothing; a new one adds one file to this game |
| `SearchContext.SearchContext.GameAddUri` | src/backend/providers/SearchContext.cpp:152-162 | The same for uris |
| `SearchContext.SearchContext.GameAddTo` | src/backend/providers/SearchContext.cpp:164-169 | Adds the game to the collection and to no other list, and takes every occurrence out of the parentless games |
| `GameDb.RunKeepsInv` | src/backend/providers/SearchContext.cpp:75-169 | In every state reachable before finalize: names and collections one to one, each path or uri leads to one live file, each file once in its parent's entries, every game parentless or collected but never both |
| `GameDb.StepKeepsInv` | src/backend/providers/SearchContext.cpp:75-169 | Every single call keeps that invariant |
| `GameDb.FirstFileStays` | src/backend/providers/SearchContext.cpp:134-162 | A registered path or uri leads to its first file for ever, and registering it again under any game changes nothing |
| `GameDb.HistoryOfRun` | src/backend/providers/SearchContext.cpp:75-169 | The tables of a reachable state hold exactly what the calls made so far say: games created, pairs linked, paths and uris used |
| `GameDb.FilesOfRun` | src/backend/providers/SearchContext.cpp:134-162 | A game has entries if and only if some call named, under it, a path or uri no earlier call had named |
| `StdHelpers.RemoveIf` | src/backend/utils/StdHelpers.h:34-35 | Erasing by a predicate leaves the other elements, in order |
| `StdHelpers.FilterKeepsOrder` | src/backend/utils/StdHelpers.h:31-35 | What is kept stays in order and as often as it was there |
| `StdHelpers.AscendingUnique` | src/backend/utils/StdHelpers.h:27-29 | There is only one sorted vector without duplicates that has given members |
| `StdHelpers.Sort` | src/backend/utils/StdHelpers.h:24-25 | Sorted by any strict weak order, nothing lost or doubled |
| `StdHelpers.RemoveDuplicates` | src/backend/utils/StdHelpers.h:27-29 | Sorted, no duplicates, same members |
| `SettingsFile.SettingsRoundTrip` | src/backend/parsers/SettingsFile.cpp:127-380 | Saving and loading over any store of the same providers restores the flag and options of each provider that is not internal, and each named event's exact key list, whatever the order in which options and events are written |
| `SettingsFile.ReloadIsIdentity` | src/backend/parsers/SettingsFile.cpp:275-289 | Saving and loading in the same program changes nothing |
| `SettingsFile.LoadSaved` | src/backend/parsers/SettingsFile.cpp:127-380 | Loading a saved text, step by step: internal providers untouched, the other providers' saved options laid over the present ones, the key rows loaded one by one |
| `SettingsFile.HandleProviderItem` | src/backend/parsers/SettingsFile.cpp:188-226 | A printed option line sets that option of that provider and nothing else |
| `SettingsFile.HandleKeyItem` | src/backend/parsers/SettingsFile.cpp:228-265 | A printed key line loads that event's row and nothing else |
| `SettingsFile.HandleForeign` | src/backend/parsers/SettingsFile.cpp:127-155 | Entries of other sections touch neither providers nor keys |
| `SettingsFile.DottedKey` | src/backend/parsers/SettingsFile.cpp:131-137 | A key joined from good section names splits into the same names |
| `SettingsFile.UnknownIgnored` | src/backend/parsers/SettingsFile.cpp:127-265 | An entry of no known section, provider or event, or for an internal provider, changes nothing |
| `SettingsFile.InternalSpared` | src/backend/parsers/SettingsFile.cpp:188-226 | Whatever is loaded, internal providers stay as they were |
| `SettingsFile.FurtherPartsIgnored` | src/backend/parsers/SettingsFile.cpp:127-265 | Further parts of a key are ignored |
| `SettingsFile.LinesAsWritten` | src/backend/parsers/SettingsFile.cpp:324-380 | The lines of the file, as they look |
| `SettingsFile.BoolWords` | src/backend/parsers/SettingsFile.cpp:212-222 | The words for yes and no; others leave the flag alone |
| `SettingsFile.EnabledRoundTrip` | src/backend/parsers/SettingsFile.cpp:212-222 | The enabled flag survives as text |
| `SettingsFile.OptionRoundTripExactly` | src/backend/parsers/SettingsFile.cpp:188-226 | One option of any name and any values comes back through printing and loading if and only if its name is in lower case, one line, without dot and colon and not ending in white space, is not the flag's, and its values are good; nothing else changes |
| `SettingsFile.LoadedOption` | src/backend/parsers/SettingsFile.cpp:188-226 | Whatever file was loaded, the options it set have such names, but possibly white space at the end, and trimmed values or paragraph breaks: a loaded option is good unless its name ends in white space, it has a paragraph break, or the mark is one of several values |
| `SettingsFile.ProgramStoreIsGood` | src/backend/AppSettings.cpp:97-139 | The providers the program creates, whatever is compiled in, meet what the round trip asks if their options do |
| `SettingsFile.NewStoreIsGood` | src/backend/AppSettings.cpp:60-139 | So do they with the settings the program starts with |
| `EntryText.PrintedReports` | src/backend/parsers/MetaFile.cpp:66-147 | A printed entry reports no attribute but its own: the key without the white space at its end, and its own values only if they are good |
| `EntryText.ItemRoundTripExactly` | src/backend/parsers/MetaFile.cpp:66-147 | One printed option is reported again, alone and unchanged, if and only if it has values, each non-empty trimmed text on one line, and none of several is the paragraph mark |
| `EntryText.ItemsRoundTrip` | src/backend/parsers/MetaFile.cpp:66-147 | A printed file of good items is reported as exactly those entries, in order |
| `EntryText.ReportedIsGood` | src/backend/parsers/MetaFile.cpp:66-147 | Whatever the file holds, a reported attribute has a trimmed key in lower case without colon, and values, each a paragraph break or trimmed text on one line |
| `EntryText.OpenKeepsGood` | src/backend/parsers/MetaFile.cpp:125-138 | The key is never empty when the pattern matches the trimmed line |
| `EntryText.BlankCutsShort` | src/backend/parsers/SettingsFile.cpp:349-350 | An empty value among several is written as a blank line and cuts the entry short: nothing is reported with as many values |
| `EntryText.FeedKeepsGood` | src/backend/parsers/MetaFile.cpp:90-142 | Whatever the line, the open entry and everything reported stay free of stray white space, and their keys are in lower case, without colon and not empty |
| `MetaFile.ReadWholeFile` | src/backend/parsers/MetaFile.cpp:40-52 | Opening in text mode drops every carriage return before the lines are read |
| `MetaFile.ReadStream` | src/backend/parsers/MetaFile.cpp:66-147 | The loop reports exactly the events of the line-by-line state machine, the last entry included |
| `MetaFile.MergeOne` | src/backend/parsers/MetaFile.cpp:152-182 | Merging a single trimmed line gives that line |
| `MetaFile.MergeMore` | src/backend/parsers/MetaFile.cpp:152-182 | Each further line comes behind a blank, or behind an empty line for each paragraph break in front of it |
| `MetaFile.MergeFirst` | src/backend/parsers/MetaFile.cpp:152-182 | Breaks at the beginning are lost |
| `MetaFile.BreaksAtEnd` | src/backend/parsers/MetaFile.cpp:152-182 | Breaks at the end are lost |
| `MetaFile.CommentSkipped` | src/backend/parsers/MetaFile.cpp:94-95 | A comment line anywhere, inside an entry too, changes nothing |
| `MetaFile.ContinuationLine` | src/backend/parsers/MetaFile.cpp:103-118 | Any white space at its beginning makes a line continue the open entry; without one it is reported |
| `MetaFile.LineWithoutKey` | src/backend/parsers/MetaFile.cpp:120-142 | A line that is no key and value closes the entry and is reported |
| `Settings.SaveThenLoad` | src/backend/parsers/SettingsFile.cpp:99-380 | One program saves, another with the same providers loads, in place: saved flags, options and keys of every named event are there |
| `Settings.AppSettings.Save` | src/backend/parsers/SettingsFile.cpp:275-380 | Writes the items of every section, each option and named event exactly once, in whatever order the maps are walked |
| `Settings.AppSettings.Load` | src/backend/parsers/SettingsFile.cpp:99-110 | Handles every reported attribute in order |
| `Settings.AppSettings.PrintItem` | src/backend/parsers/SettingsFile.cpp:337-351 | One value on the key's line, any other number on lines of their own |
| `Settings.AppSettings.PrintProvider` | src/backend/parsers/SettingsFile.cpp:328-352 | The flag and then every option once; nothing for an internal provider |
| `Settings.AppSettings.PrintProviders` | src/backend/parsers/SettingsFile.cpp:324-353 | All providers in order |
| `Settings.AppSettings.PrintKeys` | src/backend/parsers/SettingsFile.cpp:355-380 | Every named event once |
| `Settings.AppSettings.PrintValue` | src/backend/parsers/SettingsFile.cpp:358-378 | The labels of an event's keys joined by commas, or "none" |
| `Settings.AppSettings.HandleAttribute` | src/backend/parsers/SettingsFile.cpp:127-155 | Dispatches on the section; keys without a dot are ignored |
| `Settings.AppSettings.HandleProviderAttrib` | src/backend/parsers/SettingsFile.cpp:188-226 | Sets the flag or the option of the first provider of that name, unless it is unknown or internal |
| `Settings.AppSettings.HandleKeyAttrib` | src/backend/parsers/SettingsFile.cpp:228-265 | Clears the event, then adds the keys read |
| `Settings.AppSettings.ParseKeys` | src/backend/parsers/SettingsFile.cpp:243-261 | The key sequences of a comma-separated value, empty parts and unreadable ones skipped |
| `Settings.AppSettings.AddKeys` | src/backend/parsers/SettingsFile.cpp:263-264 | Adds them one by one, each taken from the other events first |
| `KeyText.KeysRoundTripExactly` | src/backend/parsers/SettingsFile.cpp:228-265 | With a text conversion faithful on the event's own key sequences, its list of keys survives printing and reading if and only if it has no empty key sequence |
| `KeyText.KeysRoundTrip` | src/backend/parsers/SettingsFile.cpp:355-380 | Under the same condition, the printed value is one clean line and reads as the same list, in order |
| `KeyText.LabelRoundTrip` | src/backend/parsers/SettingsFile.cpp:360-370 | One key sequence on which the conversion is faithful: gamepad buttons by name, commas spelled out |
| `KeyText.UnescapeEscape` | src/backend/parsers/SettingsFile.cpp:245-250 | Replacing commas by "Comma" and back is the identity on texts that do not say "Comma" |
| `KeyText.LooseSyntax` | src/backend/parsers/SettingsFile.cpp:237-252 | White space around a label does not matter, and "none" may be written in any letters |
| `KeyText.EmptyPartSkipped` | src/backend/parsers/SettingsFile.cpp:243-250 | Empty parts between commas are skipped |
| `KeyText.ButtonsAsWritten` | src/backend/AppSettings.cpp:81-99 | The gamepad buttons under the names the file uses |
| `KeyMap.StepKeepsExclusive` | src/backend/AppSettings.cpp:162-180 | Every add, delete, clear and reset keeps each key sequence bound to at most one event and at most once |
| `KeyMap.DefaultExclusive` | src/backend/AppSettings.cpp:60-79 | The default key map binds every event and is exclusive |
| `KeyMap.StepEffects` | src/backend/AppSettings.cpp:162-180 | What each call does to every event's list: an added key sequence leaves the others and comes last in its own, a deleted or cleared one leaves its own list alone, and a reset brings the default lists back |
| `KeyMap.LoadRowsRestores` | src/backend/parsers/SettingsFile.cpp:228-265 | Loading the rows of an exclusive map over any other, in any order, gives every loaded event its exact saved list |
| `KeyMap.LoadRowsSpares` | src/backend/parsers/SettingsFile.cpp:228-265 | An event that is not loaded keeps its list if nothing loaded was in it |
| `KeyMap.LoadRowsRestoresAll` | src/backend/parsers/SettingsFile.cpp:228-265 | If the internal events were not rebound, the whole map is restored |
| `KeyMap.Keys.AddKey` | src/backend/AppSettings.cpp:162-168 | Steals the key sequence from every event, then appends it |
| `KeyMap.Keys.DelKey` | src/backend/AppSettings.cpp:169-172 | Removes it from this event only |
| `KeyMap.Keys.Clear` | src/backend/AppSettings.cpp:173-176 | Empties this event only |
| `KeyMap.Keys.ResetAll` | src/backend/AppSettings.cpp:177-180 | Back to the default map |
| `IniFile.SaveThenReload` | src/backend/utils/IniFile.cpp:113-171 | On an existing file with at most one line for each pending key, Save then Reload gives every pending key its pending value and every other key the value the file gave it |
| `IniFile.ReadAfterWrites` | src/backend/utils/IniFile.cpp:216-269 | After any calls of SetString on a loaded store, a key reads as it was last written, or else as the last line of the file that assigns it says, or else as nothing |
| `IniFile.IniFile.constructor` | src/backend/utils/IniFile.cpp:14-82 | Loads the first file, or the second where there is no first one: every key reads as that file says, or as nothing |
| `IniFile.IniFile.AsBool` | src/backend/utils/IniFile.cpp:184-188 | True exactly for the text "1", or by default |
| `IniFile.IniFile.SetBool` | src/backend/utils/IniFile.cpp:221-224 | What is set is what AsBool reads |
| `IniFile.IniFile.SetInt` | src/backend/utils/IniFile.cpp:231-234 | What is set is what AsInt reads |
| `IniRoundTrip.SaveLoad` | src/backend/utils/IniFile.cpp:122-171 | The same for the text written, for every key and every order in which the pending writes are walked |
| `IniRoundTrip.SaveLoadExactly` | src/backend/utils/IniFile.cpp:135-148 | A pending value is read back if and only if the file had no line for its key, or every line after the first one that spoils the value (rewritten under the grown key, or setting another value) is followed by one that sets exactly that value |
| `IniRoundTrip.WrittenValueExactly` | src/backend/utils/IniFile.cpp:141-148 | The same for one key and any lines, without exception |
| `IniRoundTrip.StaleValueExample` | src/backend/utils/IniFile.cpp:141-148 | Two lines for a key: the second wins over the saved value; a commented line of the saved setting comes alive |
| `IniRoundTrip.OnlyAllowedKeys` | src/backend/utils/IniFile.cpp:28-52 | No file gives a value to a key outside the alphabet |
| `IniRoundTrip.JoinSplit` | src/backend/utils/Strings.cpp:395-450 | Joining and splitting lines may lose empty lines, but no assignment |
| `IniRoundTrip.OtherLinesStay` | src/backend/utils/IniFile.cpp:125-148 | Saving leaves every line that neither sets a pending key nor comments it out, comments and blank lines among them, what and where it is; it only adds lines, at the end and at most one for each key |
| `IniRoundTrip.AssignsExactly` | src/backend/utils/IniFile.cpp:29-52 | A setting of a key is read as one if and only if the key is made of the listed characters |
| `IniRoundTrip.IndentedLine` | src/backend/utils/IniFile.cpp:76-78 | Blanks and tabs around a line do not matter |
| `IniText.WriteAllRelevant` | src/backend/utils/IniFile.cpp:135-148 | Saving one key does not touch the lines that matter to another |
| `IniText.LoadedValue` | src/backend/utils/IniFile.cpp:74-78 | After loading, a key has the value of the last line that assigns it, or what it had |
| `IniFile.ReloadValueAgrees` | src/backend/utils/IniFile.cpp:84-111 | ReloadValue and Reload agree at a key if and only if the file has the key or nothing was known for it |
| `IniFile.IniFile.Save` | src/backend/utils/IniFile.cpp:122-171 | Rewrites the primary file with all pending writes, keeps them pending, and stores nothing under an allowed key |
| `IniFile.IniFile.WriteKey` | src/backend/utils/IniFile.cpp:138-148 | The loop over the lines for one key, with the key variable it appends to |
| `IniFile.IniFile.Load` | src/backend/utils/IniFile.cpp:54-82 | Primary file, else fallback, else nothing; later lines win |
| `IniFile.IniFile.Reload` | src/backend/utils/IniFile.cpp:113-120 | Forgets everything, then loads |
| `IniFile.IniFile.ReloadValue` | src/backend/utils/IniFile.cpp:84-111 | Changes at most this key: the file's value replaces a loaded and a pending one |
| `IniFile.IniFile.ParseLine` | src/backend/utils/IniFile.cpp:28-52 | A key over the allowed alphabet, an equals sign, the rest as value |
| `IniFile.IniFile.SetString` | src/backend/utils/IniFile.cpp:216-219 | The key then reads as the new value, whatever was loaded, and every other key as before |
| `StringOps.SplitAll` | src/backend/utils/Strings.cpp:395-412 | The parts between separators; an empty part at the end is dropped |
| `StringOps.JoinAll` | src/backend/utils/Strings.cpp:441-450 | The joiner is left out while nothing is there |
| `StringOps.JoinThenSplit` | src/backend/utils/Strings.cpp:395-450 | Splitting undoes joining, with empty parts inside, if the first and the last part are not empty |
| `StringOps.EraseAll` | src/backend/utils/Strings.cpp:322-330 | Replacing a character by nothing removes every occurrence |
| `StringOps.TrimBlanks` | src/backend/utils/Strings.cpp:311-320 | Cuts the blanks at both ends, all of them and nothing else |
| `Utf8.RoundTripExactly` | src/backend/utils/Strings.cpp:131-226 | Decoding gives back an encoded text if and only if all its code points are at most 0x1FFFFF |
| `Utf8.BytesRoundTripExactly` | src/backend/utils/Strings.cpp:139-226 | Encoding gives back decoded bytes if and only if they are complete groups, each in its shortest form, but 0xFFFF in four bytes |
| `Utf8.DecodeEncode` | src/backend/utils/Strings.cpp:131-226 | Decoding an encoded text gives it back with a question mark for each larger number |
| `Utf8.DecodeEncodeOne` | src/backend/utils/Strings.cpp:147-226 | Wherever its bytes stand, a code point decodes to itself, the cursor moves past it, and only its first byte is no continuation byte |
| `Utf8.StepCursors` | src/backend/utils/Strings.cpp:228-258 | From a boundary the next cursor is where the decoder lands, the previous cursor undoes it, and both stay put at the ends |
| `Utf8.NextIsFirst` | src/backend/utils/Strings.cpp:228-242 | On any bytes the next cursor is the first place behind that holds no continuation byte |
| `Utf8.PrevIsLast` | src/backend/utils/Strings.cpp:244-258 | On any bytes the previous cursor is the last such place in front |
| `Utf8.StrayByte` | src/backend/utils/Strings.cpp:147-190 | A byte that begins no group decodes to a question mark and takes its own place only |
| `Utf8.MoveLands` | src/backend/utils/Strings.cpp:260-277 | Moving by n moves n code points, stopping at the ends |
| `Utf8.MoveThereAndBack` | src/backend/utils/Strings.cpp:260-277 | Moving by n and back returns to the start if and only if the first move hit no end, or began at the end it came back to |
| `Utf8.UnicodeToUtf8` | src/backend/utils/Strings.cpp:131-137 | The encoding loop |
| `Utf8.Utf8ToUnicode` | src/backend/utils/Strings.cpp:139-145 | The decoding loop, which ends on any bytes |
| `Utf8.FindNextCursor` | src/backend/utils/Strings.cpp:228-242 | The loop to the next byte that is no continuation byte |
| `Utf8.FindPrevCursor` | src/backend/utils/Strings.cpp:244-258 | The loop to the one before |
| `Utf8.Move` | src/backend/utils/Strings.cpp:260-277 | The loop over cursors |
| `Numbers.SignedRoundTrip` | src/backend/utils/Strings.cpp:515-545 | Reading inverts printing for every integer, wherever it stands in a text and whatever stops it |
| `Numbers.HexRoundTrip` | src/backend/utils/Strings.cpp:686-711 | Reading inverts printing for every 32-bit pattern, wherever it stands, except that a lone 0 in front of a stop character x reads as the prefix 0x: it comes back if and only if the hexadecimal digits after it come to zero and another x follows |
| `Numbers.PrefixValues` | src/backend/utils/Strings.cpp:523-524 | No value met while reading a printed number exceeds it |
| `Numbers.ReadsAnyRun` | src/backend/utils/Strings.cpp:515-529 | Any run of digits reads as its value, an empty one as zero, with or without a minus sign; nothing is read if and only if it is not followed by the stop character |
| `Numbers.PrefixedHex` | src/backend/utils/Strings.cpp:686-711 | Behind the prefix 0x every number reads back, kept to its 32 lowest bits |
| `Numbers.SmallLettersRead` | src/backend/utils/Strings.cpp:686-711 | Small hexadecimal letters read like the capitals that are written |
| `Numbers.FillBackward` | src/backend/utils/Strings.cpp:598 | The shared backward loop writes exactly the digits and never leaves the buffer |
| `Numbers.PrintSigned` | src/backend/utils/Strings.cpp:591-602 | The sign stands in front of the digits of the negated number |
| `Numbers.ToString32` | src/backend/utils/Strings.cpp:591-602 | Twelve bytes are enough for every 32-bit integer but the minimum |
| `Numbers.ToString64` | src/backend/utils/Strings.cpp:614-625 | Twenty-two bytes are enough for every 64-bit integer but the minimum |
| `Numbers.ToHexa` | src/backend/utils/Strings.cpp:756-762 | Ten bytes are enough for every 32-bit pattern |
| `Numbers.ToInt` | src/backend/utils/Strings.cpp:515-529 | The integer read at an index up to the stop character, or failure |
| `Numbers.HexToInt` | src/backend/utils/Strings.cpp:686-711 | The 32-bit pattern read at an index, with an optional prefix |
| `SorterOrder.LessIsStrictTotal` | thirdparty/SortFilterProxyModel/qqmlsortfilterproxymodel.cpp:349-373 | For any sorters, priorities and flags lessThan is a strict total order, if the base comparison, where it is used, is a strict weak order and each enabled sorter a consistent three-way comparison |
| `SorterOrder.FilterCompareConsistent` | thirdparty/SortFilterProxyModel/sorters/filtersorter.cpp:38-47 | FilterSorter is such a comparison and puts exactly the accepted rows before the rejected ones |
| `SorterOrder.RoleCompareConsistent` | thirdparty/SortFilterProxyModel/sorters/rolesorter.cpp:57-67 | RoleSorter is such a comparison and follows the values of a known role |
| `SorterOrder.DecideConsistent` | thirdparty/SortFilterProxyModel/qqmlsortfilterproxymodel.cpp:364-370 | Deciding by the first enabled sorter that decides ranks the rows, ties allowed |
| `SorterOrder.StableSortIsStable` | thirdparty/SortFilterProxyModel/qqmlsortfilterproxymodel.cpp:358-363 | Sorters are taken by falling priority, those of equal priority in their own order |
| `SorterOrder.SoleSorterDecides` | thirdparty/SortFilterProxyModel/qqmlsortfilterproxymodel.cpp:364-372 | With one sorter, rows it cannot tell apart stay in source order |
| `SorterOrder.OrderOf` | thirdparty/SortFilterProxyModel/qqmlsortfilterproxymodel.cpp:349-373 | For any sorters: the base comparison decides first, in the direction asked for; then, each in its own direction, the enabled sorter that tells the rows apart and outranks the others that do, by priority or by place; and if none does, the source order |
| `SorterOrder.DisabledIsAbsent` | thirdparty/SortFilterProxyModel/qqmlsortfilterproxymodel.cpp:365 | A disabled sorter is as good as absent |
| `SorterOrder.LessThan` | thirdparty/SortFilterProxyModel/qqmlsortfilterproxymodel.cpp:349-373 | The loop as written gives that order |
| `ProxyProtocol.NothingIsLost` | thirdparty/SortFilterProxyModel/qqmlsortfilterproxymodel.cpp:390-426 | However setters, switches of delayed, completion and deliveries interleave: completed and with no call queued, every filter change is applied; the order is current if and only if no unknown sort role name was set without an invalidation queued or following; proxy roles are announced if and only if none changed, or one changed after completion, or the announcement was still queued at completion |
| `ProxyProtocol.AtOnce` | thirdparty/SortFilterProxyModel/qqmlsortfilterproxymodel.cpp:390-426 | Completed, not delayed and with nothing queued, every change of filters, sorting or proxy roles takes effect within the call and queues nothing |
| `ProxyProtocol.NeverDelayed` | thirdparty/SortFilterProxyModel/qqmlsortfilterproxymodel.cpp:390-426 | A proxy that was never delayed never has a call queued, and shows every filter change once completed |
| `ProxyProtocol.WhileDelayed` | thirdparty/SortFilterProxyModel/qqmlsortfilterproxymodel.cpp:390-426 | While delayed only a delivery or the completion touches the rows or announces the roles; a change posts exactly the calls whose flag is down, a filter change none while either flag is up |
| `ProxyProtocol.AroundCompletion` | thirdparty/SortFilterProxyModel/qqmlsortfilterproxymodel.cpp:207-220 | Before completion nothing is applied or announced; completion applies filters and order at once |
| `ProxyProtocol.QueuedOnce` | thirdparty/SortFilterProxyModel/qqmlsortfilterproxymodel.cpp:390-426 | In a delayed proxy that is not switched, each kind of call is queued at most once, as the flags say, if no full invalidation was queued when it was completed |
| `ProxyProtocol.SecondCallExactly` | thirdparty/SortFilterProxyModel/qqmlsortfilterproxymodel.cpp:412-426 | A second full invalidation is queued exactly by a change that finds one queued with its flag down |
| `ProxyProtocol.CompletedWhileQueued` | thirdparty/SortFilterProxyModel/qqmlsortfilterproxymodel.cpp:207-220 | The shortest run to that: a change, completion, and another change |
| `ProxyProtocol.QueueDrainsUpToDate` | thirdparty/SortFilterProxyModel/qqmlsortfilterproxymodel.cpp:390-426 | Delivering what is queued, which queues nothing new, brings a completed proxy to such a state, under the same two conditions on what happened before |
| `ProxyProtocol.StepKeepsCovered` | thirdparty/SortFilterProxyModel/qqmlsortfilterproxymodel.cpp:390-426 | Every step keeps the invariant: a raised flag has its call queued, an unapplied filter change has a flag raised |
| `ProxyProtocol.EarlyRoleChangeIsSilent` | thirdparty/SortFilterProxyModel/qqmlsortfilterproxymodel.cpp:488-506 | A failing run: a proxy role change delivered before completion is never announced |
| `ProxyProtocol.UnknownSortRoleIsStranded` | thirdparty/SortFilterProxyModel/qqmlsortfilterproxymodel.cpp:153-161 | A failing run: an unknown sort role name on a completed proxy leaves the old order |
| `ProxyProtocol.RunCovers` | thirdparty/SortFilterProxyModel/qqmlsortfilterproxymodel.cpp:390-506 | The invariants of every run for filters, order and roles |
| `ProxyProtocol.StrandedMore` | thirdparty/SortFilterProxyModel/qqmlsortfilterproxymodel.cpp:458-466 | What one more call does to the condition on the sort role |
| `ProxyProtocol.AnnouncedMore` | thirdparty/SortFilterProxyModel/qqmlsortfilterproxymodel.cpp:488-506 | What one more call does to the condition on the roles |
| `ProxyProtocol.ProxyModel.QueueInvalidateFilter` | thirdparty/SortFilterProxyModel/qqmlsortfilterproxymodel.cpp:390-400 | Queues once, and not while a full invalidation is queued; applies at once when not delayed |
| `ProxyProtocol.ProxyModel.QueueInvalidate` | thirdparty/SortFilterProxyModel/qqmlsortfilterproxymodel.cpp:409-419 | The same for the full invalidation |
| `ProxyProtocol.ProxyModel.QueueInvalidateProxyRoles` | thirdparty/SortFilterProxyModel/qqmlsortfilterproxymodel.cpp:488-499 | Both the full invalidation and the announcement |
| `ProxyProtocol.ProxyModel.CallInvalidateFilter` | thirdparty/SortFilterProxyModel/qqmlsortfilterproxymodel.cpp:402-407 | Lowers its flag, and filters unless a full invalidation is still queued |
| `ProxyProtocol.ProxyModel.CallInvalidate` | thirdparty/SortFilterProxyModel/qqmlsortfilterproxymodel.cpp:421-426 | Lowers its flag, and filters and sorts once completed |
| `ProxyProtocol.ProxyModel.CallInvalidateProxyRoles` | thirdparty/SortFilterProxyModel/qqmlsortfilterproxymodel.cpp:501-506 | Lowers its flag, and announces once completed |
| `ProxyProtocol.ProxyModel.ComponentComplete` | thirdparty/SortFilterProxyModel/qqmlsortfilterproxymodel.cpp:207-220 | Completes and invalidates at once |
| `ProxyProtocol.ProxyModel.SwitchDelayed` | thirdparty/SortFilterProxyModel/qqmlsortfilterproxymodel.cpp:69-76 | Changes the mode only; what is queued stays queued |
| `ProxyProtocol.ProxyModel.ChangeFilters` | thirdparty/SortFilterProxyModel/qqmlsortfilterproxymodel.cpp:517-532 | A filter change, queued or applied: the object is where its history leads |
| `ProxyProtocol.ProxyModel.ChangeSorting` | thirdparty/SortFilterProxyModel/qqmlsortfilterproxymodel.cpp:534-549 | A sorter change, likewise |
| `ProxyProtocol.ProxyModel.SetSortRoleName` | thirdparty/SortFilterProxyModel/qqmlsortfilterproxymodel.cpp:153-161 | Invalidates only for a known role |
| `ProxyProtocol.ProxyModel.ChangeProxyRoles` | thirdparty/SortFilterProxyModel/qqmlsortfilterproxymodel.cpp:551-554 | The invalidated signal of a proxy role, likewise |
| `ProxyProtocol.ProxyModel.DeliverOne` | thirdparty/SortFilterProxyModel/qqmlsortfilterproxymodel.cpp:402-426 | The oldest queued call runs |
| `Filters.NoSilentChange` | thirdparty/SortFilterProxyModel/filters/filter.cpp:36-83 | For any nesting, shared filters and leftover connections included: a filter that emits nothing after a setter call or an append, remove or clear anywhere is enabled as before and accepts exactly the rows it accepted |
| `Filters.ProxyIsTold` | thirdparty/SortFilterProxyModel/qqmlsortfilterproxymodel.cpp:341-345 | A call that changes which rows a proxy accepts makes one of its filters emit |
| `Filters.EmitsAlongChains` | thirdparty/SortFilterProxyModel/filters/filtercontainerfilter.cpp:11-26 | A signal reaches a filter if and only if a chain of connections through enabled containers leads there |
| `Filters.EmitsForward` | thirdparty/SortFilterProxyModel/filters/filtercontainerfilter.cpp:13 | What emits when a filter emits: itself, and whatever each enabled container connected to it makes emit |
| `Filters.BelowIsSame` | thirdparty/SortFilterProxyModel/filters/filter.cpp:69-72 | Filters nested in a changed one do not see the change |
| `Filters.SilentItself` | thirdparty/SortFilterProxyModel/filters/filter.cpp:79-83 | A disabled filter may keep its changes to itself |
| `Filters.ChangedIsWellFormed` | thirdparty/SortFilterProxyModel/filters/filtercontainerfilter.cpp:11-26 | After every call each child's signal is still connected to its container |
| `Filters.AllOfAtTheTop` | thirdparty/SortFilterProxyModel/filters/alloffilter.cpp:13-26 | An AllOf among a proxy's filters that is enabled and not inverted has the same effect as its children in its place |
| `Filters.DisabledChildIsAbsent` | thirdparty/SortFilterProxyModel/filters/anyoffilter.cpp:39-47 | A disabled child may as well be removed, from AnyOf and from AllOf |
| `Filters.AnyOfGrows` | thirdparty/SortFilterProxyModel/filters/anyoffilter.cpp:39-47 | Appending an enabled filter to AnyOf adds exactly the rows that filter accepts; a disabled one adds none |
| `Filters.AnyOfNeedsOne` | thirdparty/SortFilterProxyModel/filters/anyoffilter.cpp:39-47 | AnyOf without an enabled filter accepts no row |
| `Filters.AllOfShrinks` | thirdparty/SortFilterProxyModel/filters/alloffilter.cpp:13-26 | Appending a filter to AllOf keeps exactly the rows that filter accepts |
| `Filters.OneChildDecides` | thirdparty/SortFilterProxyModel/filters/anyoffilter.cpp:39-47 | Either container with a single enabled filter accepts what that filter does |
| `Filters.InvertedExchanges` | thirdparty/SortFilterProxyModel/filters/filter.cpp:69-72 | Inverting an enabled filter exchanges the rows it accepts and those it rejects |
| `Filters.DisabledAndLeaf` | thirdparty/SortFilterProxyModel/filters/filter.cpp:69-72 | A disabled filter accepts every row; an enabled leaf, not inverted, the rows of its test |
| `Filters.HeardExactly` | thirdparty/SortFilterProxyModel/filters/filter.cpp:36-83 | Nobody emits if and only if a flag is set to what it is, or something else than the flag of a disabled filter is changed; otherwise the filter itself does |
| `Filters.DisabledIsSilent` | thirdparty/SortFilterProxyModel/filters/filter.cpp:79-83 | A disabled container passes no signal on |
| `Filters.Scene.SetEnabled` | thirdparty/SortFilterProxyModel/filters/filter.cpp:36-44 | Changes the flag and signals every change, disabled or not |
| `Filters.Scene.SetInverted` | thirdparty/SortFilterProxyModel/filters/filter.cpp:59-67 | Changes the flag and signals a change, if enabled |
| `Filters.Scene.SetTest` | thirdparty/SortFilterProxyModel/filters/filter.cpp:79-83 | A leaf's own property changes and is signalled, if enabled |
| `Filters.Scene.Signal` | thirdparty/SortFilterProxyModel/filters/filtercontainerfilter.cpp:11-15 | One emission, passed on from container to container: exactly the filters the specification names emit |
| `Filters.Scene.Invalidate` | thirdparty/SortFilterProxyModel/filters/filter.cpp:79-83 | Signals if enabled |
| `Filters.Scene.AppendFilter` | thirdparty/SortFilterProxyModel/filters/filtercontainer.cpp:22-26 | At the end, connected, and signalled if enabled |
| `Filters.Scene.RemoveFilter` | thirdparty/SortFilterProxyModel/filters/filtercontainer.cpp:28-32 | The first occurrence goes, the connection stays, and it is signalled if enabled, found or not |
| `Filters.Scene.ClearFilters` | thirdparty/SortFilterProxyModel/filters/filtercontainer.cpp:34-38 | Empties, and signals if enabled |
| `CommandLine.EscapedPathSurvives` | src/backend/ProcessLauncher.cpp:80-98 | An escaped path comes back from splitting and joining if and only if its only white space is the blank and it does not end in one; unescaping then gives the path |
| `CommandLine.RejoinExactly` | src/backend/utils/CommandTokenizer.cpp:50-82 | A command whose quotes follow other characters comes back from splitting and joining if and only if its white space is single blanks inside |
| `CommandLine.RejoinKeptExactly` | src/backend/utils/CommandTokenizer.cpp:50-82 | With the quotes kept, any command at all comes back from splitting and joining if and only if its segments have single blanks between them and no white space around them |
| `CommandLine.SplittingKeepsTheRest` | src/backend/utils/CommandTokenizer.cpp:50-82 | With the quotes kept, splitting drops white space and nothing else, on every command |
| `CommandLine.NoEmptyArgument` | src/backend/utils/CommandTokenizer.cpp:50-82 | With the quotes kept, no argument is empty |
| `CommandLine.UnescapeEscape` | src/backend/ProcessLauncher.cpp:80-98 | Escaping is undone by unescaping |
| `CommandLine.PathShielded` | src/backend/ProcessLauncher.cpp:80-98 | Every one of the blank, both quotes and the shell's characters is preceded by a backslash that is not itself escaped, nothing else is, and the path grows by exactly one backslash for each |
| `CommandLine.QuotedFirst` | src/backend/utils/CommandTokenizer.cpp:61-77 | A quoted text is one argument, whatever stands behind it |
| `CommandLine.OpenQuoteFirst` | src/backend/utils/CommandTokenizer.cpp:67-77 | A quote that is not closed takes everything |
| `CommandLine.WordFirst` | src/backend/utils/CommandTokenizer.cpp:61-77 | A word that begins with no quote is one argument up to the next white space, quotes inside it included |
| `CommandLine.LaunchLine` | src/backend/ProcessLauncher.cpp:420-428 | A well-spaced launch command goes to the shell word for word, followed by the verbose flag in debug mode and the redirection |
| `CommandLine.EscapeCommandExactly` | src/backend/utils/CommandTokenizer.cpp:84-100 | tokenize_command undoes escape_command if and only if the text is a bare word, or has blanks, at most one kind of quote and no white space at its ends |
| `CommandLine.QuotedIsOne` | src/backend/utils/CommandTokenizer.cpp:73-77 | A quoted text without that quote is one argument, trimmed |
| `CommandLine.BareIsOne` | src/backend/utils/CommandTokenizer.cpp:50-82 | An unquoted text comes back whole if and only if it is a word that does not begin with a quote, or a lone quote |
| `CommandLine.PathMakeEscaped` | src/backend/ProcessLauncher.cpp:80-98 | Inserting backslashes in place from the back shields every shell character and nothing else, by one backslash each, and can be undone |
| `CommandLine.TokenizeCommand` | src/backend/utils/CommandTokenizer.cpp:50-82 | The loop over offsets gives the arguments, and ends on every command |
| `CommandLine.ArgumentAt` | src/backend/utils/CommandTokenizer.cpp:61-77 | One argument: its end and its text, from the offsets as the code computes them |
| `CommandLine.SegmentEnd` | src/backend/utils/CommandTokenizer.cpp:62-70 | Up to the closing quote, the next white space, or the end |
| `CommandLine.NextMatching` | src/backend/utils/CommandTokenizer.cpp:26-33 | The first matching offset, or -1 |
| `CommandLine.TakeCommand` | src/backend/ProcessLauncher.cpp:431-438 | No launch if and only if there is no first argument or it is empty |
| `CommandLine.PrepareLaunch` | src/backend/ProcessLauncher.cpp:420-438 | Because of the appended redirection there always is a command: the error branch is not reached, whatever the launch command; and no argument is lost |
| `Launch.AnyRun` | src/backend/model/Api.cpp:107-160 | In every run of the Python path, for all settings at every reading: at most one game in flight, requests answered once each and in order, their commands run once each and in order, scripts before and after balanced, the engine back whenever idle |
| `Launch.StepSettles` | src/backend/ProcessLauncher.cpp:465-580 | Every request, engine destruction and timer tick keeps the invariant the assertions rest on |
| `Launch.OrderlyRuns` | src/backend/ProcessLauncher.cpp:472-560 | In such a log the commands run are the accepted ones, as asked for, once each and in order, except the one waiting for the teardown |
| `Launch.OrderlyAnswers` | src/backend/model/Api.cpp:107-160 | In a log that follows the one allowed order every accepted request has one answer, and runs end as often as they begin |
| `Launch.CanFinish` | src/backend/ProcessLauncher.cpp:516-580 | With a game in flight the awaited event can happen, and it ends the game if and only if the command is waited for or its process is not found; else polling goes on |
| `Launch.AnyRunCanFinish` | src/backend/ProcessLauncher.cpp:516-580 | After any run, a game in flight is over with the next event once no process is listed |
| `Launch.FrontendWhileRunning` | src/backend/FrontendLayer.cpp:83-95 | With settings that do not change, games run with the frontend loaded if and only if one of the two settings asks for it |
| `Launch.GamesInOrder` | src/backend/ProcessLauncher.cpp:423-545 | In every orderly log a game runs directly behind its request, the script before and the report to the providers, and is finished directly behind its run and the script after; a request fails directly, and only without a command |
| `Launch.StepExtends` | src/backend/ProcessLauncher.cpp:423-545 | The log only grows; a request in flight changes nothing, an idle one is the next event; the pid polled is what was listed when polling began |
| `Launch.PolledExactly` | src/backend/ProcessLauncher.cpp:569-580 | A tick leaves the game running if and only if the pid occurs in the process list |
| `Launch.PythonExactly` | src/backend/ProcessLauncher.cpp:481 | The command counts as Python if and only if it has the word in it |
| `Launch.Session.OnGameFileLaunchRequested` | src/backend/model/Api.cpp:107-114 | Ignored while a game is in flight, else launched |
| `Launch.Session.OnLaunchRequested` | src/backend/ProcessLauncher.cpp:404-493 | Announces, remembers the command, and asks for the teardown; or reports the error |
| `Launch.Session.OnGameLaunchOk` | src/backend/model/Api.cpp:116-121 | The assertion on the launched file holds |
| `Launch.Session.OnGameLaunchError` | src/backend/model/Api.cpp:123-129 | Forgets the file and reports |
| `Launch.Session.TeardownFrontend` | src/backend/FrontendLayer.cpp:83-95 | The assertion on the engine holds; the engine goes, or the teardown is reported at once |
| `Launch.Session.OnEngineDestroyed` | src/backend/FrontendLayer.cpp:87-93 | The destroyed engine reports the teardown, once |
| `Launch.Session.OnTeardownComplete` | src/backend/ProcessLauncher.cpp:516-567 | Runs the remembered command, waiting for it or polling for it; the command is never empty |
| `Launch.Session.CheckPidStatus` | src/backend/ProcessLauncher.cpp:569-580 | Finishes when the process is gone, and stops polling |
| `Launch.Session.OnProcessFinished` | src/backend/ProcessLauncher.cpp:612-650 | Ends the run |
| `Launch.Session.EmitProcessFinished` | src/backend/Backend.cpp:221-225 | First the Api is idle again, then the engine is there again |
| `ObjectListModel.InsertionFollowedExactly` | thirdparty/QtQmlTricks/QQmlObjectListModel.h:251-264 | A view that follows the row events agrees with the list after inserting a list if and only if it held no null item |
| `ObjectListModel.MoveFollowed` | thirdparty/QtQmlTricks/QQmlObjectListModel.h:265-276 | A move announced as a removal and an insertion leads a view to the moved list |
| `ObjectListModel.AppendFollowed` | thirdparty/QtQmlTricks/QQmlObjectListModel.h:224-236 | An appended list is always followed, null items included |
| `ObjectListModel.IndexIsUnique` | thirdparty/QtQmlTricks/QQmlObjectListModel.h:360-379 | The index is the one map from non-empty uid to item over the list |
| `ObjectListModel.RenamedProper` | thirdparty/QtQmlTricks/QQmlObjectListModel.h:409-421 | Changing an item's uid to a free one keeps items and uids distinct |
| `ObjectListModel.ObjectList.Append` | thirdparty/QtQmlTricks/QQmlObjectListModel.h:196-205 | One item at the end; index, count and views follow |
| `ObjectListModel.ObjectList.Prepend` | thirdparty/QtQmlTricks/QQmlObjectListModel.h:206-214 | One item in front |
| `ObjectListModel.ObjectList.Insert` | thirdparty/QtQmlTricks/QQmlObjectListModel.h:215-223 | One item anywhere |
| `ObjectListModel.ObjectList.AppendList` | thirdparty/QtQmlTricks/QQmlObjectListModel.h:224-236 | A list at the end |
| `ObjectListModel.ObjectList.PrependList` | thirdparty/QtQmlTricks/QQmlObjectListModel.h:237-250 | A list in front, without its null items; the views follow if and only if there are none |
| `ObjectListModel.ObjectList.InsertList` | thirdparty/QtQmlTricks/QQmlObjectListModel.h:251-264 | A list anywhere, likewise |
| `ObjectListModel.ObjectList.Move` | thirdparty/QtQmlTricks/QQmlObjectListModel.h:265-276 | One item moved, everything else in order |
| `ObjectListModel.ObjectList.RemoveAtIndex` | thirdparty/QtQmlTricks/QQmlObjectListModel.h:283-291 | One item out; an index outside does nothing |
| `ObjectListModel.ObjectList.Remove` | thirdparty/QtQmlTricks/QQmlObjectListModel.h:277-282 | This item out, if it is there |
| `ObjectListModel.ObjectList.Clear` | thirdparty/QtQmlTricks/QQmlObjectListModel.h:185-195 | Nothing left in list, index or views |
| `ObjectListModel.ObjectList.Reference` | thirdparty/QtQmlTricks/QQmlObjectListModel.h:360-379 | The index learns the item under its present uid and forgets its former one |
| `ObjectListModel.ObjectList.Dereference` | thirdparty/QtQmlTricks/QQmlObjectListModel.h:380-394 | The index forgets the item |
| `ObjectListModel.ObjectList.SetUid` | thirdparty/QtQmlTricks/QQmlObjectListModel.h:395-422 | The index follows an item's new uid while it is listed |
| `ObjectListModel.ObjectList.GetByUid` | thirdparty/QtQmlTricks/QQmlObjectListModel.h:164-166 | The listed item with this uid, null exactly when there is none |
| `ObjectListModel.ObjectList.IndexOf` | thirdparty/QtQmlTricks/QQmlObjectListModel.h:182-184 | The first position, or -1 |
| `MountMonitor.LeftoversAreDifferences` | src/backend/mount.old/MountMonitor.cpp:152-178 | What the double loop leaves are exactly the two multiset differences by device |
| `MountMonitor.EntriesExactly` | src/backend/mount.old/MountMonitor.cpp:152-178 | For any lists: the listener's entries, mount points included, are the new ones if and only if for every device the last entries of both lists, as many as both have, are the same ones |
| `MountMonitor.OneEachUnmoved` | src/backend/mount.old/MountMonitor.cpp:152-178 | If each list names a device once: if and only if no device stayed under another mount point |
| `MountMonitor.LeftoversByDevice` | src/backend/mount.old/MountMonitor.cpp:156-163 | Per device, as many entries as both lists have are struck out from the back of each, the first ones are left |
| `MountMonitor.PollHeard` | src/backend/mount.old/MountMonitor.cpp:44-46 | A listener holding the old devices holds the new ones after a poll's events |
| `MountMonitor.EventsCarryEntries` | src/backend/mount.old/MountMonitor.cpp:161-177 | One event for each entry, carrying that entry |
| `MountMonitor.Monitor.StrikeOut` | src/backend/mount.old/MountMonitor.cpp:154-163 | The reverse double loop, erasing in place, leaves what striking out from the back leaves |
| `MountMonitor.Monitor.FindLast` | src/backend/mount.old/MountMonitor.cpp:157-158 | The last entry of the same device, or -1 |
| `MountMonitor.Monitor.Poll` | src/backend/mount.old/MountMonitor.cpp:34-50 | Over any sequence of polls a listener that applies the events holds the current multiset of devices |
| `MountMonitor.Monitor.Send` | src/backend/mount.old/MountMonitor.cpp:164-177 | All removals, then all additions, in list order |
| `FileWriter.FinishedExactly` | src/backend/FileIOWriter.cpp:24-78 | In every interleaving, when finished is emitted the file is complete if and only if it was opened and no data was handed over after the last copy, or it was not opened and none was handed over at all |
| `FileWriter.CompleteWhenStoppedLast` | src/backend/FileIOWriter.cpp:11-22 | If nothing is handed over after stop and the file opens, the file holds everything |
| `FileWriter.StepKeeps` | src/backend/FileIOWriter.cpp:48-77 | Every atomic step keeps file, block and buffer together equal to the initial file and everything handed over |
| `FileWriter.RunKeeps` | src/backend/FileIOWriter.cpp:11-78 | So does every run |
| `FileWriter.LeavesOnlyWhenStopped` | src/backend/FileIOWriter.cpp:49-56 | The loop is left only after stop |
| `FileWriter.LostWakeUp` | src/backend/FileIOWriter.cpp:49-55 | Whatever was handed over, some run leaves the stopped writer waiting for a signal that will not come |
| `FileWriter.StuckHoldsNothing` | src/backend/FileIOWriter.cpp:53-55 | A writer waiting without a signal has written everything |
| `FileWriter.WaitsSinceLast` | src/backend/FileIOWriter.cpp:53-55 | A writer waits without a signal only if nothing at all happened since it began to wait |
| `FileWriter.StoppedCanFinish` | src/backend/FileIOWriter.cpp:49-78 | After stop a writer that is not about to wait, and does not wait without a signal, can run to its end by itself |
| `FileWriter.LoopTakesAll` | src/backend/FileIOWriter.cpp:44-75 | The loop takes whatever is in the buffer, and is left only with nothing there; the rest stays in the buffer |
| `FileWriter.FileIOWriter.WriteData` | src/backend/FileIOWriter.cpp:11-16 | Appends to the buffer and wakes |
| `FileWriter.FileIOWriter.Stop` | src/backend/FileIOWriter.cpp:18-22 | Clears the flag and wakes |
| `FileWriter.FileIOWriter.OpenFile` | src/backend/FileIOWriter.cpp:26-45 | Opens, or ends without writing |
| `FileWriter.FileIOWriter.TestRunning` | src/backend/FileIOWriter.cpp:49 | The test outside the mutex |
| `FileWriter.FileIOWriter.LockBuffer` | src/backend/FileIOWriter.cpp:52-58 | Waits if there is nothing, else takes the buffer |
| `FileWriter.FileIOWriter.WakeUp` | src/backend/FileIOWriter.cpp:54-58 | After the wait, signalled or not: leaves the loop or takes the buffer |
| `FileWriter.FileIOWriter.WriteBlock` | src/backend/FileIOWriter.cpp:61 | Appends the block |
| `FileWriter.FileIOWriter.CopyRest` | src/backend/FileIOWriter.cpp:66-70 | Copies the rest, which stays in the buffer |
| `FileWriter.FileIOWriter.WriteAndFinish` | src/backend/FileIOWriter.cpp:72-77 | Appends the rest and ends |
| `Apng.OverBetween` | thirdparty/apng/apngreader.cpp:312-334 | Blending leaves a pixel at least as opaque as either, every colour between the two |
| `Apng.OverIsTheFormula` | thirdparty/apng/apngreader.cpp:312-334 | The three short cuts are the blending formula, except that two fully transparent pixels leave the canvas's |
| `Apng.WeightBounds` | thirdparty/apng/apngreader.cpp:322-328 | What the new opacity lacks is the product of what the two lack; it stays in 0..255 |
| `Apng.MeanBetween` | thirdparty/apng/apngreader.cpp:325-327 | An integer mean with integer weights lies between its values |
| `Apng.OpaqueBlendIsCopy` | thirdparty/apng/apngreader.cpp:300-337 | Blending is copying when every source pixel is opaque |
| `Apng.BlendOnTransparent` | thirdparty/apng/apngreader.cpp:321 | On a transparent canvas blending is copying of whatever is not transparent |
| `Apng.PreviousLeavesNoTrace` | thirdparty/apng/apngreader.cpp:241-252 | Any frame but the first shown, disposed to the previous canvas, leaves the later pictures as if it had not been there |
| `Apng.FullFrameForgetsThePast` | thirdparty/apng/apngreader.cpp:281-298 | After a frame that covers and replaces the canvas, nothing earlier matters |
| `Apng.FirstDisposalAgrees` | thirdparty/apng/apngreader.cpp:232-237 | For the first frame, clearing and restoring are the same |
| `Apng.BlendedInside` | thirdparty/apng/apngreader.cpp:300-337 | A blended frame shows the canvas under its fully transparent pixels and itself where it is opaque; in between nothing becomes more transparent and colours lie between the two |
| `Apng.BlendedExactly` | thirdparty/apng/apngreader.cpp:320-332 | Where both are seen, each colour is their mean by weight, rounded down, and what is missing to full opacity is the product of what both are missing |
| `Apng.ReplacedInside` | thirdparty/apng/apngreader.cpp:282-297 | A replacing frame shows its own bytes, in the order blue, green, red, alpha |
| `Apng.ShownOutside` | thirdparty/apng/apngreader.cpp:282-337 | Outside its area a frame shows what was there |
| `Apng.LeftBehind` | thirdparty/apng/apngreader.cpp:239-261 | What each disposal leaves of the canvas, pixel by pixel |
| `Apng.InvisibleRepeats` | thirdparty/apng/apngreader.cpp:226-262 | A later frame that is blended, fully transparent and kept shows the picture before it again, and leaves no trace |
| `Apng.FirstReplaces` | thirdparty/apng/apngreader.cpp:232-237 | The first frame shown replaces what is under it, whatever it asks for |
| `Apng.SkippedIsAbsent` | thirdparty/apng/apngreader.cpp:230-237 | Skipping the first frame is leaving it out of the file |
| `Apng.ApngReader.CopyFrame` | thirdparty/apng/apngreader.cpp:281-298 | The frame's area is copied, pixels outside are unchanged |
| `Apng.ApngReader.BlendFrame` | thirdparty/apng/apngreader.cpp:300-337 | The frame's area is blended, pixels outside are unchanged |
| `Apng.ApngReader.BlendPixel` | thirdparty/apng/apngreader.cpp:321-329 | The formula as written gives the blended pixel |
| `Apng.ApngReader.ClearArea` | thirdparty/apng/apngreader.cpp:254-259 | The frame's area becomes transparent, nothing else |
| `Apng.ApngReader.FrameEnd` | thirdparty/apng/apngreader.cpp:224-261 | Shows the composed canvas and leaves the disposed one; previous restores it exactly |
| `Apng.ApngReader.ReadFrames` | thirdparty/apng/apngreader.cpp:224-261 | Reading all frames shows exactly the pictures the frames define |

## Left out

- SearchContext.SearchContext.Finalize: the comparisons by name are parameters (strict weak orders, as std::sort demands); titles, and the de-duplication of developers, publishers, genres and tags are not modelled.
- SearchContext.SearchContext.ApplyFiles: a vector that was moved from is taken to be empty.
- Utf8.Utf8ToUnicode: the original reads past the end of a truncated text; the model reads zero bytes there.
- Utf8.Move: a cursor past the end of the text stays where it is, as in the original; it has no code point to relate to.
- Numbers.ToString32: the most negative integer is excluded, as its negation does not exist; the same for Numbers.ToString64.
- Numbers.ToInt: the integers are unbounded, so the overflow of an arbitrary long run of digits is not modelled; Numbers.PrefixValues shows that no printed number gets there.
- IniFile.IniFile.SetInt: numbers beyond the range of an int are not modelled.
- KeyText.LabelRoundTrip: the text of a QKeySequence is an abstract conversion, assumed to be undone by the reader and to give ordinary one-line texts for the sequences that are bound to named events; Qt's own table is not part of this model.
- EntryText.ItemRoundTripExactly: lower case is that of the ASCII letters.
- SettingsFile.SettingsRoundTrip: the general section appears only as entries that concern neither providers nor keys; options that do not come back (SettingsFile.OptionRoundTripExactly says which) are outside it.
- SettingsFile.OptionRoundTripExactly: the assertions of Provider::setOption, which stop a debug build at an empty name, are not modelled; the option then has the empty name, as in a release build.
- IniFile.IniFile.Save: remounting, the OnSave hook and a NUL byte inside a line (where StartsWith stops comparing) are not modelled.
- Filters.NoSilentChange: no filter is, directly or through leftover connections, inside itself (each has a level that rises from child to container); the original does not check this, and a signal that runs in a circle would not end. A filter's test is an abstract predicate; the setters of the single filter kinds, which emit only when their value differs, are one step that always emits.
- SorterOrder.RoleCompareConsistent: the comparison of QVariant values is a parameter, and the greater-than test is the less-than test turned round.
- ProxyProtocol.NothingIsLost: the base class is a pair of version numbers for filtering and sorting; changes of the source model, and of the list of proxy roles (which reset the model), are left out; an unknown sort role name that is not empty and follows another that is not changes nothing and is no step.
- CommandLine.PathMakeEscaped: works on characters, not on the bytes of their UTF-8 form; all special characters are single bytes.
- CommandLine.PrepareLaunch: variable replacement, the absolute path of the command and the working directory are left out.
- Launch.Session.OnLaunchRequested: only commands that contain "python"; the QProcess path, whose object may be gone before the teardown, is left out.
- Launch.Session.OnTeardownComplete: the ampersand behind a command that is polled, the working directory and the exit code are left out.
- ObjectListModel.ObjectList.Insert: indices outside the list, and an item or uid listed twice, are ruled out as the callers rule them out; ownership (deleteLater) is left out.
- MountMonitor.Monitor.Poll: reading the mount table and the labels is left out; a list of mounts is a parameter.
- MountMonitor.Monitor.Send: gives each mount with its event; the original hands it over through the one field mPendingMountPoint, which ReceiveSyncMessage reads when the message arrives (MountMonitor.cpp:143-150, 168, 175), and SyncMessageSender, which decides when that is, is not part of this model.
- FileWriter.FinishedExactly: safety only; FileWriter.LostWakeUp shows that termination does not hold. A write that fails or is cut short is not modelled.
- Apng.ApngReader.FrameEnd: decoding rows, frame delays and the image of a file without animation are left out; frames fit the canvas, as the format demands.
- The remaining string helpers (case mapping beyond ASCII, hashing, URL encoding, floating-point text), path lists, HTTP and download handling, device probing, image placeholders and getters would add only easy members or belong to libraries.
- Replacing environment variables in a launch command has no bound when a value names itself, and the choice of an emulator is a heuristic.
