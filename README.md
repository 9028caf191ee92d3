# CustomBiomes in Dafny

This project models the logic of the CustomBiomes add-on (`Source/CustomBiomes.cs`). The add-on replaces the biome maps of the planets and moons with a chosen "biome set", stages science results for those biomes, and injects them into the Research & Development registry. The model covers:

- **the `.att` attribute-file parser** (`AttributeFile.dfy`).
  - The first line is the exact-search threshold.
  - Then come five-line groups: name, alpha, red, green and blue.
  - Each channel is normalised: a value above 1 is divided by 255.
  - The attribute array grows one slot at a time.
  - The array is assigned only when the whole file has parsed.
- **`ReplaceBiomes`, body by body** (`Plugin.dfy`).
  - Every body gets a texture attempt and an attribute attempt, and each attempt can fail on its own.
  - The body names are recorded in order.
  - After the loop, the set's `ScienceResults.txt` is staged.
- **`readResults`** (`ScienceResults.dfy`).
  - A line containing `id = ` switches the current experiment id.
  - Any other line is split on `=`, and its first two pieces are trimmed into a staged `(expid, biome, res)` entry.
  - A line without `=` throws, but the entries staged before it stay.
- **`rdInject` and `Update`** (`ScienceInjection.dfy`, `Plugin.dfy`).
  - Each frame, until one whole pass has completed, the staged entries are merged into each experiment's `Results`.
  - The merge is insert-if-absent: existing keys are never overwritten.
- **default-set bookkeeping** (`DefaultSets.dfy`).
  - `split` cuts an entry at its first `|`.
  - The start-up loop gives each save the set of the first entry that names it, or `"Basic"`.
  - `buildDefaultsString` writes `save|set;` for every save.
- **the `<<` / `>>` biome index** and the sphere-of-influence lookup (`BiomeCycling.dfy`, `Plugin.dfy`).

`Strings.dfy` gives the .NET string operations the code relies on: `IndexOf`, `Contains`, `Split` and `Trim`. `Trim` uses the fixed white-space list of `String.Trim` on the pre-4.0 .NET profile the game runs on. `Wrappers.dfy` holds `Option`.

External collaborators become parameters:
- `float.Parse` is a partial function `string -> Option<real>`, where `None` means it throws.
- `Texture2D.LoadImage` followed by `CreateMap` is a partial function from bytes to a raster.
- The file system is a map from path to file content. A missing path is a `FileStream` that throws.
- ResearchAndDevelopment is an object holding:
  - whether `GetExperimentIDs` answers;
  - the ids it lists;
  - a map from experiment id to that experiment's `Results` map.

Quirks of the code that the model keeps:
- `value` is the normalised alpha, because the division at line 655 runs before line 665.
- A zero threshold turns exact search off and leaves `nonExactThreshold` as it was.
- The experiment id is the text after the first `=` plus one character, not trimmed.
- A result line is split on every `=` and only pieces 0 and 1 are used. So `a = b = c` stages `b`, not `b = c`.
- A result line written as `biome = res`, with one space on each side of `=`, contains `id = ` when the biome name ends in `id`. It is then read as an id line (`ScienceResults.EntryLineIsIdLine`). `Liquid=x` is not an id line.
- In `rdInject`, an experiment id for which `GetExperiment` gives null throws only when a staged entry names that id. The `&&` at line 305 tests `res.expid` before touching `exp.Results`. Otherwise the pass goes on to the next id.

## Model

| member | source | states |
|---|---|---|
| Strings.IndexOf | Source/CustomBiomes.cs:277 | the index of the first occurrence, or -1 exactly when the character is absent |
| Strings.Contains | Source/CustomBiomes.cs:710 | true exactly when the substring occurs at some position |
| Strings.Split | Source/CustomBiomes.cs:716 | at least one piece; no piece holds the separator; joining the pieces gives back the line |
| Strings.SplitJoin | Source/CustomBiomes.cs:130 | splitting the join of separator-free pieces gives back those pieces |
| Strings.Trim | Source/CustomBiomes.cs:717 | the result neither starts nor ends with white space and is no longer than the input |
| Strings.TrimLeading | Source/CustomBiomes.cs:717 | leading white space does not change the trimmed text |
| Strings.TrimTrailing | Source/CustomBiomes.cs:717 | trimming a trimmed text followed by white space gives that text |
| Strings.TrimPadded | Source/CustomBiomes.cs:717 | a trimmed text padded with white space on both sides trims back to itself |
| AttributeFile.Normalize | Source/CustomBiomes.cs:655-662 | a channel read on the 0..255 scale ends in 0..1 (the rule is stated by NormalizeChannel) |
| AttributeFile.ParseGroup | Source/CustomBiomes.cs:649-666 | a group parses exactly when its four numeric lines parse; the name is the first line and value equals the normalised alpha |
| AttributeFile.ParseGroups | Source/CustomBiomes.cs:646-667 | a parse yields one attribute per five lines (contents in ParseGroupsContents) |
| AttributeFile.ApplyAttributeFile | Source/CustomBiomes.cs:630-676 | the attribute step never touches the raster (its effects are stated by ThresholdLine and AttributesAllOrNothing) |
| AttributeFile.ApplyTexture | Source/CustomBiomes.cs:610-628 | a present, decodable .png replaces the raster with the decoded one; a missing file or a failed decode leaves the map as it was; nothing but the raster ever changes |
| AttributeFile.NormalizeChannel | Source/CustomBiomes.cs:655-662 | a channel of at most 1 is kept; one above 1 is divided by 255; a value in 0..255 normalises into 0..1, and normalising twice changes nothing |
| AttributeFile.ParseGroupsSucceeds | Source/CustomBiomes.cs:646-667 | the groups parse exactly when the lines after the threshold come in fives and every channel line parses |
| AttributeFile.ParseGroupsContents | Source/CustomBiomes.cs:646-667 | one attribute per group, in file order: name, normalised (r, g, b, a), and value equal to the normalised alpha |
| AttributeFile.ThresholdLine | Source/CustomBiomes.cs:636-645 | a non-zero first line turns exact search on with that threshold; a zero one turns it off and keeps the threshold; an unparsable one changes nothing |
| AttributeFile.AttributesAllOrNothing | Source/CustomBiomes.cs:646-676 | Attributes becomes the parsed list when the whole file parses, and is otherwise left as it was |
| AttributeFile.MalformedGroupKeepsThreshold | Source/CustomBiomes.cs:638-676 | a malformed group leaves Attributes unchanged but the threshold and flag already written |
| AttributeFile.StepsAreIndependent | Source/CustomBiomes.cs:610-676 | a missing file changes nothing; the texture step changes only the raster and the attribute step never touches it |
| AttributeFile.ExampleFile | Source/CustomBiomes.cs:636-668 | the two-group example file yields threshold 5, Highlands (10/255, 20/255, 30/255, 200/255) and Lowlands (0.1, 0.2, 0.3, 0.5), with value equal to the normalised alpha |
| AttributeFile.LoadTexture | Source/CustomBiomes.cs:610-628 | succeeds exactly when the body has a map, the file exists and decoding succeeds; the map's new state is the texture step |
| AttributeFile.LoadAttributes | Source/CustomBiomes.cs:630-676 | succeeds exactly when the body has a map and the whole file parses; the map's new state is the attribute step |
| AttributeFile.ReadGroups | Source/CustomBiomes.cs:646-667 | the array grown in the read loop holds the parsed groups exactly when they all parse |
| ScienceResults.IdLineHasEquals | Source/CustomBiomes.cs:712 | on an id line the first '=' leaves room for the Substring, so it never throws |
| ScienceResults.IdOf | Source/CustomBiomes.cs:710-713 | the id is the untrimmed text that starts two characters after the line's first '=' |
| ScienceResults.EntryOf | Source/CustomBiomes.cs:714-719 | a non-id line yields an entry exactly when it holds '=' (splt[1] otherwise throws) |
| ScienceResults.EntryOfSplit | Source/CustomBiomes.cs:716-717 | the entry's biome and result are the trimmed pieces 0 and 1 of the line split on '=' |
| ScienceResults.ParseResults | Source/CustomBiomes.cs:703-720 | at most one staged entry per line (its behaviour is stated by ParseIdLine, ParseEntryLine, ParseResultsAppend and PartialResultsKept) |
| ScienceResults.ParseResultsComplete | Source/CustomBiomes.cs:706-720 | reading reaches the end of the file exactly when every line is an id line or holds '=' |
| ScienceResults.ParseResultsAppend | Source/CustomBiomes.cs:706-720 | reading a + b stages a's entries followed by b's, read with the id current after a, and stops after a if a throws |
| ScienceResults.PartialResultsKept | Source/CustomBiomes.cs:706-720 | at the first line that throws, the entries staged before it stay and nothing after it is read |
| ScienceResults.ExtraPiecesDropped | Source/CustomBiomes.cs:716-717 | in "a = b = c" the result is trimmed b; the text after a second '=' is dropped |
| ScienceResults.EntryLineIsIdLine | Source/CustomBiomes.cs:710 | the line "biome = res" is read as an id line exactly when biome ends in "id", and then sets the id to res |
| ScienceResults.EntryLineRoundTrip | Source/CustomBiomes.cs:714-719 | a line "biome = res" written from trimmed, '='-free fields is read back as that entry |
| ScienceResults.ParseIdLine | Source/CustomBiomes.cs:710-713 | an id line stages nothing and switches the current id for the rest of the file |
| ScienceResults.ParseEntryLine | Source/CustomBiomes.cs:714-719 | an entry line stages its entry, under the current id, in front of the rest |
| ScienceResults.ParseRenderRoundTrip | Source/CustomBiomes.cs:703-720 | reading a file written entry by entry gives back all entries, in order, and reaches the end |
| ScienceResults.IdLineRoundTrip | Source/CustomBiomes.cs:710-713 | "id = x" is an id line that sets the id to x |
| ScienceInjection.FirstResult | Source/CustomBiomes.cs:303-308 | None exactly when no staged entry matches (id, biome); otherwise the text of the first matching entry |
| ScienceInjection.MergeInto | Source/CustomBiomes.cs:303-308 | keeps every biome already present with its text (what it adds is stated by MergeIntoSpec) |
| ScienceInjection.MergeIntoSpec | Source/CustomBiomes.cs:303-308 | after the merge a biome is present exactly when it was before or a staged entry for this experiment names it; old texts are kept and a new one is the first staged text |
| ScienceInjection.MergeIdempotent | Source/CustomBiomes.cs:303-308 | merging the same staged entries twice adds nothing |
| ScienceInjection.Reached | Source/CustomBiomes.cs:298-311 | the position of the first id the pass throws at: one without an experiment that a staged entry names; no id before it throws |
| ScienceInjection.InjectPass | Source/CustomBiomes.cs:294-320 | a pass keeps the set of experiments (stated in full by InjectPassSpec) |
| ScienceInjection.InjectPassSpec | Source/CustomBiomes.cs:294-320 | a pass keeps the set of experiments, completes exactly when it throws at no id, and merges exactly the experiments listed before the first id it throws at |
| ScienceInjection.ReachedSameKeys | Source/CustomBiomes.cs:298-311 | how far a pass gets depends only on which experiments exist and which ids the staged entries name, not on the Results maps |
| ScienceInjection.NoOverwrite | Source/CustomBiomes.cs:305-308 | a result text already present is never changed by a pass |
| ScienceInjection.OnlyStagedAdded | Source/CustomBiomes.cs:305-308 | every added key comes from a staged entry for that very experiment and biome |
| ScienceInjection.PassIdempotent | Source/CustomBiomes.cs:294-320 | re-running a pass on its own outcome changes nothing |
| ScienceInjection.Inject | Source/CustomBiomes.cs:290-324 | an unavailable registry changes nothing, the experiments are kept, and a set latch stays set |
| ScienceInjection.Tick | Source/CustomBiomes.cs:327-332 | once latched a frame changes nothing; the experiments are kept |
| ScienceInjection.Run | Source/CustomBiomes.cs:327-332 | frames keep the experiments and never reopen the latch |
| ScienceInjection.LatchHolds | Source/CustomBiomes.cs:327-332 | once rdInjected is set, no later frame changes anything |
| ScienceInjection.TickSpec | Source/CustomBiomes.cs:290-332 | one frame keeps the experiments, and latches exactly when it was already latched, or when the registry answers and every listed id has an experiment or is named by no staged entry |
| ScienceInjection.RunLatches | Source/CustomBiomes.cs:290-332 | over any frames the latch ends closed exactly when it started closed or some frame's pass completed, in the sense of TickSpec |
| ScienceInjection.MissingUnnamedSkipped | Source/CustomBiomes.cs:298-317 | ids [a, b], no experiment a, entry (b, H, x): the pass passes over a, adds H to b and completes |
| ScienceInjection.MissingNamedThrows | Source/CustomBiomes.cs:298-311 | the same with an entry for a first: the pass throws at a and b is left unmerged |
| DefaultSets.SplitPair | Source/CustomBiomes.cs:273-287 | with a '\|', the entry is save + "\|" + set and the save holds no '\|'; without one, ("", "") |
| DefaultSets.SplitPairRoundTrip | Source/CustomBiomes.cs:273-287 | split of save + "\|" + set gives (save, set) when the save holds no '\|' |
| DefaultSets.SplitPairParts | Source/CustomBiomes.cs:273-287 | a character absent from an entry is absent from both of its parts |
| DefaultSets.Entries | Source/CustomBiomes.cs:128-130 | no entries exactly for the empty string; otherwise ';'-free pieces that join back to it with ';', that is its split at every ';' |
| DefaultSets.FindSet | Source/CustomBiomes.cs:141-155 | None exactly when no entry's save part matches; otherwise the set of the first matching entry, where the loop breaks |
| DefaultSets.DefaultFor | Source/CustomBiomes.cs:128-167 | definition: the set of the first entry for the save, or "Basic" when there are no entries or none matches (no contract of its own; partners DefaultForNoSeparator, RenderRoundTrip, DefaultsStable) |
| DefaultSets.DefaultForNoSeparator | Source/CustomBiomes.cs:128-167 | the set a save is given never holds ';' |
| DefaultSets.Assignments | Source/CustomBiomes.cs:136-167 | one pair per save, in save order, each carrying that save's default |
| DefaultSets.Lookup | Source/CustomBiomes.cs:172 | None exactly when no pair is for the save; otherwise the set of the first pair for it |
| DefaultSets.Render | Source/CustomBiomes.cs:534-542 | empty exactly when there are no pairs (its round trip is RenderRoundTrip) |
| DefaultSets.RenderIsJoin | Source/CustomBiomes.cs:534-542 | the written string is the "save\|set" entries joined by ';' with an empty piece after the last ';' |
| DefaultSets.FindRendered | Source/CustomBiomes.cs:534-542 | looking a save up among the written entries finds the set of its first pair |
| DefaultSets.RenderRoundTrip | Source/CustomBiomes.cs:534-542 | reading back the written string gives each save its set, and "Basic" to the others |
| DefaultSets.DefaultsStable | Source/CustomBiomes.cs:128-178 | with '\|'- and ';'-free non-empty names, the rebuilt string gives every save the set it got this time |
| DefaultSets.LookupAssigned | Source/CustomBiomes.cs:168-176 | TryGetValue on a save just added finds its default |
| BiomeCycling.Prev | Source/CustomBiomes.cs:437-440 | on a valid index, "<<" stays in range and is one back modulo the count |
| BiomeCycling.Next | Source/CustomBiomes.cs:446-449 | on a valid index, ">>" stays in range and is one on modulo the count; at the end it wraps to 0 |
| BiomeCycling.PrevNextInverse | Source/CustomBiomes.cs:437-449 | "<<" and ">>" undo each other |
| BiomeCycling.NextTimesAdd | Source/CustomBiomes.cs:446-449 | a presses of ">>" then b presses are a + b presses |
| BiomeCycling.NextTimesAdvance | Source/CustomBiomes.cs:446-449 | presses that stay inside the list move that many places; reaching the end wraps to 0 |
| BiomeCycling.FullCycle | Source/CustomBiomes.cs:446-449 | count presses of ">>" return to the starting index |
| Plugin.SetFolder | Source/CustomBiomes.cs:590 | the folder is the install folder, then GameData/CustomBiomes/PluginData/CustomBiomes/, then the set name, then the separator |
| Plugin.SetFolderDistinct | Source/CustomBiomes.cs:590 | different set names are read from different folders |
| Plugin.BodyStep | Source/CustomBiomes.cs:608-676 | the texture attempt, then the attribute attempt; without the .png the raster is kept, without the .att only the raster can change |
| Plugin.StepsFor | Source/CustomBiomes.cs:593-677 | definition: a biome map's state after the body loop, the steps of every body carrying it in body order (no contract of its own; partners StepsForUntouched, StepsForSingle, LoadBodies) |
| Plugin.StagedResults | Source/CustomBiomes.cs:678-688 | definition: the entries read from the set's ScienceResults.txt from id "", none when it is missing (no contract of its own; partner ReplaceBiomes) |
| Plugin.StepsForUntouched | Source/CustomBiomes.cs:593-677 | a biome map no body carries is not changed by the loop |
| Plugin.StepsForSingle | Source/CustomBiomes.cs:593-677 | a map carried by one body ends in that body's own texture and attribute steps, whatever the other bodies do |
| Plugin.ReadStep | Source/CustomBiomes.cs:706-719 | one line of readResults: an id line switches the id; a line without '=' ends the staging; any other stages its entry first |
| Plugin.LoadBody | Source/CustomBiomes.cs:608-676 | one body: the texture attempt then the attribute attempt, each failing on its own |
| Plugin.Names | Source/CustomBiomes.cs:605 | the body names in body order |
| Plugin.FirstDefault | Source/CustomBiomes.cs:141-155 | found exactly when some entry's save part matches; then the set of the first such entry |
| Plugin.ChooseDefault | Source/CustomBiomes.cs:139-167 | the set the start-up loop records for one save |
| Plugin.LoadAt | Source/CustomBiomes.cs:593-677 | one turn of the body loop advances every biome map by that body's steps |
| Plugin.LoadBodies | Source/CustomBiomes.cs:593-677 | _biomes[i] is the i-th body's name, and every map ends in the steps of the bodies that carry it, in order |
| Plugin.CustomBiomes.ReplaceBiomes | Source/CustomBiomes.cs:571-689 | sets _replaced, records the names, loads each body from the set's folder, and appends the set's staged results to the earlier ones |
| Plugin.CustomBiomes.ReadResults | Source/CustomBiomes.cs:703-721 | _resultList gains exactly the entries ParseResults stages from id "", in file order |
| Plugin.CustomBiomes.ReadLine | Source/CustomBiomes.cs:708-719 | an id line switches the id; a line with '=' appends its entry; a line without throws and appends nothing |
| Plugin.CustomBiomes.RdInject | Source/CustomBiomes.cs:290-324 | the registry and the latch end as one InjectPass leaves them, including a pass cut short by a missing experiment that a staged entry names |
| Plugin.CustomBiomes.MergeStaged | Source/CustomBiomes.cs:300-311 | an existing experiment gets the insert-if-absent merge; a missing one throws exactly when a staged entry names its id, and changes nothing |
| Plugin.CustomBiomes.Update | Source/CustomBiomes.cs:327-332 | once latched nothing changes; otherwise one rdInject |
| Plugin.CustomBiomes.AssignDefaultSets | Source/CustomBiomes.cs:128-178 | every save recorded with its default, in order; staged results cleared; the persisted string rebuilt; the set loaded for the current save |
| Plugin.CustomBiomes.BuildDefaultsString | Source/CustomBiomes.cs:534-542 | the accumulator loop builds the "save\|set;" rendering of the dictionary |
| Plugin.CustomBiomes.PreviousBiome | Source/CustomBiomes.cs:437-440 | the "<<" button moves the index as Prev does |
| Plugin.CustomBiomes.NextBiome | Source/CustomBiomes.cs:446-449 | the ">>" button moves the index as Next does |
| Plugin.CustomBiomes.SelectBody | Source/CustomBiomes.cs:422-429 | the index of the first body with that name, or the old index when none has it |

## Left out

- User interface, toolbar and windows:
  - Window drawing, styles, toolbar and launcher buttons, and the map window's marker arithmetic are left out: they are Unity immediate-mode UI and floating-point display code.
  - `drawSetTab` calls `ReplaceBiomes` with the set a button names. That is `Plugin.CustomBiomes.ReplaceBiomes` with that argument.
  - `drawSaveTab` re-assigns a save's set through the GUI and is not modelled.
  - `LoadBiome` (lines 560-568) feeds the attribute tab and the map window's `CompileToTexture` (line 729). Both are display code, so it is not modelled.
- Host and framework calls:
  - `SaveMe`/`LoadMe` and the `PluginConfiguration` store are left out. The persisted default string is the constructor's argument.
  - Directory listing and the trimming of `Application.dataPath` into the install folder (lines 577-589) are left out. The install folder `app` is a parameter of `ReplaceBiomes`.
  - `StreamReader` is left out. A file's lines and bytes are given whole, so line splitting and encodings are not modelled.
  - `GetExperiment` returning null for an id is modelled as the id missing from the experiments map. The `NullReferenceException` ends the pass only when a staged entry names that id. `_debug` is false (line 34), so `exp.experimentTitle` at line 312 is never read.
  - Streams are not closed on the error paths, and `ScienceResults.txt` is never closed (lines 621-622, 670-671, 681-684). A later `ReplaceBiomes` might then fail to reopen such a file under FileStream's default sharing. The model opens every file present in the map.
  - The runtime is assumed to be the pre-4.0 .NET profile for `String.Trim`'s white-space list. Other Mono or .NET versions trim a different set.
  - The `temperatureScan` variable in `rdInject` is never used and is left out.
  - Debug logging is left out.
- Numbers:
  - Channels and thresholds are exact reals. `float` rounding, NaN and infinities are not modelled.
  - The cast `(int)file.Length` is not modelled.
- Plugin.CustomBiomes.AssignDefaultSets: the `ReplaceBiomes` call at lines 168-176 is returned as `startSet`, the set to load, and is not performed inside the loop.
  - It requires distinct save names, because `Dictionary.Add` would throw on a repeated one.
  - The dictionary's enumeration order is taken to be insertion order.
- Plugin.CustomBiomes.SelectBody: the `_lastMainBody` test and update at lines 419-421 are not modelled. The method is the search that runs once the main body's name has changed, with the new name as its argument.
- Strings.Trim: states that the result is trimmed and no longer than the input. It does not state that the result is a contiguous slice of the input.
- Plugin.FirstDefault: when nothing matches, the returned set is not specified. The caller ignores it.
