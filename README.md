# dmforge, modelled in Dafny

dmforge builds decks of Dungeons & Dragons spell cards. It reads a spell catalog, filters it by class, level and school, turns each spell into a `SpellCard`, saves the `Deck` as JSON, loads it again and hands it to a renderer as PDF or HTML. Around that core the repository ships maintenance scripts:

- a validator that checks every Markdown document under `docs/` opens with a `## Version: X.Y (YYYY-MM-DD)` header;
- two scripts that write such a header, one for a single document and one for every document;
- two "snapshot" scripts that gather the source files and split them into pasteable chunks.

This project models that core in Dafny and proves what it promises.

- **Domain and application.** These are modelled as datatypes and pure functions:
  - `Models`: the spell card, the deck, the deck options and the JSON dictionary of a deck.
  - `DeckBuilder`: the filters and the conversion from a catalog record to a card.
  - `DeckStorage`: save and load over a file system, a map from path to JSON value.
  - `DeckController` and `RenderController`: the two controllers.
- **The scripts.** These work step by step, so each one is a `method` with a loop. Each method's result is proved equal to a specification function (for the two collectors, `SortPaths` of the collected paths, which `Paths.SortPathsUnique` shows is the only sorted permutation), and the properties are proved about that function:
  - `ValidateDocs.ScanDocsDirectory`;
  - `UpdateDocs.UpdateAll`;
  - `DumpSourceSplit.GatherFiles` and `DumpChunks`;
  - `SnapshotSplit.CollectFiles`, `ChunkFiles` and `WriteManifest`.

  The file system, the directory walk and today's date are parameters of the model.
- **Shared modules:**
  - `Text`: Python's `str.strip()`, `str.isspace()` and line iteration with universal newlines.
  - `Paths`: `pathlib` names, suffixes, POSIX rendering and the ordering `sorted()` uses on paths.
  - `Seqs`: concatenation of sequences.
  - `Json`: the JSON value.
  - `DocHeader` and `HeaderFacts`: the header the two versioning scripts write, and the facts about it that the validator relies on.

Things the model makes explicit:

- **The version-header pattern.** The validator's regular expression is matched by a hand-written parser. `ValidateDocs.ParseRender` and `ValidateDocs.HeaderLineIff` prove the parser accepts exactly the lines of the grammar.
- **`should_include` in `scripts/dump_source_split.py`.** It tests `path.parent != PROJECT_ROOT` on a path that is relative to the root. That test is therefore always true. As a result, a file directly in the project root is never included, whatever its suffix. `DumpSourceSplit.ShouldInclude` keeps that behaviour, and `DumpSourceSplit.TopLevelFilesExcluded` states it.
- **`INCLUDE_DIRS` in `scripts/snapshot_split.py`.** It lists `.` next to `src`, `scripts` and `tests`. A file under `src/` is therefore collected twice; `SnapshotSplit.OverlapIsListedTwice` states this.
- **`chunk_files`.** When the first file's block alone exceeds the character limit, the first chunk written is the empty string; `SnapshotSplit.EmptyFirstChunk` states this.

## Model

| member | source | states |
|---|---|---|
| Models.NewCard | src/dmforge/domain/models.py:11-21 | a new card carries exactly the given fields, and its art path defaults to none |
| Models.NewDeck | src/dmforge/domain/models.py:24-30 | a new deck carries the given name and cards, and its version defaults to "v1" |
| Models.DefaultOptions | src/dmforge/domain/models.py:47-54 | default options filter nothing (no classes, levels or schools) and name the deck "Untitled Deck" |
| Models.CardToJson | src/dmforge/domain/models.py:37 | a card's dictionary has exactly the seven field keys; each holds the field's value, and art_path holds null when the card has no art |
| Models.ToDict | src/dmforge/domain/models.py:32-38 | the deck dictionary has exactly the keys name, version and cards; cards lists every card's dictionary in deck order |
| DeckBuilder.FilterSpec | src/dmforge/application/deck_builder.py:21-28 | the kept spells are a subsequence of the catalog; each kept spell passes all three filters; every spell that passes is kept as often as it occurs |
| DeckBuilder.ToCard | src/dmforge/application/deck_builder.py:30-38 | each missing field takes its default: "Unknown", 0, "Unknown", [], "" and "Instantaneous"; a present field is copied; the card has no art |
| DeckBuilder.Build | src/dmforge/application/deck_builder.py:15-19 | the deck takes the options' name and version "v1"; its cards are the filtered spells, converted one by one, in catalog order |
| DeckBuilder.ToCardInvertible | src/dmforge/application/deck_builder.py:30-38 | converting a record with every field present loses nothing; a card without art converts back to itself |
| DeckBuilder.NoFiltersKeepsAll | src/dmforge/application/deck_builder.py:25-27 | with all three filter lists empty, every spell is kept in order |
| DeckBuilder.BuildUnfiltered | src/dmforge/application/deck_builder.py:15-19 | with no filters, the deck has one card per catalog spell, in catalog order |
| DeckBuilder.FilterMembership | src/dmforge/application/deck_builder.py:21-28 | a spell is in the filtered list if and only if it is in the catalog and passes the filters |
| DeckBuilder.BuildCardsFromCatalog | src/dmforge/application/deck_builder.py:15-28 | every card in a built deck comes from a catalog spell that passes the filters |
| DeckBuilder.MissingFieldsFailFilters | src/dmforge/application/deck_builder.py:25-27 | a spell without classes, level or school fails a non-empty filter on that field |
| DeckBuilder.ClassFilterExact | src/dmforge/application/deck_builder.py:25 | a spell none of whose classes is requested fails a non-empty class filter |
| DeckBuilder.SampleClassFilter | tests/application/test_deck_builder.py:35-40 | filtering the three-spell sample catalog by Cleric yields exactly Cure Wounds |
| DeckBuilder.SampleLevelFilter | tests/application/test_deck_builder.py:43-48 | filtering the sample by level 3 yields exactly Fireball |
| DeckBuilder.SampleSchoolFilter | tests/application/test_deck_builder.py:51-56 | filtering the sample by Illusion yields exactly Invisibility |
| DeckStorage.Save | src/dmforge/infrastructure/repository/json_deck_storage.py:9-10 | after saving, the path holds the deck's dictionary and every other path is unchanged |
| DeckStorage.CardFromJson | src/dmforge/infrastructure/repository/json_deck_storage.py:17 | a non-mapping, an unknown key and a missing required key are each an error; otherwise every key is a field and a missing art_path is none |
| DeckStorage.CardsFrom | src/dmforge/infrastructure/repository/json_deck_storage.py:17 | the cards are the conversions of the items, in order; an error is the error of some item |
| DeckStorage.CardsOf | src/dmforge/infrastructure/repository/json_deck_storage.py:17 | an array is converted item by item; an empty mapping or empty string gives no cards; null, a boolean and a number are not iterable |
| DeckStorage.DeckFromJson | src/dmforge/infrastructure/repository/json_deck_storage.py:12-18 | a non-mapping is not subscriptable; the keys are looked up as name, version, cards, and the first missing one is reported; then a card error is reported; a loaded deck's name, version and cards come from those keys (weaker: see Left out) |
| DeckStorage.Load | src/dmforge/infrastructure/repository/json_deck_storage.py:12-18 | a missing path is a file-not-found error; otherwise loading converts the stored value |
| DeckStorage.StringsOf | src/dmforge/infrastructure/repository/json_deck_storage.py:17 | a list of strings is read back if and only if the value is an array of strings, item for item |
| DeckStorage.StringsRoundTrip | src/dmforge/infrastructure/repository/json_deck_storage.py:17 | reading back a written list of strings gives the same list |
| DeckStorage.CardRoundTrip | src/dmforge/infrastructure/repository/json_deck_storage.py:17 | loading a card's dictionary gives the card back |
| DeckStorage.CardsRoundTrip | src/dmforge/infrastructure/repository/json_deck_storage.py:17 | loading the dictionaries of a list of cards gives the cards back |
| DeckStorage.SaveLoadRoundTrip | src/dmforge/infrastructure/repository/json_deck_storage.py:9-18 | loading a deck from the path it was saved to gives the same deck |
| DeckStorage.SaveLeavesOtherPaths | src/dmforge/infrastructure/repository/json_deck_storage.py:9-10 | saving to one path does not change what loads from any other path |
| DeckStorage.CardCanonical | src/dmforge/infrastructure/repository/json_deck_storage.py:17 | a card dictionary that loads and has an art_path key is exactly the dictionary of the loaded card |
| DeckStorage.LoadSaveCanonical | src/dmforge/infrastructure/repository/json_deck_storage.py:12-18 | a deck dictionary with exactly the three keys, and cards in canonical form, is the dictionary of the deck it loads to |
| DeckController.OptionsFromDict | src/dmforge/application/controllers/deck_controller.py:13-18 | each key present is taken as is; each missing key takes its default ("Untitled Deck", [], [], []) |
| DeckController.BuildFromCli | src/dmforge/application/controllers/deck_controller.py:9-19 | the deck is the builder's deck for the converted options |
| DeckController.EmptyDictBuildsEverything | src/dmforge/application/controllers/deck_controller.py:9-19 | an empty dictionary gives the default options and an "Untitled Deck" holding every catalog spell |
| RenderController.RenderFromFile | src/dmforge/application/controllers/render_controller.py:12-19 | a load error propagates; "pdf" and "html" call the matching renderer with the loaded deck; any other format is refused as "Unsupported format: " plus the format |
| RenderController.RenderCallsIff | src/dmforge/application/controllers/render_controller.py:12-19 | rendering proceeds if and only if the deck loads and the format is pdf or html |
| RenderController.RenderAfterSave | src/dmforge/application/controllers/render_controller.py:12-19 | rendering a file just saved hands the renderer the saved deck |
| RenderController.UpperCaseRejected | src/dmforge/application/controllers/render_controller.py:17-19 | format names are case-sensitive: "PDF" is refused |
| Paths.Suffix | scripts/dump_source_split.py:19 | pathlib's suffix: non-empty exactly when the name's last dot is neither its first nor its last character, and then that dot and what follows it, with no other dot |
| Paths.SuffixIff | scripts/dump_source_split.py:19 | a name has a suffix if and only if it has a dot after its first character and does not end in a dot |
| Paths.SuffixSamples | scripts/snapshot_split.py:18 | "a.py" has suffix ".py"; ".venv", "Makefile" and "a." have none |
| Paths.LastDot | scripts/dump_source_split.py:19 | the index of the last dot in a name, or -1 when the name has none |
| Paths.SortPaths | scripts/dump_source_split.py:35 | the result is sorted in pathlib order and is a permutation of the input |
| Paths.Insert | scripts/dump_source_split.py:35 | inserting into a sorted list keeps it sorted and adds exactly the one element |
| Paths.PathLeTotal | scripts/dump_source_split.py:35 | any two paths are ordered one way or the other |
| Paths.PathLeTransitive | scripts/dump_source_split.py:35 | the path order is transitive |
| Paths.PathLeAntisymmetric | scripts/dump_source_split.py:35 | two paths each `<=` the other are equal |
| Paths.SortedSameHead | scripts/dump_source_split.py:35 | two sorted lists with the same paths start with the same path |
| Paths.SortedUnique | scripts/dump_source_split.py:35 | two sorted lists with the same paths, counted with multiplicity, are equal |
| Paths.SortPathsUnique | scripts/dump_source_split.py:35 | every sorted permutation of a list is its sorted list, so `sorted()` has one answer |
| Text.LStripSpec | scripts/update_docs.py:14 | lstrip keeps a suffix, drops only whitespace, and stops at a non-space |
| Text.RStripSpec | scripts/update_docs.py:14 | rstrip keeps a prefix, drops only whitespace, and stops at a non-space |
| Text.StripKeepsPrefix | scripts/update_docs.py:14 | text that opens with a non-space prefix still opens with it once stripped |
| Text.StripSpec | scripts/validate_docs.py:24 | strip returns a slice of the text with only whitespace around it, and the result neither starts nor ends with whitespace |
| Text.LinesSpec | scripts/validate_docs.py:22-23 | a text yields no lines if and only if it is empty, and no line holds a line break |
| Text.StripAllSpace | scripts/validate_docs.py:24 | a whitespace-only line strips to nothing |
| Text.LinesOfConcat | scripts/validate_docs.py:23 | iterating over text whose first line has no break yields that line and then the lines of the rest |
| ValidateDocs.ParseHeader | scripts/validate_docs.py:14 | every line the parser accepts is spelled by well-formed header parts |
| ValidateDocs.ParseRender | scripts/validate_docs.py:14 | the parser accepts every well-formed header line and recovers its parts |
| ValidateDocs.HeaderLineIff | scripts/validate_docs.py:14 | a line matches the header pattern if and only if well-formed parts spell it |
| ValidateDocs.ParseVersion | scripts/validate_docs.py:14 | an accepted version is digits "." digits with an optional well-formed date, and spells the input |
| ValidateDocs.ParseVersionText | scripts/validate_docs.py:14 | every well-formed version is parsed back to itself |
| ValidateDocs.ParseTail | scripts/validate_docs.py:14 | an accepted tail is empty or " (YYYY-MM-DD)" with digits in every position |
| ValidateDocs.ParseTailText | scripts/validate_docs.py:14 | every well-formed tail is parsed back to itself |
| ValidateDocs.SampleHeaderAccepted | scripts/validate_docs.py:14 | "## Version: 1.0 (2025-05-24)" is a header line |
| ValidateDocs.SampleHeaderRejected | scripts/validate_docs.py:14 | "# Missing version" is not a header line |
| ValidateDocs.ValidateVersionHeader | scripts/validate_docs.py:17-26 | a document is valid if and only if it exists and some line of it matches the header pattern once stripped, with only blank lines before it |
| ValidateDocs.OpensWithHeaderIff | scripts/validate_docs.py:22-25 | the first non-blank line matches the pattern if and only if some line matches it once stripped and every line before it is blank |
| ValidateDocs.FirstNonBlankAt | scripts/validate_docs.py:22-25 | a non-blank line with only blank lines before it is the first non-blank line |
| ValidateDocs.FirstNonBlank | scripts/validate_docs.py:22-26 | none if and only if every line is blank; otherwise the first non-blank line, stripped |
| ValidateDocs.ValidateMissingOrBlank | scripts/validate_docs.py:17-26 | a missing file or an all-whitespace file is invalid |
| ValidateDocs.ValidateIgnoresLaterLines | scripts/validate_docs.py:22-25 | the verdict depends only on the first non-blank line: what follows it does not matter |
| ValidateDocs.ValidateSkipsBlankLine | scripts/validate_docs.py:24 | a leading blank line does not change the verdict |
| ValidateDocs.BlankTextBlankLines | scripts/validate_docs.py:23-24 | every line of whitespace-only text is blank |
| ValidateDocs.ScanDocsDirectory | scripts/validate_docs.py:29-40 | the failures are, in scan order, the documents that are not skipped and fail validation |
| ValidateDocs.FailuresExact | scripts/validate_docs.py:29-40 | a path is reported if and only if it is a scanned document that is not a README or under snapshots and fails validation |
| ValidateDocs.ScanExitStatus | scripts/validate_docs.py:43-50 | the validator exits 1 or 0, and 0 if and only if every document is skipped or valid |
| DocHeader.HasHeaderIff | scripts/update_docs.py:13-14 | a text has a header if and only if it opens with "## Version:" once leading whitespace is dropped |
| DocHeader.Versioned | scripts/version_docs.py:21-23 | the new text starts with "## Version: " plus the version plus " (", and ends with the original text |
| HeaderFacts.RenderMatches | scripts/validate_docs.py:14 | every header spelled by well-formed parts matches the validator's pattern |
| HeaderFacts.RenderStripped | scripts/validate_docs.py:24 | a dated header line is non-empty and unchanged by strip, so the validator sees it as written |
| DocHeader.VersionedHasHeader | scripts/update_docs.py:13-14 | a versioned document has a header |
| DocHeader.VersionedValidates | scripts/version_docs.py:21-23 | a header written with a digits.digits version and an ISO date is accepted by the validator, and so is the whole document |
| VersionDocs.InsertVersionHeader | scripts/version_docs.py:13-23 | a missing file is "File not found: " plus the path; a versioned one is refused; otherwise the header, a blank line and the original text are written |
| VersionDocs.VersionExitStatus | scripts/version_docs.py:26-36 | the command exits 1 or 0, and 0 if and only if the file exists and has no header yet |
| VersionDocs.InsertKeepsOriginal | scripts/version_docs.py:21-23 | the written text starts with the header for the version and keeps the original text after it |
| VersionDocs.InsertTwiceFails | scripts/version_docs.py:17-19 | versioning a document a second time, with any version and date, is refused |
| VersionDocs.InsertedValidates | scripts/version_docs.py:13-23 | a document the script versions with a digits.digits version passes the validator |
| UpdateDocs.Inject | scripts/update_docs.py:17-26 | a missing file is a file-not-found error; a versioned one is refused with the path plus " already versioned."; otherwise the header, a blank line and the original text |
| UpdateDocs.InjectRefusalMessage | scripts/update_docs.py:20-21 | the refusal message is the path followed by " already versioned." |
| UpdateDocs.InjectAgreesWithInsert | scripts/update_docs.py:17-26 | the bulk and the single-document scripts write the same text and refuse the same files for the same reasons |
| UpdateDocs.UpdateAll | scripts/update_docs.py:30-48 | the written, skipped and failed files are those of the run's specification; the exit status is 1 exactly when some file failed |
| UpdateDocs.RunSkipped | scripts/update_docs.py:39-42 | a file is skipped if and only if it is outside snapshots and already versioned |
| UpdateDocs.RunFailed | scripts/update_docs.py:43-45 | a file fails if and only if it is outside snapshots and missing |
| UpdateDocs.RunWritten | scripts/update_docs.py:36-38 | a file is written with a given text if and only if it is outside snapshots, unversioned, and the text is its versioned form |
| UpdateDocs.RunFailsIffMissing | scripts/update_docs.py:47-48 | the run exits 0 if and only if every file outside snapshots exists; an already-versioned file never fails it |
| DumpSourceSplit.ShouldInclude | scripts/dump_source_split.py:16-25 | an included path lies inside one of the included directories, below its top level |
| DumpSourceSplit.DirsHaveNoSuffix | scripts/dump_source_split.py:19-23 | none of the included directory names has a suffix |
| DumpSourceSplit.TopLevelFilesExcluded | scripts/dump_source_split.py:23-24 | a file directly in the project root is never included |
| DumpSourceSplit.IncludedMembers | scripts/dump_source_split.py:31-34 | a path is gathered from one directory if and only if one of its entries is a file that should be included |
| DumpSourceSplit.WalkedMembers | scripts/dump_source_split.py:28-35 | a path is gathered if and only if some walked directory has an entry for it that should be included |
| DumpSourceSplit.GatherStep | scripts/dump_source_split.py:31-34 | the paths gathered from one directory are its included files, in walk order |
| DumpSourceSplit.GatherFiles | scripts/dump_source_split.py:28-35 | the gathered paths are the sorted list of the walk's included files: sorted, and the same files counted with multiplicity |
| DumpSourceSplit.BlockShape | scripts/dump_source_split.py:44-55 | a block is the "# File:" line, the fence (python only for .py), the content lines and the closing fence |
| DumpSourceSplit.UnreadableFileBlock | scripts/dump_source_split.py:46-49 | an unreadable file contributes one "# ERROR reading file" line that names the path and the reason |
| DumpSourceSplit.PackFlattens | scripts/dump_source_split.py:43-66 | the chunk groups hold every block, once, in order |
| DumpSourceSplit.PackGroupsFit | scripts/dump_source_split.py:57-63 | every group is non-empty, and within the line limit unless it is a single oversize block |
| DumpSourceSplit.PackGreedy | scripts/dump_source_split.py:57 | a new group starts only when the next block would overflow the previous one |
| DumpSourceSplit.ChunksFlatten | scripts/dump_source_split.py:38-68 | concatenating the chunks gives back every line of every block |
| DumpSourceSplit.ChunkBounds | scripts/dump_source_split.py:57-66 | no chunk is empty, and a chunk over the limit is one block |
| DumpSourceSplit.DumpChunks | scripts/dump_source_split.py:38-68 | the chunks are the greedy packing of the files' blocks |
| DumpSourceSplit.DumpFlattens | scripts/dump_source_split.py:38-68 | the dump's chunks are non-empty and together hold every block line in order |
| SnapshotSplit.IncludedIsPython | scripts/snapshot_split.py:17-18 | an included file's name ends in ".py", and none of its parts is any of the five excluded names |
| SnapshotSplit.KeptMembers | scripts/snapshot_split.py:27 | a found path is kept if and only if it should be included |
| SnapshotSplit.KeptCount | scripts/snapshot_split.py:27 | an included path is kept as many times as it was found |
| SnapshotSplit.FromRootMembers | scripts/snapshot_split.py:24-27 | a base contributes a path if and only if it exists, its glob found the path and the path should be included |
| SnapshotSplit.CollectedUpToMembers | scripts/snapshot_split.py:23-27 | a path is among those gathered from the first n bases if and only if it should be included and one of those bases exists and lists it |
| SnapshotSplit.CollectedMembers | scripts/snapshot_split.py:21-28 | a path is collected if and only if some existing base lists it and it should be included |
| SnapshotSplit.CollectedFour | scripts/snapshot_split.py:23-27 | the collection is the four bases' files, in base order |
| SnapshotSplit.CollectFiles | scripts/snapshot_split.py:21-28 | the collected paths are the sorted list of the bases' included files: sorted, and the same files counted with multiplicity |
| SnapshotSplit.OverlapIsListedTwice | scripts/snapshot_split.py:13 | a file found under both src and . is listed at least twice |
| SnapshotSplit.BlockShape | scripts/snapshot_split.py:35-37 | a block is "# FILE: ", the POSIX path, the opening python fence, the file's stripped text and the closing fence with a blank line, so path and text can be read back |
| SnapshotSplit.FrameFramed | scripts/snapshot_split.py:37 | a block opens with "# FILE: " and ends with the closing fence and a blank line |
| SnapshotSplit.Groups | scripts/snapshot_split.py:39-43 | there is always a current group |
| SnapshotSplit.GroupsFlatten | scripts/snapshot_split.py:34-43 | the groups hold every block, once, in order |
| SnapshotSplit.GroupsFit | scripts/snapshot_split.py:39-43 | the first group fits the character limit, and every later group fits too unless it is a single oversize block |
| SnapshotSplit.GroupsGreedy | scripts/snapshot_split.py:39 | a new group starts only when the next block would overflow the previous one |
| SnapshotSplit.FirstGroupEmpty | scripts/snapshot_split.py:39-41 | the first group is empty if and only if the first block alone exceeds the limit |
| SnapshotSplit.EmptyFirstChunk | scripts/snapshot_split.py:39-41 | when the first block alone exceeds the limit, the first chunk is the empty string |
| SnapshotSplit.LastGroupEmpty | scripts/snapshot_split.py:45-46 | the last group is empty if and only if there are no blocks |
| SnapshotSplit.ChunkCount | scripts/snapshot_split.py:39-46 | there is one chunk per group, except that no files give no chunks |
| SnapshotSplit.ChunkTexts | scripts/snapshot_split.py:40 | every chunk after the first is its group's text less the final two newlines |
| SnapshotSplit.FileChunkContents | scripts/snapshot_split.py:31-47 | for the files' blocks: chunk count as above, each later chunk its group's text less the final two newlines |
| SnapshotSplit.ChunkStep | scripts/snapshot_split.py:39-43 | flushing the current text when the next block would overflow it, or else appending the block, keeps the emitted chunks and the current text in step with the grouping of one more block |
| SnapshotSplit.ChunkFiles | scripts/snapshot_split.py:31-47 | the chunks are the stripped greedy groups of the files' blocks, with a blank last group dropped |
| SnapshotSplit.WriteManifest | scripts/snapshot_split.py:58-64 | the manifest text is the title, a blank line and one entry per file, stripped |
| SnapshotSplit.ManifestStripped | scripts/snapshot_split.py:64 | stripping the manifest removes only its final newline, or the blank line after the title when there are no files |
| SnapshotSplit.ManifestLines | scripts/snapshot_split.py:60-63 | the manifest's lines are the title, a blank line, then "- `path`" for each file in order |

## Left out

- Typed fields: Python does not check a spell record's field types at run time, so a catalog record can carry a value of any type. The model gives each record field its declared type, or none when the key is missing.
- The spell repository that reads the catalog, `src/dmforge/infrastructure/repository/json_spell_repository.py`, is not part of this model: the catalog is a parameter.
- The JSON text encoding: `json.dumps` and `json.loads` are not modelled. The stored value is the JSON tree itself. Floats, and numbers beyond integers, are not modelled.
- The renderer (`weasy_renderer.py`) and the command-line front ends (`deck_build.py`, `deck_render.py`, `main.py`) are not part of this model: a render is the call it would make.
- The ports (`deck_storage.py`, `render_service.py`, `spell_repository.py`) are protocols with no behaviour.
- Real I/O is not modelled. `date.today()`, `os.walk`, `rglob`, `exists`, `is_file`, `read_text` and `write_text` become parameters or returned values: a document is its text or none, a walk is a list of directories and entries, and a write is the new text.
- `str.splitlines()` is not modelled: each dump source file is given as its lines.
- `write_chunks` and the file names `source_chunk_N.md` are not modelled in either snapshot script; the chunks they would write are the model's output.
- The messages printed and the typer command wrappers are not modelled. The exit statuses are: `UpdateDocs.UpdateAll`, `ValidateDocs.ScanExitStatus` and `VersionDocs.VersionExitStatus` compute them.
- DeckStorage.CardFromJson: a card field whose JSON value has the wrong type (a number for the name, say) is an error in the model. Python would build the card with that value, because dataclasses do not check types.
- DeckStorage.DeckFromJson: a deck whose name or version is not a JSON string is an error in the model, reported only after the key and card checks. Python builds the deck with that value, because dataclasses do not check types.
- ValidateDocs.ParseHeader: `\d` also matches non-ASCII decimal digits in Python; the model accepts ASCII digits only.
- UpdateDocs.Inject: a file that is not valid UTF-8 makes Python raise `UnicodeDecodeError`, a `ValueError`, which the bulk script counts as a skip. The model has no decoding step, so this case does not arise.
- ValidateDocs.ValidateVersionHeader, ValidateDocs.ScanExitStatus: a document that is not valid UTF-8 makes `open(...)` iteration raise `UnicodeDecodeError`, which the validator does not catch, so the scan aborts with exit status 1 and no failure list. The model has no decoding step, so this case does not arise.
- VersionDocs.VersionExitStatus: a document that is not valid UTF-8 makes `read_text` raise, and the command exits 1. The model has no decoding step, so this case does not arise.
- DumpSourceSplit.ShouldInclude: `is_file()` is asked of the root-relative path, so its answer depends on the current directory; run from anywhere but the project root, nothing is included. The model takes each entry's `isFile` as given, which is the answer from the project root.
- SnapshotSplit.ChunkFiles: an unreadable file aborts the Python script with an exception; the model takes every file's text as given.
- Text.Lines: a `\r\n` pair yields an extra empty line, where Python yields one line. The extra line is blank, so the validator's verdict does not change.
- The other scripts (`check_templates.py`, `end_dev.py`, `generate_cli_guide.py`, `validate_env.py`, `validate_templates.py`) are outside this model.
