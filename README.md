# Athas extension maintenance scripts, modelled in Dafny

This project models the logic of the three maintenance scripts of the Athas
extensions repository and proves properties about it.

- **Upstream query sync** (`scripts/sync-upstream-queries.ts`, module
  `QuerySync` in `sync.dfy`). Each configured entry names a query file at a
  pinned revision of an upstream tree-sitter repository. The sync does four
  things to it:
  - fetches its text;
  - rewrites it with ordered literal replacements, which fail when an anchor
    is missing;
  - normalises its line endings;
  - assembles a generated artifact: a provenance header, the trimmed
    upstream body and an optional local override section.

  The artifact is then compared with the target file. Check mode fails when
  the artifact differs; write mode rewrites the target only when it differs.
  `main` does this for every entry in sorted-name order and counts the
  updates. The repository's files are the `files` field of the class
  `Workspace`, which `SyncEntry` and `SyncAll` update in place.
- **Extension catalog builder** (`scripts/build-extensions-index.ts`, module
  `Catalog` in `catalog.dfy`). The builder folds over the extension folders
  in order. It rejects manifests without an `id` or without languages,
  rejects a language id declared twice, and fills in the defaults of each
  registry entry. It keeps the existing `lastUpdated` when the entries did
  not change, and maps every registry entry to its index entry. The method
  `BuildCatalog` is the loop itself, with the language-owner map; the
  function `Catalog` is its specification.
- **Extension validator** (`scripts/validate.ts`, module `Validate` in
  `validate.dfy`). The validator does three things:
  - checks every extension folder's manifest field by field;
  - checks the three generated root files (`registry.json`, `index.json`,
    `manifests.json`);
  - fails the run when any error was recorded.

  The `errors` and `warnings` accumulators are the fields of the class
  `Validator`, whose methods append to them. Each method is proved to record
  exactly what a specification function (`ExtensionReport`, `RunReport`, …)
  computes.

Shared modules:
- `wrappers.dfy` holds `Option` and `Result`.
- `text.dfy` holds the JavaScript string operations the scripts use, such as
  `split`/`join`, `trim`, `trimEnd`, `includes` and `endsWith`.
- `json.dfy` holds parsed JSON values, property reads, truthiness and
  `JSON.stringify`.

Everything outside the process is an input:
- **Files.** A map from paths to contents, or a `FileState` that says a file
  is absent, unparseable, or parsed to a value.
- **The network.** A map from URLs to response bodies; a URL missing from
  the map is a failed fetch.
- **The clock and the environment.** Plain string arguments.

Where the code and its documentation disagree, the model follows the code:
- **Artifact ending.** The documented intent is that the generated query
  ends in exactly one newline. `QuerySync.GeneratedQuerySingleNewline` proves
  this whenever the upstream text or the override is not blank.
  `QuerySync.BlankUpstreamEndsWithBlankLine` shows that, as written, a blank
  upstream text with no override yields the header followed by an empty
  line.
- **Runtime exceptions.** The validator's documentation describes errors and
  warnings only. The code also throws a `TypeError` outside any `try` in
  three cases:
  - a manifest that parses to `null`;
  - a `null` language entry;
  - a truthy non-string `wasmPath` or `highlightQuery`, which `path.join`
    rejects.

  Such a throw rejects the whole run, so the process exits with a failure.
  The model records it as `crashed` (`Validate.NullManifestCrashes`).
- **Replacements and line endings.** The documentation promises an
  artifact independent of the line-ending style of every input. Without
  replacements this holds (`QuerySync.GeneratedQueryIgnoresCrlf`). The
  replacements, however, run on the fetched text
  (scripts/sync-upstream-queries.ts:104-105), before the newline
  normalisation of lines 78-85. An anchor written with LF endings is
  therefore missing from the same file served with CR LF endings, and the
  sync of that entry fails (`QuerySync.ReplacementsSeeRawLineEndings`).
- **A `null` registry.** It throws inside the `try` of `validateRegistry`,
  so it is reported as invalid JSON.
- **`manifests.json`.** It accepts `null`, because `typeof null` is
  `"object"`.

## Model

| member | source | states |
|---|---|---|
| QuerySync.NormalizeNewlines | scripts/sync-upstream-queries.ts:33-35 | normalising never lengthens the text and leaves text without a carriage return unchanged |
| QuerySync.NormalizeNewlinesIsReplaceAll | scripts/sync-upstream-queries.ts:33-35 | the left-to-right CR LF scan equals replacing every CR LF by LF with split/join |
| QuerySync.NormalizeNewlinesFixedIff | scripts/sync-upstream-queries.ts:33-35 | the text is unchanged exactly when it contains no CR LF pair |
| QuerySync.NormalizeNewlinesNotIdempotent | scripts/sync-upstream-queries.ts:33-35 | one pass turns "\r\r\n" into "\r\n", so the output can still hold CR LF and a second pass changes it again |
| QuerySync.NormalizeNewlinesBlankIff | scripts/sync-upstream-queries.ts:33-35 | normalising keeps a text blank or non-blank |
| QuerySync.NormalizeNewlinesUndoesCrlf | scripts/sync-upstream-queries.ts:33-35 | normalising recovers CR-free text from its CR LF rendering |
| QuerySync.EnsureTrailingNewline | scripts/sync-upstream-queries.ts:37-39 | the result ends with LF and extends the input by at most one character |
| QuerySync.EnsureTrailingNewlineProperties | scripts/sync-upstream-queries.ts:37-39 | identity on LF-ended text, idempotent, and trimEnd of the result equals trimEnd of the input |
| Text.Split | scripts/sync-upstream-queries.ts:51 | models `split` with a string separator; its properties are stated by `Text.ReplaceAllSpec`, `Text.SplitCutsLeftmost` and `Text.JoinSplit` |
| Text.Join | scripts/sync-upstream-queries.ts:51 | models `join`; `Text.JoinSplit` states that it undoes `Split` |
| Text.ReplaceAll | scripts/sync-upstream-queries.ts:51 | models `split(find).join(replace)`; its properties are stated by `Text.ReplaceAllSpec`, `Text.ReplaceAllSelf` and `Text.ReplaceAllAbsent` |
| Text.JoinSplit | scripts/sync-upstream-queries.ts:51 | joining the pieces of a split with the separator gives back the text |
| Text.SplitCutsLeftmost | scripts/sync-upstream-queries.ts:51 | each cut is at the leftmost occurrence after the previous cut: no occurrence of the separator starts inside a piece that a cut ends |
| Text.ReplaceAllSpec | scripts/sync-upstream-queries.ts:51 | split/join cuts the text at non-overlapping occurrences, each the leftmost one after the previous cut; no piece holds the anchor; the pieces are rejoined with the replacement |
| Text.ReplaceAllSelf | scripts/sync-upstream-queries.ts:51 | replacing an anchor by itself leaves the text unchanged |
| QuerySync.ApplyReplacements | scripts/sync-upstream-queries.ts:41-55 | the loop's result is the ordered rewrite `Replaced` (an absent or empty list returns the content); its only error is a missing anchor |
| QuerySync.Replaced | scripts/sync-upstream-queries.ts:41-55 | models the replacement loop as a function; its properties are stated by `QuerySync.ApplyReplacements`, `QuerySync.ReplacedSequential` and `QuerySync.FirstMissingAnchorFails` |
| QuerySync.ReplacementsSeeRawLineEndings | scripts/sync-upstream-queries.ts:104-105 | replacements run on the fetched text before newline normalisation: an LF anchor matches the LF file but is missing from the same file with CR LF endings |
| QuerySync.ReplacedSequential | scripts/sync-upstream-queries.ts:46-52 | applying rs1 + rs2 applies rs1 and then rs2 to its output, and an error in rs1 wins |
| QuerySync.FirstMissingAnchorFails | scripts/sync-upstream-queries.ts:47-50 | when the replacements before i succeed and replacement i finds no anchor, the whole rewrite fails naming that anchor, with no partial result |
| QuerySync.ReplacedIdentityStep | scripts/sync-upstream-queries.ts:48-51 | a find == replace step keeps the text when the anchor is present and fails otherwise |
| QuerySync.ReplacedChains | scripts/sync-upstream-queries.ts:46-52 | each step sees the previous output: [A→B, B→C] turns "A" into "C" |
| QuerySync.ReplacedMissingAnchor | scripts/sync-upstream-queries.ts:47-50 | a missing anchor fails naming that anchor |
| QuerySync.RawUrl | scripts/sync-upstream-queries.ts:57-59 | models `buildRawUrl`; `QuerySync.RawUrlPinsRevision` states its property |
| QuerySync.RawUrlPinsRevision | scripts/sync-upstream-queries.ts:57-59 | for one repository and slash-free revisions, equal raw URLs mean equal revision and query path |
| QuerySync.GeneratedHeader | scripts/sync-upstream-queries.ts:61-69 | models `buildGeneratedHeader`; `QuerySync.GeneratedHeaderShape` states its properties |
| QuerySync.GeneratedHeaderShape | scripts/sync-upstream-queries.ts:61-69 | the header starts with the title line, ends with LF, and, when the fields hold no newline, splits into exactly its five lines |
| QuerySync.GeneratedQuery | scripts/sync-upstream-queries.ts:71-86 | models `buildGeneratedQuery`; its properties are stated by `QuerySync.GeneratedQueryLayout`, `QuerySync.GeneratedQueryEndsWithNewline`, `QuerySync.GeneratedQuerySingleNewline` and `QuerySync.GeneratedQueryIgnoresCrlf` |
| QuerySync.GeneratedQueryLayout | scripts/sync-upstream-queries.ts:71-86 | the artifact is header + trimmed normalised upstream + LF; a non-blank override adds the marker, the trimmed normalised override and LF |
| Text.TrimEmptyIffBlank | scripts/sync-upstream-queries.ts:80 | `trim().length === 0` holds exactly of blank strings |
| QuerySync.BlankOverrideIsAbsent | scripts/sync-upstream-queries.ts:80-82 | a blank override gives the same bytes as no override |
| QuerySync.GeneratedQueryEndsWithNewline | scripts/sync-upstream-queries.ts:71-86 | the artifact always ends with LF |
| QuerySync.GeneratedQuerySingleNewline | scripts/sync-upstream-queries.ts:78-85 | with a non-blank upstream text or override, the artifact ends in exactly one newline |
| QuerySync.BlankUpstreamEndsWithBlankLine | scripts/sync-upstream-queries.ts:78-81 | a blank upstream text with no override gives the header followed by an empty line |
| QuerySync.GeneratedQueryIgnoresCrlf | scripts/sync-upstream-queries.ts:78-85 | saving the upstream text or the override with CR LF endings does not change the artifact |
| QuerySync.EntryPlan | scripts/sync-upstream-queries.ts:100-111 | models the reads and comparisons of `syncEntry`; `QuerySync.EntryPlanReadsOnly` and `QuerySync.CheckWriteAgree` state its properties |
| QuerySync.EntryStep | scripts/sync-upstream-queries.ts:96-127 | models `syncEntry` as a function of the files and the network; its properties are stated by `QuerySync.CheckWriteAgree`, `QuerySync.EntryStepFrame` and `QuerySync.EntryIdempotent` |
| QuerySync.CheckWriteAgree | scripts/sync-upstream-queries.ts:111-126 | check mode never writes, and it passes exactly when write mode would leave the files unchanged and report the entry unchanged |
| QuerySync.EntryStepFrame | scripts/sync-upstream-queries.ts:122-124 | an entry writes at most its own target, and keeps every other file |
| QuerySync.EntryPlanReadsOnly | scripts/sync-upstream-queries.ts:100-111 | an entry's outcome depends on the files only through its override and its target |
| QuerySync.EntryIdempotent | scripts/sync-upstream-queries.ts:109-124 | after a successful write, the entry is up to date, provided its override is not its target |
| QuerySync.Workspace.SyncEntry | scripts/sync-upstream-queries.ts:96-127 | the report and the new files are those of `EntryStep`: fetch failure, missing anchor, out of date in check mode, or a write only when changed |
| QuerySync.SortedNamesAreAllKeys | scripts/sync-upstream-queries.ts:133 | strictly ascending names, as many as the entries, are exactly the entry names |
| QuerySync.CountChanged | scripts/sync-upstream-queries.ts:150 | the update count is at most the number of results; it is 0 exactly when none changed and equals the total exactly when all changed |
| QuerySync.RunFromReports | scripts/sync-upstream-queries.ts:139-145 | a successful run reports every entry once, in the order processed |
| QuerySync.ReadOnlyRun | scripts/sync-upstream-queries.ts:113-120 | a run whose steps never write changes no file and reports nothing changed |
| QuerySync.RunSummary | scripts/sync-upstream-queries.ts:133-152 | over sorted names, a successful run has one report per entry, in ascending order; check mode counts no update and writes nothing |
| QuerySync.RunFromFrame | scripts/sync-upstream-queries.ts:139-145 | a run changes only the targets of the entries it processes |
| QuerySync.UpToDateRunIsQuiet | scripts/sync-upstream-queries.ts:139-145 | when every entry is up to date, either mode reports all unchanged and writes nothing |
| QuerySync.WriteRunMakesUpToDate | scripts/sync-upstream-queries.ts:139-145 | after a successful write-mode run over entries with separate targets, every entry is up to date |
| QuerySync.WriteRunIdempotent | scripts/sync-upstream-queries.ts:129-153 | a second write-mode run updates nothing, and check mode then passes |
| QuerySync.Workspace.SyncAll | scripts/sync-upstream-queries.ts:129-153 | the loop in sorted-name order stops at the first error; on success it reports every entry in ascending order and counts the changed ones (zero in check mode); check mode leaves the files as they were |
| Catalog.Or | scripts/build-extensions-index.ts:125-135 | `a \|\| b` on an optional string is `a` unless it is absent or empty |
| Catalog.CollapseSeparators | scripts/build-extensions-index.ts:60 | the result holds no `_` or `-` and is no longer than the input |
| Catalog.CollapseRun | scripts/build-extensions-index.ts:60 | a maximal run of `_` and `-`, followed by text that does not start with one, becomes exactly one space |
| Catalog.NormalizeIndexCategory | scripts/build-extensions-index.ts:59-66 | an absent input gives Languages; Icon Themes exactly when the key contains "icon" and "theme" or is "icon"; Themes exactly when the key is "theme" or "themes" |
| Catalog.NormalizeRegistryCategory | scripts/build-extensions-index.ts:68-73 | the result is one of icon-theme, theme or language; on the lower-cased input, icon-theme exactly when it contains both "icon" and "theme", theme exactly when it contains "theme" but not "icon"; an absent input gives language |
| Catalog.IconThemeCategory | scripts/build-extensions-index.ts:59-73 | the registry tag icon-theme maps to the index category Icon Themes |
| Catalog.ThemeCategory | scripts/build-extensions-index.ts:59-73 | the registry tag theme maps to Themes |
| Catalog.LanguageCategory | scripts/build-extensions-index.ts:59-73 | the registry tag language maps to Languages |
| Catalog.Entry | scripts/build-extensions-index.ts:127-141 | the entry carries the manifest's id and name |
| Catalog.EntryFields | scripts/build-extensions-index.ts:124-141 | the display name is kept exactly when it mentions "support", and otherwise is the name with " Language Support" appended; description, version and publisher get their defaults; the category is the registry normalisation of the first category; the icon and manifest URLs sit under the folder on the CDN; downloads and rating are 0 |
| Catalog.SuffixMentionsSupport | scripts/build-extensions-index.ts:130-132 | appending " Language Support" makes any display name mention support |
| Catalog.Claim | scripts/build-extensions-index.ts:115-122 | models the duplicate-language loop; `Catalog.ClaimSucceedsIff` and `Catalog.ClaimOwners` state its properties |
| Catalog.ClaimSucceedsIff | scripts/build-extensions-index.ts:115-122 | claiming a manifest's language ids succeeds exactly when they are distinct and none was claimed before |
| Catalog.ClaimOwners | scripts/build-extensions-index.ts:115-122 | a successful claim adds exactly the manifest's ids, owned by the manifest, and keeps earlier owners |
| Catalog.StepSucceedsIff | scripts/build-extensions-index.ts:93-141 | one folder succeeds exactly when its manifest parses, has an id and languages, and its ids are distinct and unclaimed |
| Catalog.Build | scripts/build-extensions-index.ts:93-142 | models the loop over the folders as a fold; its properties are stated by `Catalog.BuildSucceedsIff`, `Catalog.BuildEntries`, `Catalog.BuildWarnings` and `Catalog.BuildOwners` |
| Catalog.BuildSucceedsIff | scripts/build-extensions-index.ts:93-142 | the fold succeeds exactly when every manifest is well formed and no language id is declared twice, across manifests or within one |
| Catalog.BuildEntries | scripts/build-extensions-index.ts:93-142 | a successful fold has one registry entry per folder, in folder order, made from that folder's manifest |
| Catalog.BuildWarnings | scripts/build-extensions-index.ts:111-113 | a successful fold warns about each manifest whose folder lacks highlights.scm, in folder order |
| Catalog.BuildKeepsOwners | scripts/build-extensions-index.ts:115-122 | the owner map holds exactly the declared language ids |
| Catalog.BuildOwners | scripts/build-extensions-index.ts:115-122 | after a successful fold, every language id a manifest declares is owned by that manifest |
| Catalog.Timestamp | scripts/build-extensions-index.ts:144-157 | models the choice of `lastUpdated`; `Catalog.RebuildKeepsRegistry` and `Catalog.ChangedEntriesGetFreshTimestamp` state its properties |
| Catalog.RebuildKeepsRegistry | scripts/build-extensions-index.ts:144-163 | when the existing registry is what this build writes, with a truthy timestamp, the new registry equals it |
| Catalog.ChangedEntriesGetFreshTimestamp | scripts/build-extensions-index.ts:144-157 | when the existing `extensions` is not an array or serialises differently, the timestamp is the fresh one |
| Catalog.ToIndexEntry | scripts/build-extensions-index.ts:165-176 | models the mapping of one registry entry to an index entry; `Catalog.IndexMatchesRegistry` states its properties |
| Catalog.IndexEntries | scripts/build-extensions-index.ts:165-176 | the index has one entry per registry entry, in the same order |
| Catalog.IndexMatchesRegistry | scripts/build-extensions-index.ts:165-176 | each index entry carries its registry entry's fields, with the publisher as author and the matching index category |
| Catalog.WithTrailingNewline | scripts/build-extensions-index.ts:75-77 | the output is the pretty-printed value followed by one final LF |
| Catalog.Catalog | scripts/build-extensions-index.ts:88-183 | models `buildCatalog` as a function; its properties are stated by `Catalog.BuildCatalog`, `Catalog.CatalogOutputsEndInNewline` and `Catalog.CheckAfterWritePasses` |
| Catalog.BuildCatalog | scripts/build-extensions-index.ts:88-183 | the loop with the owner map returns exactly `Catalog`: the first manifest error, duplicate or, on success, both outputs, the count and the warnings |
| Catalog.CheckPassesIff | scripts/build-extensions-index.ts:187-196 | check mode passes exactly when both files exist and equal the outputs byte for byte; a missing file, read as "", never passes |
| Catalog.CatalogOutputsEndInNewline | scripts/build-extensions-index.ts:178-182 | both outputs of a successful build end in LF |
| Catalog.CheckAfterWritePasses | scripts/build-extensions-index.ts:144-157 | once the registry is written, a rebuild at any later time that reads it back as the existing registry keeps its timestamp and produces the same outputs, so a following check passes |
| Json.Lookup | scripts/build-extensions-index.ts:149-152 | models a property read on a parsed object; `Json.LookupFindsLast` states its property |
| Json.LookupFindsLast | scripts/build-extensions-index.ts:149-152 | a key is found exactly when some member has it, and its value is that of the last such member |
| Json.Truthy | scripts/build-extensions-index.ts:151 | models JavaScript truthiness; `Catalog.RebuildKeepsRegistry` and `Validate.RequiredFieldErrors` state what depends on it |
| Json.Compact | scripts/build-extensions-index.ts:150 | models `JSON.stringify(v)`; `Catalog.ChangedEntriesGetFreshTimestamp` and `Catalog.RebuildKeepsRegistry` state what depends on it |
| Json.Pretty | scripts/build-extensions-index.ts:75-77 | models `JSON.stringify(v, null, 2)`; `Catalog.WithTrailingNewline` states the layout of the written files |
| Validate.Validator.constructor | scripts/validate.ts:19-20 | both accumulators start empty |
| Validate.Validator.Error | scripts/validate.ts:22-24 | appends one issue to the errors and leaves the warnings alone |
| Validate.Validator.Warn | scripts/validate.ts:26-28 | appends one issue to the warnings and leaves the errors alone |
| Validate.Validator.CheckLanguages | scripts/validate.ts:73-78 | the loop appends exactly the errors of `LanguageLoop` and stops with a crash at a `null` entry |
| Validate.Validator.CheckGrammarPath | scripts/validate.ts:85-96 | a grammar path adds at most a warning, never an error; a truthy non-string path crashes |
| Validate.Validator.CheckRequiredFields | scripts/validate.ts:58-66 | appends the `id`, `name` and `version` errors in order |
| Validate.Validator.CheckLanguagesSection | scripts/validate.ts:69-79 | appends the errors of `LanguagesSection` |
| Validate.Validator.CheckGrammar | scripts/validate.ts:82-97 | appends the grammar warnings and no error |
| Validate.Validator.CheckParsed | scripts/validate.ts:57-97 | appends the field, language and grammar results of a parsed manifest |
| Validate.Validator.ValidateExtension | scripts/validate.ts:39-98 | appends exactly `ExtensionReport` of the folder to the accumulators |
| Validate.Validator.ValidateRegistry | scripts/validate.ts:100-116 | appends exactly the registry issues |
| Validate.Validator.ValidateIndex | scripts/validate.ts:118-134 | appends exactly the index issues |
| Validate.Validator.ValidateManifests | scripts/validate.ts:136-152 | appends exactly the manifests-file issues |
| Validate.Validator.ValidateFolders | scripts/validate.ts:165 | validates the folders one after the other, stopping at the first crash |
| Validate.Validator.Run | scripts/validate.ts:157-185 | records exactly `RunReport`, and fails exactly when the run crashed or the error list is non-empty |
| Validate.MissingManifestOnlyWarns | scripts/validate.ts:43-46 | a folder without a manifest gets exactly one warning, no error and no further check |
| Validate.MalformedManifestOneError | scripts/validate.ts:49-55 | an unparseable manifest gets exactly one error and no field check |
| Validate.NullManifestCrashes | scripts/validate.ts:51-58 | a manifest parsing to `null` throws at its first field read, before recording anything |
| Validate.ParsedErrors | scripts/validate.ts:57-79 | a parsed manifest's errors are the field errors followed by the language errors |
| Validate.RequiredFieldErrors | scripts/validate.ts:58-66 | each required field adds exactly one error when missing, falsy or not a string, and none otherwise, whatever the other fields hold |
| Validate.LanguageLoopProblems | scripts/validate.ts:73-78 | every error of the language loop is a missing id or a missing extensions array of this folder |
| Validate.LanguagesSectionProblems | scripts/validate.ts:69-79 | every error of the languages section concerns languages |
| Validate.LanguageLoopCounts | scripts/validate.ts:73-78 | with no `null` entry, the loop adds one error per entry without a truthy id and one per entry without an extensions array, and nothing else |
| Validate.NoLanguagesOneError | scripts/validate.ts:70-71 | a missing, non-array or empty languages value gives exactly one error and no per-language error |
| Validate.GrammarNeverErrs | scripts/validate.ts:82-97 | the files a folder holds change neither its errors nor whether it crashes: the grammar checks only warn |
| Validate.ExtensionReport | scripts/validate.ts:39-98 | models the issues `validateExtension` records for one folder; its properties are stated by `Validate.Validator.ValidateExtension`, `Validate.ParsedErrors`, `Validate.GrammarNeverErrs` and `Validate.ExtensionErrorKinds` |
| Validate.ExtensionErrorKinds | scripts/validate.ts:39-98 | every error recorded for a folder is a manifest problem of that folder, never a grammar problem |
| Validate.RegistryAcceptedIff | scripts/validate.ts:100-116 | the registry is accepted exactly when it parses and its extensions is an array; at most one error |
| Validate.IndexAcceptedIff | scripts/validate.ts:118-134 | the index is accepted exactly when it parses to an array; at most one error |
| Validate.ManifestsAcceptedIff | scripts/validate.ts:136-152 | the manifests file is accepted exactly when it parses to an object or to `null`; at most one error |
| Validate.ExtensionFoldersMembers | scripts/validate.ts:157-161 | the folders validated are exactly the directories other than `packages` |
| Validate.FoldersFailIff | scripts/validate.ts:165 | the folder pass fails exactly when some folder's check throws or records an error |
| Validate.RunReport | scripts/validate.ts:157-185 | models the issues of the whole run; `Validate.Validator.Run` and `Validate.RunFailsIff` state its properties |
| Validate.RunFailsIff | scripts/validate.ts:165-185 | the run fails exactly when some folder throws or records an error, or a root file is rejected; warnings never matter |

## Left out

- Network access (`fetchText`): the network is a map from URL to body, and a missing URL is a failed fetch. HTTP status codes and the response text of the error are not modelled.
- File system access (`readFile`, `writeFile`, `existsSync`, `stat`, `readdir`): file contents and presence are inputs. A write replaces a map entry; a directory listing is a sequence of entries.
- Path resolution: paths are compared as given, relative to the repository root or to the extension folder. `path.join` normalisation, such as `..` and repeated slashes, is not modelled.
- `Object.keys(...).sort()` and `localeCompare`: the names and folders come in as already-sorted sequences. For the sync, `SortedKeys` states what the sort guarantees, character by character. This is JavaScript's default code-unit order for text in the Basic Multilingual Plane. `localeCompare` ordering is not modelled.
- Characters outside the Basic Multilingual Plane: a Dafny string is a sequence of Unicode scalar values, and JavaScript's is a sequence of UTF-16 code units. For such characters, `CharLess` can order two strings differently from `sort()`: U+FF01 sorts before U+1F600 here, but after it in JavaScript. `split("")` also differs: it gives one piece per character here, and one per code unit in JavaScript.
- Objects from `JSON.parse`: a parsed object holds one member per key, and lists integer-like keys first. A `Json` object may repeat a key and may order its members in any way, so it covers more values than `JSON.parse` returns. `Lookup` follows the last duplicate, as `JSON.parse` does. `Timestamp` compares `Compact` texts of the stored and the new entries, and this comparison depends on member order. The model takes the stored `extensions` in the order given, so a stored file with integer-like keys is not modelled faithfully.
- The "no query sources configured" early return is not a separate case: an empty source map runs over no names.
- `new Date().toISOString()` and `EXTENSIONS_CDN_BASE_URL`: both are plain string inputs.
- `JSON.parse`: the parsed value is the input. A parse failure is `Malformed` (validator) or a `None` manifest (catalog). Numbers are integers only, since no floating-point value matters to these checks.
- Catalog manifests are typed records. Manifest fields of another JSON type than the one declared, and a manifest that parses to `null`, are not modelled: the builder reads them without checking. A manifest that does not parse makes the build fail as `InvalidManifest`.
- `JSON.stringify`: `Compact` and `Pretty` model the compact and the two-space layouts for the values the scripts write. Two details are not modelled: numbers other than integers, and the escaping of lone surrogate code units.
- `toLowerCase` and `trim`: `toLowerCase` is modelled on ASCII letters only. `trim` and `trimEnd` recognise space, tab, LF, CR, vertical tab and form feed, not the other Unicode white space.
- Console output and `process.exit`: these are modelled only as their decisions. The decisions are the sync's error result and counts, the builder's warnings and check result, and the validator's `failed` flag.
- Message texts: errors and warnings are constructors (`Problem`, `CatalogError`, `SyncError`) that carry the values the messages interpolate. The exception text appended to "Invalid JSON" is dropped.
- `Promise.all` in the validator: folders are validated one after the other, and validation stops at the first one that throws. In the script, folders run concurrently, and folders after a throw may still record issues before the process exits. This does not change the outcome, because a throw fails the run whatever else was recorded. `Validate.RunFailsIff` shows that the exit decision depends only on which folders fail, not on their order.
- `Validate.Validator.Run`: when a folder throws, the process dies with the unhandled rejection. The model returns `failed` and does not report the accumulated warnings.
- Catalog warnings are the manifest ids whose folder lacks highlights.scm, and the folder list is those with an extension.json. The `existsSync` filter of `listExtensionFolders` is the caller's job.
- The scripts `download-grammars.ts`, `upload-grammars.ts`, `deploy-extensions-cdn.ts` and `generate-manifests.ts` are not part of this model. They copy files, call external commands and transfer data, and contain no checks or transformations to state properties about.
