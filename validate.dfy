/**
 * The extension validator: one pass over the extension folders checks each
 * manifest's shape field by field, then the three generated root files are
 * checked, and the run fails when any error was recorded. Errors and
 * warnings go to two accumulators that only ever grow.
 *
 * File presence and contents are inputs: a file is absent, present but not
 * readable as JSON, or present with a parsed value.
 */
module Validate {
  import opened Wrappers
  import opened Json

  /** What reading and parsing one JSON file gives. */
  datatype FileState =
    | Absent
    | Malformed          // reading it or `JSON.parse` threw
    | Parsed(value: Json)

  /** A directory entry under `extensions/`, with its manifest and the relative paths of the files it holds. */
  datatype DirEntry = DirEntry(name: string, isDirectory: bool, manifest: FileState, files: set<string>)

  /** The three required manifest fields. */
  datatype Field = Id | Name | Version

  function FieldKey(f: Field): string {
    match f
    case Id => "id"
    case Name => "name"
    case Version => "version"
  }

  /** What an error or a warning reports; the exception text of a parse failure is not kept. */
  datatype Problem =
    | MissingManifest
    | InvalidJson
    | MissingField(field: Field)
    | NoLanguages
    | LanguageMissingId
    | LanguageMissingExtensions(languageId: Option<Json>)
    | WasmNotInRepo(wasmPath: string)
    | HighlightQueryNotFound(highlightQuery: string)
    | MissingFile
    | RegistryExtensionsInvalid
    | IndexNotArray
    | ManifestsNotObject

  /** One accumulated entry: the extension folder (or root file name) and the problem. */
  datatype Issue = Issue(extension: string, problem: Problem)

  /**
   * What a piece of the validation records: its errors, its warnings, and
   * whether it threw outside any `try` (a `TypeError`), which rejects the
   * whole run.
   */
  datatype Report = Report(errors: seq<Issue>, warnings: seq<Issue>, crashed: bool)

  const RegistryFile := "registry.json"
  const IndexFile := "index.json"
  const ManifestsFile := "manifests.json"
  const PackagesFolder := "packages"

  // ---------------------------------------------------------------------
  // One extension folder

  /** `!v || typeof v !== "string"` for one required field. */
  function FieldIssues(folder: string, m: Json, f: Field): seq<Issue> {
    if IsNonEmptyString(Get(Some(m), FieldKey(f))) then [] else [Issue(folder, MissingField(f))]
  }

  /** The `id`, `name` and `version` checks, in that order. */
  function RequiredFieldIssues(folder: string, m: Json): seq<Issue> {
    FieldIssues(folder, m, Id) + FieldIssues(folder, m, Name) + FieldIssues(folder, m, Version)
  }

  /** The checks on one language entry that is not `null`. */
  function LanguageIssues(folder: string, lang: Json): seq<Issue> {
    var id := Get(Some(lang), "id");
    var extensions := Get(Some(lang), "extensions");
    (if Truthy(id) then [] else [Issue(folder, LanguageMissingId)])
    + (if Truthy(extensions) && IsArray(extensions) then [] else [Issue(folder, LanguageMissingExtensions(id))])
  }

  /**
   * The loop over `languages`, entry by entry: a `null` entry throws when
   * its `id` is read, after the errors of the entries before it.
   */
  function LanguageLoop(folder: string, items: seq<Json>): Report
    decreases |items|
  {
    if items == [] then Report([], [], false)
    else if items[0] == JNull then Report([], [], true)
    else After(LanguageIssues(folder, items[0]), [], LanguageLoop(folder, items[1..]))
  }

  /** What a piece records when `errors` and `warnings` were recorded before `r`. */
  function After(errors: seq<Issue>, warnings: seq<Issue>, r: Report): Report {
    Report(errors + r.errors, warnings + r.warnings, r.crashed)
  }

  /** Recording `errors` and `warnings`, then `first`, then `rest`, records the two lists concatenated, then `rest`. */
  lemma AfterAfter(errors: seq<Issue>, warnings: seq<Issue>, first: Report, rest: Report)
    ensures After(errors, warnings, After(first.errors, first.warnings, rest))
         == After(errors + first.errors, warnings + first.warnings, rest)
  {
    assert errors + (first.errors + rest.errors) == errors + first.errors + rest.errors;
    assert warnings + (first.warnings + rest.warnings) == warnings + first.warnings + rest.warnings;
  }

  /** Whether `languages` passes the array check: present, truthy, an array and not empty. */
  predicate HasLanguages(languages: Option<Json>) {
    Truthy(languages) && IsArray(languages) && languages.value.items != []
  }

  /** The `languages` section: one error for a missing, non-array or empty value, else the loop. */
  function LanguagesSection(folder: string, m: Json): Report {
    var languages := Get(Some(m), "languages");
    if !HasLanguages(languages) then Report([Issue(folder, NoLanguages)], [], false)
    else LanguageLoop(folder, languages.value.items)
  }

  /**
   * One grammar path check: a falsy path is skipped, a truthy path that is
   * not a string makes `path.join` throw, and a string path that is not a
   * file of the folder is warned about.
   */
  function GrammarPathCheck(folder: string, path: Option<Json>, files: set<string>, problem: string -> Problem): Report {
    if !Truthy(path) then Report([], [], false)
    else if !IsString(path) then Report([], [], true)
    else if path.value.text in files then Report([], [], false)
    else Report([], [Issue(folder, problem(path.value.text))], false)
  }

  /** The grammar section: `capabilities?.grammar`, then its `wasmPath` and its `highlightQuery`. */
  function GrammarSection(folder: string, m: Json, files: set<string>): Report {
    var grammar := Get(Get(Some(m), "capabilities"), "grammar");
    if !Truthy(grammar) then Report([], [], false)
    else
      var wasm := GrammarPathCheck(folder, Get(grammar, "wasmPath"), files, p => WasmNotInRepo(p));
      if wasm.crashed then wasm
      else
        var query := GrammarPathCheck(folder, Get(grammar, "highlightQuery"), files, p => HighlightQueryNotFound(p));
        Report([], wasm.warnings + query.warnings, query.crashed)
  }

  /** What the checks record for a manifest that parsed to something other than `null`. */
  function ParsedReport(folder: string, m: Json, files: set<string>): Report {
    var fields := RequiredFieldIssues(folder, m);
    var languages := LanguagesSection(folder, m);
    if languages.crashed then Report(fields + languages.errors, [], true)
    else
      var grammar := GrammarSection(folder, m, files);
      Report(fields + languages.errors, grammar.warnings, grammar.crashed)
  }

  /**
   * Everything `validateExtension` records for one folder. A parsed `null`
   * manifest throws at its first field read.
   */
  function ExtensionReport(e: DirEntry): Report {
    match e.manifest
    case Absent => Report([], [Issue(e.name, MissingManifest)], false)
    case Malformed => Report([Issue(e.name, InvalidJson)], [], false)
    case Parsed(m) => if m == JNull then Report([], [], true) else ParsedReport(e.name, m, e.files)
  }

  // ---------------------------------------------------------------------
  // The root files

  /** `validateRegistry`: a `null` registry throws inside the `try` and is reported as invalid JSON. */
  function RegistryIssues(file: FileState): seq<Issue> {
    match file
    case Absent => [Issue(RegistryFile, MissingFile)]
    case Malformed => [Issue(RegistryFile, InvalidJson)]
    case Parsed(v) =>
      if v == JNull then [Issue(RegistryFile, InvalidJson)]
      else
        var extensions := Get(Some(v), "extensions");
        if !Truthy(extensions) || !IsArray(extensions) then [Issue(RegistryFile, RegistryExtensionsInvalid)] else []
  }

  /** `validateIndex` */
  function IndexIssues(file: FileState): seq<Issue> {
    match file
    case Absent => [Issue(IndexFile, MissingFile)]
    case Malformed => [Issue(IndexFile, InvalidJson)]
    case Parsed(v) => if IsArray(Some(v)) then [] else [Issue(IndexFile, IndexNotArray)]
  }

  /** `typeof v === "object"`, which holds of `null` as well. */
  predicate TypeofObject(v: Json) {
    v.JNull? || v.JArray? || v.JObject?
  }

  /** `validateManifests` */
  function ManifestsIssues(file: FileState): seq<Issue> {
    match file
    case Absent => [Issue(ManifestsFile, MissingFile)]
    case Malformed => [Issue(ManifestsFile, InvalidJson)]
    case Parsed(v) =>
      if !TypeofObject(v) || IsArray(Some(v)) then [Issue(ManifestsFile, ManifestsNotObject)] else []
  }

  // ---------------------------------------------------------------------
  // The whole run

  /** The folders validated: directories other than `packages`, in the order given. */
  function ExtensionFolders(entries: seq<DirEntry>): seq<DirEntry>
    decreases |entries|
  {
    if entries == [] then []
    else
      var rest := ExtensionFolders(entries[1..]);
      if entries[0].isDirectory && entries[0].name != PackagesFolder then [entries[0]] + rest else rest
  }

  /** How one folder is checked. */
  type Checker = DirEntry -> Report

  /** The folders checked one after the other, stopping at the first that throws. */
  function FoldersReport(folders: seq<DirEntry>, check: Checker): Report
    decreases |folders|
  {
    if folders == [] then Report([], [], false)
    else
      var first := check(folders[0]);
      if first.crashed then first
      else After(first.errors, first.warnings, FoldersReport(folders[1..], check))
  }

  /** Everything one run records; the root files are checked only when no folder threw. */
  function RunReport(entries: seq<DirEntry>, registry: FileState, index: FileState, manifests: FileState): Report {
    var folders := FoldersReport(ExtensionFolders(entries), ExtensionReport);
    if folders.crashed then folders
    else
      Report(folders.errors + RegistryIssues(registry) + IndexIssues(index) + ManifestsIssues(manifests),
             folders.warnings, false)
  }

  /** The exit decision: the process fails when it threw or recorded an error. */
  predicate Fails(r: Report) {
    r.crashed || r.errors != []
  }

  // ---------------------------------------------------------------------
  // The accumulators

  class Validator {
    var errors: seq<Issue>
    var warnings: seq<Issue>

    constructor ()
      ensures errors == [] && warnings == []
    {
      errors := [];
      warnings := [];
    }

    /** `error(extension, message)` */
    method Error(extension: string, problem: Problem)
      modifies this
      ensures errors == old(errors) + [Issue(extension, problem)]
      ensures warnings == old(warnings)
    {
      errors := errors + [Issue(extension, problem)];
    }

    /** `warn(extension, message)` */
    method Warn(extension: string, problem: Problem)
      modifies this
      ensures warnings == old(warnings) + [Issue(extension, problem)]
      ensures errors == old(errors)
    {
      warnings := warnings + [Issue(extension, problem)];
    }

    /** The `languages` loop of `validateExtension`; `crashed` when an entry is `null`. */
    method CheckLanguages(folder: string, items: seq<Json>) returns (crashed: bool)
      modifies this
      ensures var r := LanguageLoop(folder, items);
        errors == old(errors) + r.errors && warnings == old(warnings) && crashed == r.crashed
    {
      ghost var done: seq<Issue> := [];
      for j := 0 to |items|
        invariant errors == old(errors) + done && warnings == old(warnings)
        invariant LanguageLoop(folder, items) == After(done, [], LanguageLoop(folder, items[j..]))
      {
        assert items[j..][1..] == items[j + 1..];
        var lang := items[j];
        if lang == JNull {
          return true;
        }
        var id := Get(Some(lang), "id");
        if !Truthy(id) {
          Error(folder, LanguageMissingId);
        }
        var extensions := Get(Some(lang), "extensions");
        if !Truthy(extensions) || !IsArray(extensions) {
          Error(folder, LanguageMissingExtensions(id));
        }
        AfterAfter(done, [], Report(LanguageIssues(folder, lang), [], false), LanguageLoop(folder, items[j + 1..]));
        done := done + LanguageIssues(folder, lang);
      }
      return false;
    }

    /** One grammar path: skipped when falsy, throws when not a string, warned about when not in the folder. */
    method CheckGrammarPath(folder: string, path: Option<Json>, files: set<string>, problem: string -> Problem)
      returns (crashed: bool)
      modifies this
      ensures var r := GrammarPathCheck(folder, path, files, problem);
        errors == old(errors) && warnings == old(warnings) + r.warnings && crashed == r.crashed
    {
      if Truthy(path) {
        if !IsString(path) {
          return true;
        }
        if path.value.text !in files {
          Warn(folder, problem(path.value.text));
        }
      }
      return false;
    }

    /** The `id`, `name` and `version` checks. */
    method CheckRequiredFields(folder: string, m: Json)
      modifies this
      ensures errors == old(errors) + RequiredFieldIssues(folder, m) && warnings == old(warnings)
    {
      var manifest := Some(m);
      if !IsNonEmptyString(Get(manifest, "id")) {
        Error(folder, MissingField(Id));
      }
      if !IsNonEmptyString(Get(manifest, "name")) {
        Error(folder, MissingField(Name));
      }
      if !IsNonEmptyString(Get(manifest, "version")) {
        Error(folder, MissingField(Version));
      }
    }

    /** The `languages` checks. */
    method CheckLanguagesSection(folder: string, m: Json) returns (crashed: bool)
      modifies this
      ensures var r := LanguagesSection(folder, m);
        errors == old(errors) + r.errors && warnings == old(warnings) && crashed == r.crashed
    {
      var languages := Get(Some(m), "languages");
      if !Truthy(languages) || !IsArray(languages) || |languages.value.items| == 0 {
        Error(folder, NoLanguages);
        return false;
      }
      crashed := CheckLanguages(folder, languages.value.items);
    }

    /** The grammar checks. */
    method CheckGrammar(folder: string, m: Json, files: set<string>) returns (crashed: bool)
      modifies this
      ensures var r := GrammarSection(folder, m, files);
        errors == old(errors) && warnings == old(warnings) + r.warnings && crashed == r.crashed
    {
      // `capabilities?.grammar`: reading a property of anything but an object gives nothing
      var grammar := Get(Get(Some(m), "capabilities"), "grammar");
      if !Truthy(grammar) {
        return false;
      }
      crashed := CheckGrammarPath(folder, Get(grammar, "wasmPath"), files, p => WasmNotInRepo(p));
      if crashed {
        return;
      }
      crashed := CheckGrammarPath(folder, Get(grammar, "highlightQuery"), files, p => HighlightQueryNotFound(p));
    }

    /** The field, language and grammar checks of a parsed manifest. */
    method CheckParsed(folder: string, m: Json, files: set<string>) returns (crashed: bool)
      modifies this
      ensures var r := ParsedReport(folder, m, files);
        errors == old(errors) + r.errors && warnings == old(warnings) + r.warnings && crashed == r.crashed
    {
      CheckRequiredFields(folder, m);
      crashed := CheckLanguagesSection(folder, m);
      if crashed {
        return;
      }
      crashed := CheckGrammar(folder, m, files);
    }

    /** `validateExtension(folder)` */
    method ValidateExtension(e: DirEntry) returns (crashed: bool)
      modifies this
      ensures var r := ExtensionReport(e);
        errors == old(errors) + r.errors && warnings == old(warnings) + r.warnings && crashed == r.crashed
    {
      match e.manifest
      case Absent =>
        Warn(e.name, MissingManifest);
        return false;
      case Malformed =>
        Error(e.name, InvalidJson);
        return false;
      case Parsed(m) =>
        if m == JNull {
          return true;
        }
        crashed := CheckParsed(e.name, m, e.files);
    }

    /** `validateRegistry()` */
    method ValidateRegistry(file: FileState)
      modifies this
      ensures errors == old(errors) + RegistryIssues(file) && warnings == old(warnings)
    {
      if file.Absent? {
        Error(RegistryFile, MissingFile);
        return;
      }
      if file.Malformed? || file.value == JNull {
        Error(RegistryFile, InvalidJson);
        return;
      }
      var extensions := Get(Some(file.value), "extensions");
      if !Truthy(extensions) || !IsArray(extensions) {
        Error(RegistryFile, RegistryExtensionsInvalid);
      }
    }

    /** `validateIndex()` */
    method ValidateIndex(file: FileState)
      modifies this
      ensures errors == old(errors) + IndexIssues(file) && warnings == old(warnings)
    {
      if file.Absent? {
        Error(IndexFile, MissingFile);
      } else if file.Malformed? {
        Error(IndexFile, InvalidJson);
      } else if !IsArray(Some(file.value)) {
        Error(IndexFile, IndexNotArray);
      }
    }

    /** `validateManifests()` */
    method ValidateManifests(file: FileState)
      modifies this
      ensures errors == old(errors) + ManifestsIssues(file) && warnings == old(warnings)
    {
      if file.Absent? {
        Error(ManifestsFile, MissingFile);
      } else if file.Malformed? {
        Error(ManifestsFile, InvalidJson);
      } else if !TypeofObject(file.value) || IsArray(Some(file.value)) {
        Error(ManifestsFile, ManifestsNotObject);
      }
    }

    /**
     * `Promise.all(extensionFolders.map(validateExtension))`, taken one
     * folder after the other and stopping at the first that throws.
     */
    method ValidateFolders(folders: seq<DirEntry>) returns (crashed: bool)
      modifies this
      ensures var r := FoldersReport(folders, ExtensionReport);
        errors == old(errors) + r.errors && warnings == old(warnings) + r.warnings && crashed == r.crashed
      decreases |folders|
    {
      if folders == [] {
        return false;
      }
      ghost var first := ExtensionReport(folders[0]);
      crashed := ValidateExtension(folders[0]);
      if crashed {
        return;
      }
      crashed := ValidateFolders(folders[1..]);
      AfterAfter(old(errors), old(warnings), first, FoldersReport(folders[1..], ExtensionReport));
    }

    /**
     * The script's top level: validate the folders, then the root files, and
     * decide the exit status.
     */
    method Run(entries: seq<DirEntry>, registry: FileState, index: FileState, manifests: FileState)
      returns (failed: bool)
      modifies this
      ensures var r := RunReport(entries, registry, index, manifests);
        errors == old(errors) + r.errors && warnings == old(warnings) + r.warnings
      ensures failed <==> RunReport(entries, registry, index, manifests).crashed || errors != []
    {
      ghost var folders := FoldersReport(ExtensionFolders(entries), ExtensionReport);
      var crashed := ValidateFolders(ExtensionFolders(entries));
      if crashed {
        return true;
      }
      ghost var afterFolders := errors;
      ValidateRegistry(registry);
      ValidateIndex(index);
      ValidateManifests(manifests);
      assert errors == afterFolders + RegistryIssues(registry) + IndexIssues(index) + ManifestsIssues(manifests);
      assert RunReport(entries, registry, index, manifests).errors
          == folders.errors + RegistryIssues(registry) + IndexIssues(index) + ManifestsIssues(manifests);
      failed := errors != [];
    }
  }

  // ---------------------------------------------------------------------
  // Properties

  /** A folder without a manifest gets exactly one warning, no error, and nothing else is checked. */
  lemma MissingManifestOnlyWarns(e: DirEntry)
    requires e.manifest.Absent?
    ensures var r := ExtensionReport(e);
      r.errors == [] && r.warnings == [Issue(e.name, MissingManifest)] && !r.crashed
  {
  }

  /** A manifest that does not parse gets exactly one error and no field checks. */
  lemma MalformedManifestOneError(e: DirEntry)
    requires e.manifest.Malformed?
    ensures var r := ExtensionReport(e);
      r.errors == [Issue(e.name, InvalidJson)] && r.warnings == [] && !r.crashed
  {
  }

  /** The problems a folder's validation can report as errors: none of them comes from the grammar checks. */
  predicate ManifestErrorKind(p: Problem) {
    p.InvalidJson? || p.MissingField? || p.NoLanguages? || p.LanguageMissingId? || p.LanguageMissingExtensions?
  }

  /** The problems the language loop reports. */
  predicate LanguageProblem(p: Problem) {
    p.LanguageMissingId? || p.LanguageMissingExtensions?
  }

  /** Issues of `folder` that all report a problem `kind` accepts. */
  predicate AllOf(issues: seq<Issue>, folder: string, kind: Problem -> bool) {
    forall i :: 0 <= i < |issues| ==> issues[i].extension == folder && kind(issues[i].problem)
  }

  lemma AllOfAppend(a: seq<Issue>, b: seq<Issue>, folder: string, kind: Problem -> bool)
    requires AllOf(a, folder, kind) && AllOf(b, folder, kind)
    ensures AllOf(a + b, folder, kind)
  {
    var all := a + b;
    forall i | 0 <= i < |all| ensures all[i].extension == folder && kind(all[i].problem) {
      if i >= |a| {
        assert all[i] == b[i - |a|];
      }
    }
  }

  lemma AllOfWeaken(issues: seq<Issue>, folder: string, kind: Problem -> bool, wider: Problem -> bool)
    requires AllOf(issues, folder, kind)
    requires forall p :: kind(p) ==> wider(p)
    ensures AllOf(issues, folder, wider)
  {
  }

  /** Every error of the language loop is a missing `id` or a missing `extensions` array of this folder. */
  lemma {:induction false} LanguageLoopProblems(folder: string, items: seq<Json>)
    ensures AllOf(LanguageLoop(folder, items).errors, folder, LanguageProblem)
    decreases |items|
  {
    if items != [] && items[0] != JNull {
      LanguageLoopProblems(folder, items[1..]);
      AllOfAppend(LanguageIssues(folder, items[0]), LanguageLoop(folder, items[1..]).errors, folder, LanguageProblem);
    }
  }

  /** The problems of the `languages` section. */
  predicate LanguagesSectionProblem(p: Problem) {
    p.NoLanguages? || LanguageProblem(p)
  }

  /** Every error of the `languages` section is about languages. */
  lemma LanguagesSectionProblems(folder: string, m: Json)
    ensures AllOf(LanguagesSection(folder, m).errors, folder, LanguagesSectionProblem)
  {
    var languages := Get(Some(m), "languages");
    if HasLanguages(languages) {
      LanguageLoopProblems(folder, languages.value.items);
    }
  }

  /** The errors recorded for a parsed manifest: the field checks', then the language checks'. */
  lemma ParsedErrors(e: DirEntry)
    requires e.manifest.Parsed? && e.manifest.value != JNull
    ensures ExtensionReport(e).errors
         == RequiredFieldIssues(e.name, e.manifest.value) + LanguagesSection(e.name, e.manifest.value).errors
  {
  }

  /**
   * Each required field is checked on its own: the error for it is
   * recorded once when the field is missing, falsy or not a string, and not
   * at all otherwise, whatever the other fields hold.
   */
  lemma RequiredFieldErrors(e: DirEntry, f: Field)
    requires e.manifest.Parsed? && e.manifest.value != JNull
    ensures var r := ExtensionReport(e);
      multiset(r.errors)[Issue(e.name, MissingField(f))]
        == if IsNonEmptyString(Get(Some(e.manifest.value), FieldKey(f))) then 0 else 1
  {
    var m := e.manifest.value;
    ParsedErrors(e);
    LanguagesSectionProblems(e.name, m);
    FieldCount(e.name, m, f, LanguagesSection(e.name, m).errors);
  }

  lemma FieldCount(folder: string, m: Json, f: Field, rest: seq<Issue>)
    requires AllOf(rest, folder, LanguagesSectionProblem)
    ensures multiset(RequiredFieldIssues(folder, m) + rest)[Issue(folder, MissingField(f))]
         == if IsNonEmptyString(Get(Some(m), FieldKey(f))) then 0 else 1
  {
    var issue := Issue(folder, MissingField(f));
    assert issue !in rest;
    var a := FieldIssues(folder, m, Id);
    var b := FieldIssues(folder, m, Name);
    var c := FieldIssues(folder, m, Version);
    FieldIssuesCount(folder, m, Id, f);
    FieldIssuesCount(folder, m, Name, f);
    FieldIssuesCount(folder, m, Version, f);
    assert multiset(a + b + c + rest) == multiset(a) + multiset(b) + multiset(c) + multiset(rest);
  }

  /** The check of field `g` records the error for field `f` only when `g` is `f` and the field is missing. */
  lemma FieldIssuesCount(folder: string, m: Json, g: Field, f: Field)
    ensures multiset(FieldIssues(folder, m, g))[Issue(folder, MissingField(f))]
         == if g == f && !IsNonEmptyString(Get(Some(m), FieldKey(f))) then 1 else 0
  {
  }

  /** How many entries lack a truthy `id`. */
  function MissingIds(items: seq<Json>): nat
    decreases |items|
  {
    if items == [] then 0
    else (if Truthy(Get(Some(items[0]), "id")) then 0 else 1) + MissingIds(items[1..])
  }

  /** How many entries lack an `extensions` array. */
  function MissingExtensions(items: seq<Json>): nat
    decreases |items|
  {
    if items == [] then 0
    else (if IsArray(Get(Some(items[0]), "extensions")) then 0 else 1) + MissingExtensions(items[1..])
  }

  /** Entries none of which is `null`. */
  predicate NoNullEntries(items: seq<Json>) {
    forall i :: 0 <= i < |items| ==> items[i] != JNull
  }

  /**
   * Over language entries none of which is `null`, the loop records exactly
   * one error per entry without an `id` and one per entry without an
   * `extensions` array, and nothing else.
   */
  lemma {:induction false} LanguageLoopCounts(folder: string, items: seq<Json>)
    requires NoNullEntries(items)
    ensures var r := LanguageLoop(folder, items);
      && !r.crashed
      && |r.errors| == MissingIds(items) + MissingExtensions(items)
      && multiset(r.errors)[Issue(folder, LanguageMissingId)] == MissingIds(items)
    decreases |items|
  {
    if items != [] {
      var head := LanguageIssues(folder, items[0]);
      var rest := LanguageLoop(folder, items[1..]);
      assert NoNullEntries(items[1..]) by {
        forall i | 0 <= i < |items[1..]| ensures items[1..][i] != JNull {
          assert items[1..][i] == items[i + 1];
        }
      }
      LanguageLoopCounts(folder, items[1..]);
      LanguageIssuesCounts(folder, items[0]);
      assert LanguageLoop(folder, items).errors == head + rest.errors;
      assert multiset(head + rest.errors) == multiset(head) + multiset(rest.errors);
    }
  }

  /** One entry records one error for a missing `id` and one for a missing `extensions` array. */
  lemma LanguageIssuesCounts(folder: string, lang: Json)
    ensures var head := LanguageIssues(folder, lang);
      && |head| == (if Truthy(Get(Some(lang), "id")) then 0 else 1)
                   + (if IsArray(Get(Some(lang), "extensions")) then 0 else 1)
      && multiset(head)[Issue(folder, LanguageMissingId)] == (if Truthy(Get(Some(lang), "id")) then 0 else 1)
  {
  }

  /**
   * A `languages` value that is missing, falsy, not an array or empty gives
   * exactly one error and no per-language error.
   */
  lemma NoLanguagesOneError(folder: string, m: Json)
    requires !IsArray(Get(Some(m), "languages")) || Get(Some(m), "languages").value.items == []
    ensures LanguagesSection(folder, m) == Report([Issue(folder, NoLanguages)], [], false)
  {
  }

  /** The grammar checks only warn: what files the folder holds changes no error and no crash. */
  lemma GrammarNeverErrs(e: DirEntry, files: set<string>)
    ensures ExtensionReport(e).errors == ExtensionReport(e.(files := files)).errors
    ensures ExtensionReport(e).crashed == ExtensionReport(e.(files := files)).crashed
  {
  }

  /** Every error recorded for a folder is a manifest problem of that folder, never a grammar warning. */
  lemma ExtensionErrorKinds(e: DirEntry)
    ensures AllOf(ExtensionReport(e).errors, e.name, ManifestErrorKind)
  {
    if e.manifest.Parsed? && e.manifest.value != JNull {
      var m := e.manifest.value;
      LanguagesSectionProblems(e.name, m);
      ParsedErrors(e);
      AllOfWeaken(LanguagesSection(e.name, m).errors, e.name, LanguagesSectionProblem, ManifestErrorKind);
      AllOfAppend(RequiredFieldIssues(e.name, m), LanguagesSection(e.name, m).errors, e.name, ManifestErrorKind);
    }
  }

  /** A registry is accepted exactly when it parses and its `extensions` is an array. */
  lemma RegistryAcceptedIff(file: FileState)
    ensures RegistryIssues(file) == [] <==> file.Parsed? && IsArray(Get(Some(file.value), "extensions"))
    ensures |RegistryIssues(file)| <= 1
  {
  }

  /** An index is accepted exactly when it parses to an array. */
  lemma IndexAcceptedIff(file: FileState)
    ensures IndexIssues(file) == [] <==> file.Parsed? && file.value.JArray?
    ensures |IndexIssues(file)| <= 1
  {
  }

  /** The manifests file is accepted exactly when it parses to an object or to `null`. */
  lemma ManifestsAcceptedIff(file: FileState)
    ensures ManifestsIssues(file) == [] <==> file.Parsed? && (file.value.JObject? || file.value.JNull?)
    ensures |ManifestsIssues(file)| <= 1
  {
  }

  /** The folders validated are exactly the directories other than `packages`, in their order. */
  lemma {:induction false} ExtensionFoldersMembers(entries: seq<DirEntry>)
    ensures var folders := ExtensionFolders(entries);
      && |folders| <= |entries|
      && forall e :: e in folders <==> e in entries && e.isDirectory && e.name != PackagesFolder
    decreases |entries|
  {
    if entries != [] {
      ExtensionFoldersMembers(entries[1..]);
      assert entries == [entries[0]] + entries[1..];
    }
  }

  /** Some folder's check threw or recorded an error. */
  predicate SomeFolderFails(folders: seq<DirEntry>, check: Checker) {
    exists i :: 0 <= i < |folders| && Fails(check(folders[i]))
  }

  /** The folder pass fails exactly when some folder's check throws or records an error. */
  lemma {:induction false} FoldersFailIff(folders: seq<DirEntry>, check: Checker)
    ensures Fails(FoldersReport(folders, check)) <==> SomeFolderFails(folders, check)
    decreases |folders|
  {
    if folders != [] {
      var rest := folders[1..];
      FoldersFailIff(rest, check);
      if SomeFolderFails(rest, check) {
        var i :| 0 <= i < |rest| && Fails(check(rest[i]));
        assert folders[i + 1] == rest[i];
      }
      if SomeFolderFails(folders, check) && !Fails(check(folders[0])) {
        var i :| 0 <= i < |folders| && Fails(check(folders[i]));
        assert rest[i - 1] == folders[i];
      }
    }
  }

  /**
   * The run fails exactly when some extension folder's validation throws or
   * records an error, or a root file is rejected; warnings never matter.
   */
  lemma RunFailsIff(entries: seq<DirEntry>, registry: FileState, index: FileState, manifests: FileState)
    ensures Fails(RunReport(entries, registry, index, manifests))
        <==> || SomeFolderFails(ExtensionFolders(entries), ExtensionReport)
             || RegistryIssues(registry) != []
             || IndexIssues(index) != []
             || ManifestsIssues(manifests) != []
  {
    FoldersFailIff(ExtensionFolders(entries), ExtensionReport);
  }

  /** A `null` manifest parses but throws at its first field read, before recording anything. */
  lemma NullManifestCrashes(e: DirEntry)
    requires e.manifest == Parsed(JNull)
    ensures ExtensionReport(e) == Report([], [], true)
  {
  }
}
