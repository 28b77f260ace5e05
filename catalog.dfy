/**
 * The extension catalog of scripts/build-extensions-index.ts: every extension
 * folder's manifest becomes one registry entry (with defaults filled in), no
 * language id may be declared twice, registry.json keeps its `lastUpdated`
 * when its entries did not change, and index.json lists the same entries in
 * the shape the editor reads. Check mode compares both files with what would
 * be written.
 */
module Catalog {
  import opened Wrappers
  import opened Text
  import opened Json

  /** One `languages` element of a manifest. */
  datatype Language = Language(id: string, extensions: seq<string>)

  /** extension.json as the builder reads it; absent optional fields are None. */
  datatype Manifest = Manifest(
    id: Option<string>,
    name: string,
    displayName: Option<string>,
    description: Option<string>,
    version: Option<string>,
    publisher: Option<string>,
    categories: Option<seq<string>>,
    languages: Option<seq<Language>>)

  /**
   * An extension folder that holds an extension.json: its name, the parsed
   * manifest (None when `JSON.parse` throws) and whether highlights.scm exists.
   */
  datatype Folder = Folder(name: string, manifest: Option<Manifest>, hasHighlights: bool)

  /** One element of registry.json's `extensions`. */
  datatype RegistryEntry = RegistryEntry(
    id: string,
    name: string,
    displayName: string,
    description: string,
    version: string,
    publisher: string,
    category: string,
    icon: string,
    downloads: int,
    rating: int,
    manifestUrl: string)

  /** The closed set of index.json categories. */
  datatype IndexCategory = Languages | Themes | IconThemes

  /** One element of index.json. */
  datatype IndexEntry = IndexEntry(
    id: string,
    name: string,
    description: string,
    version: string,
    author: string,
    category: IndexCategory,
    icon: string,
    manifestUrl: string,
    downloads: int,
    rating: int)

  /** What `buildCatalog` throws; each names the folder or manifest at fault. */
  datatype CatalogError =
    | InvalidManifest(folder: string)
    | MissingId(folder: string)
    | NoLanguages(folder: string)
    | DuplicateLanguage(language: string, manifest: string, owner: string)

  const DefaultCdnBase: string := "https://" + "athas.dev/" + "extensions"
  const IconFile: string := "/icon.svg"
  const ManifestFile: string := "/extension.json"
  const SupportWord: string := "support"
  const SupportSuffix: string := " Language " + "Support"
  const DescriptionSuffix: string := " language " + "support"
  const DefaultVersion: string := "1.0.0"
  const DefaultPublisher: string := "Athas"
  const IconThemeTag: string := "icon-theme"
  const ThemeTag: string := "theme"
  const LanguageTag: string := "language"

  /** JavaScript's `a || b` on an optional string: `a` unless it is absent or empty. */
  function Or(a: Option<string>, b: string): (r: string)
    ensures a.Some? && a.value != [] ==> r == a.value
    ensures a.None? || a.value == [] ==> r == b
  {
    if a.Some? && a.value != [] then a.value else b
  }

  /** `process.env.EXTENSIONS_CDN_BASE_URL || "https://athas.dev/extensions"` */
  function CdnBase(env: Option<string>): string {
    Or(env, DefaultCdnBase)
  }

  // ---------------------------------------------------------------------
  // Category normalisation

  predicate IsSeparator(c: char) {
    c == '_' || c == '-'
  }

  /** The text after the run of `_` and `-` that `s` starts with. */
  function SkipSeparators(s: string): (r: string)
    ensures |r| <= |s| && r == s[|s| - |r|..]
    ensures r == [] || !IsSeparator(r[0])
    decreases |s|
  {
    if s != [] && IsSeparator(s[0]) then SkipSeparators(s[1..]) else s
  }

  /** `s.replace(/[_-]+/g, " ")`: every maximal run of `_` and `-` becomes one space. */
  function CollapseSeparators(s: string): (r: string)
    ensures |r| <= |s|
    ensures forall i :: 0 <= i < |r| ==> !IsSeparator(r[i])
    decreases |s|
  {
    if s == [] then []
    else if IsSeparator(s[0]) then " " + CollapseSeparators(SkipSeparators(s[1..]))
    else [s[0]] + CollapseSeparators(s[1..])
  }

  /** A maximal run of separators, followed by text that does not start with one, collapses to a single space. */
  lemma CollapseRun(run: string, rest: string)
    requires run != [] && forall i :: 0 <= i < |run| ==> IsSeparator(run[i])
    requires rest == [] || !IsSeparator(rest[0])
    ensures CollapseSeparators(run + rest) == " " + CollapseSeparators(rest)
  {
    assert (run + rest)[0] == run[0];
    assert (run + rest)[1..] == run[1..] + rest;
    SkipRun(run[1..], rest);
  }

  lemma {:induction false} SkipRun(run: string, rest: string)
    requires forall i :: 0 <= i < |run| ==> IsSeparator(run[i])
    requires rest == [] || !IsSeparator(rest[0])
    ensures SkipSeparators(run + rest) == rest
    decreases |run|
  {
    if run == [] {
      assert run + rest == rest;
    } else {
      assert (run + rest)[0] == run[0];
      assert (run + rest)[1..] == run[1..] + rest;
      SkipRun(run[1..], rest);
    }
  }

  /** What `normalizeIndexCategory` tests: lower-cased, separators as spaces, trimmed. */
  function IndexCategoryKey(raw: Option<string>): string {
    Trim(CollapseSeparators(ToLower(raw.GetOr([]))))
  }

  /**
   * `normalizeIndexCategory(raw)`: an icon theme when the key mentions both
   * "icon" and "theme" (or is "icon" alone), a theme when the key is "theme"
   * or "themes", and a language otherwise (absent input included).
   */
  function NormalizeIndexCategory(raw: Option<string>): (r: IndexCategory)
    ensures raw.None? ==> r == Languages
    ensures var key := IndexCategoryKey(raw);
      r == IconThemes <==> Contains(key, "icon") && (Contains(key, "theme") || key == "icon")
    ensures var key := IndexCategoryKey(raw);
      r == Themes <==> key == "theme" || key == "themes"
  {
    var value := IndexCategoryKey(raw);
    assert raw.None? ==> value == [];
    LiteralFacts();
    if Contains(value, "icon") && Contains(value, "theme") then IconThemes
    else if value == "icon" || value == "icon theme" || value == "icon themes" then IconThemes
    else if value == "theme" || value == "themes" then Themes
    else Languages
  }

  /** The containment facts about the category words that the contracts need. */
  lemma LiteralFacts()
    ensures Contains("icon", "icon") && !Contains("icon", "theme")
    ensures Contains("icon theme", "icon") && Contains("icon theme", "theme")
    ensures Contains("icon themes", "icon") && Contains("icon themes", "theme")
    ensures !Contains("theme", "icon") && !Contains("themes", "icon")
    ensures !Contains([], "icon")
  {
    IconWordFacts();
    IconThemeFacts("icon theme");
    IconThemeFacts("icon themes");
    NotContainsWithoutFirst("theme", "icon");
    NotContainsWithoutFirst("themes", "icon");
  }

  lemma IconWordFacts()
    ensures Contains("icon", "icon") && !Contains("icon", "theme")
  {
    ContainsAt("icon", "icon", 0);
    NotContainsWithoutFirst("icon", "theme");
  }

  lemma IconThemeFacts(s: string)
    requires "icon theme" <= s
    ensures Contains(s, "icon") && Contains(s, "theme")
  {
    ContainsAt(s, "icon", 0);
    assert "theme" <= s[5..];
    ContainsAt(s, "theme", 5);
  }

  /** A string that lacks the first character of `t` does not contain `t`. */
  lemma {:induction false} NotContainsWithoutFirst(s: string, t: string)
    requires t != [] && t[0] !in s
    ensures !Contains(s, t)
    decreases |s|
  {
    if s != [] {
      assert s == [s[0]] + s[1..];
      NotContainsWithoutFirst(s[1..], t);
    }
  }

  /** `toLowerCase` leaves a string without capitals as it is. */
  lemma LowerCaseFixed(s: string)
    requires forall i :: 0 <= i < |s| ==> !('A' <= s[i] <= 'Z')
    ensures ToLower(s) == s
  {
  }

  /** The separator collapse leaves a string without `_` and `-` as it is. */
  lemma {:induction false} CollapseFixed(s: string)
    requires forall i :: 0 <= i < |s| ==> !IsSeparator(s[i])
    ensures CollapseSeparators(s) == s
    decreases |s|
  {
    if s != [] {
      CollapseFixed(s[1..]);
    }
  }

  /** A prefix without `_` and `-` passes through the separator collapse unchanged. */
  lemma {:induction false} CollapseAfter(a: string, rest: string)
    requires forall i :: 0 <= i < |a| ==> !IsSeparator(a[i])
    ensures CollapseSeparators(a + rest) == a + CollapseSeparators(rest)
    decreases |a|
  {
    if a != [] {
      assert (a + rest)[1..] == a[1..] + rest;
      CollapseAfter(a[1..], rest);
    } else {
      assert a + rest == rest;
    }
  }

  /** `trim` leaves a string that starts and ends with non-whitespace as it is. */
  lemma TrimFixed(s: string)
    requires s != [] && !IsWhitespace(s[0]) && !IsWhitespace(s[|s| - 1])
    ensures Trim(s) == s
  {
    assert TrimEnd(s) == s;
  }

  /** Lower-case letters only, no separators, and no whitespace at either end. */
  predicate PlainWord(w: string) {
    && w != [] && !IsWhitespace(w[0]) && !IsWhitespace(w[|w| - 1])
    && (forall i :: 0 <= i < |w| ==> !IsSeparator(w[i]) && !('A' <= w[i] <= 'Z'))
  }

  /** The key of a one-word category is the word. */
  lemma OneWordKey(w: string)
    requires PlainWord(w)
    ensures IndexCategoryKey(Some(w)) == w
  {
    LowerCaseFixed(w);
    CollapseFixed(w);
    TrimFixed(w);
  }

  /** `a-b` has the key `a b`. */
  lemma HyphenKey(tag: string, a: string, b: string)
    requires tag == a + (['-'] + b)
    requires forall i :: 0 <= i < |tag| ==> !('A' <= tag[i] <= 'Z')
    requires PlainWord(a) && PlainWord(b)
    ensures IndexCategoryKey(Some(tag)) == a + ([' '] + b)
  {
    LowerCaseFixed(tag);
    CollapseAfter(a, ['-'] + b);
    assert (['-'] + b)[1..] == b;
    CollapseFixed(b);
    var key := a + ([' '] + b);
    assert key[0] == a[0] && key[|key| - 1] == b[|b| - 1];
    TrimFixed(key);
  }

  lemma IconThemeWords()
    ensures IconThemeTag == "icon" + (['-'] + ThemeTag) && "icon" + ([' '] + ThemeTag) == "icon theme"
    ensures forall i :: 0 <= i < |IconThemeTag| ==> !('A' <= IconThemeTag[i] <= 'Z')
    ensures PlainWord("icon") && PlainWord(ThemeTag)
  {
  }

  /** `normalizeRegistryCategory(raw)` */
  function NormalizeRegistryCategory(raw: Option<string>): (r: string)
    ensures r == IconThemeTag || r == ThemeTag || r == LanguageTag
    ensures raw.None? ==> r == LanguageTag
    ensures var n := ToLower(raw.GetOr([]));
      r == IconThemeTag <==> Contains(n, "icon") && Contains(n, "theme")
    ensures var n := ToLower(raw.GetOr([]));
      r == ThemeTag <==> !Contains(n, "icon") && Contains(n, "theme")
  {
    var normalized := ToLower(raw.GetOr([]));
    if Contains(normalized, "icon") && Contains(normalized, "theme") then IconThemeTag
    else if Contains(normalized, "theme") then ThemeTag
    else LanguageTag
  }

  /** The registry category `icon-theme` is the index category "Icon Themes". */
  lemma IconThemeCategory()
    ensures NormalizeIndexCategory(Some(IconThemeTag)) == IconThemes
  {
    IconThemeWords();
    HyphenKey(IconThemeTag, "icon", ThemeTag);
    ContainsAt("icon theme", "icon", 0);
    ContainsAt("icon theme", "theme", 5);
  }

  /** The registry category `theme` is the index category "Themes". */
  lemma ThemeCategory()
    ensures NormalizeIndexCategory(Some(ThemeTag)) == Themes
  {
    assert PlainWord(ThemeTag);
    OneWordKey(ThemeTag);
  }

  /** The registry category `language` is the index category "Languages". */
  lemma LanguageCategory()
    ensures NormalizeIndexCategory(Some(LanguageTag)) == Languages
  {
    assert PlainWord(LanguageTag);
    OneWordKey(LanguageTag);
    NotContainsWithoutFirst(LanguageTag, "icon");
  }

  // ---------------------------------------------------------------------
  // Registry entries

  lemma {:induction false} ContainsAt(s: string, t: string, k: nat)
    requires k <= |s| && t <= s[k..]
    ensures Contains(s, t)
    decreases k
  {
    if k > 0 {
      assert s[1..][k - 1..] == s[k..];
      ContainsAt(s[1..], t, k - 1);
    }
  }

  /** `displayName.toLowerCase().includes("support")` */
  predicate MentionsSupport(displayName: string) {
    Contains(ToLower(displayName), SupportWord)
  }

  /** `manifest.displayName || manifest.name` */
  function DisplayName(m: Manifest): string {
    Or(m.displayName, m.name)
  }

  /** `manifest.categories?.[0]` */
  function FirstCategory(m: Manifest): Option<string> {
    if m.categories.Some? && |m.categories.value| > 0 then Some(m.categories.value[0]) else None
  }

  /** The registry entry of a manifest in `folder` (its properties are those of `EntryFields`). */
  function Entry(folder: string, m: Manifest, cdn: string): (r: RegistryEntry)
    ensures r.id == m.id.GetOr([]) && r.name == m.name
  {
    var displayName := DisplayName(m);
    RegistryEntry(
      m.id.GetOr([]),
      m.name,
      if MentionsSupport(displayName) then displayName else displayName + SupportSuffix,
      Or(m.description, displayName + DescriptionSuffix),
      Or(m.version, DefaultVersion),
      Or(m.publisher, DefaultPublisher),
      NormalizeRegistryCategory(FirstCategory(m)),
      cdn + "/" + folder + IconFile,
      0,
      0,
      cdn + "/" + folder + ManifestFile)
  }

  /**
   * The registry entry's display name is kept when it mentions "support" and
   * otherwise gets " Language Support" appended, so it always mentions
   * support; missing description, version and publisher get their defaults;
   * the category is one of the three tags; the icon and manifest live under
   * the folder on the CDN; downloads and rating start at zero.
   */
  lemma EntryFields(folder: string, m: Manifest, cdn: string)
    ensures var r := Entry(folder, m, cdn);
      && MentionsSupport(r.displayName)
      && (r.displayName == DisplayName(m) <==> MentionsSupport(DisplayName(m)))
      && (!MentionsSupport(DisplayName(m)) ==> r.displayName == DisplayName(m) + SupportSuffix)
      && r.displayName != []
      && r.description == Or(m.description, DisplayName(m) + DescriptionSuffix)
      && r.version == Or(m.version, DefaultVersion) && r.publisher == Or(m.publisher, DefaultPublisher)
      && r.category == NormalizeRegistryCategory(FirstCategory(m))
      && (r.category == IconThemeTag || r.category == ThemeTag || r.category == LanguageTag)
      && r.icon == cdn + "/" + folder + IconFile && r.manifestUrl == cdn + "/" + folder + ManifestFile
      && r.downloads == 0 && r.rating == 0
  {
    SuffixMentionsSupport(DisplayName(m));
  }

  /** A name with " Language Support" appended mentions support, and differs from the name. */
  lemma SuffixMentionsSupport(name: string)
    ensures MentionsSupport(name + SupportSuffix)
    ensures name + SupportSuffix != name
  {
    var low := ToLower(name);
    var tail := ToLower(SupportSuffix);
    ToLowerAppend(name, SupportSuffix);
    SuffixLower();
    assert (low + tail)[|low| + 10..] == tail[10..];
    ContainsAt(low + tail, SupportWord, |low| + 10);
  }

  lemma ToLowerAppend(a: string, b: string)
    ensures ToLower(a + b) == ToLower(a) + ToLower(b)
  {
  }

  lemma SuffixLower()
    ensures ToLower(SupportSuffix) == " language support"
  {
  }

  // ---------------------------------------------------------------------
  // The fold over the extension folders

  /** What the loop over the folders has built so far. */
  datatype Built = Built(entries: seq<RegistryEntry>, owners: map<string, string>, warnings: seq<string>)

  const Start: Built := Built([], map[], [])

  /** The ids of `langs`, in order. */
  function LanguageIds(langs: seq<Language>): (ids: seq<string>)
    ensures |ids| == |langs| && forall j :: 0 <= j < |langs| ==> ids[j] == langs[j].id
  {
    seq(|langs|, j requires 0 <= j < |langs| => langs[j].id)
  }

  /** No string occurs twice. */
  predicate Distinct(s: seq<string>) {
    forall i, j :: 0 <= i < j < |s| ==> s[i] != s[j]
  }

  /**
   * The inner loop: each language id is claimed for `owner`; one already
   * claimed, by an earlier manifest or earlier in this one, is a duplicate.
   */
  function Claim(langs: seq<Language>, owner: string, owners: map<string, string>): Result<map<string, string>, CatalogError>
    decreases |langs|
  {
    if langs == [] then Ok(owners)
    else if langs[0].id in owners then Err(DuplicateLanguage(langs[0].id, owner, owners[langs[0].id]))
    else Claim(langs[1..], owner, owners[langs[0].id := owner])
  }

  /** The manifest passes the checks before the languages are claimed. */
  predicate WellFormed(f: Folder) {
    && f.manifest.Some?
    && f.manifest.value.id.Some? && f.manifest.value.id.value != []
    && f.manifest.value.languages.GetOr([]) != []
  }

  /** How a folder's manifest becomes its registry entry. */
  type EntryMaker = (string, Manifest) -> RegistryEntry

  /** `Entry` with the CDN base fixed. */
  function MakeEntry(cdn: string): EntryMaker {
    (folder, m) => Entry(folder, m, cdn)
  }

  /** One turn of the loop over the folders. */
  function FolderStep(f: Folder, make: EntryMaker, acc: Built): Result<Built, CatalogError> {
    match f.manifest
    case None => Err(InvalidManifest(f.name))
    case Some(m) =>
      if m.id.None? || m.id.value == [] then Err(MissingId(f.name))
      else if m.languages.GetOr([]) == [] then Err(NoLanguages(f.name))
      else
        var warnings := if f.hasHighlights then acc.warnings else acc.warnings + [m.id.value];
        match Claim(m.languages.GetOr([]), m.id.value, acc.owners)
        case Err(e) => Err(e)
        case Ok(owners) => Ok(Built(acc.entries + [make(f.name, m)], owners, warnings))
  }

  /** The loop over the folders from `acc` on; the first error ends it. */
  function Build(folders: seq<Folder>, make: EntryMaker, acc: Built): Result<Built, CatalogError>
    decreases |folders|
  {
    if folders == [] then Ok(acc)
    else
      match FolderStep(folders[0], make, acc)
      case Err(e) => Err(e)
      case Ok(next) => Build(folders[1..], make, next)
  }

  /** The manifest id of a well-formed folder. */
  function ManifestId(f: Folder): string
    requires WellFormed(f)
  {
    f.manifest.value.id.value
  }

  /** The language ids a folder declares (none when its manifest does not parse). */
  function FolderLanguageIds(f: Folder): seq<string> {
    if f.manifest.None? then [] else LanguageIds(f.manifest.value.languages.GetOr([]))
  }

  /** Every language id declared across `folders`, in order. */
  function AllLanguageIds(folders: seq<Folder>): seq<string>
    decreases |folders|
  {
    if folders == [] then [] else FolderLanguageIds(folders[0]) + AllLanguageIds(folders[1..])
  }

  /** The strings of `s`, as a set. */
  function IdSet(s: seq<string>): set<string>
    decreases |s|
  {
    if s == [] then {} else {s[0]} + IdSet(s[1..])
  }

  lemma {:induction false} IdSetMembers(s: seq<string>)
    ensures forall x :: x in IdSet(s) <==> x in s
    decreases |s|
  {
    if s != [] {
      IdSetMembers(s[1..]);
      assert s == [s[0]] + s[1..];
    }
  }

  lemma IdSetAppend(a: seq<string>, b: seq<string>)
    ensures IdSet(a + b) == IdSet(a) + IdSet(b)
  {
    IdSetMembers(a);
    IdSetMembers(b);
    IdSetMembers(a + b);
  }

  /** A sequence is distinct when its head does not recur and its tail is distinct. */
  lemma DistinctCons(s: seq<string>)
    requires s != []
    ensures Distinct(s) <==> s[0] !in IdSet(s[1..]) && Distinct(s[1..])
  {
    IdSetMembers(s[1..]);
    var t := s[1..];
    if Distinct(s) {
      forall i, j | 0 <= i < j < |t| ensures t[i] != t[j] {
        assert t[i] == s[i + 1] && t[j] == s[j + 1];
      }
    }
    if s[0] !in t && Distinct(t) {
      forall i, j | 0 <= i < j < |s| ensures s[i] != s[j] {
        assert s[j] == t[j - 1];
        if i > 0 { assert s[i] == t[i - 1]; }
      }
    }
  }

  lemma {:induction false} DistinctAppend(a: seq<string>, b: seq<string>)
    ensures Distinct(a + b) <==> Distinct(a) && Distinct(b) && IdSet(a) !! IdSet(b)
    decreases |a|
  {
    if a == [] {
      assert a + b == b;
    } else {
      var c := a + b;
      assert c[1..] == a[1..] + b && c[0] == a[0];
      DistinctAppend(a[1..], b);
      DistinctCons(c);
      DistinctCons(a);
      IdSetAppend(a[1..], b);
    }
  }

  lemma LanguageIdsCons(langs: seq<Language>)
    requires langs != []
    ensures LanguageIds(langs) == [langs[0].id] + LanguageIds(langs[1..])
  {
  }

  /** Claiming succeeds exactly when the ids are distinct and none is claimed yet. */
  lemma {:induction false} ClaimSucceedsIff(langs: seq<Language>, owner: string, owners: map<string, string>)
    ensures var ids := LanguageIds(langs);
      Claim(langs, owner, owners).Ok? <==> Distinct(ids) && IdSet(ids) !! owners.Keys
    decreases |langs|
  {
    if langs != [] {
      ClaimSucceedsIff(langs[1..], owner, owners[langs[0].id := owner]);
      LanguageIdsCons(langs);
      DistinctCons(LanguageIds(langs));
    }
  }

  /** A successful claim claims every id for `owner`, keeps earlier claims and claims nothing else. */
  lemma {:induction false} ClaimOwners(langs: seq<Language>, owner: string, owners: map<string, string>)
    requires Claim(langs, owner, owners).Ok?
    ensures var r := Claim(langs, owner, owners).value;
      && r.Keys == owners.Keys + IdSet(LanguageIds(langs))
      && (forall k :: k in owners ==> r[k] == owners[k])
      && (forall k :: k in IdSet(LanguageIds(langs)) ==> r[k] == owner)
    decreases |langs|
  {
    if langs != [] {
      ClaimOwners(langs[1..], owner, owners[langs[0].id := owner]);
      LanguageIdsCons(langs);
    }
  }

  /** One folder step succeeds exactly when the manifest is well formed and its ids are distinct and unclaimed. */
  lemma StepSucceedsIff(f: Folder, make: EntryMaker, acc: Built)
    ensures FolderStep(f, make, acc).Ok?
        <==> WellFormed(f) && Distinct(FolderLanguageIds(f)) && IdSet(FolderLanguageIds(f)) !! acc.owners.Keys
  {
    if WellFormed(f) {
      ClaimSucceedsIff(f.manifest.value.languages.GetOr([]), ManifestId(f), acc.owners);
    }
  }

  /** A successful folder step claims the folder's ids for its manifest and keeps earlier claims. */
  lemma StepOwners(f: Folder, make: EntryMaker, acc: Built)
    requires FolderStep(f, make, acc).Ok?
    ensures var next := FolderStep(f, make, acc).value;
      && WellFormed(f)
      && next.owners.Keys == acc.owners.Keys + IdSet(FolderLanguageIds(f))
      && (forall k :: k in acc.owners ==> next.owners[k] == acc.owners[k])
      && (forall k :: k in IdSet(FolderLanguageIds(f)) ==> next.owners[k] == ManifestId(f))
  {
    ClaimOwners(f.manifest.value.languages.GetOr([]), ManifestId(f), acc.owners);
  }

  /**
   * The build succeeds exactly when every manifest parses, has an id and
   * declares languages, and no language id is declared twice (across
   * manifests or within one) or was claimed before.
   */
  lemma {:induction false} BuildSucceedsIff(folders: seq<Folder>, make: EntryMaker, acc: Built)
    ensures Build(folders, make, acc).Ok?
        <==> && (forall i :: 0 <= i < |folders| ==> WellFormed(folders[i]))
             && Distinct(AllLanguageIds(folders))
             && IdSet(AllLanguageIds(folders)) !! acc.owners.Keys
    decreases |folders|
  {
    if folders != [] {
      var f := folders[0];
      var rest := folders[1..];
      StepSucceedsIff(f, make, acc);
      DistinctAppend(FolderLanguageIds(f), AllLanguageIds(rest));
      IdSetAppend(FolderLanguageIds(f), AllLanguageIds(rest));
      if FolderStep(f, make, acc).Ok? {
        var next := FolderStep(f, make, acc).value;
        StepOwners(f, make, acc);
        BuildSucceedsIff(rest, make, next);
      }
      forall i | 1 <= i < |folders| ensures folders[i] == rest[i - 1] { }
    }
  }

  /**
   * A successful build has one entry per folder, in folder order, made from
   * the folder's manifest, after the entries it started with.
   */
  lemma {:induction false} BuildEntries(folders: seq<Folder>, make: EntryMaker, acc: Built)
    requires Build(folders, make, acc).Ok?
    ensures var b := Build(folders, make, acc).value;
      && |b.entries| == |acc.entries| + |folders|
      && b.entries[..|acc.entries|] == acc.entries
      && (forall i :: 0 <= i < |folders| ==>
            folders[i].manifest.Some? && b.entries[|acc.entries| + i] == make(folders[i].name, folders[i].manifest.value))
    decreases |folders|
  {
    if folders != [] {
      var f := folders[0];
      var next := FolderStep(f, make, acc).value;
      BuildEntries(folders[1..], make, next);
      var b := Build(folders, make, acc).value;
      assert b == Build(folders[1..], make, next).value;
      StepEntries(f, make, acc);
      assert b.entries[..|next.entries|] == next.entries;
      assert b.entries[..|acc.entries|] == next.entries[..|acc.entries|];
      forall i | 0 <= i < |folders|
        ensures folders[i].manifest.Some? && b.entries[|acc.entries| + i] == make(folders[i].name, folders[i].manifest.value)
      {
        if i == 0 {
          assert b.entries[|acc.entries|] == next.entries[|acc.entries|];
        } else {
          assert folders[i] == folders[1..][i - 1];
        }
      }
    }
  }

  /** A successful build warns about each manifest whose folder lacks highlights.scm, in folder order. */
  lemma {:induction false} BuildWarnings(folders: seq<Folder>, make: EntryMaker, acc: Built)
    requires Build(folders, make, acc).Ok?
    ensures Build(folders, make, acc).value.warnings == acc.warnings + MissingHighlights(folders)
    decreases |folders|
  {
    if folders != [] {
      var f := folders[0];
      var next := FolderStep(f, make, acc).value;
      BuildWarnings(folders[1..], make, next);
      StepEntries(f, make, acc);
    }
  }

  /** A successful folder step adds the folder's entry and, when highlights.scm is missing, its id to the warnings. */
  lemma StepEntries(f: Folder, make: EntryMaker, acc: Built)
    requires FolderStep(f, make, acc).Ok?
    ensures var next := FolderStep(f, make, acc).value;
      && f.manifest.Some?
      && next.entries == acc.entries + [make(f.name, f.manifest.value)]
      && next.warnings == acc.warnings + (if f.hasHighlights then [] else [f.manifest.value.id.GetOr([])])
  {
  }

  /** The ids of the manifests whose folders lack highlights.scm, in folder order. */
  function MissingHighlights(folders: seq<Folder>): seq<string>
    decreases |folders|
  {
    if folders == [] then []
    else
      var f := folders[0];
      (if f.hasHighlights || f.manifest.None? then [] else [f.manifest.value.id.GetOr([])]) + MissingHighlights(folders[1..])
  }

  /** A successful build claims exactly the declared language ids on top of the earlier claims, which it keeps. */
  lemma {:induction false} BuildKeepsOwners(folders: seq<Folder>, make: EntryMaker, acc: Built)
    requires Build(folders, make, acc).Ok?
    ensures var owners := Build(folders, make, acc).value.owners;
      && owners.Keys == acc.owners.Keys + IdSet(AllLanguageIds(folders))
      && (forall k :: k in acc.owners ==> owners[k] == acc.owners[k])
    decreases |folders|
  {
    if folders != [] {
      var f := folders[0];
      var rest := folders[1..];
      var next := FolderStep(f, make, acc).value;
      StepOwners(f, make, acc);
      BuildKeepsOwners(rest, make, next);
      IdSetAppend(FolderLanguageIds(f), AllLanguageIds(rest));
    }
  }

  /**
   * After a successful build every language id a manifest declares belongs
   * to that manifest.
   */
  lemma {:induction false} BuildOwners(folders: seq<Folder>, make: EntryMaker, acc: Built, i: nat, k: string)
    requires Build(folders, make, acc).Ok?
    requires i < |folders| && k in IdSet(FolderLanguageIds(folders[i]))
    ensures var owners := Build(folders, make, acc).value.owners;
      WellFormed(folders[i]) && k in owners && owners[k] == ManifestId(folders[i])
    decreases i
  {
    var rest := folders[1..];
    var next := FolderStep(folders[0], make, acc).value;
    StepOwners(folders[0], make, acc);
    if i == 0 {
      BuildKeepsOwners(rest, make, next);
    } else {
      assert folders[i] == rest[i - 1];
      BuildOwners(rest, make, next, i - 1, k);
    }
  }

  // ---------------------------------------------------------------------
  // registry.json and index.json

  /** A registry entry as `JSON.stringify` sees it (keys in the order the object literal lists them). */
  function EntryJson(e: RegistryEntry): Json {
    JObject([
      Member("id", JString(e.id)),
      Member("name", JString(e.name)),
      Member("displayName", JString(e.displayName)),
      Member("description", JString(e.description)),
      Member("version", JString(e.version)),
      Member("publisher", JString(e.publisher)),
      Member("category", JString(e.category)),
      Member("icon", JString(e.icon)),
      Member("downloads", JNumber(e.downloads)),
      Member("rating", JNumber(e.rating)),
      Member("manifestUrl", JString(e.manifestUrl))])
  }

  function EntriesJson(entries: seq<RegistryEntry>): (v: Json)
    ensures v.JArray? && |v.items| == |entries|
    ensures forall i :: 0 <= i < |entries| ==> v.items[i] == EntryJson(entries[i])
  {
    JArray(seq(|entries|, i requires 0 <= i < |entries| => EntryJson(entries[i])))
  }

  /** The registry file `{version, lastUpdated, extensions}`. */
  function RegistryJson(lastUpdated: Json, entries: seq<RegistryEntry>): Json {
    JObject([
      Member("version", JString(DefaultVersion)),
      Member("lastUpdated", lastUpdated),
      Member("extensions", EntriesJson(entries))])
  }

  /**
   * The `lastUpdated` written: the existing registry's (None when it is
   * missing or does not parse) when its `extensions` is an array that
   * serialises as the new entries do and its `lastUpdated` is truthy, and
   * the fresh timestamp otherwise.
   */
  function Timestamp(existing: Option<Json>, entries: seq<RegistryEntry>, now: string): Json {
    var extensions := Get(existing, "extensions");
    var previous := Get(existing, "lastUpdated");
    if IsArray(extensions) && Compact(extensions.value) == Compact(EntriesJson(entries)) && Truthy(previous)
    then previous.value
    else JString(now)
  }

  /**
   * Rebuilding unchanged entries keeps the registry as it was: when the
   * existing registry is what this build writes, with a truthy timestamp,
   * the new registry equals it.
   */
  lemma RebuildKeepsRegistry(lastUpdated: Json, entries: seq<RegistryEntry>, now: string)
    requires Truthy(Some(lastUpdated))
    ensures var existing := RegistryJson(lastUpdated, entries);
      RegistryJson(Timestamp(Some(existing), entries, now), entries) == existing
  {
    var existing := RegistryJson(lastUpdated, entries);
    var members := existing.members;
    assert members[2].key[0] != "lastUpdated"[0];
    assert members[..2][1] == Member("lastUpdated", lastUpdated);
    assert Lookup(members, "lastUpdated") == Lookup(members[..2], "lastUpdated");
    assert Get(Some(existing), "extensions") == Some(EntriesJson(entries));
    assert Get(Some(existing), "lastUpdated") == Some(lastUpdated);
  }

  /** A changed entry list gets the fresh timestamp. */
  lemma ChangedEntriesGetFreshTimestamp(existing: Option<Json>, entries: seq<RegistryEntry>, now: string)
    requires !IsArray(Get(existing, "extensions")) || Compact(Get(existing, "extensions").value) != Compact(EntriesJson(entries))
    ensures Timestamp(existing, entries, now) == JString(now)
  {
  }

  /** The index entry of a registry entry; its name falls back to the name and then the id. */
  function ToIndexEntry(e: RegistryEntry): IndexEntry {
    IndexEntry(
      e.id,
      if e.displayName != [] then e.displayName else if e.name != [] then e.name else e.id,
      e.description,
      e.version,
      e.publisher,
      NormalizeIndexCategory(Some(e.category)),
      e.icon,
      e.manifestUrl,
      e.downloads,
      e.rating)
  }

  function IndexEntries(entries: seq<RegistryEntry>): (r: seq<IndexEntry>)
    ensures |r| == |entries| && forall i :: 0 <= i < |entries| ==> r[i] == ToIndexEntry(entries[i])
  {
    seq(|entries|, i requires 0 <= i < |entries| => ToIndexEntry(entries[i]))
  }

  /**
   * The index entry of a built registry entry carries its id, display name,
   * description, version, publisher (as author), URLs and counters, and the
   * index category that matches its registry category.
   */
  lemma IndexMatchesRegistry(folder: string, m: Manifest, cdn: string)
    ensures var e := Entry(folder, m, cdn);
      var x := ToIndexEntry(e);
      && x.id == e.id && x.name == e.displayName && x.description == e.description
      && x.version == e.version && x.author == e.publisher
      && x.icon == e.icon && x.manifestUrl == e.manifestUrl
      && x.downloads == e.downloads && x.rating == e.rating
      && (e.category == IconThemeTag ==> x.category == IconThemes)
      && (e.category == ThemeTag ==> x.category == Themes)
      && (e.category == LanguageTag ==> x.category == Languages)
  {
    EntryFields(folder, m, cdn);
    IconThemeCategory();
    ThemeCategory();
    LanguageCategory();
  }

  function CategoryName(c: IndexCategory): string {
    match c
    case Languages => "Languages"
    case Themes => "Themes"
    case IconThemes => "Icon " + "Themes"
  }

  function IndexEntryJson(x: IndexEntry): Json {
    JObject([
      Member("id", JString(x.id)),
      Member("name", JString(x.name)),
      Member("description", JString(x.description)),
      Member("version", JString(x.version)),
      Member("author", JString(x.author)),
      Member("category", JString(CategoryName(x.category))),
      Member("icon", JString(x.icon)),
      Member("manifestUrl", JString(x.manifestUrl)),
      Member("downloads", JNumber(x.downloads)),
      Member("rating", JNumber(x.rating))])
  }

  function IndexJson(entries: seq<RegistryEntry>): Json {
    var index := IndexEntries(entries);
    JArray(seq(|index|, i requires 0 <= i < |index| => IndexEntryJson(index[i])))
  }

  /** `withTrailingNewline(json)`: two-space pretty printing and a final newline. */
  function WithTrailingNewline(v: Json): (r: string)
    ensures r != [] && r[|r| - 1] == '\n'
    ensures r[..|r| - 1] == Pretty(v)
  {
    Pretty(v) + "\n"
  }

  /** What `buildCatalog` returns, with the warnings it prints. */
  datatype Outputs = Outputs(registry: string, index: string, count: nat, warnings: seq<string>)

  /** `buildCatalog()` given the folders in sorted order, the parsed existing registry and the current time. */
  function Catalog(folders: seq<Folder>, cdn: string, existing: Option<Json>, now: string): Result<Outputs, CatalogError> {
    match Build(folders, MakeEntry(cdn), Start)
    case Err(e) => Err(e)
    case Ok(b) =>
      Ok(Outputs(
        WithTrailingNewline(RegistryJson(Timestamp(existing, b.entries, now), b.entries)),
        WithTrailingNewline(IndexJson(b.entries)),
        |b.entries|,
        b.warnings))
  }

  /** `buildCatalog()` as the script runs it: a loop over the folders with the language-owner map. */
  method BuildCatalog(folders: seq<Folder>, cdn: string, existing: Option<Json>, now: string)
    returns (r: Result<Outputs, CatalogError>)
    ensures r == Catalog(folders, cdn, existing, now)
  {
    var entries: seq<RegistryEntry> := [];
    var owners: map<string, string> := map[];
    var warnings: seq<string> := [];
    for i := 0 to |folders|
      invariant Build(folders, MakeEntry(cdn), Start) == Build(folders[i..], MakeEntry(cdn), Built(entries, owners, warnings))
    {
      ghost var acc := Built(entries, owners, warnings);
      var folder := folders[i];
      assert folders[i..][0] == folder && folders[i..][1..] == folders[i + 1..];
      if folder.manifest.None? {
        return Err(InvalidManifest(folder.name));
      }
      var manifest := folder.manifest.value;
      if manifest.id.None? || manifest.id.value == [] {
        return Err(MissingId(folder.name));
      }
      var id := manifest.id.value;
      var languages := manifest.languages.GetOr([]);
      if |languages| == 0 {
        return Err(NoLanguages(folder.name));
      }
      if !folder.hasHighlights {
        warnings := warnings + [id];
      }
      for j := 0 to |languages|
        invariant Claim(languages, id, acc.owners) == Claim(languages[j..], id, owners)
      {
        var language := languages[j];
        assert languages[j..][0] == language && languages[j..][1..] == languages[j + 1..];
        if language.id in owners {
          return Err(DuplicateLanguage(language.id, id, owners[language.id]));
        }
        owners := owners[language.id := id];
      }
      assert languages[|languages|..] == [];
      entries := entries + [Entry(folder.name, manifest, cdn)];
    }
    assert folders[|folders|..] == [];
    var lastUpdated := JString(now);
    var previous := Get(existing, "lastUpdated");
    var extensions := Get(existing, "extensions");
    if IsArray(extensions) && Compact(extensions.value) == Compact(EntriesJson(entries)) && Truthy(previous) {
      lastUpdated := previous.value;
    }
    r := Ok(Outputs(
      WithTrailingNewline(RegistryJson(lastUpdated, entries)),
      WithTrailingNewline(IndexJson(entries)),
      |entries|,
      warnings));
  }

  // ---------------------------------------------------------------------
  // Check mode

  /** `--check`: both files, a missing one read as "", must equal the outputs exactly. */
  predicate CheckPasses(currentRegistry: Option<string>, currentIndex: Option<string>, out: Outputs) {
    currentRegistry.GetOr([]) == out.registry && currentIndex.GetOr([]) == out.index
  }

  /**
   * Check mode passes exactly when both files exist and hold the outputs
   * byte for byte: a missing file never passes, since the outputs end in a
   * newline, and no line-ending normalisation applies.
   */
  lemma CheckPassesIff(currentRegistry: Option<string>, currentIndex: Option<string>, out: Outputs)
    requires out.registry != [] && out.index != []
    ensures CheckPasses(currentRegistry, currentIndex, out)
        <==> currentRegistry == Some(out.registry) && currentIndex == Some(out.index)
  {
  }

  /** Every output of a successful build ends with a newline, so the requirement of `CheckPassesIff` holds. */
  lemma CatalogOutputsEndInNewline(folders: seq<Folder>, cdn: string, existing: Option<Json>, now: string)
    requires Catalog(folders, cdn, existing, now).Ok?
    ensures var out := Catalog(folders, cdn, existing, now).value;
      && out.registry != [] && out.registry[|out.registry| - 1] == '\n'
      && out.index != [] && out.index[|out.index| - 1] == '\n'
  {
  }

  /**
   * Writing the outputs makes a following check pass at any later time: the
   * registry written, read back as the existing one, keeps its timestamp,
   * so the rebuild produces the same outputs.
   */
  lemma CheckAfterWritePasses(folders: seq<Folder>, cdn: string, existing: Option<Json>, now: string, later: string)
    requires Catalog(folders, cdn, existing, now).Ok? && now != []
    ensures Build(folders, MakeEntry(cdn), Start).Ok?
    ensures var out := Catalog(folders, cdn, existing, now).value;
      var b := Build(folders, MakeEntry(cdn), Start).value;
      var written := RegistryJson(Timestamp(existing, b.entries, now), b.entries);
      && out.registry == WithTrailingNewline(written)
      && Catalog(folders, cdn, Some(written), later) == Ok(out)
      && CheckPasses(Some(out.registry), Some(out.index), Catalog(folders, cdn, Some(written), later).value)
  {
    var b := Build(folders, MakeEntry(cdn), Start).value;
    RebuildKeepsRegistry(Timestamp(existing, b.entries, now), b.entries, later);
  }
}
