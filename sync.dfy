/**
 * The upstream query synchronisation of scripts/sync-upstream-queries.ts:
 * each configured entry names a file at a pinned revision of an upstream
 * repository; its text is fetched, rewritten by ordered literal replacements,
 * combined with an optional local override and a provenance header, and the
 * result is compared with (check mode) or written over (write mode) the
 * generated file in the repository.
 */
module QuerySync {
  import opened Wrappers
  import opened Text

  /** One literal substitution `{find, replace}`. */
  datatype Replacement = Replacement(find: string, replace: string)

  /** One entry of query-sources.json; absent optional fields are None. */
  datatype QuerySourceEntry = QuerySourceEntry(
    repository: string,
    revision: string,
    queryPath: string,
    targetPath: string,
    overridePath: Option<string>,
    replacements: Option<seq<Replacement>>)

  /** What the script throws. */
  datatype SyncError =
    | FetchFailed(url: string)
    | MissingAnchor(find: string)
    | OutOfDate(name: string, targetPath: string)

  datatype Mode = Check | Write

  /** The per-entry report `{name, changed}`. */
  datatype SyncResult = SyncResult(name: string, changed: bool)

  const LF: string := "\n"
  const CRLF: string := "\r\n"
  const RawContentBase: string := "https://raw.githubusercontent.com/"
  const OverrideMarker: string := "\n\n; --- Athas overrides ---\n"

  // ---------------------------------------------------------------------
  // Line endings

  /** Text without a carriage return. */
  predicate NoCr(s: string) {
    forall i :: 0 <= i < |s| ==> s[i] != '\r'
  }

  /** `input.replace(/\r\n/g, "\n")`: a left-to-right scan turning each CR LF pair into LF. */
  function NormalizeNewlines(s: string): (r: string)
    ensures |r| <= |s|
    ensures NoCr(s) ==> r == s
    decreases |s|
  {
    if |s| >= 2 && s[0] == '\r' && s[1] == '\n' then LF + NormalizeNewlines(s[2..])
    else if s == [] then []
    else [s[0]] + NormalizeNewlines(s[1..])
  }

  /** The regular-expression scan and `split("\r\n").join("\n")` agree. */
  lemma {:induction false} NormalizeNewlinesIsReplaceAll(s: string)
    ensures NormalizeNewlines(s) == ReplaceAll(s, CRLF, LF)
    decreases |s|
  {
    if CRLF <= s {
      NormalizeNewlinesIsReplaceAll(s[2..]);
      var rest := Split(s[2..], CRLF);
      assert Split(s, CRLF) == [[]] + rest;
      assert ([[]] + rest)[1..] == rest;
      JoinTwoOrMore([[]] + rest, LF);
    } else if s != [] {
      NormalizeNewlinesIsReplaceAll(s[1..]);
      var rest := Split(s[1..], CRLF);
      assert Split(s, CRLF) == [[s[0]] + rest[0]] + rest[1..];
      JoinConsHead(s[0], rest, LF);
    }
  }

  /** Normalising shortens every string that holds a CR LF pair. */
  lemma {:induction false} NormalizeNewlinesShrinks(s: string)
    requires Contains(s, CRLF)
    ensures |NormalizeNewlines(s)| < |s|
    decreases |s|
  {
    if !(CRLF <= s) {
      NormalizeNewlinesShrinks(s[1..]);
    }
  }

  /** Normalising leaves a string unchanged exactly when it holds no CR LF pair. */
  lemma {:induction false} NormalizeNewlinesFixedIff(s: string)
    ensures NormalizeNewlines(s) == s <==> !Contains(s, CRLF)
    decreases |s|
  {
    if Contains(s, CRLF) {
      NormalizeNewlinesShrinks(s);
    } else if s != [] {
      NormalizeNewlinesFixedIff(s[1..]);
      assert [s[0]] + s[1..] == s;
    }
  }

  /** Normalising is not idempotent: a CR before a CR LF pair survives one pass. */
  lemma NormalizeNewlinesNotIdempotent()
    ensures NormalizeNewlines("\r\r\n") == "\r\n"
    ensures NormalizeNewlines(NormalizeNewlines("\r\r\n")) == "\n"
  {
    assert "\r\r\n"[1..] == "\r\n";
    assert "\r\n"[2..] == [];
  }

  /** Normalising removes only CRs, so it keeps a string blank or non-blank. */
  lemma {:induction false} NormalizeNewlinesBlankIff(s: string)
    ensures IsBlank(NormalizeNewlines(s)) <==> IsBlank(s)
    decreases |s|
  {
    if |s| >= 2 && s[0] == '\r' && s[1] == '\n' {
      NormalizeNewlinesBlankIff(s[2..]);
      assert s == [s[0]] + ([s[1]] + s[2..]);
      BlankCons(s[1], s[2..]);
      BlankCons(s[0], [s[1]] + s[2..]);
      BlankCons('\n', NormalizeNewlines(s[2..]));
    } else if s != [] {
      NormalizeNewlinesBlankIff(s[1..]);
      assert s == [s[0]] + s[1..];
      BlankCons(s[0], s[1..]);
      BlankCons(s[0], NormalizeNewlines(s[1..]));
    }
  }

  /** The same text saved with CR LF line endings: every LF becomes CR LF. */
  function ToCrlf(s: string): (r: string)
    ensures |r| >= |s|
    decreases |s|
  {
    if s == [] then []
    else if s[0] == '\n' then CRLF + ToCrlf(s[1..])
    else [s[0]] + ToCrlf(s[1..])
  }

  /** Normalising undoes a switch to CR LF line endings of text that had no CR. */
  lemma {:induction false} NormalizeNewlinesUndoesCrlf(s: string)
    requires NoCr(s)
    ensures NormalizeNewlines(ToCrlf(s)) == s
    decreases |s|
  {
    if s != [] {
      NormalizeNewlinesUndoesCrlf(s[1..]);
      var t := ToCrlf(s[1..]);
      if s[0] == '\n' {
        assert (CRLF + t)[2..] == t;
      } else {
        assert ([s[0]] + t)[1..] == t;
      }
      assert s == [s[0]] + s[1..];
    }
  }

  // ---------------------------------------------------------------------
  // Trailing newline

  /** `input.endsWith("\n") ? input : input + "\n"` */
  function EnsureTrailingNewline(s: string): (r: string)
    ensures EndsWith(r, LF)
    ensures s <= r && |r| <= |s| + 1
  {
    if EndsWith(s, LF) then s else s + LF
  }

  /** Ensuring a trailing newline changes only what `trimEnd` strips anyway. */
  lemma EnsureTrailingNewlineProperties(s: string)
    ensures EndsWith(s, LF) ==> EnsureTrailingNewline(s) == s
    ensures EnsureTrailingNewline(EnsureTrailingNewline(s)) == EnsureTrailingNewline(s)
    ensures TrimEnd(EnsureTrailingNewline(s)) == TrimEnd(s)
  {
    if !EndsWith(s, LF) {
      TrimEndAppendWhitespace(s, LF);
    }
  }

  // ---------------------------------------------------------------------
  // Ordered literal replacements

  /** `replacements ?? []` */
  function ReplacementList(replacements: Option<seq<Replacement>>): seq<Replacement> {
    replacements.GetOr([])
  }

  /**
   * The replacements applied in list order, each to the previous one's output;
   * the first whose `find` is absent from the current text aborts the whole
   * rewrite with an error naming that `find`.
   */
  function Replaced(s: string, rs: seq<Replacement>): Result<string, SyncError>
    decreases |rs|
  {
    if rs == [] then Ok(s)
    else if !Contains(s, rs[0].find) then Err(MissingAnchor(rs[0].find))
    else Replaced(ReplaceAll(s, rs[0].find, rs[0].replace), rs[1..])
  }

  /** `applyReplacements(content, replacements)` */
  method ApplyReplacements(content: string, replacements: Option<seq<Replacement>>)
    returns (r: Result<string, SyncError>)
    ensures r == Replaced(content, ReplacementList(replacements))
    ensures r.Err? ==> r.error.MissingAnchor?
  {
    if replacements.None? || |replacements.value| == 0 {
      return Ok(content);
    }
    var rs := replacements.value;
    var next := content;
    for i := 0 to |rs|
      invariant Replaced(content, rs) == Replaced(next, rs[i..])
    {
      var replacement := rs[i];
      assert rs[i..][1..] == rs[i + 1..];
      if !Contains(next, replacement.find) {
        return Err(MissingAnchor(replacement.find));
      }
      next := ReplaceAll(next, replacement.find, replacement.replace);
    }
    return Ok(next);
  }

  /** Applying `rs1 + rs2` is applying `rs1`, then `rs2` to its output; an error in `rs1` wins. */
  lemma {:induction false} ReplacedSequential(s: string, rs1: seq<Replacement>, rs2: seq<Replacement>)
    ensures Replaced(s, rs1 + rs2) ==
      match Replaced(s, rs1)
      case Ok(t) => Replaced(t, rs2)
      case Err(e) => Err(e)
    decreases |rs1|
  {
    if rs1 != [] {
      assert (rs1 + rs2)[0] == rs1[0];
      assert (rs1 + rs2)[1..] == rs1[1..] + rs2;
      if Contains(s, rs1[0].find) {
        ReplacedSequential(ReplaceAll(s, rs1[0].find, rs1[0].replace), rs1[1..], rs2);
      }
    } else {
      assert rs1 + rs2 == rs2;
    }
  }

  /**
   * If the first `i` replacements succeed and replacement `i` finds no anchor,
   * the whole rewrite fails naming that anchor, whatever follows it.
   */
  lemma FirstMissingAnchorFails(s: string, rs: seq<Replacement>, i: nat, t: string)
    requires i < |rs|
    requires Replaced(s, rs[..i]) == Ok(t) && !Contains(t, rs[i].find)
    ensures Replaced(s, rs) == Err(MissingAnchor(rs[i].find))
  {
    assert rs == rs[..i] + rs[i..];
    ReplacedSequential(s, rs[..i], rs[i..]);
  }

  /**
   * Replacements run on the text as fetched, before its line endings are
   * normalised: an anchor written with `\n` matches an upstream file with
   * `\n` endings but not the same file served with `\r\n` endings, which
   * then fails the sync although the generated output would be the same.
   */
  lemma ReplacementsSeeRawLineEndings()
    ensures Replaced("a\nb", [Replacement("a\nb", "x")]) == Ok("x")
    ensures Replaced(ToCrlf("a\nb"), [Replacement("a\nb", "x")]) == Err(MissingAnchor("a\nb"))
  {
    assert Split("a\nb", "a\nb") == [[], []] by {
      assert "a\nb"[3..] == [];
    }
    assert Join([[], []], "x") == "x";
    assert ToCrlf("a\nb") == "a\r\nb" by {
      assert ToCrlf("b") == "b";
    }
    assert !Contains("a\r\nb", "a\nb") by {
      assert !Contains("\nb", "a\nb");
    }
  }

  /** A replacement whose `replace` equals its `find` keeps the text when the anchor is present. */
  lemma ReplacedIdentityStep(s: string, f: string)
    ensures Replaced(s, [Replacement(f, f)]) == if Contains(s, f) then Ok(s) else Err(MissingAnchor(f))
  {
    ReplaceAllSelf(s, f);
  }

  /** Later replacements see earlier output: `[A->B, B->C]` turns `"A"` into `"C"`. */
  lemma ReplacedChains()
    ensures Replaced("A", [Replacement("A", "B"), Replacement("B", "C")]) == Ok("C")
  {
    var rs := [Replacement("A", "B"), Replacement("B", "C")];
    assert "A"[1..] == [];
    assert Split("A", "A") == ["", ""];
    assert ReplaceAll("A", "A", "B") == "B";
    assert Split("B", "B") == ["", ""];
    assert ReplaceAll("B", "B", "C") == "C";
    assert rs[1..] == [Replacement("B", "C")];
  }

  /** A missing anchor is reported: `"X"` with `{Y -> Z}` fails naming `"Y"`. */
  lemma ReplacedMissingAnchor()
    ensures Replaced("X", [Replacement("Y", "Z")]) == Err(MissingAnchor("Y"))
  {
    assert "X"[0] != "Y"[0] && "X"[1..] == [];
    assert !Contains("X"[1..], "Y");
    assert !Contains("X", "Y");
  }

  // ---------------------------------------------------------------------
  // Artifact composition

  /** `buildRawUrl(entry)` */
  function RawUrl(e: QuerySourceEntry): string {
    RawContentBase + e.repository + "/" + e.revision + "/" + e.queryPath
  }

  lemma SlashSplitUnique(a: string, b: string, c: string, d: string)
    requires '/' !in a && '/' !in c
    requires a + "/" + b == c + "/" + d
    ensures a == c && b == d
  {
    var x := a + "/" + b;
    SlashAfter(a, b);
    SlashAfter(c, d);
    assert |a| == |c|;
    assert a == x[..|a|] == c;
    assert b == x[|a| + 1..] == d;
  }

  lemma SlashAfter(a: string, b: string)
    ensures (a + "/" + b)[|a|] == '/'
    ensures forall i :: 0 <= i < |a| ==> (a + "/" + b)[i] == a[i]
  {
  }

  /**
   * The raw URL pins the revision: two entries of one repository whose
   * revisions hold no `/` fetch the same URL only for the same revision and path.
   */
  lemma RawUrlPinsRevision(e1: QuerySourceEntry, e2: QuerySourceEntry)
    requires e1.repository == e2.repository
    requires '/' !in e1.revision && '/' !in e2.revision
    requires RawUrl(e1) == RawUrl(e2)
    ensures e1.revision == e2.revision && e1.queryPath == e2.queryPath
  {
    var p := RawContentBase + e1.repository + "/";
    assert RawUrl(e1) == p + (e1.revision + "/" + e1.queryPath);
    assert RawUrl(e2) == p + (e2.revision + "/" + e2.queryPath);
    assert RawUrl(e1)[|p|..] == e1.revision + "/" + e1.queryPath;
    assert RawUrl(e2)[|p|..] == e2.revision + "/" + e2.queryPath;
    SlashSplitUnique(e1.revision, e1.queryPath, e2.revision, e2.queryPath);
  }

  // The fixed header lines, written in short pieces so that the verifier expands each literal.
  const HeaderTitle: string := "; AUTO-GENERATED " + "FILE - DO NOT " + "EDIT DIRECTLY."
  const HeaderReminder: string := "; Local customizations " + "belong in " + "highlights.override.scm."
  const BlobSegment: string := "/blob/"
  const Slash: string := "/"
  const CloseParen: string := ")"
  const SourcePrefix: string := "; Source: " + "https://" + "github.com/"
  const GeneratorPrefix: string := "; Generator: " + "scripts/" + "sync-upstream-" + "queries.ts ("

  /** The lines of the provenance header, the last one empty. */
  function HeaderLines(name: string, e: QuerySourceEntry): seq<string> {
    [ HeaderTitle,
      SourcePrefix + e.repository + BlobSegment + e.revision + Slash + e.queryPath,
      GeneratorPrefix + name + CloseParen,
      HeaderReminder,
      "" ]
  }

  /** `buildGeneratedHeader(name, entry)`: the header lines joined with LF. */
  function GeneratedHeader(name: string, e: QuerySourceEntry): string {
    Join(HeaderLines(name, e), LF)
  }

  lemma {:induction false} SplitAfterFreePrefix(p: string, c: char, x: string)
    requires c !in p
    ensures Split(p + [c] + x, [c]) == [p] + Split(x, [c])
    decreases |p|
  {
    var s := p + [c] + x;
    if p == [] {
      assert [c] <= s;
      assert s[1..] == x;
    } else {
      SplitAfterFreePrefix(p[1..], c, x);
      assert s[0] == p[0] != c;
      assert !([c] <= s);
      assert s[1..] == p[1..] + [c] + x;
      assert [s[0]] + p[1..] == p;
    }
  }

  lemma {:induction false} ContainsCharIff(s: string, c: char)
    ensures Contains(s, [c]) <==> c in s
    decreases |s|
  {
    if s != [] {
      ContainsCharIff(s[1..], c);
      assert s == [s[0]] + s[1..];
    }
  }

  /** Splitting on a one-character separator undoes a join of pieces that do not hold it. */
  lemma {:induction false} SplitJoinChar(parts: seq<string>, c: char)
    requires |parts| >= 1
    requires forall k :: 0 <= k < |parts| ==> c !in parts[k]
    ensures Split(Join(parts, [c]), [c]) == parts
    decreases |parts|
  {
    if |parts| == 1 {
      ContainsCharIff(parts[0], c);
      SplitAbsent(parts[0], [c]);
    } else {
      SplitJoinChar(parts[1..], c);
      SplitAfterFreePrefix(parts[0], c, Join(parts[1..], [c]));
      assert parts == [parts[0]] + parts[1..];
    }
  }

  /**
   * The header ends with a newline and, when the entry's fields and name hold
   * no newline, consists of exactly the title, source, generator and reminder
   * lines, each ended by a newline.
   */
  lemma GeneratedHeaderShape(name: string, e: QuerySourceEntry)
    ensures EndsWith(GeneratedHeader(name, e), LF)
    ensures HeaderTitle + LF <= GeneratedHeader(name, e)
    ensures '\n' !in name && '\n' !in e.repository && '\n' !in e.revision && '\n' !in e.queryPath ==>
      Split(GeneratedHeader(name, e), LF) == HeaderLines(name, e)
  {
    var lines := HeaderLines(name, e);
    HeaderJoined(lines);
    if '\n' !in name && '\n' !in e.repository && '\n' !in e.revision && '\n' !in e.queryPath {
      HeaderLinesHaveNoNewline(name, e);
      SplitJoinChar(lines, '\n');
    }
  }

  lemma HeaderJoined(lines: seq<string>)
    requires |lines| == 5 && lines[4] == []
    ensures Join(lines, LF) == lines[0] + LF + (lines[1] + LF + (lines[2] + LF + (lines[3] + LF)))
  {
    var tail3 := [lines[3], ""];
    var tail2 := [lines[2]] + tail3;
    var tail1 := [lines[1]] + tail2;
    assert lines == [lines[0]] + tail1;
    JoinTwoOrMore(lines, LF);
    JoinTwoOrMore(tail1, LF);
    JoinTwoOrMore(tail2, LF);
    JoinTwoOrMore(tail3, LF);
  }

  lemma HeaderLinesHaveNoNewline(name: string, e: QuerySourceEntry)
    requires '\n' !in name && '\n' !in e.repository && '\n' !in e.revision && '\n' !in e.queryPath
    ensures forall k :: 0 <= k < |HeaderLines(name, e)| ==> '\n' !in HeaderLines(name, e)[k]
  {
    TitleHasNoNewline();
    ReminderHasNoNewline();
    SourceLineHasNoNewline(e);
    GeneratorLineHasNoNewline(name);
  }

  // Long literals are split below so that the verifier expands each piece.

  lemma TitleHasNoNewline()
    ensures '\n' !in HeaderTitle
  {
  }

  lemma ReminderHasNoNewline()
    ensures '\n' !in HeaderReminder
  {
  }

  lemma SourceLineHasNoNewline(e: QuerySourceEntry)
    requires '\n' !in e.repository && '\n' !in e.revision && '\n' !in e.queryPath
    ensures '\n' !in SourcePrefix + e.repository + BlobSegment + e.revision + Slash + e.queryPath
  {
  }

  lemma GeneratorLineHasNoNewline(name: string)
    requires '\n' !in name
    ensures '\n' !in GeneratorPrefix + name + CloseParen
  {
  }

  /** `buildGeneratedQuery`'s test for an override: absent, empty or blank means none. */
  predicate OverrideOmitted(overrideContent: Option<string>) {
    overrideContent.None? || overrideContent.value == [] || Trim(overrideContent.value) == []
  }

  /** The upstream text as it appears in the artifact. */
  function Body(upstream: string): string {
    TrimEnd(EnsureTrailingNewline(NormalizeNewlines(upstream)))
  }

  /** `buildGeneratedQuery(name, entry, upstreamContent, overrideContent)` */
  function GeneratedQuery(name: string, e: QuerySourceEntry, upstream: string, overrideContent: Option<string>): string {
    var header := GeneratedHeader(name, e);
    if OverrideOmitted(overrideContent) then header + Body(upstream) + LF
    else header + Body(upstream) + OverrideMarker + Body(overrideContent.value) + LF
  }

  /** The body is the normalised upstream text without its trailing whitespace. */
  lemma BodyIsTrimmedNormalized(upstream: string)
    ensures Body(upstream) == TrimEnd(NormalizeNewlines(upstream))
  {
    EnsureTrailingNewlineProperties(NormalizeNewlines(upstream));
  }

  /** The override section's text: none for an absent or blank override. */
  function OverrideSection(overrideContent: Option<string>): Option<string> {
    if overrideContent.None? || IsBlank(overrideContent.value) then None
    else Some(TrimEnd(NormalizeNewlines(overrideContent.value)))
  }

  /** The artifact assembled from its header, body and optional override section. */
  function Compose(header: string, body: string, section: Option<string>): string {
    match section
    case None => header + body + LF
    case Some(o) => header + body + OverrideMarker + o + LF
  }

  /**
   * The artifact is the header, the trimmed normalised upstream text and a
   * newline; an override that is absent or blank adds nothing, any other adds
   * the marker, the trimmed normalised override and a newline.
   */
  lemma GeneratedQueryLayout(name: string, e: QuerySourceEntry, upstream: string, overrideContent: Option<string>)
    ensures GeneratedQuery(name, e, upstream, overrideContent)
         == Compose(GeneratedHeader(name, e), TrimEnd(NormalizeNewlines(upstream)), OverrideSection(overrideContent))
  {
    BodyIsTrimmedNormalized(upstream);
    if overrideContent.Some? {
      BodyIsTrimmedNormalized(overrideContent.value);
      TrimEmptyIffBlank(overrideContent.value);
    }
  }

  /** An absent override and a blank override file give the same bytes. */
  lemma BlankOverrideIsAbsent(name: string, e: QuerySourceEntry, upstream: string, overrideContent: string)
    requires IsBlank(overrideContent)
    ensures GeneratedQuery(name, e, upstream, Some(overrideContent)) == GeneratedQuery(name, e, upstream, None)
  {
    TrimEmptyIffBlank(overrideContent);
  }

  lemma ComposeEnding(header: string, body: string, section: Option<string>)
    ensures EndsWith(Compose(header, body, section), LF)
    ensures section.Some? && section.value != [] ==>
      var r := Compose(header, body, section); |r| >= 2 && r[|r| - 2] == section.value[|section.value| - 1]
    ensures section.None? && body != [] ==>
      var r := Compose(header, body, section); |r| >= 2 && r[|r| - 2] == body[|body| - 1]
  {
  }

  /** A non-blank text keeps a non-empty, non-whitespace-ended body after normalising and trimming. */
  lemma TrimmedNormalizedEnding(s: string)
    requires !IsBlank(s)
    ensures var t := TrimEnd(NormalizeNewlines(s)); t != [] && !IsWhitespace(t[|t| - 1])
  {
    var n := NormalizeNewlines(s);
    NormalizeNewlinesBlankIff(s);
    TrimEndEnding(n);
  }

  lemma TrimEndEnding(n: string)
    requires !IsBlank(n)
    ensures var t := TrimEnd(n); t != [] && !IsWhitespace(t[|t| - 1])
  {
    TrimEndNonEmpty(n);
  }

  /** The artifact always ends in a newline. */
  lemma GeneratedQueryEndsWithNewline(name: string, e: QuerySourceEntry, upstream: string, overrideContent: Option<string>)
    ensures EndsWith(GeneratedQuery(name, e, upstream, overrideContent), LF)
  {
    GeneratedQueryLayout(name, e, upstream, overrideContent);
    ComposeEnding(GeneratedHeader(name, e), TrimEnd(NormalizeNewlines(upstream)), OverrideSection(overrideContent));
  }

  /** The text ends in one newline: the character before the final newline is not whitespace. */
  predicate EndsInSingleNewline(r: string) {
    |r| >= 2 && r[|r| - 1] == '\n' && !IsWhitespace(r[|r| - 2])
  }

  /**
   * The artifact ends in exactly one newline when the upstream text or the
   * override is not blank.
   */
  lemma GeneratedQuerySingleNewline(name: string, e: QuerySourceEntry, upstream: string, overrideContent: Option<string>)
    requires !IsBlank(upstream) || (overrideContent.Some? && !IsBlank(overrideContent.value))
    ensures EndsInSingleNewline(GeneratedQuery(name, e, upstream, overrideContent))
  {
    var body := TrimEnd(NormalizeNewlines(upstream));
    var section := OverrideSection(overrideContent);
    GeneratedQueryLayout(name, e, upstream, overrideContent);
    if overrideContent.Some? && !IsBlank(overrideContent.value) {
      TrimmedNormalizedEnding(overrideContent.value);
    } else {
      TrimmedNormalizedEnding(upstream);
    }
    ComposeSingleNewline(GeneratedHeader(name, e), body, section);
  }

  lemma ComposeSingleNewline(header: string, body: string, section: Option<string>)
    requires section.Some? ==> section.value != [] && !IsWhitespace(section.value[|section.value| - 1])
    requires section.None? ==> body != [] && !IsWhitespace(body[|body| - 1])
    ensures EndsInSingleNewline(Compose(header, body, section))
  {
    var r := Compose(header, body, section);
    match section
    case None => assert r[|r| - 2] == body[|body| - 1];
    case Some(o) => assert r[|r| - 2] == o[|o| - 1];
  }

  /** With a blank upstream text and no override the artifact ends in a blank line. */
  lemma BlankUpstreamEndsWithBlankLine(name: string, e: QuerySourceEntry, upstream: string)
    requires IsBlank(upstream)
    ensures GeneratedQuery(name, e, upstream, None) == GeneratedHeader(name, e) + LF
  {
    GeneratedQueryLayout(name, e, upstream, None);
    NormalizeNewlinesBlankIff(upstream);
    assert TrimEnd(NormalizeNewlines(upstream)) == [];
  }

  lemma OverrideSectionIgnoresCrlf(ov: string)
    requires NoCr(ov)
    ensures OverrideSection(Some(ToCrlf(ov))) == OverrideSection(Some(ov))
  {
    NormalizeNewlinesUndoesCrlf(ov);
    NormalizeNewlinesBlankIff(ToCrlf(ov));
  }

  /** Saving the upstream text or the override with CR LF line endings does not change the artifact. */
  lemma GeneratedQueryIgnoresCrlf(name: string, e: QuerySourceEntry, upstream: string, overrideContent: Option<string>)
    requires NoCr(upstream)
    requires overrideContent.Some? ==> NoCr(overrideContent.value)
    ensures var crlfOverride := if overrideContent.None? then None else Some(ToCrlf(overrideContent.value));
      GeneratedQuery(name, e, ToCrlf(upstream), crlfOverride) == GeneratedQuery(name, e, upstream, overrideContent)
  {
    BodyIgnoresCrlf(upstream);
    match overrideContent
    case None =>
      SameParts(name, e, ToCrlf(upstream), None, upstream, None);
    case Some(ov) =>
      OverrideSectionIgnoresCrlf(ov);
      SameParts(name, e, ToCrlf(upstream), Some(ToCrlf(ov)), upstream, Some(ov));
  }

  lemma BodyIgnoresCrlf(upstream: string)
    requires NoCr(upstream)
    ensures TrimEnd(NormalizeNewlines(ToCrlf(upstream))) == TrimEnd(NormalizeNewlines(upstream))
  {
    NormalizeNewlinesUndoesCrlf(upstream);
  }

  /** Two artifacts with the same trimmed normalised body and the same override section are equal. */
  lemma SameParts(name: string, e: QuerySourceEntry, u1: string, o1: Option<string>, u2: string, o2: Option<string>)
    requires TrimEnd(NormalizeNewlines(u1)) == TrimEnd(NormalizeNewlines(u2))
    requires OverrideSection(o1) == OverrideSection(o2)
    ensures GeneratedQuery(name, e, u1, o1) == GeneratedQuery(name, e, u2, o2)
  {
    GeneratedQueryLayout(name, e, u1, o1);
    GeneratedQueryLayout(name, e, u2, o2);
  }

  // ---------------------------------------------------------------------
  // Per-entry synchronisation

  /** The override file the entry names, if it names one (`entry.overridePath ? ... : null`). */
  function OverrideFile(e: QuerySourceEntry): Option<string> {
    if e.overridePath.Some? && e.overridePath.value != [] then e.overridePath else None
  }

  /** The override text: read only when the entry names an override file and it exists. */
  function OverrideContent(files: map<string, string>, e: QuerySourceEntry): Option<string> {
    match OverrideFile(e)
    case Some(p) => if p in files then Some(files[p]) else None
    case None => None
  }

  /** The target's current text; a missing target reads as "". */
  function Existing(files: map<string, string>, path: string): string {
    if path in files then files[path] else []
  }

  /** What one entry would produce: the artifact and whether it differs from the target. */
  datatype Plan = Plan(generated: string, changed: bool)

  /**
   * Fetch (the network maps URLs to bodies; an absent URL is a failed fetch),
   * rewrite, compose, and compare line-ending-normalised texts.
   */
  function EntryPlan(files: map<string, string>, network: map<string, string>, name: string, e: QuerySourceEntry)
    : Result<Plan, SyncError>
  {
    var url := RawUrl(e);
    if url !in network then Err(FetchFailed(url))
    else
      match Replaced(network[url], ReplacementList(e.replacements))
      case Err(err) => Err(err)
      case Ok(patched) =>
        var generated := GeneratedQuery(name, e, patched, OverrideContent(files, e));
        Ok(Plan(generated, NormalizeNewlines(Existing(files, e.targetPath)) != NormalizeNewlines(generated)))
  }

  /** The report of one entry and the files afterwards, as `syncEntry` leaves them. */
  function EntryStep(files: map<string, string>, network: map<string, string>, mode: Mode, name: string, e: QuerySourceEntry)
    : (Result<SyncResult, SyncError>, map<string, string>)
  {
    match EntryPlan(files, network, name, e)
    case Err(err) => (Err(err), files)
    case Ok(plan) =>
      if mode == Check then
        if plan.changed then (Err(OutOfDate(name, e.targetPath)), files)
        else (Ok(SyncResult(name, false)), files)
      else
        (Ok(SyncResult(name, plan.changed)),
         if plan.changed then files[e.targetPath := plan.generated] else files)
  }

  /** The entry's artifact matches its target in `files`. */
  predicate UpToDate(files: map<string, string>, network: map<string, string>, name: string, e: QuerySourceEntry) {
    EntryPlan(files, network, name, e).Ok? && !EntryPlan(files, network, name, e).value.changed
  }

  /**
   * Check and write mode agree on what is up to date: check mode passes
   * exactly when write mode would leave every file as it is, and then write
   * mode reports the entry unchanged. Check mode never writes.
   */
  lemma CheckWriteAgree(files: map<string, string>, network: map<string, string>, name: string, e: QuerySourceEntry)
    requires EntryPlan(files, network, name, e).Ok?
    ensures EntryStep(files, network, Check, name, e).1 == files
    ensures EntryStep(files, network, Check, name, e).0.Ok?
        <==> EntryStep(files, network, Write, name, e).1 == files
    ensures EntryStep(files, network, Check, name, e).0.Ok?
        <==> EntryStep(files, network, Write, name, e).0 == Ok(SyncResult(name, false))
  {
    var plan := EntryPlan(files, network, name, e).value;
    var target := e.targetPath;
    if plan.changed {
      var written := files[target := plan.generated];
      assert Existing(files, target) != plan.generated;
      if target in files {
        assert written[target] != files[target];
      } else {
        assert target in written;
      }
    }
  }

  /** Write mode rewrites only the entry's own target, and only with the artifact. */
  lemma EntryStepFrame(files: map<string, string>, network: map<string, string>, mode: Mode, name: string, e: QuerySourceEntry)
    ensures var after := EntryStep(files, network, mode, name, e).1;
      && after.Keys <= files.Keys + {e.targetPath}
      && (forall p :: p in after && p != e.targetPath ==> p in files && after[p] == files[p])
      && (forall p :: p in files ==> p in after)
  {
  }

  /**
   * What an entry plans depends on the files only through its override and its target.
   */
  lemma EntryPlanReadsOnly(f1: map<string, string>, f2: map<string, string>, network: map<string, string>, name: string, e: QuerySourceEntry)
    requires OverrideContent(f1, e) == OverrideContent(f2, e)
    requires Existing(f1, e.targetPath) == Existing(f2, e.targetPath)
    ensures EntryPlan(f1, network, name, e) == EntryPlan(f2, network, name, e)
  {
  }

  /**
   * Write mode is idempotent for an entry whose override is not its own
   * target: after one successful run, a second one finds the entry up to date.
   */
  lemma EntryIdempotent(files: map<string, string>, network: map<string, string>, name: string, e: QuerySourceEntry)
    requires OverrideFile(e) != Some(e.targetPath)
    requires EntryStep(files, network, Write, name, e).0.Ok?
    ensures UpToDate(EntryStep(files, network, Write, name, e).1, network, name, e)
  {
    var plan := EntryPlan(files, network, name, e).value;
    var after := EntryStep(files, network, Write, name, e).1;
    assert OverrideContent(after, e) == OverrideContent(files, e);
    if plan.changed {
      assert Existing(after, e.targetPath) == plan.generated;
    } else {
      assert after == files;
    }
  }

  // ---------------------------------------------------------------------
  // The run over all entries

  /**
   * The order of JavaScript's default string sort, character by character
   * with a proper prefix first; it is that order exactly for text in the
   * Basic Multilingual Plane, where each character is one UTF-16 code unit.
   */
  predicate CharLess(a: string, b: string)
    decreases |a|
  {
    if a == [] then b != []
    else if b == [] then false
    else if a[0] != b[0] then a[0] < b[0]
    else CharLess(a[1..], b[1..])
  }

  /**
   * `Object.keys(sources).sort()`: names of configured entries, strictly
   * ascending, as many as there are entries (so every key once, as
   * `SortedNamesAreAllKeys` shows).
   */
  predicate SortedKeys(names: seq<string>, sources: map<string, QuerySourceEntry>) {
    && (forall i :: 0 <= i < |names| ==> names[i] in sources)
    && (forall i, j :: 0 <= i < j < |names| ==> CharLess(names[i], names[j]))
    && |names| == |sources|
  }

  lemma {:induction false} CharLessIrreflexive(a: string)
    ensures !CharLess(a, a)
    decreases |a|
  {
    if a != [] {
      CharLessIrreflexive(a[1..]);
    }
  }

  /** The set of the first `n` names has `n` members when the names are strictly ascending. */
  lemma {:induction false} AscendingNamesDistinct(names: seq<string>, n: nat)
    requires n <= |names|
    requires forall i, j :: 0 <= i < j < |names| ==> CharLess(names[i], names[j])
    ensures |set i | 0 <= i < n :: names[i]| == n
    decreases n
  {
    if n > 0 {
      AscendingNamesDistinct(names, n - 1);
      var before := set i | 0 <= i < n - 1 :: names[i];
      assert (set i | 0 <= i < n :: names[i]) == before + {names[n - 1]};
      if names[n - 1] in before {
        var k :| 0 <= k < n - 1 && names[k] == names[n - 1];
        CharLessIrreflexive(names[k]);
        assert false;
      }
    }
  }

  /** Sorted names as many as the entries are exactly the entry names. */
  lemma SortedNamesAreAllKeys(names: seq<string>, sources: map<string, QuerySourceEntry>)
    requires SortedKeys(names, sources)
    ensures forall n :: n in sources <==> n in names
  {
    var named := set i | 0 <= i < |names| :: names[i];
    AscendingNamesDistinct(names, |names|);
    assert named <= sources.Keys;
    var missing := sources.Keys - named;
    assert sources.Keys == named + missing;
    assert |missing| == 0;
    forall n | n in sources ensures n in names {
      assert n in named;
    }
  }

  /** `results.filter((entry) => entry.changed).length` */
  function CountChanged(results: seq<SyncResult>): (n: nat)
    ensures n <= |results|
    ensures n == 0 <==> forall i :: 0 <= i < |results| ==> !results[i].changed
    ensures n == |results| <==> forall i :: 0 <= i < |results| ==> results[i].changed
    decreases |results|
  {
    if results == [] then 0
    else (if results[0].changed then 1 else 0) + CountChanged(results[1..])
  }

  /** What processing one entry does: its report and the files afterwards. */
  type Step = (map<string, string>, string, QuerySourceEntry) -> (Result<SyncResult, SyncError>, map<string, string>)

  /** `syncEntry` against `network` in `mode`, as a step. */
  function SyncStep(network: map<string, string>, mode: Mode): Step {
    (files, name, e) => EntryStep(files, network, mode, name, e)
  }

  /** The reports and the files after processing `names` in order; the first error ends the run. */
  function RunFrom(step: Step, files: map<string, string>, sources: map<string, QuerySourceEntry>, names: seq<string>)
    : (Result<seq<SyncResult>, SyncError>, map<string, string>)
    requires forall i :: 0 <= i < |names| ==> names[i] in sources
    decreases |names|
  {
    if names == [] then (Ok([]), files)
    else
      var (first, next) := step(files, names[0], sources[names[0]]);
      match first
      case Err(err) => (Err(err), next)
      case Ok(result) =>
        var (rest, final) := RunFrom(step, next, sources, names[1..]);
        match rest
        case Err(err) => (Err(err), final)
        case Ok(results) => (Ok([result] + results), final)
  }

  /** Reports gathered so far, put in front of the outcome of the rest of the run. */
  function Prefixed(done: seq<SyncResult>, outcome: (Result<seq<SyncResult>, SyncError>, map<string, string>))
    : (Result<seq<SyncResult>, SyncError>, map<string, string>)
  {
    match outcome.0
    case Err(err) => (Err(err), outcome.1)
    case Ok(results) => (Ok(done + results), outcome.1)
  }

  lemma PrefixedNothing(outcome: (Result<seq<SyncResult>, SyncError>, map<string, string>))
    ensures Prefixed([], outcome) == outcome
  {
    if outcome.0.Ok? {
      assert [] + outcome.0.value == outcome.0.value;
    }
  }

  lemma PrefixedAppend(a: seq<SyncResult>, b: seq<SyncResult>, outcome: (Result<seq<SyncResult>, SyncError>, map<string, string>))
    ensures Prefixed(a, Prefixed(b, outcome)) == Prefixed(a + b, outcome)
  {
    if outcome.0.Ok? {
      assert a + (b + outcome.0.value) == (a + b) + outcome.0.value;
    }
  }

  /** The outcome of the run from entry `i` on. */
  ghost function RunRest(step: Step, files: map<string, string>, sources: map<string, QuerySourceEntry>, names: seq<string>, i: nat)
    : (Result<seq<SyncResult>, SyncError>, map<string, string>)
    requires i <= |names| && forall k :: 0 <= k < |names| ==> names[k] in sources
  {
    RunFrom(step, files, sources, names[i..])
  }

  /**
   * One turn of the run loop: after entry `i` gives `result`, an error ends
   * the run with the files as they are, and a report joins those gathered so far.
   */
  lemma RunAdvance(step: Step, before: map<string, string>, after: map<string, string>, result: Result<SyncResult, SyncError>,
                   sources: map<string, QuerySourceEntry>, names: seq<string>, i: nat, done: seq<SyncResult>)
    requires i < |names| && forall k :: 0 <= k < |names| ==> names[k] in sources
    requires (result, after) == step(before, names[i], sources[names[i]])
    ensures Prefixed(done, RunRest(step, before, sources, names, i))
         == if result.Err? then (Err(result.error), after)
            else Prefixed(done + [result.value], RunRest(step, after, sources, names, i + 1))
  {
    assert names[i..][0] == names[i] && names[i..][1..] == names[i + 1..];
    if result.Ok? {
      PrefixedAppend(done, [result.value], RunFrom(step, after, sources, names[i + 1..]));
    }
  }

  /** The step of a run applies `EntryStep`. */
  lemma SyncStepApply(network: map<string, string>, mode: Mode, files: map<string, string>, name: string, e: QuerySourceEntry)
    ensures SyncStep(network, mode)(files, name, e) == EntryStep(files, network, mode, name, e)
  {
  }

  /** A run that starts at entry 0 or has passed the last entry. */
  lemma RunRestEnds(step: Step, files: map<string, string>, sources: map<string, QuerySourceEntry>, names: seq<string>)
    requires forall k :: 0 <= k < |names| ==> names[k] in sources
    ensures RunRest(step, files, sources, names, 0) == RunFrom(step, files, sources, names)
    ensures RunRest(step, files, sources, names, |names|) == (Ok([]), files)
  {
    assert names[0..] == names;
    assert names[|names|..] == [];
  }

  /** The step reports the entry it was given. */
  ghost predicate ReportsName(step: Step) {
    forall files, name, e :: step(files, name, e).0.Ok? ==> step(files, name, e).0.value.name == name
  }

  /** The step writes nothing and reports every entry it passes as unchanged. */
  ghost predicate ReadOnly(step: Step) {
    forall files, name, e ::
      && step(files, name, e).1 == files
      && (step(files, name, e).0.Ok? ==> !step(files, name, e).0.value.changed)
  }

  lemma SyncStepReportsName(network: map<string, string>, mode: Mode)
    ensures ReportsName(SyncStep(network, mode))
  {
  }

  /** Check mode is read-only. */
  lemma CheckStepReadOnly(network: map<string, string>)
    ensures ReadOnly(SyncStep(network, Check))
  {
  }

  /** A successful run reports every entry once, in the order of `names`. */
  lemma {:induction false} RunFromReports(step: Step, files: map<string, string>,
                                          sources: map<string, QuerySourceEntry>, names: seq<string>)
    requires forall i :: 0 <= i < |names| ==> names[i] in sources
    requires ReportsName(step)
    ensures var results := RunFrom(step, files, sources, names).0;
      results.Ok? ==> |results.value| == |names| && forall i :: 0 <= i < |names| ==> results.value[i].name == names[i]
    decreases |names|
  {
    if names != [] {
      var (first, next) := step(files, names[0], sources[names[0]]);
      RunFromReports(step, next, sources, names[1..]);
    }
  }

  /** A read-only step gives a run that changes no file and reports nothing changed. */
  lemma {:induction false} ReadOnlyRun(step: Step, files: map<string, string>,
                                       sources: map<string, QuerySourceEntry>, names: seq<string>)
    requires forall i :: 0 <= i < |names| ==> names[i] in sources
    requires ReadOnly(step)
    ensures var (results, after) := RunFrom(step, files, sources, names);
      && after == files
      && (results.Ok? ==> forall i :: 0 <= i < |results.value| ==> !results.value[i].changed)
    decreases |names|
  {
    if names != [] {
      ReadOnlyRun(step, files, sources, names[1..]);
    }
  }

  /**
   * What `main` reports about a run over the sorted entry names: a successful
   * run has one report per entry in sorted order, and check mode counts no
   * update and writes nothing.
   */
  lemma RunSummary(network: map<string, string>, mode: Mode, files: map<string, string>,
                   sources: map<string, QuerySourceEntry>, names: seq<string>)
    requires SortedKeys(names, sources)
    ensures var (r, after) := RunFrom(SyncStep(network, mode), files, sources, names);
      && (r.Ok? ==> |r.value| == |names|)
      && (r.Ok? ==> forall i, j :: 0 <= i < j < |r.value| ==> CharLess(r.value[i].name, r.value[j].name))
      && (r.Ok? && mode == Check ==> CountChanged(r.value) == 0)
      && (mode == Check ==> after == files)
  {
    SyncStepReportsName(network, mode);
    RunFromReports(SyncStep(network, mode), files, sources, names);
    if mode == Check {
      CheckStepReadOnly(network);
      ReadOnlyRun(SyncStep(network, Check), files, sources, names);
    }
  }

  /** The targets of the entries named in `names`. */
  function Targets(sources: map<string, QuerySourceEntry>, names: seq<string>): set<string>
    requires forall i :: 0 <= i < |names| ==> names[i] in sources
  {
    set i | 0 <= i < |names| :: sources[names[i]].targetPath
  }

  /** `after` keeps every file of `before` and differs from it at most at `target`. */
  predicate ChangesOnly(before: map<string, string>, after: map<string, string>, target: string) {
    && after.Keys <= before.Keys + {target}
    && (forall p :: p in before ==> p in after)
    && (forall p :: p in after && p != target ==> after[p] == before[p])
  }

  /** The step changes at most the entry's own target. */
  ghost predicate WritesOnlyTarget(step: Step) {
    forall files, name, e :: ChangesOnly(files, step(files, name, e).1, e.targetPath)
  }

  lemma SyncStepWritesOnlyTarget(network: map<string, string>, mode: Mode)
    ensures WritesOnlyTarget(SyncStep(network, mode))
  {
    forall files, name, e ensures ChangesOnly(files, EntryStep(files, network, mode, name, e).1, e.targetPath) {
      EntryStepFrame(files, network, mode, name, e);
    }
  }

  /** A run changes only the targets of the entries it processes. */
  lemma {:induction false} RunFromFrame(step: Step, files: map<string, string>,
                                        sources: map<string, QuerySourceEntry>, names: seq<string>)
    requires forall i :: 0 <= i < |names| ==> names[i] in sources
    requires WritesOnlyTarget(step)
    ensures var after := RunFrom(step, files, sources, names).1;
      forall p :: p !in Targets(sources, names) ==>
        (p in after <==> p in files) && (p in files ==> after[p] == files[p])
    decreases |names|
  {
    if names != [] {
      var e := sources[names[0]];
      var next := step(files, names[0], e).1;
      assert ChangesOnly(files, next, e.targetPath);
      RunFromFrame(step, next, sources, names[1..]);
      assert Targets(sources, names) == {e.targetPath} + Targets(sources, names[1..]);
    }
  }

  /** A step that, given `files`, reports the entry unchanged and writes nothing. */
  predicate Quiet(step: Step, files: map<string, string>, name: string, e: QuerySourceEntry) {
    step(files, name, e) == (Ok(SyncResult(name, false)), files)
  }

  /** `ok` holds of every entry named in `names`. */
  predicate AllHold(ok: (map<string, string>, string, QuerySourceEntry) -> bool, files: map<string, string>,
                    sources: map<string, QuerySourceEntry>, names: seq<string>)
    requires forall i :: 0 <= i < |names| ==> names[i] in sources
    decreases |names|
  {
    names == [] || (ok(files, names[0], sources[names[0]]) && AllHold(ok, files, sources, names[1..]))
  }

  /** The reports of a run in which nothing changes. */
  function QuietReports(names: seq<string>): (rs: seq<SyncResult>)
    ensures |rs| == |names|
    ensures forall i :: 0 <= i < |names| ==> rs[i] == SyncResult(names[i], false)
  {
    seq(|names|, i requires 0 <= i < |names| => SyncResult(names[i], false))
  }

  /** When the step is quiet for every entry, the run reports every entry unchanged and writes nothing. */
  lemma {:induction false} QuietRun(step: Step, files: map<string, string>,
                                    sources: map<string, QuerySourceEntry>, names: seq<string>)
    requires forall i :: 0 <= i < |names| ==> names[i] in sources
    requires AllHold((f, n, e) => Quiet(step, f, n, e), files, sources, names)
    ensures RunFrom(step, files, sources, names) == (Ok(QuietReports(names)), files)
    decreases |names|
  {
    if names != [] {
      assert Quiet(step, files, names[0], sources[names[0]]);
      QuietRun(step, files, sources, names[1..]);
      assert QuietReports(names) == [SyncResult(names[0], false)] + QuietReports(names[1..]);
    }
  }

  /** The entry is up to date: its artifact matches its target. */
  function UpToDateIn(network: map<string, string>): (map<string, string>, string, QuerySourceEntry) -> bool {
    (files, name, e) => UpToDate(files, network, name, e)
  }

  /** Up-to-date entries are quiet in either mode. */
  lemma {:induction false} UpToDateIsQuiet(network: map<string, string>, mode: Mode, files: map<string, string>,
                                           sources: map<string, QuerySourceEntry>, names: seq<string>)
    requires forall i :: 0 <= i < |names| ==> names[i] in sources
    requires AllHold(UpToDateIn(network), files, sources, names)
    ensures AllHold((f, n, e) => Quiet(SyncStep(network, mode), f, n, e), files, sources, names)
    decreases |names|
  {
    if names != [] {
      UpToDateIsQuiet(network, mode, files, sources, names[1..]);
    }
  }

  /** When everything is up to date, either mode reports every entry unchanged and writes nothing. */
  lemma UpToDateRunIsQuiet(network: map<string, string>, mode: Mode, files: map<string, string>,
                           sources: map<string, QuerySourceEntry>, names: seq<string>)
    requires forall i :: 0 <= i < |names| ==> names[i] in sources
    requires AllHold(UpToDateIn(network), files, sources, names)
    ensures RunFrom(SyncStep(network, mode), files, sources, names) == (Ok(QuietReports(names)), files)
  {
    UpToDateIsQuiet(network, mode, files, sources, names);
    QuietRun(SyncStep(network, mode), files, sources, names);
  }

  /**
   * Entries own disjoint targets, and no entry's override is any entry's target.
   */
  predicate Separated(sources: map<string, QuerySourceEntry>, names: seq<string>)
    requires forall i :: 0 <= i < |names| ==> names[i] in sources
  {
    && (forall i, j :: 0 <= i < j < |names| ==> sources[names[i]].targetPath != sources[names[j]].targetPath)
    && (forall i, j :: 0 <= i < |names| && 0 <= j < |names| ==>
          OverrideFile(sources[names[i]]) != Some(sources[names[j]].targetPath))
  }

  lemma SeparatedTail(sources: map<string, QuerySourceEntry>, names: seq<string>)
    requires names != [] && forall i :: 0 <= i < |names| ==> names[i] in sources
    requires Separated(sources, names)
    ensures Separated(sources, names[1..])
    ensures sources[names[0]].targetPath !in Targets(sources, names[1..])
    ensures OverrideFile(sources[names[0]]).Some? ==> OverrideFile(sources[names[0]]).value !in Targets(sources, names[1..])
  {
    var tail := names[1..];
    forall i | 0 <= i < |tail| ensures tail[i] == names[i + 1] { }
  }

  /** Two file maps agree on what the entry reads: its override and its target. */
  predicate SameInputs(f1: map<string, string>, f2: map<string, string>, e: QuerySourceEntry) {
    OverrideContent(f1, e) == OverrideContent(f2, e) && Existing(f1, e.targetPath) == Existing(f2, e.targetPath)
  }

  /** After a successful step of an entry whose override is not its target, `ok` holds of it. */
  ghost predicate Settles(step: Step, ok: (map<string, string>, string, QuerySourceEntry) -> bool) {
    forall files, name, e ::
      OverrideFile(e) != Some(e.targetPath) && step(files, name, e).0.Ok? ==> ok(step(files, name, e).1, name, e)
  }

  /** `ok` depends on the files only through what the entry reads. */
  ghost predicate ReadsOnlyInputs(ok: (map<string, string>, string, QuerySourceEntry) -> bool) {
    forall f1, f2, name, e :: SameInputs(f1, f2, e) && ok(f1, name, e) ==> ok(f2, name, e)
  }

  /**
   * After a successful run over separated entries, `ok` holds of every entry
   * when each step settles its entry and the later steps do not touch what it reads.
   */
  lemma {:induction false} RunSettles(step: Step, ok: (map<string, string>, string, QuerySourceEntry) -> bool,
                                      files: map<string, string>, sources: map<string, QuerySourceEntry>, names: seq<string>)
    requires forall i :: 0 <= i < |names| ==> names[i] in sources
    requires Separated(sources, names)
    requires WritesOnlyTarget(step) && Settles(step, ok) && ReadsOnlyInputs(ok)
    requires RunFrom(step, files, sources, names).0.Ok?
    ensures AllHold(ok, RunFrom(step, files, sources, names).1, sources, names)
    decreases |names|
  {
    if names != [] {
      var e := sources[names[0]];
      var next := step(files, names[0], e).1;
      var final := RunFrom(step, next, sources, names[1..]).1;
      SeparatedTail(sources, names);
      RunSettles(step, ok, next, sources, names[1..]);
      RunFromFrame(step, next, sources, names[1..]);
      assert ok(next, names[0], e);
      assert SameInputs(next, final, e);
    }
  }

  lemma SyncStepSettles(network: map<string, string>)
    ensures Settles(SyncStep(network, Write), UpToDateIn(network))
  {
    forall files, name, e | OverrideFile(e) != Some(e.targetPath) && EntryStep(files, network, Write, name, e).0.Ok?
      ensures UpToDate(EntryStep(files, network, Write, name, e).1, network, name, e)
    {
      EntryIdempotent(files, network, name, e);
    }
  }

  lemma UpToDateReadsOnlyInputs(network: map<string, string>)
    ensures ReadsOnlyInputs(UpToDateIn(network))
  {
    forall f1, f2, name, e | SameInputs(f1, f2, e) ensures EntryPlan(f1, network, name, e) == EntryPlan(f2, network, name, e) {
      EntryPlanReadsOnly(f1, f2, network, name, e);
    }
  }

  /** After a successful write-mode run over separated entries, every entry is up to date. */
  lemma WriteRunMakesUpToDate(network: map<string, string>, files: map<string, string>,
                              sources: map<string, QuerySourceEntry>, names: seq<string>)
    requires forall i :: 0 <= i < |names| ==> names[i] in sources
    requires Separated(sources, names)
    requires RunFrom(SyncStep(network, Write), files, sources, names).0.Ok?
    ensures AllHold(UpToDateIn(network), RunFrom(SyncStep(network, Write), files, sources, names).1, sources, names)
  {
    SyncStepWritesOnlyTarget(network, Write);
    SyncStepSettles(network);
    UpToDateReadsOnlyInputs(network);
    RunSettles(SyncStep(network, Write), UpToDateIn(network), files, sources, names);
  }

  /**
   * Write mode is idempotent over a whole run: a second run over separated
   * entries reports every entry unchanged and writes nothing, and check mode
   * then passes.
   */
  lemma WriteRunIdempotent(network: map<string, string>, files: map<string, string>,
                           sources: map<string, QuerySourceEntry>, names: seq<string>)
    requires forall i :: 0 <= i < |names| ==> names[i] in sources
    requires Separated(sources, names)
    requires RunFrom(SyncStep(network, Write), files, sources, names).0.Ok?
    ensures var after := RunFrom(SyncStep(network, Write), files, sources, names).1;
      && RunFrom(SyncStep(network, Write), after, sources, names) == (Ok(QuietReports(names)), after)
      && RunFrom(SyncStep(network, Check), after, sources, names) == (Ok(QuietReports(names)), after)
  {
    var after := RunFrom(SyncStep(network, Write), files, sources, names).1;
    WriteRunMakesUpToDate(network, files, sources, names);
    UpToDateRunIsQuiet(network, Write, after, sources, names);
    UpToDateRunIsQuiet(network, Check, after, sources, names);
  }

  /** The repository files the script reads and writes, by path relative to the root. */
  class Workspace {
    var files: map<string, string>

    constructor (files: map<string, string>)
      ensures this.files == files
    {
      this.files := files;
    }

    /** `syncEntry(name, entry)`: the target is written only in write mode and only when it changed. */
    method SyncEntry(network: map<string, string>, mode: Mode, name: string, e: QuerySourceEntry)
      returns (r: Result<SyncResult, SyncError>)
      modifies this
      ensures (r, files) == EntryStep(old(files), network, mode, name, e)
    {
      var url := RawUrl(e);
      if url !in network {
        return Err(FetchFailed(url));
      }
      var upstreamRaw := network[url];
      var patched := ApplyReplacements(upstreamRaw, e.replacements);
      if patched.Err? {
        return Err(patched.error);
      }
      var overrideContent := OverrideContent(files, e);
      var generated := GeneratedQuery(name, e, patched.value, overrideContent);
      var existing := Existing(files, e.targetPath);
      var changed := NormalizeNewlines(existing) != NormalizeNewlines(generated);

      if mode == Check {
        if changed {
          return Err(OutOfDate(name, e.targetPath));
        }
        return Ok(SyncResult(name, false));
      }

      if changed {
        files := files[e.targetPath := generated];
      }
      return Ok(SyncResult(name, changed));
    }

    /**
     * `main`: sync every entry in sorted-name order, stop at the first error,
     * and count the entries write mode updated.
     */
    method SyncAll(network: map<string, string>, mode: Mode, sources: map<string, QuerySourceEntry>, names: seq<string>)
      returns (r: Result<seq<SyncResult>, SyncError>, updated: nat)
      requires SortedKeys(names, sources)
      modifies this
      ensures (r, files) == RunFrom(SyncStep(network, mode), old(files), sources, names)
      ensures r.Ok? ==> |r.value| == |names| && updated == CountChanged(r.value)
      ensures r.Ok? ==> forall i, j :: 0 <= i < j < |r.value| ==> CharLess(r.value[i].name, r.value[j].name)
      ensures r.Ok? && mode == Check ==> updated == 0
      ensures mode == Check ==> files == old(files)
    {
      ghost var step := SyncStep(network, mode);
      ghost var start := files;
      var results: seq<SyncResult> := [];
      RunRestEnds(step, files, sources, names);
      PrefixedNothing(RunFrom(step, files, sources, names));
      for i := 0 to |names|
        invariant RunFrom(step, start, sources, names) == Prefixed(results, RunRest(step, files, sources, names, i))
      {
        ghost var before := files;
        var result := SyncEntry(network, mode, names[i], sources[names[i]]);
        SyncStepApply(network, mode, before, names[i], sources[names[i]]);
        RunAdvance(step, before, files, result, sources, names, i, results);
        if result.Err? {
          r, updated := Err(result.error), 0;
          RunSummary(network, mode, start, sources, names);
          return;
        }
        results := results + [result.value];
      }
      RunRestEnds(step, files, sources, names);
      assert results + [] == results;
      r := Ok(results);
      updated := CountChanged(results);
      RunSummary(network, mode, start, sources, names);
    }
  }
}
