/**
 * The JavaScript string primitives the maintenance scripts are built from:
 * `trim`/`trimEnd`, `endsWith`, `includes`, `split`/`join` with a string
 * separator, and `toLowerCase`, on strings as sequences of characters (Unicode
 * scalar values, which are JavaScript's UTF-16 code units for text in the Basic
 * Multilingual Plane).
 */
module Text {

  /** The characters `trim` and `trimEnd` strip (the ASCII ones: space, tab, LF, VT, FF, CR). */
  predicate IsWhitespace(c: char) {
    c == ' ' || c == '\t' || c == '\n' || c == '\U{000B}' || c == '\U{000C}' || c == '\r'
  }

  /** A string that holds nothing but whitespace (the empty string included). */
  predicate IsBlank(s: string) {
    forall i :: 0 <= i < |s| ==> IsWhitespace(s[i])
  }

  /** `s.endsWith(suffix)` */
  predicate EndsWith(s: string, suffix: string) {
    |suffix| <= |s| && s[|s| - |suffix|..] == suffix
  }

  /** `s.includes(t)`: some occurrence of `t` starts at an index of `s`; always true for `t == ""`. */
  predicate Contains(s: string, t: string)
    decreases |s|
  {
    t <= s || (s != [] && Contains(s[1..], t))
  }

  /** `s.trimEnd()`: the longest prefix of `s` that does not end in whitespace. */
  function TrimEnd(s: string): (r: string)
    ensures r <= s
    ensures r == [] || !IsWhitespace(r[|r| - 1])
    ensures forall i :: |r| <= i < |s| ==> IsWhitespace(s[i])
    decreases |s|
  {
    if s != [] && IsWhitespace(s[|s| - 1]) then TrimEnd(s[..|s| - 1]) else s
  }

  /** `s.trimStart()`: the longest suffix of `s` that does not start with whitespace. */
  function TrimStart(s: string): (r: string)
    ensures |r| <= |s| && r == s[|s| - |r|..]
    ensures r == [] || !IsWhitespace(r[0])
    ensures forall i :: 0 <= i < |s| - |r| ==> IsWhitespace(s[i])
    decreases |s|
  {
    if s != [] && IsWhitespace(s[0]) then TrimStart(s[1..]) else s
  }

  /** `s.trim()` */
  function Trim(s: string): string {
    TrimStart(TrimEnd(s))
  }

  /** `s.trim().length === 0` holds exactly of the blank strings. */
  lemma TrimEmptyIffBlank(s: string)
    ensures Trim(s) == [] <==> IsBlank(s)
  {
    var e := TrimEnd(s);
    if Trim(s) == [] {
      forall i | 0 <= i < |s| ensures IsWhitespace(s[i]) {
        if i < |e| { assert s[i] == e[i]; }
      }
    }
  }

  lemma BlankCons(c: char, s: string)
    ensures IsBlank([c] + s) <==> IsWhitespace(c) && IsBlank(s)
  {
    var t := [c] + s;
    assert t[0] == c;
    if IsBlank(t) {
      forall i | 0 <= i < |s| ensures IsWhitespace(s[i]) {
        assert s[i] == t[i + 1];
      }
    }
    if IsWhitespace(c) && IsBlank(s) {
      forall i | 0 <= i < |t| ensures IsWhitespace(t[i]) {
        if i > 0 { assert t[i] == s[i - 1]; }
      }
    }
  }

  /** `trimEnd` of a string with some non-whitespace character is not empty. */
  lemma TrimEndNonEmpty(s: string)
    requires !IsBlank(s)
    ensures TrimEnd(s) != []
  {
    var i :| 0 <= i < |s| && !IsWhitespace(s[i]);
    assert i < |TrimEnd(s)|;
  }

  /** Appending whitespace does not change what `trimEnd` returns. */
  lemma TrimEndAppendWhitespace(s: string, w: string)
    requires IsBlank(w)
    ensures TrimEnd(s + w) == TrimEnd(s)
    decreases |w|
  {
    if w != [] {
      var sw := s + w;
      assert sw[..|sw| - 1] == s + w[..|w| - 1];
      TrimEndAppendWhitespace(s, w[..|w| - 1]);
    } else {
      assert s + w == s;
    }
  }

  /** `s.toLowerCase()` on one character (ASCII letters only). */
  function ToLowerChar(c: char): (r: char)
    ensures 'A' <= c <= 'Z' ==> 'a' <= r <= 'z'
    ensures !('A' <= c <= 'Z') ==> r == c
  {
    if 'A' <= c <= 'Z' then (c as int - 'A' as int + 'a' as int) as char else c
  }

  /** `s.toLowerCase()` (ASCII letters only). */
  function ToLower(s: string): (r: string)
    ensures |r| == |s|
    ensures forall i :: 0 <= i < |s| ==> r[i] == ToLowerChar(s[i])
  {
    seq(|s|, i requires 0 <= i < |s| => ToLowerChar(s[i]))
  }

  /** `s.split("")`: one piece per character. */
  function Chars(s: string): (parts: seq<string>)
    ensures |parts| == |s|
    ensures forall i :: 0 <= i < |s| ==> parts[i] == [s[i]]
  {
    seq(|s|, i requires 0 <= i < |s| => [s[i]])
  }

  /**
   * `s.split(sep)` for a string separator: scanning from the left, every
   * occurrence of a non-empty `sep` ends the current piece, and the text after
   * the last occurrence is the last piece. The empty separator splits into characters.
   */
  function Split(s: string, sep: string): (parts: seq<string>)
    ensures sep != [] ==> |parts| >= 1
    decreases |s|
  {
    if sep == [] then Chars(s)
    else if sep <= s then [[]] + Split(s[|sep|..], sep)
    else if s == [] then [[]]
    else
      var rest := Split(s[1..], sep);
      [[s[0]] + rest[0]] + rest[1..]
  }

  /** `parts.join(sep)` */
  function Join(parts: seq<string>, sep: string): string
    decreases |parts|
  {
    if |parts| == 0 then []
    else if |parts| == 1 then parts[0]
    else parts[0] + sep + Join(parts[1..], sep)
  }

  /** `s.split(find).join(rep)`: every occurrence of `find`, taken left to right, replaced by `rep`. */
  function ReplaceAll(s: string, find: string, rep: string): string {
    Join(Split(s, find), rep)
  }

  lemma JoinConsHead(c: char, parts: seq<string>, sep: string)
    requires |parts| >= 1
    ensures Join([[c] + parts[0]] + parts[1..], sep) == [c] + Join(parts, sep)
  {
    var q := [[c] + parts[0]] + parts[1..];
    if |parts| > 1 {
      assert q[1..] == parts[1..];
    }
  }

  lemma {:induction false} JoinChars(s: string)
    ensures Join(Chars(s), []) == s
    decreases |s|
  {
    if |s| > 1 {
      assert Chars(s) == [[s[0]]] + Chars(s[1..]);
      assert Chars(s)[1..] == Chars(s[1..]);
      JoinChars(s[1..]);
    }
  }

  /** Joining the pieces with the separator they were split on gives the string back. */
  lemma {:induction false} JoinSplit(s: string, sep: string)
    ensures Join(Split(s, sep), sep) == s
    decreases |s|
  {
    if sep == [] {
      JoinChars(s);
    } else if sep <= s {
      JoinSplit(s[|sep|..], sep);
      JoinSplitAtSeparator(s, sep);
    } else if s != [] {
      JoinSplit(s[1..], sep);
      JoinSplitAtChar(s, sep);
    }
  }

  lemma JoinSplitAtSeparator(s: string, sep: string)
    requires sep != [] && sep <= s
    requires Join(Split(s[|sep|..], sep), sep) == s[|sep|..]
    ensures Join(Split(s, sep), sep) == s
  {
    var tail := s[|sep|..];
    var rest := Split(tail, sep);
    var parts := [[]] + rest;
    assert Split(s, sep) == parts;
    assert parts[0] == [] && parts[1..] == rest && |parts| >= 2;
    JoinTwoOrMore(parts, sep);
    assert Join(rest, sep) == tail;
    assert parts[0] + sep == sep;
    assert s == sep + tail;
  }

  lemma JoinTwoOrMore(parts: seq<string>, sep: string)
    requires |parts| >= 2
    ensures Join(parts, sep) == parts[0] + sep + Join(parts[1..], sep)
  {
  }

  lemma JoinSplitAtChar(s: string, sep: string)
    requires sep != [] && !(sep <= s) && s != []
    requires Join(Split(s[1..], sep), sep) == s[1..]
    ensures Join(Split(s, sep), sep) == s
  {
    var rest := Split(s[1..], sep);
    assert Split(s, sep) == [[s[0]] + rest[0]] + rest[1..];
    JoinConsHead(s[0], rest, sep);
    assert s == [s[0]] + s[1..];
  }

  /** The first piece of a split is a prefix of the string. */
  lemma {:induction false} SplitHeadIsPrefix(s: string, sep: string)
    requires sep != []
    ensures Split(s, sep)[0] <= s
    decreases |s|
  {
    if !(sep <= s) && s != [] {
      SplitHeadIsPrefix(s[1..], sep);
    }
  }

  /** With a non-empty separator, no piece of a split contains the separator. */
  lemma {:induction false} SplitPiecesAvoidSeparator(s: string, sep: string)
    requires sep != []
    ensures forall k :: 0 <= k < |Split(s, sep)| ==> !Contains(Split(s, sep)[k], sep)
    decreases |s|
  {
    var parts := Split(s, sep);
    if sep <= s {
      SplitPiecesAvoidSeparator(s[|sep|..], sep);
      assert parts[1..] == Split(s[|sep|..], sep);
      forall k | 0 <= k < |parts| ensures !Contains(parts[k], sep) {
        if k > 0 { assert parts[k] == Split(s[|sep|..], sep)[k - 1]; }
      }
    } else if s != [] {
      var rest := Split(s[1..], sep);
      SplitPiecesAvoidSeparator(s[1..], sep);
      SplitHeadIsPrefix(s[1..], sep);
      var head := [s[0]] + rest[0];
      assert head[1..] == rest[0];
      assert head <= s;
      assert !(sep <= head);
      forall k | 0 <= k < |parts| ensures !Contains(parts[k], sep) {
        if k > 0 { assert parts[k] == rest[k]; }
      }
    }
  }

  /** A string that does not contain the separator splits into itself alone. */
  lemma {:induction false} SplitAbsent(s: string, sep: string)
    requires sep != [] && !Contains(s, sep)
    ensures Split(s, sep) == [s]
    decreases |s|
  {
    if s != [] {
      SplitAbsent(s[1..], sep);
      assert [s[0]] + s[1..] == s;
    }
  }

  /** A string contains only strings no longer than itself. */
  lemma {:induction false} ContainsNoLonger(s: string, t: string)
    requires Contains(s, t)
    ensures |t| <= |s|
    decreases |s|
  {
    if !(t <= s) {
      ContainsNoLonger(s[1..], t);
    }
  }

  /** When a split cuts at all, its first piece is followed in the string by the separator. */
  lemma SplitHeadThenSeparator(s: string, sep: string)
    requires sep != [] && |Split(s, sep)| > 1
    ensures Split(s, sep)[0] + sep <= s
  {
    var parts := Split(s, sep);
    JoinSplit(s, sep);
    JoinTwoOrMore(parts, sep);
    assert s == (parts[0] + sep) + Join(parts[1..], sep);
  }

  /**
   * `split` cuts at the leftmost occurrence: no occurrence of `sep` starts
   * inside a piece that a cut ends, so each cut is at the first occurrence
   * after the previous one.
   */
  predicate CutsLeftmost(parts: seq<string>, sep: string)
    requires sep != []
  {
    forall k :: 0 <= k < |parts| - 1 ==> !Contains(parts[k] + sep[..|sep| - 1], sep)
  }

  lemma {:induction false} SplitCutsLeftmost(s: string, sep: string)
    requires sep != []
    ensures CutsLeftmost(Split(s, sep), sep)
    decreases |s|
  {
    if sep <= s {
      SplitCutsLeftmost(s[|sep|..], sep);
      CutsLeftmostAtSeparator(s, sep);
    } else if s != [] {
      SplitCutsLeftmost(s[1..], sep);
      CutsLeftmostAtChar(s, sep);
    }
  }

  lemma SplitAtSeparator(s: string, sep: string)
    requires sep != [] && sep <= s
    ensures Split(s, sep) == [[]] + Split(s[|sep|..], sep)
  {
  }

  lemma SplitAtChar(s: string, sep: string)
    requires sep != [] && !(sep <= s) && s != []
    ensures var rest := Split(s[1..], sep);
      Split(s, sep) == [[s[0]] + rest[0]] + rest[1..]
  {
  }

  /** A cut at the start of the text keeps the later cuts leftmost. */
  lemma CutsLeftmostAtSeparator(s: string, sep: string)
    requires sep != [] && sep <= s
    requires CutsLeftmost(Split(s[|sep|..], sep), sep)
    ensures CutsLeftmost(Split(s, sep), sep)
  {
    var parts := Split(s, sep);
    var rest := Split(s[|sep|..], sep);
    var p := sep[..|sep| - 1];
    SplitAtSeparator(s, sep);
    forall k | 0 <= k < |parts| - 1 ensures !Contains(parts[k] + p, sep) {
      if k == 0 {
        if Contains(parts[k] + p, sep) {
          ContainsNoLonger(parts[k] + p, sep);
        }
      } else {
        assert parts[k] == rest[k - 1];
      }
    }
  }

  /** A first character that starts no separator joins the first piece and keeps the cuts leftmost. */
  lemma CutsLeftmostAtChar(s: string, sep: string)
    requires sep != [] && !(sep <= s) && s != []
    requires CutsLeftmost(Split(s[1..], sep), sep)
    ensures CutsLeftmost(Split(s, sep), sep)
  {
    var rest := Split(s[1..], sep);
    var p := sep[..|sep| - 1];
    SplitAtChar(s, sep);
    if |rest| > 1 {
      SplitHeadThenSeparator(s[1..], sep);
      PrefixShorter(rest[0], sep, p, s[1..]);
      HeadPieceAvoids(s, rest[0] + p, sep);
      assert [s[0]] + rest[0] + p == [s[0]] + (rest[0] + p);
    }
    CutsLeftmostCons([s[0]] + rest[0], rest, sep);
  }

  /** Replacing the first piece by one that avoids the separator keeps the cuts leftmost. */
  lemma CutsLeftmostCons(h: string, rest: seq<string>, sep: string)
    requires sep != [] && |rest| >= 1 && CutsLeftmost(rest, sep)
    requires |rest| > 1 ==> !Contains(h + sep[..|sep| - 1], sep)
    ensures CutsLeftmost([h] + rest[1..], sep)
  {
    var parts := [h] + rest[1..];
    forall k | 0 <= k < |parts| - 1 ensures !Contains(parts[k] + sep[..|sep| - 1], sep) {
      if k > 0 {
        assert parts[k] == rest[k];
      }
    }
  }

  lemma PrefixShorter(a: string, b: string, c: string, s: string)
    requires a + b <= s && c <= b
    ensures a + c <= s
  {
    assert forall i :: 0 <= i < |a + c| ==> (a + c)[i] == (a + b)[i];
  }

  /** A piece after the first character, free of `sep`, stays free of it when `s` does not start with `sep`. */
  lemma HeadPieceAvoids(s: string, y: string, sep: string)
    requires s != [] && y <= s[1..] && !(sep <= s) && !Contains(y, sep)
    ensures !Contains([s[0]] + y, sep)
  {
    var x := [s[0]] + y;
    assert x[1..] == y;
    assert forall i :: 0 <= i < |x| ==> x[i] == s[i];
  }

  /**
   * What `s.split(find).join(rep)` computes: `s` is cut at every occurrence
   * of `find`, taken leftmost first, into pieces none of which contains
   * `find`; the pieces joined with `find` give `s` back, and the result is the
   * same pieces joined with `rep`.
   */
  lemma ReplaceAllSpec(s: string, find: string, rep: string)
    requires find != []
    ensures var parts := Split(s, find);
      && Join(parts, find) == s
      && (forall k :: 0 <= k < |parts| ==> !Contains(parts[k], find))
      && CutsLeftmost(parts, find)
      && ReplaceAll(s, find, rep) == Join(parts, rep)
  {
    JoinSplit(s, find);
    SplitPiecesAvoidSeparator(s, find);
    SplitCutsLeftmost(s, find);
  }

  /** Replacing a literal by itself changes nothing. */
  lemma ReplaceAllSelf(s: string, find: string)
    ensures ReplaceAll(s, find, find) == s
  {
    JoinSplit(s, find);
  }

  /** Replacing a literal that does not occur changes nothing. */
  lemma ReplaceAllAbsent(s: string, find: string, rep: string)
    requires find != [] && !Contains(s, find)
    ensures ReplaceAll(s, find, rep) == s
  {
    SplitAbsent(s, find);
  }
}
