/**
 * The pre-commit style checker for C sources (git-hooks/pre-commit/c-format-checker.py).
 *
 * A header must carry an include guard of the exact shape
 *     #ifndef NAME_H
 *     #define NAME_H
 *     ...
 *     #endif /* NAME_H */
 * and comments must be `//` inside braces and `/* ... */` outside them.  The
 * comment scan is one left-to-right pass over the characters of every line
 * that keeps a brace depth, a block-comment flag and the previous character
 * of the current line; it is specified here by the fold `ScanLines` and
 * implemented by the loop method `ProcessFile`.
 */
module FormatChecker {
  import opened CTypes

  /** The two switches at the top of the script; both are on in the source. */
  datatype Config = Config(checkIncludeGuards: bool, checkComments: bool)

  const DefaultConfig: Config := Config(true, true)

  // ---------------------------------------------------------------------
  // String helpers with Python's meaning
  // ---------------------------------------------------------------------

  /** `str.islower` on one character, for ASCII text. */
  predicate IsLower(c: char) {
    'a' <= c <= 'z'
  }

  predicate HasLower(s: string) {
    exists i :: 0 <= i < |s| && IsLower(s[i])
  }

  predicate EndsWith(s: string, suffix: string) {
    |suffix| <= |s| && s[|s| - |suffix|..] == suffix
  }

  /**
   * The whitespace `str.rstrip()` removes: the characters `str.isspace()`
   * accepts, those of Unicode category Zs or of bidirectional class WS, B
   * or S.
   */
  predicate IsSpace(c: char) {
    ('\U{0009}' <= c <= '\U{000D}') || ('\U{001C}' <= c <= '\U{0020}') ||
    c == '\U{0085}' || c == '\U{00A0}' || c == '\U{1680}' || ('\U{2000}' <= c <= '\U{200A}') ||
    c == '\U{2028}' || c == '\U{2029}' || c == '\U{202F}' || c == '\U{205F}' || c == '\U{3000}'
  }

  /** `str.rstrip()`: the longest prefix that does not end in whitespace. */
  function RStrip(s: string): (r: string)
    ensures |r| <= |s| && r == s[..|r|]
    ensures r == [] || !IsSpace(r[|r| - 1])
    ensures forall i :: |r| <= i < |s| ==> IsSpace(s[i])
  {
    if s == [] || !IsSpace(s[|s| - 1]) then s else RStrip(s[..|s| - 1])
  }

  /** Trailing Unicode spaces go too: a no-break space after a closing `#endif` comment is stripped. */
  lemma RStripUnicodeSpace(line: string)
    requires line == [] || !IsSpace(line[|line| - 1])
    ensures RStrip(line + ['\U{00A0}']) == line
    ensures RStrip(line + ['\U{3000}', '\U{001F}']) == line
  {
    assert RStrip(line) == line;
    var a, b := line + ['\U{00A0}'], line + ['\U{3000}'];
    assert a[..|line|] == line && IsSpace(a[|a| - 1]);
    assert RStrip(a) == RStrip(line);
    assert b[..|line|] == line && IsSpace(b[|b| - 1]);
    assert RStrip(b) == RStrip(line);
    var c := line + ['\U{3000}', '\U{001F}'];
    assert c[..|b|] == b && IsSpace(c[|c| - 1]);
    assert RStrip(c) == RStrip(b);
  }

  function RStripAll(raw: seq<string>): (lines: seq<string>)
    ensures |lines| == |raw|
    ensures forall i :: 0 <= i < |raw| ==> lines[i] == RStrip(raw[i])
  {
    if raw == [] then [] else [RStrip(raw[0])] + RStripAll(raw[1..])
  }

  /**
   * `s.split(sep)` with an explicit separator: every occurrence of `sep`
   * cuts, so adjacent separators yield empty pieces.
   */
  function Split(s: string, sep: char): (parts: seq<string>)
    ensures |parts| >= 1
    ensures forall i :: 0 <= i < |parts| ==> sep !in parts[i]
    decreases |s|
  {
    if s == [] then [""]
    else
      var rest := Split(s[1..], sep);
      if s[0] == sep then [""] + rest
      else [[s[0]] + rest[0]] + rest[1..]
  }

  /** `sep.join(parts)`. */
  function Join(parts: seq<string>, sep: char): (s: string)
    requires |parts| >= 1
    ensures |parts[0]| <= |s| && s[..|parts[0]|] == parts[0]
  {
    if |parts| == 1 then parts[0] else parts[0] + [sep] + Join(parts[1..], sep)
  }

  /** Joining the pieces of a split gives back the string. */
  lemma {:induction false} JoinSplit(s: string, sep: char)
    ensures Join(Split(s, sep), sep) == s
    decreases |s|
  {
    if s != [] {
      JoinSplit(s[1..], sep);
      var rest := Split(s[1..], sep);
      if s[0] != sep && |rest| > 1 {
        var parts := Split(s, sep);
        assert parts[1..] == rest[1..];
        assert Join(rest, sep) == rest[0] + [sep] + Join(rest[1..], sep);
      }
    }
  }

  /** Splitting a string that holds no separator gives the string alone. */
  lemma {:induction false} SplitNoSeparator(s: string, sep: char)
    requires sep !in s
    ensures Split(s, sep) == [s]
    decreases |s|
  {
    if s != [] {
      SplitNoSeparator(s[1..], sep);
      assert [s[0]] + s[1..] == s;
    }
  }

  lemma {:induction false} SplitAtSeparator(a: string, b: string, sep: char)
    requires sep !in a
    ensures Split(a + [sep] + b, sep) == [a] + Split(b, sep)
    decreases |a|
  {
    if a == [] {
      assert (a + [sep] + b)[1..] == b;
    } else {
      assert (a + [sep] + b)[1..] == a[1..] + [sep] + b;
      SplitAtSeparator(a[1..], b, sep);
      assert [a[0]] + a[1..] == a;
    }
  }

  /** Splitting the join of separator-free pieces gives back the pieces. */
  lemma {:induction false} SplitJoin(parts: seq<string>, sep: char)
    requires |parts| >= 1
    requires forall i :: 0 <= i < |parts| ==> sep !in parts[i]
    ensures Split(Join(parts, sep), sep) == parts
    decreases |parts|
  {
    if |parts| == 1 {
      SplitNoSeparator(parts[0], sep);
    } else {
      SplitAtSeparator(parts[0], Join(parts[1..], sep), sep);
      SplitJoin(parts[1..], sep);
      assert [parts[0]] + parts[1..] == parts;
    }
  }

  // ---------------------------------------------------------------------
  // Include guards
  // ---------------------------------------------------------------------

  /** A guard name has no lower-case letter and ends in `_H` or `_HPP`. */
  function CheckIncludeGuardName(name: string): (ok: bool)
    ensures ok <==>
      (forall i :: 0 <= i < |name| ==> !('a' <= name[i] <= 'z')) &&
      ((|name| >= 2 && name[|name| - 2] == '_' && name[|name| - 1] == 'H') ||
       (|name| >= 4 && name[|name| - 4..] == "_HPP"))
  {
    var lowercase := HasLower(name);
    var endsWithH := EndsWith(name, "_H") || EndsWith(name, "_HPP");
    !(lowercase || !endsWithH)
  }

  /** The outcome of `check_include_guard`, one value per message it prints. */
  datatype GuardResult =
    | GuardOk
    | MissingGuard
    | MissingIfndef
    | BadGuardName(name: string)
    | BadDefine(name: string)
    | BadEndif(name: string)

  /** The three lines of a canonical guard around `name`. */
  function IfndefLine(name: string): string { "#ifndef " + name }
  function DefineLine(name: string): string { "#define " + name }
  function EndifLine(name: string): string { "#endif /* " + name + " */" }

  /**
   * The first, second and last lines are split on single spaces and checked
   * in that order; the first failing check decides the result.
   */
  function CheckIncludeGuard(lines: seq<string>): (r: GuardResult)
    ensures r == MissingGuard <==> |lines| < 3
    ensures r.BadGuardName? ==> !CheckIncludeGuardName(r.name)
  {
    if |lines| < 3 then MissingGuard
    else
      var first := Split(lines[0], ' ');
      var second := Split(lines[1], ' ');
      var last := Split(lines[|lines| - 1], ' ');
      if |first| != 2 || first[0] != "#ifndef" then MissingIfndef
      else
        var name := first[1];
        if !CheckIncludeGuardName(name) then BadGuardName(name)
        else if |second| != 2 || second[0] != "#define" || second[1] != name then BadDefine(name)
        else if |last| != 4 || last[0] != "#endif" || last[1] != "/*" || last[2] != name || last[3] != "*/" then BadEndif(name)
        else GuardOk
  }

  /** `lines` open and close with the canonical guard of a well-formed `name`. */
  predicate GuardedBy(lines: seq<string>, name: string) {
    |lines| >= 3 && CheckIncludeGuardName(name) && ' ' !in name &&
    lines[0] == IfndefLine(name) && lines[1] == DefineLine(name) && lines[|lines| - 1] == EndifLine(name)
  }

  lemma EndifJoin(name: string)
    ensures Join(["#endif", "/*", name, "*/"], ' ') == EndifLine(name)
  {
    var parts := ["#endif", "/*", name, "*/"];
    assert parts[1..][1..][1..] == ["*/"];
    assert Join(parts[1..][1..], ' ') == name + " */";
    assert Join(parts[1..], ' ') == "/* " + name + " */";
  }

  /** Every well-named guard written in the canonical shape is accepted. */
  lemma CanonicalGuardAccepted(name: string, body: seq<string>)
    requires CheckIncludeGuardName(name) && ' ' !in name
    ensures CheckIncludeGuard([IfndefLine(name), DefineLine(name)] + body + [EndifLine(name)]) == GuardOk
  {
    var lines := [IfndefLine(name), DefineLine(name)] + body + [EndifLine(name)];
    assert Join(["#ifndef", name], ' ') == lines[0];
    assert Join(["#define", name], ' ') == lines[1];
    EndifJoin(name);
    SplitJoin(["#ifndef", name], ' ');
    SplitJoin(["#define", name], ' ');
    SplitJoin(["#endif", "/*", name, "*/"], ' ');
  }

  /** Only that shape is accepted: an accepted file starts and ends with the canonical lines. */
  lemma AcceptedGuardIsCanonical(lines: seq<string>)
    requires CheckIncludeGuard(lines) == GuardOk
    ensures exists name :: GuardedBy(lines, name)
  {
    var name := Split(lines[0], ' ')[1];
    JoinSplit(lines[0], ' ');
    JoinSplit(lines[1], ' ');
    JoinSplit(lines[|lines| - 1], ' ');
    assert Split(lines[0], ' ') == ["#ifndef", name];
    assert Split(lines[1], ' ') == ["#define", name];
    assert Split(lines[|lines| - 1], ' ') == ["#endif", "/*", name, "*/"];
    EndifJoin(name);
    assert GuardedBy(lines, name);
  }

  /** A guard whose name has a lower-case letter is reported as a bad name. */
  lemma LowercaseGuardRejected(lines: seq<string>, name: string)
    requires |lines| >= 3 && lines[0] == IfndefLine(name)
    requires ' ' !in name && HasLower(name)
    ensures CheckIncludeGuard(lines) == BadGuardName(name)
  {
    assert Join(["#ifndef", name], ' ') == lines[0];
    SplitJoin(["#ifndef", name], ' ');
  }

  /**
   * No leading comment is skipped: a header whose first line opens a
   * comment is reported as missing its `#ifndef`.
   */
  lemma LeadingCommentNotSkipped(lines: seq<string>)
    requires |lines| >= 3 && |lines[0]| >= 2 && lines[0][..2] == "/*"
    ensures CheckIncludeGuard(lines) == MissingIfndef
  {
    var first := Split(lines[0], ' ');
    JoinSplit(lines[0], ' ');
    assert lines[0][0] == '/';
    if first[0] != [] {
      assert first[0][0] == '/';
    }
  }

  // ---------------------------------------------------------------------
  // The comment scan, as a fold
  // ---------------------------------------------------------------------

  /** A message of the comment scan, carrying the 1-based line number. */
  datatype Violation = BlockCommentInBody(line: nat) | LineCommentOutside(line: nat)

  /**
   * The scanner's variables: brace depth, the block-comment flag, the previous
   * character of the current line (`None` for Python's '') and the messages so far.
   */
  datatype Scan = Scan(depth: int, inBlock: bool, prev: Option<char>, violations: seq<Violation>)

  const Start: Scan := Scan(0, false, None, [])

  predicate IsPrefix<T(==)>(a: seq<T>, b: seq<T>) {
    |a| <= |b| && b[..|a|] == a
  }

  /** One character of line `index`. */
  function Step(s: Scan, c: char, index: nat, cfg: Config): (t: Scan)
    ensures t.prev == Some(c)
    ensures IsPrefix(s.violations, t.violations)
  {
    if c == '{' then s.(depth := s.depth + 1, prev := Some(c))
    else if c == '}' then s.(depth := s.depth - 1, prev := Some(c))
    else if cfg.checkComments && s.prev == Some('*') && c == '/' then
      s.(inBlock := false, prev := Some(c))
    else if cfg.checkComments && s.prev == Some('/') then
      var inBlock := if c == '*' then true else s.inBlock;
      var openMsg := if c == '*' && s.depth > 0 then [BlockCommentInBody(index + 1)] else [];
      var line := if !inBlock && s.depth == 0 && c == '/' then [LineCommentOutside(index + 1)] else [];
      s.(inBlock := inBlock, prev := Some(c), violations := s.violations + openMsg + line)
    else s.(prev := Some(c))
  }

  /** The characters `cs` of line `index`, in order. */
  function ScanChars(s: Scan, cs: string, index: nat, cfg: Config): (t: Scan)
    ensures t.prev == if cs == [] then s.prev else Some(cs[|cs| - 1])
    ensures IsPrefix(s.violations, t.violations)
    decreases |cs|
  {
    if cs == [] then s
    else Step(ScanChars(s, cs[..|cs| - 1], index, cfg), cs[|cs| - 1], index, cfg)
  }

  /** Line `index`: the previous character starts out empty on every line. */
  function ScanLine(s: Scan, line: string, index: nat, cfg: Config): Scan {
    ScanChars(s.(prev := None), line, index, cfg)
  }

  /** All lines, in order, from depth 0 outside any comment. */
  function ScanLines(lines: seq<string>, cfg: Config): Scan {
    if lines == [] then Start
    else ScanLine(ScanLines(lines[..|lines| - 1], cfg), lines[|lines| - 1], |lines| - 1, cfg)
  }

  /** Scanning one more line continues from the state the earlier lines left. */
  lemma ScanLinesStep(lines: seq<string>, i: nat, cfg: Config)
    requires i < |lines|
    ensures ScanLines(lines[..i + 1], cfg) == ScanChars(ScanLines(lines[..i], cfg).(prev := None), lines[i], i, cfg)
  {
    assert lines[..i + 1][..i] == lines[..i];
  }

  /** The scanner's state just before character `k` of line `i`. */
  function StateBefore(lines: seq<string>, i: nat, k: nat, cfg: Config): Scan
    requires i < |lines| && k <= |lines[i]|
  {
    ScanChars(ScanLines(lines[..i], cfg).(prev := None), lines[i][..k], i, cfg)
  }

  // ---------------------------------------------------------------------
  // What the scan computes
  // ---------------------------------------------------------------------

  function CharBalance(cs: string): int
    decreases |cs|
  {
    if cs == [] then 0
    else
      var c := cs[|cs| - 1];
      CharBalance(cs[..|cs| - 1]) + (if c == '{' then 1 else if c == '}' then -1 else 0)
  }

  /** Number of `{` minus number of `}` over all lines. */
  function BraceBalance(lines: seq<string>): int {
    if lines == [] then 0 else BraceBalance(lines[..|lines| - 1]) + CharBalance(lines[|lines| - 1])
  }

  lemma {:induction false} ScanCharsDepth(s: Scan, cs: string, index: nat, cfg: Config)
    ensures ScanChars(s, cs, index, cfg).depth == s.depth + CharBalance(cs)
    decreases |cs|
  {
    if cs != [] {
      ScanCharsDepth(s, cs[..|cs| - 1], index, cfg);
    }
  }

  /**
   * The depth counts every brace, whether or not it sits in a comment: after
   * the whole file it is the number of `{` minus the number of `}`.
   */
  lemma {:induction false} DepthIsBraceBalance(lines: seq<string>, cfg: Config)
    ensures ScanLines(lines, cfg).depth == BraceBalance(lines)
  {
    if lines != [] {
      DepthIsBraceBalance(lines[..|lines| - 1], cfg);
      ScanCharsDepth(ScanLines(lines[..|lines| - 1], cfg).(prev := None), lines[|lines| - 1], |lines| - 1, cfg);
    }
  }

  /** A line without `/` leaves the block-comment flag as it found it, so a comment spans lines. */
  lemma {:induction false} BlockFlagCarriesAcrossLines(s: Scan, line: string, index: nat, cfg: Config)
    requires '/' !in line
    ensures ScanLine(s, line, index, cfg).inBlock == s.inBlock
  {
    ScanCharsNoSlash(s.(prev := None), line, index, cfg);
  }

  lemma {:induction false} ScanCharsNoSlash(s: Scan, cs: string, index: nat, cfg: Config)
    requires '/' !in cs && s.prev != Some('/')
    ensures ScanChars(s, cs, index, cfg).inBlock == s.inBlock
    decreases |cs|
  {
    if cs != [] {
      assert cs[|cs| - 1] in cs;
      assert forall j :: 0 <= j < |cs| - 1 ==> cs[..|cs| - 1][j] == cs[j];
      ScanCharsNoSlash(s, cs[..|cs| - 1], index, cfg);
    }
  }

  /**
   * Violation `v` is reported at character `k` of `cs`: comment checking is on,
   * the previous character is `/`, and either `*` opens a comment inside braces
   * or `/` starts a line comment at depth 0 outside a block comment.
   */
  predicate JustifiedAt(s: Scan, cs: string, index: nat, cfg: Config, v: Violation, k: int) {
    0 <= k < |cs| && cfg.checkComments && v.line == index + 1 &&
    var st := ScanChars(s, cs[..k], index, cfg);
    st.prev == Some('/') &&
    (v.BlockCommentInBody? ==> cs[k] == '*' && st.depth > 0) &&
    (v.LineCommentOutside? ==> cs[k] == '/' && st.depth == 0 && !st.inBlock)
  }

  /** The same, at character `k` of line `i` of a file. */
  predicate Justified(lines: seq<string>, cfg: Config, v: Violation, i: int, k: int) {
    0 <= i < |lines| && JustifiedAt(ScanLines(lines[..i], cfg).(prev := None), lines[i], i, cfg, v, k)
  }

  lemma StepEmits(s: Scan, c: char, index: nat, cfg: Config, v: Violation)
    ensures v in Step(s, c, index, cfg).violations <==>
      v in s.violations ||
      (cfg.checkComments && s.prev == Some('/') && v.line == index + 1 &&
       (v.BlockCommentInBody? ==> c == '*' && s.depth > 0) &&
       (v.LineCommentOutside? ==> c == '/' && s.depth == 0 && !s.inBlock))
  {
  }

  lemma {:induction false} ScanCharsPrefix(s: Scan, cs: string, k: nat, index: nat, cfg: Config)
    requires k <= |cs|
    ensures IsPrefix(ScanChars(s, cs[..k], index, cfg).violations, ScanChars(s, cs, index, cfg).violations)
    decreases |cs|
  {
    if k < |cs| {
      assert cs[..|cs| - 1][..k] == cs[..k];
      ScanCharsPrefix(s, cs[..|cs| - 1], k, index, cfg);
    } else {
      assert cs[..k] == cs;
    }
  }

  lemma {:induction false} ScanLinesPrefix(lines: seq<string>, i: nat, cfg: Config)
    requires i <= |lines|
    ensures IsPrefix(ScanLines(lines[..i], cfg).violations, ScanLines(lines, cfg).violations)
    decreases |lines|
  {
    if i < |lines| {
      assert lines[..|lines| - 1][..i] == lines[..i];
      ScanLinesPrefix(lines[..|lines| - 1], i, cfg);
    } else {
      assert lines[..i] == lines;
    }
  }

  /** Positions before the last character are justified alike in `cs` and in `cs` without its last character. */
  lemma JustifiedAtInit(s: Scan, cs: string, index: nat, cfg: Config, v: Violation)
    requires cs != []
    ensures forall k :: k < |cs| - 1 ==>
      (JustifiedAt(s, cs, index, cfg, v, k) <==> JustifiedAt(s, cs[..|cs| - 1], index, cfg, v, k))
  {
    forall k | 0 <= k < |cs| - 1
      ensures JustifiedAt(s, cs, index, cfg, v, k) <==> JustifiedAt(s, cs[..|cs| - 1], index, cfg, v, k)
    {
      assert cs[..|cs| - 1][..k] == cs[..k];
    }
  }

  /** Reports of one line are exactly its justified positions. */
  lemma {:induction false} ScanCharsExact(s: Scan, cs: string, index: nat, cfg: Config, v: Violation)
    ensures v in ScanChars(s, cs, index, cfg).violations <==>
      v in s.violations || exists k :: JustifiedAt(s, cs, index, cfg, v, k)
    decreases |cs|
  {
    if cs == [] {
    } else {
      var n := |cs| - 1;
      var init := cs[..n];
      var st := ScanChars(s, init, index, cfg);
      ScanCharsExact(s, init, index, cfg, v);
      StepEmits(st, cs[n], index, cfg, v);
      JustifiedAtInit(s, cs, index, cfg, v);
      assert ScanChars(s, cs, index, cfg) == Step(st, cs[n], index, cfg);
      assert JustifiedAt(s, cs, index, cfg, v, n) <==>
        cfg.checkComments && st.prev == Some('/') && v.line == index + 1 &&
        (v.BlockCommentInBody? ==> cs[n] == '*' && st.depth > 0) &&
        (v.LineCommentOutside? ==> cs[n] == '/' && st.depth == 0 && !st.inBlock);
      if v in st.violations && v !in s.violations {
        var k :| JustifiedAt(s, init, index, cfg, v, k);
        assert JustifiedAt(s, cs, index, cfg, v, k);
      }
      if exists k :: JustifiedAt(s, cs, index, cfg, v, k) {
        var k :| JustifiedAt(s, cs, index, cfg, v, k);
        if k < n {
          assert JustifiedAt(s, init, index, cfg, v, k);
        }
      }
    }
  }

  /**
   * Soundness and completeness of the comment rules: `v` is reported for a
   * file exactly when it is justified at some character of some line.
   */
  lemma {:induction false} ViolationsExactly(lines: seq<string>, cfg: Config, v: Violation)
    ensures v in ScanLines(lines, cfg).violations <==> exists i, k :: Justified(lines, cfg, v, i, k)
    decreases |lines|
  {
    if lines != [] {
      var n := |lines| - 1;
      var init := lines[..n];
      ViolationsExactly(init, cfg, v);
      ScanCharsExact(ScanLines(init, cfg).(prev := None), lines[n], n, cfg, v);
      forall i, k | 0 <= i < n
        ensures Justified(lines, cfg, v, i, k) <==> Justified(init, cfg, v, i, k)
      {
        assert init[..i] == lines[..i];
      }
      assert lines[..n] == init;
      if v in ScanLines(lines, cfg).violations {
        if v in ScanLines(init, cfg).violations {
          var i, k :| Justified(init, cfg, v, i, k);
          assert Justified(lines, cfg, v, i, k);
        } else {
          var k :| JustifiedAt(ScanLines(init, cfg).(prev := None), lines[n], n, cfg, v, k);
          assert Justified(lines, cfg, v, n, k);
        }
      }
      if exists i, k :: Justified(lines, cfg, v, i, k) {
        var i, k :| Justified(lines, cfg, v, i, k);
        if i < n {
          assert Justified(init, cfg, v, i, k);
        }
      }
    }
  }

  /** A block comment opened inside braces is reported with its line number. */
  lemma BlockCommentInBodyReported(lines: seq<string>, i: nat, k: nat, cfg: Config)
    requires cfg.checkComments && i < |lines| && 1 <= k < |lines[i]|
    requires lines[i][k - 1] == '/' && lines[i][k] == '*'
    requires StateBefore(lines, i, k, cfg).depth > 0
    ensures BlockCommentInBody(i + 1) in ScanLines(lines, cfg).violations
  {
    assert lines[i][..k][k - 1] == '/';
    assert Justified(lines, cfg, BlockCommentInBody(i + 1), i, k);
    ViolationsExactly(lines, cfg, BlockCommentInBody(i + 1));
  }

  /** A `//` at depth 0 outside a block comment is reported with its line number. */
  lemma LineCommentOutsideReported(lines: seq<string>, i: nat, k: nat, cfg: Config)
    requires cfg.checkComments && i < |lines| && 1 <= k < |lines[i]|
    requires lines[i][k - 1] == '/' && lines[i][k] == '/'
    requires StateBefore(lines, i, k, cfg).depth == 0 && !StateBefore(lines, i, k, cfg).inBlock
    ensures LineCommentOutside(i + 1) in ScanLines(lines, cfg).violations
  {
    assert lines[i][..k][k - 1] == '/';
    assert Justified(lines, cfg, LineCommentOutside(i + 1), i, k);
    ViolationsExactly(lines, cfg, LineCommentOutside(i + 1));
  }

  /** Characters `k - 1` and `k` of line `i` are `//`, met at depth 0. */
  predicate LineCommentAtTopLevel(lines: seq<string>, cfg: Config, i: int, k: int) {
    0 <= i < |lines| && 1 <= k < |lines[i]| &&
    lines[i][k - 1] == '/' && lines[i][k] == '/' && StateBefore(lines, i, k, cfg).depth == 0
  }

  /**
   * A `//` comment inside braces is never reported: every reported line
   * comment sits at depth 0, right after a `/` on the same line.
   */
  lemma LineCommentReportedOnlyAtTopLevel(lines: seq<string>, cfg: Config, line: nat)
    requires LineCommentOutside(line) in ScanLines(lines, cfg).violations
    ensures exists i, k :: LineCommentAtTopLevel(lines, cfg, i, k) && line == i + 1
  {
    ViolationsExactly(lines, cfg, LineCommentOutside(line));
    var i, k :| Justified(lines, cfg, LineCommentOutside(line), i, k);
    assert k != 0;
    assert lines[i][..k][k - 1] == lines[i][k - 1];
    assert StateBefore(lines, i, k, cfg) == ScanChars(ScanLines(lines[..i], cfg).(prev := None), lines[i][..k], i, cfg);
    assert LineCommentAtTopLevel(lines, cfg, i, k);
  }

  /** With comment checking off, nothing is ever reported. */
  lemma CommentsOffReportsNothing(lines: seq<string>, cfg: Config)
    requires !cfg.checkComments
    ensures ScanLines(lines, cfg).violations == []
  {
    if ScanLines(lines, cfg).violations != [] {
      var v := ScanLines(lines, cfg).violations[0];
      ViolationsExactly(lines, cfg, v);
    }
  }

  // ---------------------------------------------------------------------
  // The script's procedures
  // ---------------------------------------------------------------------

  predicate IsHeaderName(fileName: string) {
    EndsWith(fileName, ".h") || EndsWith(fileName, ".hpp")
  }

  /** The guard message `process_file` prints, if any. */
  function GuardReport(fileName: string, lines: seq<string>, cfg: Config): Option<GuardResult> {
    if IsHeaderName(fileName) && cfg.checkIncludeGuards && CheckIncludeGuard(lines) != GuardOk
    then Some(CheckIncludeGuard(lines)) else None
  }

  /** A file passes when the comment scan reports nothing; the guard check does not count. */
  predicate FileCorrect(raw: seq<string>, cfg: Config) {
    ScanLines(RStripAll(raw), cfg).violations == []
  }

  /**
   * The inner loop of `process_file` over the characters of line `index`,
   * starting with no previous character.
   */
  method ScanLineChars(counter0: int, inBlock0: bool, correct0: bool, violations0: seq<Violation>,
                  line: string, index: nat, cfg: Config)
    returns (counter: int, inBlock: bool, prev: Option<char>, correct: bool, violations: seq<Violation>)
    requires correct0 <==> violations0 == []
    ensures Scan(counter, inBlock, prev, violations) == ScanChars(Scan(counter0, inBlock0, None, violations0), line, index, cfg)
    ensures correct <==> violations == []
  {
    counter, inBlock, prev, correct, violations := counter0, inBlock0, None, correct0, violations0;
    ghost var s0 := Scan(counter0, inBlock0, None, violations0);
    var j := 0;
    while j < |line|
      invariant 0 <= j <= |line|
      invariant Scan(counter, inBlock, prev, violations) == ScanChars(s0, line[..j], index, cfg)
      invariant correct <==> violations == []
    {
      var c := line[j];
      ghost var before := Scan(counter, inBlock, prev, violations);
      if c == '{' {
        counter := counter + 1;
      } else if c == '}' {
        counter := counter - 1;
      } else if cfg.checkComments && prev == Some('*') && c == '/' {
        inBlock := false;
      } else if cfg.checkComments && prev == Some('/') {
        if c == '*' {
          inBlock := true;
          if counter > 0 {
            correct := false;
            violations := violations + [BlockCommentInBody(index + 1)];
          }
        }
        if !inBlock && counter == 0 && c == '/' {
          correct := false;
          violations := violations + [LineCommentOutside(index + 1)];
        }
      }
      prev := Some(c);
      assert Scan(counter, inBlock, prev, violations) == Step(before, c, index, cfg);
      assert line[..j + 1][..j] == line[..j];
      j := j + 1;
    }
    assert line[..j] == line;
  }

  /**
   * `process_file` on the raw lines of a file: strips trailing whitespace,
   * checks the guard of a header (its result is only printed), then scans
   * every character; `correct` drops to false with the first message.
   */
  method ProcessFile(fileName: string, raw: seq<string>, cfg: Config)
    returns (correct: bool, guardReport: Option<GuardResult>, violations: seq<Violation>)
    ensures guardReport == GuardReport(fileName, RStripAll(raw), cfg)
    ensures violations == ScanLines(RStripAll(raw), cfg).violations
    ensures correct <==> FileCorrect(raw, cfg)
  {
    var lines := RStripAll(raw);
    guardReport := None;
    if EndsWith(fileName, ".h") || EndsWith(fileName, ".hpp") {
      if cfg.checkIncludeGuards {
        var r := CheckIncludeGuard(lines);
        if r != GuardOk {
          guardReport := Some(r);
        }
      }
    }
    var counter := 0;
    var inBlock := false;
    correct := true;
    violations := [];
    ghost var lastPrev: Option<char> := None;
    var index := 0;
    while index < |lines|
      invariant 0 <= index <= |lines|
      invariant Scan(counter, inBlock, lastPrev, violations) == ScanLines(lines[..index], cfg)
      invariant correct <==> violations == []
    {
      ScanLinesStep(lines, index, cfg);
      var prev;
      counter, inBlock, prev, correct, violations := ScanLineChars(counter, inBlock, correct, violations, lines[index], index, cfg);
      lastPrev := prev;
      index := index + 1;
    }
    assert lines[..index] == lines;
  }

  /** The exit status of `main` and what it reports for every file. */
  datatype FileReport = FileReport(guard: Option<GuardResult>, violations: seq<Violation>)

  /** What `process_file` reports for the file `fileName` with the raw lines `raw`. */
  function ExpectedReport(fileName: string, raw: seq<string>, cfg: Config): FileReport {
    FileReport(GuardReport(fileName, RStripAll(raw), cfg), ScanLines(RStripAll(raw), cfg).violations)
  }

  /** `reports` holds what `process_file` reports for the first files, in order. */
  predicate ReportsMatch(reports: seq<FileReport>, argv: seq<string>, contents: seq<seq<string>>, cfg: Config)
    requires |reports| <= |contents| && |contents| == |argv| - 1
  {
    forall j :: 0 <= j < |reports| ==> reports[j] == ExpectedReport(argv[j + 1], contents[j], cfg)
  }

  lemma ReportsMatchExtend(reports: seq<FileReport>, argv: seq<string>, contents: seq<seq<string>>, cfg: Config, r: FileReport)
    requires |reports| < |contents| && |contents| == |argv| - 1
    requires ReportsMatch(reports, argv, contents, cfg)
    requires r == ExpectedReport(argv[|reports| + 1], contents[|reports|], cfg)
    ensures ReportsMatch(reports + [r], argv, contents, cfg)
  {
    forall j | 0 <= j < |reports| + 1
      ensures (reports + [r])[j] == ExpectedReport(argv[j + 1], contents[j], cfg)
    {
      if j < |reports| {
        assert (reports + [r])[j] == reports[j];
      }
    }
  }

  /** The first `n` files all pass. */
  predicate AllCorrect(contents: seq<seq<string>>, n: int, cfg: Config)
    requires 0 <= n <= |contents|
  {
    forall j :: 0 <= j < n ==> FileCorrect(contents[j], cfg)
  }

  /**
   * `main(argv)`: `contents[i]` is the text of the file named `argv[i + 1]`.
   * Fewer than two arguments is a usage error (status 2); otherwise every
   * file is processed and the status is 1 when any of them fails, else 0.
   */
  method RunChecker(argv: seq<string>, contents: seq<seq<string>>, cfg: Config)
    returns (status: int, reports: seq<FileReport>)
    requires |argv| >= 1 && |contents| == |argv| - 1
    ensures |argv| < 2 ==> status == 2 && reports == []
    ensures |argv| >= 2 ==> |reports| == |contents|
    ensures |argv| >= 2 ==>
      (status == 1 <==> exists i :: 0 <= i < |contents| && !FileCorrect(contents[i], cfg))
    ensures |argv| >= 2 ==> (status == 0 || status == 1)
    ensures |reports| <= |contents| && ReportsMatch(reports, argv, contents, cfg)
  {
    if |argv| < 2 {
      return 2, [];
    }
    var correct := true;
    reports := [];
    var i := 0;
    while i < |contents|
      invariant 0 <= i <= |contents| && |reports| == i
      invariant correct <==> AllCorrect(contents, i, cfg)
      invariant ReportsMatch(reports, argv, contents, cfg)
    {
      var ok, guard, violations := ProcessFile(argv[i + 1], contents[i], cfg);
      ReportsMatchExtend(reports, argv, contents, cfg, FileReport(guard, violations));
      reports := reports + [FileReport(guard, violations)];
      if !ok {
        correct := false;
      }
      i := i + 1;
    }
    status := if correct then 0 else 1;
  }
}
