/** The `.env` parser of parser.go: statement search, key extraction, value
    extraction and the driver loop. Each step has a specification function;
    the steps that parser.go writes as index loops are also methods, each
    proved to compute its specification function. */
module Parser {
  import opened Common
  import opened Text
  import opened Expand

  /** The parser's two error kinds, carrying the offending fragment in place
      of Go's formatted message. */
  datatype ParseError =
    | UnexpectedChar(bad: char, near: string)  // parser.go:115-117
    | ZeroLength                                 // parser.go:121-123
    | Unterminated(line: string)                 // parser.go:211

  /** A value, its inline comment and the rest of the buffer. */
  datatype Extracted = Extracted(value: string, comment: string, rest: string)

  /** What the driver leaves behind: the value map, the comment map (None
      when the caller passed nil) and the error, if any. */
  datatype Outcome = Outcome(out: map<string, string>, comments: Option<map<string, string>>, err: Option<ParseError>)

  // ---------------------------------------------------------------------
  // Line endings
  // ---------------------------------------------------------------------

  /** `bytes.Replace(src, "\r\n", "\n", -1)` (parser.go:25), scanning left to
      right without overlap. */
  function NormalizeNewlines(s: string): (r: string)
    ensures |r| <= |s|
    decreases |s|
  {
    if |s| >= 2 && s[0] == '\r' && s[1] == '\n' then "\n" + NormalizeNewlines(s[2..])
    else if s == [] then []
    else [s[0]] + NormalizeNewlines(s[1..])
  }

  /** A buffer without CRLF pairs is left as it is. */
  lemma {:induction false} NormalizeWithoutCRLF(s: string)
    requires forall i :: 0 <= i < |s| - 1 ==> !(s[i] == '\r' && s[i + 1] == '\n')
    ensures NormalizeNewlines(s) == s
    decreases |s|
  {
    if s != [] {
      NormalizeWithoutCRLF(s[1..]);
    }
  }

  /** `s` with every carriage return that a line feed follows removed: the
      CRLF pairs of a buffer never overlap, so this is what replacing each of
      them by LF leaves. */
  function DropCRBeforeLF(s: string): string
    decreases |s|
  {
    if s == [] then []
    else (if s[0] == '\r' && |s| > 1 && s[1] == '\n' then [] else [s[0]]) + DropCRBeforeLF(s[1..])
  }

  /** Normalising removes exactly the carriage returns of CRLF pairs. */
  lemma {:induction false} NormalizeIsDropCRBeforeLF(s: string)
    ensures NormalizeNewlines(s) == DropCRBeforeLF(s)
    decreases |s|
  {
    if |s| >= 2 && s[0] == '\r' && s[1] == '\n' {
      NormalizeIsDropCRBeforeLF(s[2..]);
      var t := s[1..];
      assert t[0] == '\n' && t[1..] == s[2..];
      assert DropCRBeforeLF(t) == "\n" + DropCRBeforeLF(s[2..]);
      assert DropCRBeforeLF(s) == [] + DropCRBeforeLF(t);
    } else if s != [] {
      NormalizeIsDropCRBeforeLF(s[1..]);
    }
  }

  // ---------------------------------------------------------------------
  // Statement start
  // ---------------------------------------------------------------------

  predicate NotUnicodeSpace(c: char) {
    !UnicodeIsSpace(c)
  }

  predicate IsNewline(c: char) {
    c == '\n'
  }

  /** `indexOfNonSpaceChar` (parser.go:252-256). */
  function IndexOfNonSpaceChar(src: string): (r: Option<nat>)
    ensures r.Some? ==> r.value < |src| && !UnicodeIsSpace(src[r.value])
    ensures forall j :: 0 <= j < |src| && (r.None? || j < r.value) ==> UnicodeIsSpace(src[j])
  {
    IndexWhere(src, NotUnicodeSpace)
  }

  /** `getStatementStart` (parser.go:62-80): skip whitespace (line feeds
      included) and whole comment lines; None once nothing is left. */
  function StatementStart(src: string): (r: Option<string>)
    ensures r.Some? ==> IsSuffixOf(r.value, src) && |r.value| > 0
    ensures r.Some? ==> !UnicodeIsSpace(r.value[0]) && r.value[0] != '#'
    decreases |src|
  {
    match IndexOfNonSpaceChar(src)
    case None => None
    case Some(pos) =>
      var s := src[pos..];
      if s[0] != '#' then Some(s)
      else
        match IndexWhere(s, IsNewline)
        case None => None
        case Some(nl) =>
          var r := StatementStart(s[nl..]);
          assert r.Some? ==> IsSuffixOf(r.value, src) by {
            if r.Some? {
              SuffixTransitive(r.value, s[nl..], s);
              SuffixTransitive(r.value, s, src);
            }
          }
          r
  }

  /** Character `j` of `s` lies on a line after a `#`. */
  ghost predicate InComment(s: string, j: int)
    requires 0 <= j < |s|
  {
    exists i :: 0 <= i <= j && s[i] == '#' && forall k :: i <= k <= j ==> s[k] != '\n'
  }

  /** The first `n` characters of `s` are whitespace or comment text. */
  ghost predicate Skippable(s: string, n: int)
    requires 0 <= n <= |s|
  {
    forall j :: 0 <= j < n ==> UnicodeIsSpace(s[j]) || InComment(s, j)
  }

  lemma InCommentShift(s: string, off: nat, j: nat)
    requires off + j < |s| && InComment(s[off..], j)
    ensures InComment(s, off + j)
  {
    var t := s[off..];
    var i :| 0 <= i <= j && t[i] == '#' && forall k :: i <= k <= j ==> t[k] != '\n';
    assert s[off + i] == '#';
    forall k | off + i <= k <= off + j
      ensures s[k] != '\n'
    {
      assert s[k] == t[k - off];
    }
  }

  /** A `#` followed by no line feed up to `end` makes a comment of all of it. */
  lemma CommentRun(src: string, pos: nat, end: nat)
    requires pos < end <= |src| && src[pos] == '#'
    requires forall k :: pos <= k < end ==> src[k] != '\n'
    ensures forall j :: pos <= j < end ==> InComment(src, j)
  {
    forall j | pos <= j < end
      ensures InComment(src, j)
    {
      assert forall k :: pos <= k <= j ==> src[k] != '\n';
    }
  }

  /** What is skippable in a suffix is skippable in place. */
  lemma SkippableShift(src: string, off: nat, stop: nat)
    requires off + stop <= |src| && Skippable(src[off..], stop)
    ensures forall j :: off <= j < off + stop ==> UnicodeIsSpace(src[j]) || InComment(src, j)
  {
    forall j | off <= j < off + stop
      ensures UnicodeIsSpace(src[j]) || InComment(src, j)
    {
      assert src[j] == src[off..][j - off];
      if !UnicodeIsSpace(src[j]) {
        InCommentShift(src, off, j - off);
      }
    }
  }

  /** A comment never reaches past a line feed. */
  lemma CommentStopsAtNewline(src: string, off: nat, p: nat)
    requires off <= p < |src| && src[off] == '\n'
    ensures InComment(src, p) ==> InComment(src[off..], p - off)
  {
    var t := src[off..];
    if InComment(src, p) {
      var i :| 0 <= i <= p && src[i] == '#' && forall k :: i <= k <= p ==> src[k] != '\n';
      assert i > off;
      assert t[i - off] == '#';
      forall k | i - off <= k <= p - off ensures t[k] != '\n' {
        assert t[k] == src[k + off];
      }
    }
  }

  /** A character that is neither whitespace nor `#`, reached over whitespace
      only, is outside every comment. */
  lemma FirstTextNotInComment(src: string, pos: nat)
    requires pos < |src| && src[pos] != '#'
    requires forall j :: 0 <= j < pos ==> UnicodeIsSpace(src[j])
    ensures !InComment(src, pos)
  {
  }

  /** `r` leaves only whitespace and comments behind in `src`: all of it
      when `r` is None, and otherwise everything before `r`, which does not
      itself start inside a comment. */
  ghost predicate SkipsOnlyBlanks(src: string, r: Option<string>) {
    match r
    case None => Skippable(src, |src|)
    case Some(rest) => 0 < |rest| <= |src| && Skippable(src, |src| - |rest|) && !InComment(src, |src| - |rest|)
  }

  /** Skipping a comment line keeps `SkipsOnlyBlanks` once the rest of the
      buffer after its line feed has it. */
  lemma SkipCommentLine(src: string, pos: nat, off: nat, r: Option<string>)
    requires pos < off < |src| && src[pos] == '#' && src[off] == '\n'
    requires forall j :: 0 <= j < pos ==> UnicodeIsSpace(src[j])
    requires forall k :: pos <= k < off ==> src[k] != '\n'
    requires SkipsOnlyBlanks(src[off..], r)
    ensures SkipsOnlyBlanks(src, r)
  {
    var t := src[off..];
    CommentRun(src, pos, off);
    var stop := if r.Some? then |t| - |r.value| else |t|;
    SkippableShift(src, off, stop);
    if r.Some? {
      CommentStopsAtNewline(src, off, off + stop);
    }
  }

  /** What `getStatementStart` skips is whitespace and comments, and the
      statement it returns is not itself inside a comment; None means the
      whole buffer is whitespace and comments. */
  lemma {:induction false} StatementStartSkipsOnlyBlanks(src: string)
    ensures SkipsOnlyBlanks(src, StatementStart(src))
    decreases |src|
  {
    match IndexOfNonSpaceChar(src)
    case None =>
    case Some(pos) =>
      var s := src[pos..];
      if s[0] != '#' {
        FirstTextNotInComment(src, pos);
      } else {
        match IndexWhere(s, IsNewline)
        case None =>
          forall k | pos <= k < |src| ensures src[k] != '\n' {
            assert src[k] == s[k - pos];
          }
          CommentRun(src, pos, |src|);
        case Some(nl) =>
          var off := pos + nl;
          assert s[nl..] == src[off..];
          forall k | pos <= k < off ensures src[k] != '\n' {
            assert src[k] == s[k - pos];
          }
          StatementStartSkipsOnlyBlanks(src[off..]);
          SkipCommentLine(src, pos, off, StatementStart(src[off..]));
      }
  }

  // ---------------------------------------------------------------------
  // Key name
  // ---------------------------------------------------------------------

  /** `[A-Za-z0-9_.]`, the characters a key may hold besides whitespace
      (parser.go:108-113). */
  predicate IsKeyChar(c: char) {
    IsLetter(c) || IsNumber(c) || c == '_' || c == '.'
  }

  /** `=` or `:` ends a key (parser.go:103). */
  predicate IsDelimiter(c: char) {
    c == '=' || c == ':'
  }

  /** A character that stops the key scan: a delimiter or a bad character. */
  predicate StopsKey(c: char) {
    !IsSpace(c) && !IsKeyChar(c)
  }

  /** Leading whitespace is dropped, then `export` when whitespace follows
      it, with that whitespace (parser.go:84-91). */
  function StripExport(src: string): (r: string)
    ensures IsSuffixOf(r, src)
    ensures r == [] || !IsSpace(r[0])
  {
    var s := TrimLeftBy(src, IsSpace);
    if |s| > 6 && s[..6] == "export" && IsSpace(s[6]) then
      var r := TrimLeftBy(s[6..], IsSpace);
      SuffixTransitive(r, s[6..], s);
      SuffixTransitive(r, s, src);
      r
    else s
  }

  /** `export` and the whitespace after it are dropped when whitespace
      follows the word. */
  lemma StripExportDropsPrefix(src: string, w: string, t: string)
    requires TrimLeftBy(src, IsSpace) == "export" + (w + t)
    requires w != [] && forall i :: 0 <= i < |w| ==> IsSpace(w[i])
    requires t == [] || !IsSpace(t[0])
    ensures StripExport(src) == t
  {
    var s := TrimLeftBy(src, IsSpace);
    SplitAfter(s, "export", w + t);
    assert s[6] == w[0];
    TrimLeftRun(w, t, IsSpace);
  }

  /** The two halves of a concatenation. */
  lemma SplitAfter(s: string, a: string, b: string)
    requires s == a + b
    ensures s[..|a|] == a && s[|a|..] == b
  {
  }

  /** Any other text, such as `exportFOO=1`, `export=1`, a bare `export` or
      `export` before a line feed, keeps its `export`. */
  lemma StripExportKeepsOther(src: string)
    requires var s := TrimLeftBy(src, IsSpace);
      !(|s| > 6 && s[..6] == "export" && IsSpace(s[6]))
    ensures StripExport(src) == TrimLeftBy(src, IsSpace)
  {
  }

  /** `locateKeyName` (parser.go:83-129): the key and the left-trimmed text
      after its delimiter; key "" when the text holds no delimiter. */
  function LocateKey(src: string): (r: Result<(string, string), ParseError>)
    ensures r.Ok? ==> IsSuffixOf(r.value.1, src)
    ensures r.Ok? && r.value.0 != "" ==> |r.value.1| < |src|
  {
    var s := StripExport(src);
    match IndexWhere(s, StopsKey)
    case Some(j) =>
      if IsDelimiter(s[j]) then
        var key := TrimRightBy(s[..j], UnicodeIsSpace);
        var cut := TrimLeftBy(s[j + 1..], IsSpace);
        SuffixTransitive(cut, s[j + 1..], s);
        SuffixTransitive(cut, s, src);
        Ok((key, cut))
      else Err(UnexpectedChar(s[j], s))
    case None =>
      if s == [] then Err(ZeroLength)
      else
        var cut := TrimLeftBy(s, IsSpace);
        SuffixTransitive(cut, s, src);
        Ok(("", cut))
  }

  /** The key is the text before the first delimiter, after `export`, with
      trailing whitespace removed, and the rest is what follows that
      delimiter; a bad character before any delimiter is reported with the
      text it was found in. */
  lemma LocateKeyAtFirstDelimiter(src: string, j: nat)
    requires var s := StripExport(src);
      j < |s| && IsDelimiter(s[j]) && forall i :: 0 <= i < j ==> IsKeyChar(s[i]) || IsSpace(s[i])
    ensures var s := StripExport(src);
      LocateKey(src) == Ok((TrimRightBy(s[..j], UnicodeIsSpace), TrimLeftBy(s[j + 1..], IsSpace)))
  {
    var s := StripExport(src);
    assert StopsKey(s[j]) by { assert IsDelimiter(s[j]); }
    IndexWhereIsFirst(s, StopsKey, j);
    assert IndexWhere(s, StopsKey) == Some(j);
  }

  /** A character outside the key alphabet ahead of every delimiter is an
      error naming that character. */
  lemma LocateKeyRejectsBadChar(src: string, j: nat)
    requires var s := StripExport(src);
      j < |s| && StopsKey(s[j]) && !IsDelimiter(s[j]) && forall i :: 0 <= i < j ==> !StopsKey(s[i])
    ensures LocateKey(src) == Err(UnexpectedChar(StripExport(src)[j], StripExport(src)))
  {
    IndexWhereIsFirst(StripExport(src), StopsKey, j);
  }

  /** Text made only of key characters and whitespace, with no delimiter,
      has the empty key; an empty remainder after `export` is an error. */
  lemma LocateKeyWithoutDelimiter(src: string)
    requires forall i :: 0 <= i < |StripExport(src)| ==> !StopsKey(StripExport(src)[i])
    ensures StripExport(src) == [] ==> LocateKey(src) == Err(ZeroLength)
    ensures StripExport(src) != [] ==> LocateKey(src) == Ok(("", TrimLeftBy(StripExport(src), IsSpace)))
  {
    IndexWhereIsNone(StripExport(src), StopsKey);
  }

  /** A located key holds only key characters and inner whitespace, starts
      and ends with a key character, and the text after it starts with no
      whitespace. */
  lemma LocateKeyShape(src: string)
    requires LocateKey(src).Ok?
    ensures var (key, cut) := LocateKey(src).value;
      && (forall i :: 0 <= i < |key| ==> IsKeyChar(key[i]) || IsSpace(key[i]))
      && (key != "" ==> IsKeyChar(key[0]) && IsKeyChar(key[|key| - 1]))
      && (cut == [] || !IsSpace(cut[0]))
  {
    var s := StripExport(src);
    match IndexWhere(s, StopsKey)
    case Some(j) =>
      KeyBeforeStop(s, j);
    case None =>
  }

  /** The key cut from `s` before a stopping character at `j`. */
  lemma KeyBeforeStop(s: string, j: nat)
    requires j <= |s| && (s == [] || !IsSpace(s[0]))
    requires forall i :: 0 <= i < j ==> !StopsKey(s[i])
    ensures var key := TrimRightBy(s[..j], UnicodeIsSpace);
      && (forall i :: 0 <= i < |key| ==> IsKeyChar(key[i]) || IsSpace(key[i]))
      && (key != "" ==> IsKeyChar(key[0]) && IsKeyChar(key[|key| - 1]))
  {
    var t := s[..j];
    var key := TrimRightBy(t, UnicodeIsSpace);
    forall i | 0 <= i < |key|
      ensures key[i] == s[i]
    {
      assert key[i] == t[i];
    }
  }

  /** `locateKeyName` as the loop parser.go writes. */
  method LocateKeyName(src: string) returns (r: Result<(string, string), ParseError>)
    ensures r == LocateKey(src)
  {
    var s := StripExport(src);
    var key := "";
    var offset := 0;
    var i := 0;
    var found := false;
    while i < |s| && !found
      invariant 0 <= i <= |s|
      invariant forall k :: 0 <= k < i ==> !StopsKey(s[k])
      invariant found ==> offset == i + 1 && i < |s| && IsDelimiter(s[i]) && key == s[..i]
      invariant !found ==> key == "" && offset == 0
      decreases |s| - i, !found
    {
      var c := s[i];
      if IsSpace(c) {
        i := i + 1;
      } else if c == '=' || c == ':' {
        key := s[..i];
        offset := i + 1;
        found := true;
      } else if c == '_' || IsLetter(c) || IsNumber(c) || c == '.' {
        i := i + 1;
      } else {
        LocateKeyRejectsBadChar(src, i);
        return Err(UnexpectedChar(c, s));
      }
    }
    if |s| == 0 {
      LocateKeyWithoutDelimiter(src);
      return Err(ZeroLength);
    }
    if found {
      LocateKeyAtFirstDelimiter(src, i);
    } else {
      LocateKeyWithoutDelimiter(src);
      assert s[offset..] == s;
    }
    key := TrimRightBy(key, UnicodeIsSpace);
    r := Ok((key, TrimLeftBy(s[offset..], IsSpace)));
  }

  // ---------------------------------------------------------------------
  // Value
  // ---------------------------------------------------------------------

  /** `findEndOfLine` (parser.go:215-223): the first line feed or carriage
      return, or the length. */
  function EndOfLine(src: string): (r: nat)
    ensures r <= |src|
    ensures r < |src| ==> IsLineEnd(src[r])
    ensures forall j :: 0 <= j < r ==> !IsLineEnd(src[j])
  {
    match IndexWhere(src, IsLineEnd)
    case Some(i) => i
    case None => |src|
  }

  /** A `#` that starts an inline comment: preceded by whitespace. */
  predicate IsMarker(line: string, i: int) {
    0 < i < |line| && line[i] == '#' && IsSpace(line[i - 1])
  }

  function EndOfVarFrom(line: string, i: nat): (r: nat)
    requires i <= |line|
    ensures r <= |line|
    ensures r < |line| ==> IsMarker(line, r) && forall j :: r < j < i ==> !IsMarker(line, j)
    ensures r == |line| ==> forall j :: 0 <= j < i ==> !IsMarker(line, j)
  {
    if i == 0 then |line|
    else if IsMarker(line, i - 1) then i - 1
    else EndOfVarFrom(line, i - 1)
  }

  /** `findEndOfVar` (parser.go:226-235): the last whitespace-preceded `#`,
      or the length of the line when there is none. */
  function EndOfVar(line: string): (r: nat)
    ensures r <= |line|
    ensures r < |line| ==> IsMarker(line, r) && forall j :: r < j < |line| ==> !IsMarker(line, j)
    ensures r == |line| <==> forall j :: 0 <= j < |line| ==> !IsMarker(line, j)
  {
    EndOfVarFrom(line, |line|)
  }

  /** `findEndOfVar` as the backward loop parser.go writes. */
  method FindEndOfVar(line: string) returns (r: nat)
    ensures r == EndOfVar(line)
  {
    var i := |line| - 1;
    while i >= 0
      invariant -1 <= i < |line|
      invariant forall j :: i < j < |line| ==> !IsMarker(line, j)
    {
      if line[i] == '#' && i > 0 {
        if IsSpace(line[i - 1]) {
          assert IsMarker(line, i);
          return i;
        }
      }
      i := i - 1;
    }
    return |line|;
  }

  /** The text after the comment marker at `e`, trimmed, when there is any. */
  function CommentAfter(src: string, e: nat, eol: nat): string
    requires eol <= |src|
  {
    if eol > e + 1 then TrimSpace(src[e + 1..eol]) else ""
  }

  /** The marker `m` is the last one on the line. */
  predicate IsLastMarker(line: string, m: int) {
    IsMarker(line, m) && forall j :: m < j < |line| ==> !IsMarker(line, j)
  }

  /** `extractUnquotedValue` (parser.go:142-167). */
  function ExtractUnquoted(src: string, vars: map<string, string>): (r: Extracted)
    ensures IsSuffixOf(r.rest, src)
  {
    var eol := EndOfLine(src);
    var (value, comment) := UnquotedLine(src[..eol], vars);
    Extracted(value, comment, src[eol..])
  }

  /** The value and the comment read from the first line of an unquoted
      value. A line that starts with `#` and has no other marker is all
      comment. */
  function UnquotedLine(line: string, vars: map<string, string>): (string, string) {
    var e := EndOfVar(line);
    var whole := |line| > 0 && e == |line| && line[0] == '#';
    var comment := if whole then TrimSpace(line[1..]) else if |line| > e + 1 then TrimSpace(line[e + 1..]) else "";
    (ExpandVariables(UnquotedTrimmed(line), vars), comment)
  }

  /** The value of an unquoted line before variables are expanded. */
  function UnquotedTrimmed(line: string): string {
    var e := EndOfVar(line);
    if |line| > 0 && e == |line| && line[0] == '#' then "" else TrimBy(line[..e], IsSpace)
  }

  /** The value is the text before the last whitespace-preceded `#`, trimmed
      and then expanded; the comment is the trimmed text after it. */
  lemma UnquotedLineAtMarker(line: string, vars: map<string, string>, m: nat)
    requires IsLastMarker(line, m)
    ensures UnquotedLine(line, vars) == (ExpandVariables(TrimBy(line[..m], IsSpace), vars), TrimSpace(line[m + 1..]))
  {
    assert EndOfVar(line) == m by {
      assert IsMarker(line, m);
    }
    if |line| == m + 1 {
      assert line[m + 1..] == [];
    }
  }

  /** Without a marker the whole line is the value, unless it starts with
      `#`, in which case it is all comment. */
  lemma UnquotedLineWithoutMarker(line: string, vars: map<string, string>)
    requires forall j :: 0 <= j < |line| ==> !IsMarker(line, j)
    ensures UnquotedLine(line, vars) ==
      if line != [] && line[0] == '#' then ("", TrimSpace(line[1..]))
      else (ExpandVariables(TrimBy(line, IsSpace), vars), "")
  {
    assert EndOfVar(line) == |line|;
    assert line[..|line|] == line;
  }

  /** An unquoted value ends at the first line feed or carriage return, and
      its value and comment are split at the last marker `m` of that line. */
  lemma UnquotedAtLastMarker(src: string, vars: map<string, string>, m: nat)
    requires IsLastMarker(src[..EndOfLine(src)], m)
    ensures ExtractUnquoted(src, vars).value == ExpandVariables(TrimBy(src[..m], IsSpace), vars)
    ensures ExtractUnquoted(src, vars).comment == TrimSpace(src[m + 1..EndOfLine(src)])
    ensures ExtractUnquoted(src, vars).rest == src[EndOfLine(src)..]
  {
    var line := src[..EndOfLine(src)];
    UnquotedLineAtMarker(line, vars, m);
    assert line[..m] == src[..m];
    assert line[m + 1..] == src[m + 1..EndOfLine(src)];
  }

  /** An unquoted value without a marker on its line: the whole line, or all
      comment when the line starts with `#`. */
  lemma UnquotedWithoutMarker(src: string, vars: map<string, string>)
    requires forall j :: 0 <= j < EndOfLine(src) ==> !IsMarker(src[..EndOfLine(src)], j)
    ensures var r := ExtractUnquoted(src, vars);
      var line := src[..EndOfLine(src)];
      && r.rest == src[EndOfLine(src)..]
      && if line != [] && line[0] == '#' then r.value == "" && r.comment == TrimSpace(line[1..])
         else r.value == ExpandVariables(TrimBy(line, IsSpace), vars) && r.comment == ""
  {
    UnquotedLineWithoutMarker(src[..EndOfLine(src)], vars);
  }

  /** `UnquotedLine` on the first line of `src`, with the slices taken from
      `src` as parser.go takes them. */
  lemma UnquotedLineInSource(src: string, vars: map<string, string>, eol: nat, e: nat, trimmed: string, comment: string, r: Extracted)
    requires eol == EndOfLine(src) && e == EndOfVar(src[..eol])
    requires var line := src[..eol];
      if |line| > 0 && e == eol && line[0] == '#' then
        trimmed == "" && comment == TrimSpace(line[1..eol])
      else
        trimmed == TrimBy(line[..e], IsSpace) && comment == if eol > e + 1 then TrimSpace(src[e + 1..eol]) else ""
    requires r == Extracted(ExpandVariables(trimmed, vars), comment, src[eol..])
    ensures r == ExtractUnquoted(src, vars)
  {
    var line := src[..eol];
    if eol > 0 {
      SliceToEnd(line, 1);
    }
    if eol > e + 1 {
      SliceOfPrefix(src, e + 1, eol);
    }
  }

  /** `extractUnquotedValue` as parser.go writes it, calling the loop. */
  method ExtractUnquotedValue(src: string, vars: map<string, string>) returns (r: Extracted)
    ensures r == ExtractUnquoted(src, vars)
  {
    var eol := EndOfLine(src);
    var line := src[..eol];
    var e := FindEndOfVar(line);
    var trimmed := "";
    var comment := "";
    if |line| > 0 && e == eol && line[0] == '#' {
      comment := TrimSpace(line[1..eol]);
    } else {
      trimmed := TrimBy(line[..e], IsSpace);
      if eol > e + 1 {
        comment := TrimSpace(src[e + 1..eol]);
      }
    }
    r := Extracted(ExpandVariables(trimmed, vars), comment, src[eol..]);
    UnquotedLineInSource(src, vars, eol, e, trimmed, comment, r);
  }

  predicate IsQuote(c: char) {
    c == '"' || c == '\''
  }

  /** `hasQuotePrefix` (parser.go:259-270). */
  function QuotePrefix(src: string): (r: Option<char>)
    ensures r.Some? <==> |src| > 0 && IsQuote(src[0])
    ensures r.Some? ==> r.value == src[0]
  {
    if |src| > 0 && IsQuote(src[0]) then Some(src[0]) else None
  }

  /** Index `i` holds the quote `q` and no backslash precedes it. */
  predicate ClosesAt(src: string, q: char, i: int) {
    1 <= i < |src| && src[i] == q && src[i - 1] != '\\'
  }

  function ClosingQuoteFrom(src: string, q: char, i: nat): (r: Option<nat>)
    requires 1 <= i <= |src|
    ensures r.Some? ==> i <= r.value && ClosesAt(src, q, r.value) && forall j :: i <= j < r.value ==> !ClosesAt(src, q, j)
    ensures r.None? ==> forall j :: i <= j < |src| ==> !ClosesAt(src, q, j)
    decreases |src| - i
  {
    if i == |src| then None
    else if src[i] == q && src[i - 1] != '\\' then Some(i)
    else ClosingQuoteFrom(src, q, i + 1)
  }

  /** The first unescaped occurrence of `q` after index 0. */
  function ClosingQuote(src: string, q: char): (r: Option<nat>)
    requires |src| > 0
    ensures r.Some? ==> ClosesAt(src, q, r.value) && forall j :: 0 <= j < r.value ==> !ClosesAt(src, q, j)
    ensures r.None? ==> forall j :: 0 <= j < |src| ==> !ClosesAt(src, q, j)
  {
    ClosingQuoteFrom(src, q, 1)
  }

  /** `isCharFunc`: the predicate that matches one character. */
  function IsChar(q: char): char -> bool {
    c => c == q
  }

  /** `src[0:i]` with the quote character trimmed from both ends
      (parser.go:180-181). */
  function QuotedValue(s: string, q: char): string {
    TrimLeftBy(TrimRightBy(s, IsChar(q)), IsChar(q))
  }

  /** `extractQuotedValue` (parser.go:170-211). The comment is looked for on
      the first line of `src`, which starts at the opening quote. */
  function ExtractQuoted(src: string, vars: map<string, string>, q: char): (r: Result<Extracted, ParseError>)
    requires |src| > 0 && src[0] == q && IsQuote(q)
    ensures r.Ok? ==> IsSuffixOf(r.value.rest, src) && |r.value.rest| < |src|
  {
    match ClosingQuote(src, q)
    case None => Err(Unterminated(src[..EndOfLine(src)]))
    case Some(i) => Ok(QuotedAt(src, vars, q, i))
  }

  /** The unterminated-value error happens exactly when no closing quote
      exists, and it carries the first line; otherwise the rest starts just
      after the first closing quote. */
  lemma ExtractQuotedOutcome(src: string, vars: map<string, string>, q: char)
    requires |src| > 0 && src[0] == q && IsQuote(q)
    ensures var r := ExtractQuoted(src, vars, q);
      && (r.Err? <==> forall i :: 0 <= i < |src| ==> !ClosesAt(src, q, i))
      && (r.Err? ==> r.error == Unterminated(src[..EndOfLine(src)]))
      && (r.Ok? ==> var i := |src| - |r.value.rest| - 1;
            ClosesAt(src, q, i) && forall j :: 0 <= j < i ==> !ClosesAt(src, q, j))
  {
    var c := ClosingQuote(src, q);
    if c.None? {
      QuotedOutcomeNone(src, vars, q);
    } else {
      QuotedOutcomeSome(src, vars, q, c.value);
    }
  }

  /** Without a closer the value is unterminated. */
  lemma QuotedOutcomeNone(src: string, vars: map<string, string>, q: char)
    requires |src| > 0 && src[0] == q && IsQuote(q)
    requires ClosingQuote(src, q) == None
    ensures ExtractQuoted(src, vars, q) == Err(Unterminated(src[..EndOfLine(src)]))
    ensures forall i :: 0 <= i < |src| ==> !ClosesAt(src, q, i)
  {
  }

  /** With the first closer at `i` the rest starts after it. */
  lemma QuotedOutcomeSome(src: string, vars: map<string, string>, q: char, i: nat)
    requires |src| > 0 && src[0] == q && IsQuote(q)
    requires ClosingQuote(src, q) == Some(i)
    ensures ExtractQuoted(src, vars, q).Ok?
    ensures |src| - |ExtractQuoted(src, vars, q).value.rest| - 1 == i
    ensures ClosesAt(src, q, i) && forall j :: 0 <= j < i ==> !ClosesAt(src, q, j)
  {
    QuotedOutcomeAt(src, vars, q, i);
  }

  /** What `extractQuotedValue` returns once the closing quote is at `i`. */
  function QuotedAt(src: string, vars: map<string, string>, q: char, i: nat): (r: Extracted)
    requires i < |src|
    ensures r.rest == src[i + 1..]
  {
    var raw := QuotedValue(src[..i], q);
    var eol := EndOfLine(src);
    var e := EndOfVar(src[..eol]);
    var value := if q == '"' then ExpandVariables(ExpandEscapes(raw), vars) else raw;
    Extracted(value, CommentAfter(src, e, eol), src[i + 1..])
  }

  /** The text between the opening quote and the first closing one at `i`,
      except that a quote escaped just before the closing one is trimmed away
      with it. */
  function QuotedContent(src: string, q: char, i: nat): string
    requires 1 <= i <= |src|
  {
    if i == 1 then "" else if src[i - 1] == q then src[1..i - 1] else src[1..i]
  }

  lemma {:induction false} QuotedValueIsContent(src: string, q: char, i: nat)
    requires |src| > 0 && src[0] == q && IsQuote(q)
    requires ClosesAt(src, q, i) && forall j :: 0 <= j < i ==> !ClosesAt(src, q, j)
    ensures QuotedValue(src[..i], q) == QuotedContent(src, q, i)
  {
    var s := src[..i];
    if i == 1 {
      TrimRightOne(s, IsChar(q));
    } else if src[i - 1] == q {
      assert !ClosesAt(src, q, i - 1);
      TrimRightOne(s, IsChar(q));
      assert !ClosesAt(src, q, 1);
      TrimLeftOne(s[..i - 1], IsChar(q));
      assert s[..i - 1] == src[..i - 1];
      assert s[..i - 1][1..] == src[1..i - 1];
    } else {
      TrimRightStops(s, IsChar(q));
      assert !ClosesAt(src, q, 1);
      TrimLeftOne(s, IsChar(q));
      assert s[1..] == src[1..i];
    }
  }

  /** Single quotes keep the content as it is; double quotes decode escapes
      and then expand variables. The rest starts after the closing quote. */
  lemma QuotedValueContent(src: string, vars: map<string, string>, q: char, i: nat)
    requires |src| > 0 && src[0] == q && IsQuote(q)
    requires ClosesAt(src, q, i) && forall j :: 0 <= j < i ==> !ClosesAt(src, q, j)
    ensures var content := QuotedContent(src, q, i);
      && ExtractQuoted(src, vars, q).Ok?
      && ExtractQuoted(src, vars, q).value.rest == src[i + 1..]
      && ExtractQuoted(src, vars, q).value.comment == CommentAfter(src, EndOfVar(src[..EndOfLine(src)]), EndOfLine(src))
      && ExtractQuoted(src, vars, q).value.value ==
           if q == '"' then ExpandVariables(DecodeEscapes(content), vars) else content
  {
    FirstCloser(src, q, i);
    QuotedOutcomeAt(src, vars, q, i);
    QuotedValueIsContent(src, q, i);
    ExpandEscapesIsDecode(QuotedContent(src, q, i));
  }

  /** A whitespace-preceded `#` between the quotes still starts a comment:
      the comment is searched for on the line that begins at the opening
      quote, so it takes in the closing quote and is never empty. */
  lemma QuotedHashYieldsComment(src: string, vars: map<string, string>, q: char, i: nat, m: nat)
    requires |src| > 0 && src[0] == q && IsQuote(q)
    requires ClosesAt(src, q, i) && forall j :: 0 <= j < i ==> !ClosesAt(src, q, j)
    requires IsLastMarker(src[..EndOfLine(src)], m) && m < i < EndOfLine(src)
    ensures ExtractQuoted(src, vars, q).Ok?
    ensures ExtractQuoted(src, vars, q).value.comment == TrimSpace(src[m + 1..EndOfLine(src)])
    ensures ExtractQuoted(src, vars, q).value.comment != ""
  {
    FirstCloser(src, q, i);
    QuotedOutcomeAt(src, vars, q, i);
    assert !UnicodeIsSpace(src[i]) by {
      assert src[i] == '"' || src[i] == '\'';
    }
    CommentAtMarker(src, EndOfLine(src), m, i);
  }

  /** The comment after the last marker `m` of a line, when a character
      that is not whitespace follows the marker at `k`. */
  lemma CommentAtMarker(src: string, eol: nat, m: nat, k: nat)
    requires eol <= |src| && IsLastMarker(src[..eol], m)
    requires m < k < eol && !UnicodeIsSpace(src[k])
    ensures CommentAfter(src, EndOfVar(src[..eol]), eol) == TrimSpace(src[m + 1..eol])
    ensures TrimSpace(src[m + 1..eol]) != ""
  {
    LastMarkerEndsVar(src[..eol], m);
    var tail := src[m + 1..eol];
    assert tail[k - m - 1] == src[k];
    NotBlankAt(tail, k - m - 1);
  }

  /** `ClosingQuote` finds the first closer. */
  lemma FirstCloser(src: string, q: char, i: nat)
    requires |src| > 0
    requires ClosesAt(src, q, i) && forall j :: 0 <= j < i ==> !ClosesAt(src, q, j)
    ensures ClosingQuote(src, q) == Some(i)
  {
  }

  /** The quoted value's outcome once the closer at `i` is known. */
  lemma QuotedOutcomeAt(src: string, vars: map<string, string>, q: char, i: nat)
    requires |src| > 0 && src[0] == q && IsQuote(q)
    requires ClosingQuote(src, q) == Some(i)
    ensures ExtractQuoted(src, vars, q) == Ok(QuotedAt(src, vars, q, i))
  {
  }

  /** `findEndOfVar` finds the last marker. */
  lemma LastMarkerEndsVar(line: string, m: nat)
    requires IsLastMarker(line, m)
    ensures EndOfVar(line) == m
  {
    assert IsMarker(line, m);
  }

  /** Text with a character that is not whitespace trims to something. */
  lemma NotBlankAt(s: string, k: nat)
    requires k < |s| && !UnicodeIsSpace(s[k])
    ensures TrimSpace(s) != ""
  {
    TrimSpaceEmptyIffBlank(s);
  }

  /** `extractQuotedValue` as the loop parser.go writes. */
  method ExtractQuotedValue(src: string, vars: map<string, string>, q: char) returns (r: Result<Extracted, ParseError>)
    requires |src| > 0 && src[0] == q && IsQuote(q)
    ensures r == ExtractQuoted(src, vars, q)
  {
    var i := 1;
    while i < |src|
      invariant 1 <= i <= |src|
      invariant forall j :: 0 <= j < i ==> !ClosesAt(src, q, j)
    {
      if src[i] == q && src[i - 1] != '\\' {
        assert ClosesAt(src, q, i);
        assert ClosingQuote(src, q) == Some(i);
        assert ExtractQuoted(src, vars, q) == Ok(QuotedAt(src, vars, q, i));
        var value := QuotedValue(src[..i], q);
        var eol := EndOfLine(src);
        var e := FindEndOfVar(src[..eol]);
        var comment := CommentAfter(src, e, eol);
        if q == '"' {
          value := ExpandVariables(ExpandEscapes(value), vars);
        }
        return Ok(Extracted(value, comment, src[i + 1..]));
      }
      i := i + 1;
    }
    assert ClosingQuote(src, q) == None;
    assert ExtractQuoted(src, vars, q) == Err(Unterminated(src[..EndOfLine(src)]));
    return Err(Unterminated(src[..EndOfLine(src)]));
  }

  /** `extractVarValue` (parser.go:132-139). */
  function ExtractValue(src: string, vars: map<string, string>): (r: Result<Extracted, ParseError>)
    ensures r.Ok? ==> IsSuffixOf(r.value.rest, src)
    ensures r.Err? ==> |src| > 0 && IsQuote(src[0])
  {
    match QuotePrefix(src)
    case None =>
      var x := ExtractUnquoted(src, vars);
      assert IsSuffixOf(x.rest, src);
      Ok(x)
    case Some(q) =>
      assert |src| > 0 && q == src[0] && IsQuote(q);
      var x := ExtractQuoted(src, vars, q);
      assert x.Ok? ==> IsSuffixOf(x.value.rest, src);
      x
  }

  /** `extractVarValue` as parser.go writes it, calling the loops. */
  method ExtractVarValue(src: string, vars: map<string, string>) returns (r: Result<Extracted, ParseError>)
    ensures r == ExtractValue(src, vars)
  {
    var quote := QuotePrefix(src);
    if quote.None? {
      var x := ExtractUnquotedValue(src, vars);
      return Ok(x);
    }
    r := ExtractQuotedValue(src, vars, quote.value);
  }

  // ---------------------------------------------------------------------
  // Driver
  // ---------------------------------------------------------------------

  /** The comment map after a statement: written only when the caller asked
      for comments and the comment is non-empty (parser.go:51-53). */
  function RecordComment(comments: Option<map<string, string>>, key: string, comment: string): (r: Option<map<string, string>>)
    ensures r.Some? <==> comments.Some?
    ensures comments.Some? ==> r.value.Keys == comments.value.Keys + (if comment != "" then {key} else {})
    ensures comments.Some? && comment != "" ==> r.value[key] == comment
    ensures comments.Some? ==> forall k :: k in comments.value && (k != key || comment == "") ==> r.value[k] == comments.value[k]
  {
    if comments.Some? && |comment| > 0 then Some(comments.value[key := comment]) else comments
  }

  /** One pass of the loop of parser.go:27-54 leaves a strictly shorter
      suffix of the buffer. */
  lemma StepShrinks(cutset: string, stmt: string, key: string, left: string, x: Extracted, vars: map<string, string>)
    requires StatementStart(cutset) == Some(stmt)
    requires LocateKey(stmt) == Ok((key, left)) && key != ""
    requires ExtractValue(left, vars) == Ok(x)
    ensures IsSuffixOf(x.rest, cutset) && |x.rest| < |cutset|
  {
    SuffixTransitive(x.rest, left, stmt);
    SuffixTransitive(x.rest, stmt, cutset);
  }

  /** The loop of `parseBytesWithComments` (parser.go:27-56) from the
      remaining buffer `cutset`. Values are looked up in `out` as it stands
      before the current key is assigned. */
  function ParseFrom(cutset: string, out: map<string, string>, comments: Option<map<string, string>>): (r: Outcome)
    ensures out.Keys <= r.out.Keys
    ensures r.comments.Some? <==> comments.Some?
    ensures comments.Some? ==> comments.value.Keys <= r.comments.value.Keys <= comments.value.Keys + r.out.Keys
    decreases |cutset|
  {
    match StatementStart(cutset)
    case None => Outcome(out, comments, None)
    case Some(stmt) =>
      match LocateKey(stmt)
      case Err(e) => Outcome(out, comments, Some(e))
      case Ok((key, left)) =>
        if key == "" then Outcome(out, comments, None)
        else
          match ExtractValue(left, out)
          case Err(e) => Outcome(out, comments, Some(e))
          case Ok(x) =>
            StepShrinks(cutset, stmt, key, left, x, out);
            var next := RecordComment(comments, key, x.comment);
            var r := ParseFrom(x.rest, out[key := x.value], next);
            StepKeys(out, comments, key, x, r);
            r
  }

  /** The key sets after one statement and the rest of the buffer. */
  lemma StepKeys(out: map<string, string>, comments: Option<map<string, string>>, key: string, x: Extracted, r: Outcome)
    requires out[key := x.value].Keys <= r.out.Keys
    requires var next := RecordComment(comments, key, x.comment);
      && (r.comments.Some? <==> next.Some?)
      && (next.Some? ==> next.value.Keys <= r.comments.value.Keys <= next.value.Keys + r.out.Keys)
    ensures out.Keys <= r.out.Keys
    ensures r.comments.Some? <==> comments.Some?
    ensures comments.Some? ==> comments.value.Keys <= r.comments.value.Keys <= comments.value.Keys + r.out.Keys
  {
    assert key in r.out.Keys;
  }

  /** `parseBytesWithComments` (parser.go:24-57) as a function of the buffer
      and the two maps it fills. */
  function Parse(src: string, out: map<string, string>, comments: Option<map<string, string>>): (r: Outcome)
    ensures out.Keys <= r.out.Keys
    ensures r.comments.Some? <==> comments.Some?
  {
    ParseFrom(NormalizeNewlines(src), out, comments)
  }

  /** The value map only feeds the expansion of values: whether a value
      parses, its comment and the text after it do not depend on it. */
  lemma ExtractValueIgnoresVars(src: string, a: map<string, string>, b: map<string, string>)
    ensures ExtractValue(src, a).Ok? == ExtractValue(src, b).Ok?
    ensures ExtractValue(src, a).Err? ==> ExtractValue(src, a) == ExtractValue(src, b)
    ensures ExtractValue(src, a).Ok? ==>
      && ExtractValue(src, a).value.comment == ExtractValue(src, b).value.comment
      && ExtractValue(src, a).value.rest == ExtractValue(src, b).value.rest
  {
    match QuotePrefix(src)
    case None =>
      assert ExtractValue(src, a) == Ok(ExtractUnquoted(src, a));
      assert ExtractValue(src, b) == Ok(ExtractUnquoted(src, b));
    case Some(q) =>
      match ClosingQuote(src, q)
      case None =>
        assert ExtractValue(src, a) == ExtractQuoted(src, a, q) == Err(Unterminated(src[..EndOfLine(src)]));
        assert ExtractValue(src, b) == ExtractQuoted(src, b, q) == Err(Unterminated(src[..EndOfLine(src)]));
      case Some(i) =>
        QuotedOutcomeAt(src, a, q, i);
        QuotedOutcomeAt(src, b, q, i);
  }

  /** Two parses of the same buffer from different maps meet the same
      statements: they end with the same error, add the same keys and, from
      the same comment map, record the same comments. */
  lemma {:induction false} ParseFromAnyMap(cutset: string, a: map<string, string>, b: map<string, string>,
                                           ca: Option<map<string, string>>, cb: Option<map<string, string>>)
    ensures ParseFrom(cutset, a, ca).err == ParseFrom(cutset, b, cb).err
    ensures ParseFrom(cutset, a, ca).out.Keys + b.Keys == ParseFrom(cutset, b, cb).out.Keys + a.Keys
    ensures ca == cb ==> ParseFrom(cutset, a, ca).comments == ParseFrom(cutset, b, cb).comments
    decreases |cutset|
  {
    var start := StatementStart(cutset);
    if start.None? {
      assert ParseFrom(cutset, a, ca) == Outcome(a, ca, None);
      assert ParseFrom(cutset, b, cb) == Outcome(b, cb, None);
      UnionSwap(a.Keys, b.Keys);
    } else {
      var stmt := start.value;
      var located := LocateKey(stmt);
      if located.Err? {
        ParseStopsAtKeyError(cutset, a, ca, stmt);
        ParseStopsAtKeyError(cutset, b, cb, stmt);
        UnionSwap(a.Keys, b.Keys);
      } else {
        var (key, left) := located.value;
        if key == "" {
          ParseStopsAtEmptyKey(cutset, a, ca, stmt, left);
          ParseStopsAtEmptyKey(cutset, b, cb, stmt, left);
          UnionSwap(a.Keys, b.Keys);
        } else {
          ExtractValueIgnoresVars(left, a, b);
          var xa, xb := ExtractValue(left, a), ExtractValue(left, b);
          if xa.Err? {
            ParseStopsAtValueError(cutset, a, ca, stmt, key, left, xa.error);
            ParseStopsAtValueError(cutset, b, cb, stmt, key, left, xb.error);
            UnionSwap(a.Keys, b.Keys);
          } else {
            var x, y := xa.value, xb.value;
            StepShrinks(cutset, stmt, key, left, x, a);
            ParseAssigns(cutset, a, ca, stmt, key, left, x);
            ParseAssigns(cutset, b, cb, stmt, key, left, y);
            var ca', cb' := RecordComment(ca, key, x.comment), RecordComment(cb, key, y.comment);
            ParseFromAnyMap(x.rest, a[key := x.value], b[key := y.value], ca', cb');
            var ra, rb := ParseFrom(x.rest, a[key := x.value], ca'), ParseFrom(x.rest, b[key := y.value], cb');
            KeysAfterAssign(a, b, key, x.value, y.value, ra.out.Keys, rb.out.Keys);
          }
        }
      }
    }
  }

  lemma UnionSwap(x: set<string>, y: set<string>)
    ensures x + y == y + x
  {
  }

  /** Adding the same key to both maps keeps the two sides of the key
      equation balanced, once both results hold that key. */
  lemma KeysAfterAssign(a: map<string, string>, b: map<string, string>, key: string, u: string, v: string,
                        ka: set<string>, kb: set<string>)
    requires key in ka && key in kb
    requires ka + b[key := v].Keys == kb + a[key := u].Keys
    ensures ka + b.Keys == kb + a.Keys
  {
    assert b[key := v].Keys == b.Keys + {key};
    assert a[key := u].Keys == a.Keys + {key};
  }

  /** What a parse adds to the value map is the set of keys the same parse
      assigns from an empty map, whatever the map held before; its error and
      its comments are those of that parse too. So every comment key is one
      the caller passed in or one the parse assigned. */
  lemma ParseAddsParsedKeys(cutset: string, out: map<string, string>, comments: Option<map<string, string>>)
    ensures var r := ParseFrom(cutset, out, comments);
      var e := ParseFrom(cutset, map[], comments);
      && r.out.Keys == out.Keys + e.out.Keys
      && r.err == e.err
      && r.comments == e.comments
      && (comments.Some? ==> r.comments.value.Keys <= comments.value.Keys + e.out.Keys)
  {
    ParseFromAnyMap(cutset, out, map[], comments, comments);
  }

  /** No comment in the map is empty. */
  predicate NoEmptyComment(comments: Option<map<string, string>>) {
    comments.Some? ==> forall k :: k in comments.value ==> comments.value[k] != ""
  }

  /** One statement never records an empty comment. */
  lemma RecordCommentNeverEmpty(comments: Option<map<string, string>>, key: string, comment: string)
    requires NoEmptyComment(comments)
    ensures NoEmptyComment(RecordComment(comments, key, comment))
  {
  }

  /** Every comment that ends up in the comment map is non-empty, unless it
      was already there. */
  lemma {:induction false} ParseRecordsOnlyNonEmptyComments(cutset: string, out: map<string, string>, comments: Option<map<string, string>>)
    requires NoEmptyComment(comments)
    ensures NoEmptyComment(ParseFrom(cutset, out, comments).comments)
    decreases |cutset|
  {
    match StatementStart(cutset)
    case None =>
    case Some(stmt) =>
      match LocateKey(stmt)
      case Err(e) =>
      case Ok((key, left)) =>
        if key != "" {
          match ExtractValue(left, out)
          case Err(e) =>
          case Ok(x) =>
            StepShrinks(cutset, stmt, key, left, x, out);
            var next := RecordComment(comments, key, x.comment);
            assert ParseFrom(cutset, out, comments) == ParseFrom(x.rest, out[key := x.value], next);
            RecordCommentNeverEmpty(comments, key, x.comment);
            ParseRecordsOnlyNonEmptyComments(x.rest, out[key := x.value], next);
        }
  }

  /** A statement that parsed keeps its key in the value map, whatever the
      rest of the buffer does, a later error included: errors return the map
      built so far. */
  lemma ParsedKeyIsKept(cutset: string, out: map<string, string>, comments: Option<map<string, string>>, key: string, value: string)
    requires StatementStart(cutset).Some?
    requires var stmt := StatementStart(cutset).value;
      LocateKey(stmt).Ok? && LocateKey(stmt).value.0 == key && key != ""
      && ExtractValue(LocateKey(stmt).value.1, out).Ok? && ExtractValue(LocateKey(stmt).value.1, out).value.value == value
    ensures key in ParseFrom(cutset, out, comments).out
  {
  }

  /** A statement with a bad key character ends the parse with that error;
      the maps keep what earlier statements wrote (parser.go:34-37). */
  lemma ParseStopsAtKeyError(cutset: string, out: map<string, string>, comments: Option<map<string, string>>, stmt: string)
    requires StatementStart(cutset) == Some(stmt) && LocateKey(stmt).Err?
    ensures ParseFrom(cutset, out, comments) == Outcome(out, comments, Some(LocateKey(stmt).error))
  {
  }

  /** A statement whose key is empty ends the parse without an error
      (parser.go:39-41). */
  lemma ParseStopsAtEmptyKey(cutset: string, out: map<string, string>, comments: Option<map<string, string>>, stmt: string, left: string)
    requires StatementStart(cutset) == Some(stmt) && LocateKey(stmt) == Ok(("", left))
    ensures ParseFrom(cutset, out, comments) == Outcome(out, comments, None)
  {
  }

  /** A value that fails ends the parse with that error; the maps keep what
      earlier statements wrote (parser.go:43-46). */
  lemma ParseStopsAtValueError(cutset: string, out: map<string, string>, comments: Option<map<string, string>>, stmt: string, key: string, left: string, e: ParseError)
    requires StatementStart(cutset) == Some(stmt) && LocateKey(stmt) == Ok((key, left)) && key != ""
    requires ExtractValue(left, out) == Err(e)
    ensures ParseFrom(cutset, out, comments) == Outcome(out, comments, Some(e))
  {
  }

  /** A statement that parses assigns its value to its key, overwriting any
      earlier value, records its comment, and parsing goes on after it; the
      value was expanded against the map as it stood before (parser.go:43-53). */
  lemma ParseAssigns(cutset: string, out: map<string, string>, comments: Option<map<string, string>>, stmt: string, key: string, left: string, x: Extracted)
    requires StatementStart(cutset) == Some(stmt)
    requires LocateKey(stmt) == Ok((key, left)) && key != ""
    requires ExtractValue(left, out) == Ok(x)
    ensures ParseFrom(cutset, out, comments) == ParseFrom(x.rest, out[key := x.value], RecordComment(comments, key, x.comment))
  {
  }

  /** `parseBytesWithComments` as parser.go writes it: a loop over the
      remaining buffer that updates the maps it was handed. The input is
      ASCII so that the rune indices of findEndOfVar are byte indices. */
  method ParseBytesWithComments(src: string, out: map<string, string>, comments: Option<map<string, string>>)
    returns (out': map<string, string>, comments': Option<map<string, string>>, err: Option<ParseError>)
    requires IsAscii(src)
    ensures Outcome(out', comments', err) == Parse(src, out, comments)
  {
    var normalized := NormalizeNewlines(src);
    var cutset := normalized;
    out', comments' := out, comments;
    while true
      invariant IsSuffixOf(cutset, normalized)
      invariant ParseFrom(cutset, out', comments') == ParseFrom(normalized, out, comments)
      decreases |cutset|
    {
      var start := StatementStart(cutset);
      if start.None? {
        return out', comments', None;
      }
      var located := LocateKeyName(start.value);
      if located.Err? {
        return out', comments', Some(located.error);
      }
      var (key, left) := located.value;
      if key == "" {
        return out', comments', None;
      }
      var extracted := ExtractVarValue(left, out');
      if extracted.Err? {
        return out', comments', Some(extracted.error);
      }
      var x := extracted.value;
      StepShrinks(cutset, start.value, key, left, x, out');
      SuffixTransitive(x.rest, cutset, normalized);
      out' := out'[key := x.value];
      comments' := RecordComment(comments', key, x.comment);
      cutset := x.rest;
    }
  }

  /** `parseBytes` (parser.go:20-22): no comment map. */
  method ParseBytes(src: string, out: map<string, string>) returns (out': map<string, string>, err: Option<ParseError>)
    requires IsAscii(src)
    ensures Outcome(out', None, err) == Parse(src, out, None)
  {
    var comments';
    out', comments', err := ParseBytesWithComments(src, out, None);
  }
}
