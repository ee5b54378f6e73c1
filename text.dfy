/** Character classes and the byte-slice helpers of Go's `bytes`, `strings`
    and `unicode` packages that the parser relies on, restricted to one-byte
    characters. */
module Text {
  import opened Common

  /** `isSpace` (parser.go:281-287): tab, vertical tab, form feed, carriage
      return, space, NEL and NBSP; never a line feed. */
  predicate IsSpace(c: char) {
    c == '\t' || c == '\U{0B}' || c == '\U{0C}' || c == '\r' || c == ' ' || c == '\U{85}' || c == '\U{A0}'
  }

  /** `isLineEnd` (parser.go:289-294). */
  predicate IsLineEnd(c: char) {
    c == '\n' || c == '\r'
  }

  /** Go's `unicode.IsSpace` on the Latin-1 range. */
  predicate UnicodeIsSpace(c: char) {
    c == '\t' || c == '\n' || c == '\U{0B}' || c == '\U{0C}' || c == '\r' || c == ' ' || c == '\U{85}' || c == '\U{A0}'
  }

  /** Go's `unicode.IsLetter` on ASCII. */
  predicate IsLetter(c: char) {
    ('A' <= c <= 'Z') || ('a' <= c <= 'z')
  }

  /** Go's `unicode.IsNumber` on ASCII. */
  predicate IsNumber(c: char) {
    '0' <= c <= '9'
  }

  /** Every character fits in one byte of UTF-8, so rune and byte indices agree. */
  predicate IsAscii(s: string) {
    forall i :: 0 <= i < |s| ==> s[i] < '\U{80}'
  }

  /** The parser's own whitespace is Unicode whitespace minus the line feed. */
  lemma IsSpaceIsUnicodeSpaceButNewline(c: char)
    ensures IsSpace(c) <==> UnicodeIsSpace(c) && c != '\n'
    ensures IsLineEnd(c) ==> UnicodeIsSpace(c)
  {
  }

  /** `t` is what remains of `s` after dropping a prefix. */
  predicate IsSuffixOf(t: string, s: string) {
    |t| <= |s| && t == s[|s| - |t|..]
  }

  lemma {:induction false} SuffixTransitive(u: string, t: string, s: string)
    requires IsSuffixOf(u, t) && IsSuffixOf(t, s)
    ensures IsSuffixOf(u, s)
  {
    calc {
      s[|s| - |u|..];
      s[|s| - |t|..][|t| - |u|..];
      t[|t| - |u|..];
    }
  }

  /** Slicing a prefix again is slicing the original. */
  lemma SliceOfPrefix(s: string, i: nat, n: nat)
    requires i <= n <= |s|
    ensures s[..n][i..] == s[i..n]
  {
  }

  /** A slice up to the end is a drop. */
  lemma SliceToEnd(s: string, i: nat)
    requires i <= |s|
    ensures s[i..|s|] == s[i..]
  {
  }

  lemma ConsSplit(a: string, b: string)
    requires a != []
    ensures a + b == [a[0]] + (a[1..] + b)
  {
  }

  /** Reading a Go map at a missing key yields the empty string. */
  function Lookup(m: map<string, string>, k: string): (r: string)
    ensures k in m ==> r == m[k]
    ensures k !in m ==> r == ""
  {
    if k in m then m[k] else ""
  }

  /** `bytes.IndexFunc`: the first index whose character satisfies `p`. */
  function IndexWhere(s: string, p: char -> bool): (r: Option<nat>)
    ensures r.Some? ==> r.value < |s| && p(s[r.value])
    ensures r.Some? ==> forall j :: 0 <= j < r.value ==> !p(s[j])
    ensures r.None? ==> forall j :: 0 <= j < |s| ==> !p(s[j])
    decreases |s|
  {
    if s == [] then None
    else if p(s[0]) then Some(0)
    else match IndexWhere(s[1..], p)
      case None => None
      case Some(i) => Some(i + 1)
  }

  /** The first index satisfying `p` is the one `IndexWhere` reports. */
  lemma IndexWhereIsFirst(s: string, p: char -> bool, i: nat)
    requires i < |s| && p(s[i])
    requires forall j :: 0 <= j < i ==> !p(s[j])
    ensures IndexWhere(s, p) == Some(i)
  {
  }

  /** No index satisfies `p`, so `IndexWhere` reports none. */
  lemma IndexWhereIsNone(s: string, p: char -> bool)
    requires forall j :: 0 <= j < |s| ==> !p(s[j])
    ensures IndexWhere(s, p) == None
  {
  }

  /** `bytes.TrimLeftFunc`. */
  function TrimLeftBy(s: string, p: char -> bool): (r: string)
    ensures IsSuffixOf(r, s)
    ensures r == [] || !p(r[0])
    decreases |s|
  {
    if s != [] && p(s[0]) then
      var r := TrimLeftBy(s[1..], p);
      SuffixTransitive(r, s[1..], s);
      r
    else s
  }

  /** Only characters satisfying `p` are dropped from the left. */
  lemma {:induction false} TrimLeftDropsOnly(s: string, p: char -> bool)
    ensures forall i :: 0 <= i < |s| - |TrimLeftBy(s, p)| ==> p(s[i])
    decreases |s|
  {
    if s != [] && p(s[0]) {
      TrimLeftDropsOnly(s[1..], p);
    }
  }

  /** `bytes.TrimRightFunc`. */
  function TrimRightBy(s: string, p: char -> bool): (r: string)
    ensures r <= s
    ensures r == [] || !p(r[|r| - 1])
    decreases |s|
  {
    if s != [] && p(s[|s| - 1]) then TrimRightBy(s[..|s| - 1], p) else s
  }

  /** Only characters satisfying `p` are dropped from the right. */
  lemma {:induction false} TrimRightDropsOnly(s: string, p: char -> bool)
    ensures forall i :: |TrimRightBy(s, p)| <= i < |s| ==> p(s[i])
    decreases |s|
  {
    if s != [] && p(s[|s| - 1]) {
      TrimRightDropsOnly(s[..|s| - 1], p);
    }
  }

  /** Trimming stops at once when the first character does not match. */
  lemma TrimLeftStops(s: string, p: char -> bool)
    requires s == [] || !p(s[0])
    ensures TrimLeftBy(s, p) == s
  {
  }

  /** Exactly one matching character leads `s`. */
  lemma TrimLeftOne(s: string, p: char -> bool)
    requires |s| >= 1 && p(s[0]) && (|s| == 1 || !p(s[1]))
    ensures TrimLeftBy(s, p) == s[1..]
  {
    TrimLeftStops(s[1..], p);
  }

  /** Trimming stops at once when the last character does not match. */
  lemma TrimRightStops(s: string, p: char -> bool)
    requires s == [] || !p(s[|s| - 1])
    ensures TrimRightBy(s, p) == s
  {
  }

  /** Exactly one matching character ends `s`. */
  lemma TrimRightOne(s: string, p: char -> bool)
    requires |s| >= 1 && p(s[|s| - 1]) && (|s| == 1 || !p(s[|s| - 2]))
    ensures TrimRightBy(s, p) == s[..|s| - 1]
  {
    TrimRightStops(s[..|s| - 1], p);
  }

  /** `strings.TrimFunc`: both ends. */
  function TrimBy(s: string, p: char -> bool): (r: string)
    ensures |r| <= |s|
    ensures r == [] || (!p(r[0]) && !p(r[|r| - 1]))
  {
    TrimRightBy(TrimLeftBy(s, p), p)
  }

  /** `strings.TrimSpace`. */
  function TrimSpace(s: string): string {
    TrimBy(s, UnicodeIsSpace)
  }

  /** Nothing but whitespace. */
  predicate IsBlank(s: string) {
    forall i :: 0 <= i < |s| ==> UnicodeIsSpace(s[i])
  }

  lemma {:induction false} TrimSpaceEmptyIffBlank(s: string)
    ensures TrimSpace(s) == "" <==> IsBlank(s)
  {
    var left := TrimLeftBy(s, UnicodeIsSpace);
    assert TrimSpace(s) == TrimRightBy(left, UnicodeIsSpace);
    if IsBlank(s) {
      TrimLeftAll(s, UnicodeIsSpace);
    } else {
      var i :| 0 <= i < |s| && !UnicodeIsSpace(s[i]);
      TrimLeftDropsOnly(s, UnicodeIsSpace);
      var k := i - (|s| - |left|);
      assert 0 <= k < |left| && left[k] == s[i];
      TrimRightKeeps(left, UnicodeIsSpace, k);
    }
  }

  /** Text made only of matching characters is trimmed away entirely. */
  lemma {:induction false} TrimLeftAll(s: string, p: char -> bool)
    requires forall i :: 0 <= i < |s| ==> p(s[i])
    ensures TrimLeftBy(s, p) == []
    decreases |s|
  {
    if s != [] {
      TrimLeftAll(s[1..], p);
    }
  }

  /** A run of matching characters is trimmed away up to the first one that
      does not match. */
  lemma {:induction false} TrimLeftRun(w: string, t: string, p: char -> bool)
    requires forall i :: 0 <= i < |w| ==> p(w[i])
    requires t == [] || !p(t[0])
    ensures TrimLeftBy(w + t, p) == t
    decreases |w|
  {
    if w == [] {
      assert w + t == t;
    } else {
      assert (w + t)[0] == w[0] && (w + t)[1..] == w[1..] + t;
      TrimLeftRun(w[1..], t, p);
    }
  }

  /** A character that does not match is never trimmed from the right. */
  lemma TrimRightKeeps(s: string, p: char -> bool, k: nat)
    requires k < |s| && !p(s[k])
    ensures TrimRightBy(s, p) != []
  {
    TrimRightDropsOnly(s, p);
  }

  /** ASCII upper-casing of one character (`strings.ToUpper` on ASCII). */
  function ToUpperChar(c: char): char {
    if 'a' <= c <= 'z' then (c as int - 32) as char else c
  }

  /** ASCII lower-casing of one character (`strings.ToLower` on ASCII). */
  function ToLowerChar(c: char): char {
    if 'A' <= c <= 'Z' then (c as int + 32) as char else c
  }

  /** `strings.ToLower` on ASCII, character by character. */
  function ToLower(s: string): (r: string)
    ensures |r| == |s|
    ensures forall i :: 0 <= i < |s| ==> r[i] == ToLowerChar(s[i])
    decreases |s|
  {
    if s == [] then [] else [ToLowerChar(s[0])] + ToLower(s[1..])
  }
}
