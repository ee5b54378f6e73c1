/** The two regular-expression rewrites of the parser (parser.go:237-250 and
    parser.go:296-316), written as deterministic left-to-right scanners that
    take the same leftmost, non-overlapping matches as Go's
    `ReplaceAllString` and `ReplaceAllStringFunc`. */
module Expand {
  import opened Text

  // ---------------------------------------------------------------------
  // Escape decoding for double-quoted values
  // ---------------------------------------------------------------------

  /** First pass, the pattern `\\.` (parser.go:238-248, 297): a backslash and
      any character but a line feed. `\n` becomes a line feed, `\r` a
      carriage return, every other match is kept as it is. */
  function EscapePass(s: string): string
    decreases |s|
  {
    if |s| >= 2 && s[0] == '\\' && s[1] != '\n' then
      (if s[1] == 'n' then "\n" else if s[1] == 'r' then "\r" else s[..2]) + EscapePass(s[2..])
    else if s == [] then []
    else [s[0]] + EscapePass(s[1..])
  }

  /** Second pass, the pattern `\\([^$])` replaced by `$1` (parser.go:249,
      299): a backslash before anything but `$` is dropped. */
  function UnescapePass(s: string): string
    decreases |s|
  {
    if |s| >= 2 && s[0] == '\\' && s[1] != '$' then [s[1]] + UnescapePass(s[2..])
    else if s == [] then []
    else [s[0]] + UnescapePass(s[1..])
  }

  /** `expandEscapes` (parser.go:237-250): the two passes in sequence. */
  function ExpandEscapes(s: string): string {
    UnescapePass(EscapePass(s))
  }

  /** The escape rules read as one scan over backslash pairs: `\n` is a line
      feed, `\r` a carriage return, `\$` stays as it is, and `\X` is `X` for
      every other `X`. A backslash that ends the text is kept. */
  function DecodeEscapes(s: string): string
    decreases |s|
  {
    if |s| >= 2 && s[0] == '\\' then
      (if s[1] == 'n' then "\n"
       else if s[1] == 'r' then "\r"
       else if s[1] == '$' then "\\$"
       else [s[1]]) + DecodeEscapes(s[2..])
    else if s == [] then []
    else [s[0]] + DecodeEscapes(s[1..])
  }

  lemma UnescapePassPlain(c: char, u: string)
    requires c != '\\'
    ensures UnescapePass([c] + u) == [c] + UnescapePass(u)
  {
    assert ([c] + u)[1..] == u;
  }

  lemma UnescapePassPair(d: char, u: string)
    ensures UnescapePass(['\\', d] + u) ==
      (if d == '$' then ['\\', '$'] + UnescapePass(u) else [d] + UnescapePass(u))
  {
    if d == '$' {
      UnescapePassDollar(u);
    } else {
      var t := ['\\', d] + u;
      assert t[2..] == u;
    }
  }

  /** `\$` passes through the second pass untouched. */
  lemma UnescapePassDollar(u: string)
    ensures UnescapePass(['\\', '$'] + u) == ['\\', '$'] + UnescapePass(u)
  {
    var t := ['\\', '$'] + u;
    assert t[1..] == ['$'] + u;
    assert UnescapePass(t) == ['\\'] + UnescapePass(['$'] + u);
    UnescapePassPlain('$', u);
    var x := UnescapePass(u);
    assert ['\\'] + (['$'] + x) == ['\\', '$'] + x;
  }

  /** The two regex passes never interfere: together they are the one-scan
      decoding above. */
  lemma {:induction false} ExpandEscapesIsDecode(s: string)
    ensures ExpandEscapes(s) == DecodeEscapes(s)
    decreases |s|
  {
    if s == [] {
    } else if |s| >= 2 && s[0] == '\\' {
      var t := s[2..];
      ExpandEscapesIsDecode(t);
      if s[1] == '\n' {
        assert s[1..][1..] == t;
        assert EscapePass(s[1..]) == "\n" + EscapePass(t);
        assert EscapePass(s) == ['\\', '\n'] + EscapePass(t);
        UnescapePassPair('\n', EscapePass(t));
      } else if s[1] == 'n' || s[1] == 'r' {
        UnescapePassPlain(if s[1] == 'n' then '\n' else '\r', EscapePass(t));
      } else {
        assert s[..2] == ['\\', s[1]];
        UnescapePassPair(s[1], EscapePass(t));
      }
    } else {
      ExpandEscapesIsDecode(s[1..]);
      if s[0] == '\\' {
        assert s == "\\";
      } else {
        UnescapePassPlain(s[0], EscapePass(s[1..]));
      }
    }
  }

  /** A double backslash protects the letter after it: `\\n` decodes to the
      two characters backslash and `n`, not to a line feed. */
  lemma EscapedBackslashBeforeN()
    ensures ExpandEscapes("\\\\n") == "\\n"
  {
    ExpandEscapesIsDecode("\\\\n");
  }

  /** A single backslash before `n` decodes to a line feed. */
  lemma EscapedNewline()
    ensures ExpandEscapes("a\\nb") == "a\nb"
  {
    ExpandEscapesIsDecode("a\\nb");
  }

  /** Text without a backslash goes through unchanged. */
  lemma {:induction false} DecodeWithoutBackslash(s: string)
    requires forall i :: 0 <= i < |s| ==> s[i] != '\\'
    ensures DecodeEscapes(s) == s
    decreases |s|
  {
    if s != [] {
      DecodeWithoutBackslash(s[1..]);
    }
  }

  // ---------------------------------------------------------------------
  // Variable expansion
  // ---------------------------------------------------------------------

  /** The name class `[A-Z0-9_]` of the expansion pattern (parser.go:298). */
  predicate IsNameChar(c: char) {
    ('A' <= c <= 'Z') || ('0' <= c <= '9') || c == '_'
  }

  /** Length of the longest prefix made of name characters. */
  function NameLength(s: string): (n: nat)
    ensures n <= |s|
    ensures forall i :: 0 <= i < n ==> IsNameChar(s[i])
    ensures n < |s| ==> !IsNameChar(s[n])
    decreases |s|
  {
    if s != [] && IsNameChar(s[0]) then 1 + NameLength(s[1..]) else 0
  }

  /** What one match of `(\\)?(\$)(\()?\{?([A-Z0-9_]+)?\}?` holds after its
      `$`: each optional part taken when present, the name as long as
      possible. */
  datatype Reference = Reference(paren: bool, brace: bool, name: string, close: bool)

  /** The text a reference spans. */
  function RefText(r: Reference): string {
    (if r.paren then "(" else "") + ((if r.brace then "{" else "") + (r.name + (if r.close then "}" else "")))
  }

  /** The reference that starts the text `u` found just after a `$`. */
  function ReferenceAt(u: string): (r: Reference)
    ensures RefText(r) <= u
    ensures forall i :: 0 <= i < |r.name| ==> IsNameChar(r.name[i])
  {
    var paren := |u| > 0 && u[0] == '(';
    var v := if paren then u[1..] else u;
    var brace := |v| > 0 && v[0] == '{';
    var w := if brace then v[1..] else v;
    var n := NameLength(w);
    var close := n < |w| && w[n] == '}';
    var r := Reference(paren, brace, w[..n], close);
    RefTextSpan(u, v, w, r);
    r
  }

  /** The match takes each optional part exactly when it is there: `(` when
      the text starts with one, then `{` when what follows starts with one,
      then the longest name, then `}` when it comes next. */
  lemma ReferenceAtIsGreedy(u: string)
    ensures var r := ReferenceAt(u);
      && (r.paren <==> |u| > 0 && u[0] == '(')
      && var v := if r.paren then u[1..] else u;
      && (r.brace <==> |v| > 0 && v[0] == '{')
      && var w := if r.brace then v[1..] else v;
      && r.name <= w
      && (|r.name| == |w| || !IsNameChar(w[|r.name|]))
      && (r.close <==> |r.name| < |w| && w[|r.name|] == '}')
  {
  }

  /** The pieces of a reference are consecutive prefixes of `u`. */
  lemma RefTextSpan(u: string, v: string, w: string, r: Reference)
    requires if r.paren then |u| > 0 && u[0] == '(' && v == u[1..] else v == u
    requires if r.brace then |v| > 0 && v[0] == '{' && w == v[1..] else w == v
    requires |r.name| <= |w| && r.name == w[..|r.name|]
    requires r.close ==> |r.name| < |w| && w[|r.name|] == '}'
    ensures RefText(r) <= u
  {
    var tail := r.name + (if r.close then "}" else "");
    PrefixStep(w, r.name, r.close, '}');
    var mid := (if r.brace then "{" else "") + tail;
    ConsPrefix(v, w, tail, r.brace, '{');
    ConsPrefix(u, v, mid, r.paren, '(');
    assert RefText(r) == (if r.paren then "(" else "") + mid;
  }

  /** A prefix followed by the character after it is a longer prefix. */
  lemma PrefixStep(w: string, a: string, take: bool, c: char)
    requires |a| <= |w| && a == w[..|a|]
    requires take ==> |a| < |w| && w[|a|] == c
    ensures var t := a + (if take then [c] else []); |t| <= |w| && t == w[..|t|]
  {
    if take {
      assert w[..|a| + 1] == w[..|a|] + [w[|a|]];
    } else {
      assert a + [] == a;
    }
  }

  /** Putting back a leading character that was dropped keeps a prefix. */
  lemma ConsPrefix(u: string, v: string, t: string, take: bool, c: char)
    requires if take then |u| > 0 && u[0] == c && v == u[1..] else v == u
    requires |t| <= |v| && t == v[..|t|]
    ensures var m := (if take then [c] else []) + t; |m| <= |u| && m == u[..|m|]
  {
    if take {
      assert u == [u[0]] + v;
      assert u[..|t| + 1] == [u[0]] + v[..|t|];
    } else {
      assert [] + t == t;
    }
  }

  /** `expandVariables` (parser.go:302-316). A match that starts with a
      backslash loses the backslash and is not looked up; a match with a name
      is replaced by that variable's value (empty when unset); a match
      without a name is left as it is. The guard on `(` at parser.go:309
      tests the group that always holds `$`, so `$(` is never kept literal. */
  function ExpandVariables(s: string, vars: map<string, string>): string
    decreases |s|
  {
    if s == [] then []
    else if |s| >= 2 && s[0] == '\\' && s[1] == '$' then
      var n := |RefText(ReferenceAt(s[2..]))|;
      s[1..2 + n] + ExpandVariables(s[2 + n..], vars)
    else if s[0] == '$' then
      var ref := ReferenceAt(s[1..]);
      var n := |RefText(ref)|;
      (if ref.name != "" then Lookup(vars, ref.name) else s[..1 + n]) + ExpandVariables(s[1 + n..], vars)
    else [s[0]] + ExpandVariables(s[1..], vars)
  }

  /** A string without `$` is returned unchanged. */
  lemma {:induction false} ExpandWithoutDollar(s: string, vars: map<string, string>)
    requires forall i :: 0 <= i < |s| ==> s[i] != '$'
    ensures ExpandVariables(s, vars) == s
    decreases |s|
  {
    if s != [] {
      ExpandWithoutDollar(s[1..], vars);
    }
  }

  /** A character that is neither `$` nor a backslash starts no match. */
  lemma ExpandPlainChar(c: char, u: string, vars: map<string, string>)
    requires c != '$' && c != '\\'
    ensures ExpandVariables([c] + u, vars) == [c] + ExpandVariables(u, vars)
  {
    assert ([c] + u)[1..] == u;
  }

  /** Text with neither `$` nor a backslash is copied, and expansion resumes
      after it. */
  lemma {:induction false} ExpandLiteralPrefix(a: string, b: string, vars: map<string, string>)
    requires forall i :: 0 <= i < |a| ==> a[i] != '$' && a[i] != '\\'
    ensures ExpandVariables(a + b, vars) == a + ExpandVariables(b, vars)
    decreases |a|
  {
    if a == [] {
      assert a + b == b;
    } else {
      ConsSplit(a, b);
      ExpandLiteralPrefix(a[1..], b, vars);
      ExpandPlainChar(a[0], a[1..] + b, vars);
      ConsSplit(a, ExpandVariables(b, vars));
    }
  }

  /** Where a name ends: at the end of the text or before a character that is
      neither a name character nor `}`. */
  predicate EndsName(rest: string) {
    rest == [] || (!IsNameChar(rest[0]) && rest[0] != '}')
  }

  /** A full name of the class `[A-Z0-9_]+`. */
  predicate IsName(name: string) {
    name != [] && forall i :: 0 <= i < |name| ==> IsNameChar(name[i])
  }

  lemma NameLengthOf(name: string, rest: string)
    requires forall i :: 0 <= i < |name| ==> IsNameChar(name[i])
    requires rest == [] || !IsNameChar(rest[0])
    ensures NameLength(name + rest) == |name|
    decreases |name|
  {
    var t := name + rest;
    if name != [] {
      assert t[0] == name[0];
      assert t[1..] == name[1..] + rest;
      NameLengthOf(name[1..], rest);
    } else {
      assert t == rest;
    }
  }

  /** `$NAME` is replaced by the value of NAME, or by nothing when NAME is
      unset. */
  lemma ExpandPlainReference(name: string, rest: string, vars: map<string, string>)
    requires IsName(name) && EndsName(rest)
    ensures ExpandVariables("$" + name + rest, vars) == Lookup(vars, name) + ExpandVariables(rest, vars)
  {
    var s := "$" + name + rest;
    assert s[1..] == name + rest;
    NameLengthOf(name, rest);
    assert (name + rest)[..|name|] == name;
    assert s[1 + |name|..] == rest;
  }

  /** `${NAME}` is replaced by the value of NAME. */
  lemma ExpandBracedReference(name: string, rest: string, vars: map<string, string>)
    requires IsName(name)
    ensures ExpandVariables("${" + name + "}" + rest, vars) == Lookup(vars, name) + ExpandVariables(rest, vars)
  {
    var s := "${" + name + "}" + rest;
    assert s[1..] == "{" + (name + ("}" + rest));
    BracedReferenceAt(name, rest);
    assert s[1 + |name| + 2..] == rest;
  }

  /** After the `$`, `{NAME}` is matched whole, braces included. */
  lemma BracedReferenceAt(name: string, rest: string)
    requires IsName(name)
    ensures ReferenceAt("{" + (name + ("}" + rest))) == Reference(false, true, name, true)
  {
    var w := name + ("}" + rest);
    assert ("{" + w)[1..] == w;
    NameLengthOf(name, "}" + rest);
    assert w[..|name|] == name;
    assert w[|name|] == '}';
  }

  /** `$(NAME` is replaced by the value of NAME too: the parenthesis is
      swallowed by the match, and a closing `)` stays in the text. */
  lemma ExpandParenReference(name: string, rest: string, vars: map<string, string>)
    requires IsName(name) && EndsName(rest)
    ensures ExpandVariables("$(" + name + rest, vars) == Lookup(vars, name) + ExpandVariables(rest, vars)
  {
    var s := "$(" + name + rest;
    var u := s[1..];
    assert u == "(" + name + rest;
    assert u[1..] == name + rest;
    assert u[1] != '{' by { assert u[1] == name[0]; }
    NameLengthOf(name, rest);
    assert (name + rest)[..|name|] == name;
    assert s[2 + |name|..] == rest;
  }

  /** `\$NAME` loses its backslash and is not looked up. */
  lemma ExpandEscapedReference(name: string, rest: string, vars: map<string, string>)
    requires IsName(name) && EndsName(rest)
    ensures ExpandVariables("\\$" + name + rest, vars) == "$" + name + ExpandVariables(rest, vars)
  {
    var u := name + rest;
    assert "\\$" + name + rest == "\\$" + u;
    PlainReferenceAt(name, rest);
    ExpandEscapedDollar(u, vars);
    AfterName(name, rest);
  }

  /** After the `$`, a name that ends the match is taken whole. */
  lemma PlainReferenceAt(name: string, rest: string)
    requires IsName(name) && EndsName(rest)
    ensures ReferenceAt(name + rest) == Reference(false, false, name, false)
  {
    var u := name + rest;
    assert u[0] == name[0];
    NameLengthOf(name, rest);
    assert u[..|name|] == name;
  }

  /** What follows a `NAME` match. */
  lemma AfterName(name: string, rest: string)
    ensures RefText(Reference(false, false, name, false)) == name
    ensures (name + rest)[|name|..] == rest
  {
  }

  /** `\$` loses its backslash whatever follows: the rest of the match, name
      and brackets included, is copied and not looked up. */
  lemma ExpandEscapedDollar(u: string, vars: map<string, string>)
    ensures var t := RefText(ReferenceAt(u));
      ExpandVariables("\\$" + u, vars) == "$" + t + ExpandVariables(u[|t|..], vars)
  {
    var t := RefText(ReferenceAt(u));
    var s := "\\$" + u;
    EscapedMatchSlices(s, u, t);
  }

  /** The slices of `\$` + `u` that the escaped branch takes. */
  lemma EscapedMatchSlices(s: string, u: string, t: string)
    requires s == "\\$" + u && t <= u
    ensures s[2..] == u && s[1..2 + |t|] == "$" + t && s[2 + |t|..] == u[|t|..]
  {
  }

  /** A match without a name, such as `$(`, `${`, `${}` or `$}`, is kept as
      it is. */
  lemma ExpandNamelessReference(u: string, vars: map<string, string>)
    requires ReferenceAt(u).name == ""
    ensures var t := RefText(ReferenceAt(u));
      ExpandVariables("$" + u, vars) == "$" + t + ExpandVariables(u[|t|..], vars)
  {
    var t := RefText(ReferenceAt(u));
    var s := "$" + u;
    assert s[1..] == u;
    assert s[..1 + |t|] == "$" + t;
    assert s[1 + |t|..] == u[|t|..];
  }

  /** `${}` stays as it is. */
  lemma ExpandEmptyBraces(rest: string, vars: map<string, string>)
    ensures ExpandVariables("$" + ("{}" + rest), vars) == "${}" + ExpandVariables(rest, vars)
  {
    var u := "{}" + rest;
    assert u[1..][0] == '}';
    assert ReferenceAt(u) == Reference(false, true, "", true);
    ExpandNamelessReference(u, vars);
    assert u[2..] == rest;
  }

  /** `$NAME}` swallows the `}`: the optional closing brace of the pattern
      matches without an opening one. */
  lemma ExpandNameSwallowsBrace(name: string, rest: string, vars: map<string, string>)
    requires IsName(name)
    ensures ExpandVariables("$" + (name + ("}" + rest)), vars) == Lookup(vars, name) + ExpandVariables(rest, vars)
  {
    var u := name + ("}" + rest);
    NameCloseReferenceAt(name, rest);
    ExpandNamedReference(u, vars);
    AfterNameClose(name, rest);
  }

  /** What follows a `NAME}` match. */
  lemma AfterNameClose(name: string, rest: string)
    ensures (name + ("}" + rest))[|RefText(Reference(false, false, name, true))|..] == rest
  {
    assert RefText(Reference(false, false, name, true)) == name + "}";
  }

  /** A match with a name is replaced by that name's value. */
  lemma ExpandNamedReference(u: string, vars: map<string, string>)
    requires ReferenceAt(u).name != ""
    ensures var t := RefText(ReferenceAt(u));
      ExpandVariables("$" + u, vars) == Lookup(vars, ReferenceAt(u).name) + ExpandVariables(u[|t|..], vars)
  {
    var s := "$" + u;
    DollarSlices(s, u, |RefText(ReferenceAt(u))|);
    ExpandAtDollar(s, vars);
  }

  /** One step of the expansion at a `$`. */
  lemma ExpandAtDollar(s: string, vars: map<string, string>)
    requires |s| > 0 && s[0] == '$'
    ensures var ref := ReferenceAt(s[1..]);
      var n := |RefText(ref)|;
      ExpandVariables(s, vars) == (if ref.name != "" then Lookup(vars, ref.name) else s[..1 + n]) + ExpandVariables(s[1 + n..], vars)
  {
  }

  /** The slices of `$` + `u` that a match of `n` characters after the `$`
      leaves. */
  lemma DollarSlices(s: string, u: string, n: nat)
    requires s == "$" + u && n <= |u|
    ensures s[0] == '$' && s[1..] == u && s[1 + n..] == u[n..]
  {
  }

  /** After the `$`, `NAME}` is matched whole, closing brace included. */
  lemma NameCloseReferenceAt(name: string, rest: string)
    requires IsName(name)
    ensures ReferenceAt(name + ("}" + rest)) == Reference(false, false, name, true)
  {
    var u := name + ("}" + rest);
    assert u[0] == name[0];
    NameLengthOf(name, "}" + rest);
    assert u[..|name|] == name;
    assert u[|name|] == '}';
  }

  /** A `$` followed by nothing a reference can start with stays as it is. */
  lemma ExpandLoneDollar(rest: string, vars: map<string, string>)
    requires rest == [] || (!IsNameChar(rest[0]) && rest[0] !in "({}")
    ensures ExpandVariables("$" + rest, vars) == "$" + ExpandVariables(rest, vars)
  {
    var s := "$" + rest;
    assert s[1..] == rest;
    assert s[1..][0..] == rest;
  }

  /** The value substituted for a name is not expanded again. */
  lemma ExpansionIsNotRecursive()
    ensures ExpandVariables("$A", map["A" := "$B", "B" := "x"]) == "$B"
  {
    var vars := map["A" := "$B", "B" := "x"];
    ExpandPlainReference("A", "", vars);
    assert "$" + "A" + "" == "$A";
    assert Lookup(vars, "A") == "$B";
  }

  /** Lower-case names are not references: `$foo` stays as it is. */
  lemma LowerCaseNameIsLiteral(vars: map<string, string>)
    ensures ExpandVariables("$foo", vars) == "$foo"
  {
    ExpandLoneDollar("foo", vars);
    ExpandWithoutDollar("foo", vars);
  }
}
