/** The annotation validator of spec.go: each key's comment `Name[!][:params]`
    becomes a `Spec` saying which kind of value the key holds, whether it is
    required, and whether its value is valid for that kind. */
module Annotation {
  import opened Common
  import opened Text

  /** `SpecName` (spec.go:10). */
  type SpecName = string

  const Opaque: SpecName := "Opaque"
  const Plain: SpecName := "Plain"
  const Secret: SpecName := "Secret"
  const Password: SpecName := "Password"
  const Number: SpecName := "Number"

  /** The names of `specsHandlers` (spec.go:33-39); every one of them is
      handled by the same rule, `validateInput`. */
  const Handled: set<SpecName> := {Opaque, Plain, Secret, Password, Number}

  /** `Spec` (spec.go:23-27). */
  datatype Spec = Spec(name: SpecName, required: bool, valid: bool)

  /** The parameters decoded from the text after the first `:`. Go's map
      holds a JSON number under "length" or not; `length` is that number as
      an integer. */
  datatype Params = Params(length: Option<int>)

  // ---------------------------------------------------------------------
  // validateInput
  // ---------------------------------------------------------------------

  /** The validity rule of `validateInput` (spec.go:42-51) for a value that
      is not blank: it is valid, except that a required key with a `length`
      parameter needs exactly that length. */
  function ValidityRule(required: bool, value: string, params: Option<Params>): bool {
    if required && params.Some? && params.value.length.Some? then |value| == params.value.length.value
    else true
  }

  /** `validateInput` as spec.go writes it, updating the `Valid` field of the
      spec it was handed: a blank value leaves the spec as it is, any other
      value sets `Valid` by the rule. */
  method ValidateInput(spec: Spec, value: string, params: Option<Params>) returns (spec': Spec)
    ensures IsBlank(value) ==> spec' == spec
    ensures !IsBlank(value) ==> spec' == spec.(valid := ValidityRule(spec.required, value, params))
  {
    TrimSpaceEmptyIffBlank(value);
    spec' := spec;
    if TrimSpace(value) != "" {
      spec' := spec'.(valid := true);
      if spec'.required && params != None {
        match params.value.length
        case Some(length) =>
          spec' := spec'.(valid := |value| == length);
        case None =>
      }
    }
  }

  // ---------------------------------------------------------------------
  // upperFirstLetter
  // ---------------------------------------------------------------------

  /** `upperFirstLetter` (spec.go:109-117): the first character upper-cased
      and the rest lower-cased. */
  function UpperFirstLetter(s: string): (r: string)
    ensures |r| == |s|
    ensures |s| > 0 ==> r[0] == ToUpperChar(s[0])
    ensures forall i :: 1 <= i < |s| ==> r[i] == ToLowerChar(s[i])
  {
    if |s| == 0 then s else [ToUpperChar(s[0])] + ToLower(s[1..])
  }

  /** Normalising a name twice changes nothing more. */
  lemma UpperFirstLetterIdempotent(s: string)
    ensures UpperFirstLetter(UpperFirstLetter(s)) == UpperFirstLetter(s)
  {
    var r := UpperFirstLetter(s);
    var rr := UpperFirstLetter(r);
    assert forall i :: 0 <= i < |s| ==> rr[i] == r[i];
  }

  /** Only letters change case: a `!` or `:` stays where it is. */
  lemma UpperFirstLetterKeepsPunctuation(s: string, i: nat)
    requires i < |s| && !IsLetter(s[i])
    ensures UpperFirstLetter(s)[i] == s[i]
  {
  }

  /** A capitalised word is its own normal form. */
  lemma CapitalisedIsNormal(n: string)
    requires |n| > 0 && 'A' <= n[0] <= 'Z' && forall i :: 1 <= i < |n| ==> 'a' <= n[i] <= 'z'
    ensures UpperFirstLetter(n) == n
  {
    var r := UpperFirstLetter(n);
    assert forall i :: 0 <= i < |n| ==> r[i] == n[i];
  }

  /** Normalising keeps the letters, only their case changes. */
  lemma UpperFirstLetterSameLetters(h: string)
    ensures ToLower(UpperFirstLetter(h)) == ToLower(h)
  {
    var u := UpperFirstLetter(h);
    assert forall i :: 0 <= i < |h| ==> ToLower(u)[i] == ToLower(h)[i];
  }

  /** A name part normalises to the capitalised word `n` exactly when it is
      `n` written in some mix of cases. */
  lemma CapitalisedMatchesAnyCase(h: string, n: string)
    requires |n| > 0 && 'A' <= n[0] <= 'Z' && forall i :: 1 <= i < |n| ==> 'a' <= n[i] <= 'z'
    ensures UpperFirstLetter(h) == n <==> ToLower(h) == ToLower(n)
  {
    UpperFirstLetterSameLetters(h);
    if ToLower(h) == ToLower(n) {
      var u := UpperFirstLetter(h);
      var lh, ln := ToLower(h), ToLower(n);
      assert |h| == |n|;
      assert lh[0] == ToLowerChar(h[0]) && ln[0] == ToLowerChar(n[0]);
      UpperOfSameLetter(h[0], n[0]);
      forall i | 1 <= i < |n|
        ensures u[i] == n[i]
      {
        assert lh[i] == ToLowerChar(h[i]) && ln[i] == ToLowerChar(n[i]);
        LowerOfSameLetter(h[i], n[i]);
      }
      assert u == n;
    }
  }

  /** A character that lower-cases like the capital `d` upper-cases to it. */
  lemma UpperOfSameLetter(c: char, d: char)
    requires 'A' <= d <= 'Z' && ToLowerChar(c) == ToLowerChar(d)
    ensures ToUpperChar(c) == d
  {
  }

  /** A character that lower-cases like the small `d` lower-cases to it. */
  lemma LowerOfSameLetter(c: char, d: char)
    requires 'a' <= d <= 'z' && ToLowerChar(c) == ToLowerChar(d)
    ensures ToLowerChar(c) == d
  {
  }

  /** Each handled name is its own normal form, and a comment's name part
      selects it exactly when it is that name in any mix of cases. */
  lemma HandledNamesAreNormal(n: SpecName, h: string)
    requires n in Handled
    ensures UpperFirstLetter(n) == n
    ensures UpperFirstLetter(h) == n <==> ToLower(h) == ToLower(n)
  {
    CapitalisedIsNormal(n);
    CapitalisedMatchesAnyCase(h, n);
  }

  // ---------------------------------------------------------------------
  // GenerateSpecsFromComments
  // ---------------------------------------------------------------------

  predicate IsColon(c: char) {
    c == ':'
  }

  /** `strings.SplitN(comment, ":", 2)` (spec.go:71): the text before the
      first `:`, and the text after it when there is one. */
  function SplitName(comment: string): (r: (string, Option<string>))
    ensures r.1.None? ==> r.0 == comment && forall i :: 0 <= i < |comment| ==> comment[i] != ':'
    ensures r.1.Some? ==> comment == r.0 + ":" + r.1.value && forall i :: 0 <= i < |r.0| ==> r.0[i] != ':'
  {
    match IndexWhere(comment, IsColon)
    case None => (comment, None)
    case Some(i) =>
      assert comment == comment[..i] + ":" + comment[i + 1..];
      (comment[..i], Some(comment[i + 1..]))
  }

  /** The name part ends at the first `:`. */
  lemma SplitAtFirstColon(comment: string, i: nat)
    requires i < |comment| && comment[i] == ':' && forall j :: 0 <= j < i ==> comment[j] != ':'
    ensures SplitName(comment) == (comment[..i], Some(comment[i + 1..]))
  {
    IndexWhereIsFirst(comment, IsColon, i);
  }

  predicate EndsWithBang(s: string) {
    |s| > 0 && s[|s| - 1] == '!'
  }

  /** `strings.TrimSuffix(name, "!")`: at most one `!` goes. */
  function TrimBang(s: string): (r: string)
    ensures EndsWithBang(s) ==> s == r + "!"
    ensures !EndsWithBang(s) ==> r == s
  {
    if EndsWithBang(s) then s[..|s| - 1] else s
  }

  /** The spec that `GenerateSpecsFromComments` stores for one key
      (spec.go:61-102), given the key's value and comment. `decode` stands
      for `json.Unmarshal` and reads the "length" number of the parameter
      text, if there is one. */
  function SpecFor(value: string, comment: string, decode: string -> Option<int>): (r: Spec)
    ensures r.valid ==> r.name in Handled && !IsBlank(value)
  {
    TrimSpaceEmptyIffBlank(value);
    if comment == "" then Spec(Opaque, false, false)
    else
      var (head, tail) := SplitName(comment);
      var params := if tail.Some? then Some(Params(decode(tail.value))) else None;
      var name := UpperFirstLetter(head);
      var required := EndsWithBang(name);
      var stripped := TrimBang(name);
      var spec := Spec(if stripped != "" then stripped else Opaque, required, false);
      if spec.name in Handled && TrimSpace(value) != "" then spec.(valid := ValidityRule(required, value, params)) else spec
  }

  /** A key with no comment is opaque, optional and invalid (spec.go:61-67). */
  lemma SpecWithoutComment(value: string, decode: string -> Option<int>)
    ensures SpecFor(value, "", decode) == Spec(Opaque, false, false)
  {
  }

  /** A key is required exactly when the name part of its comment ends in
      `!` (spec.go:86-89). */
  lemma RequiredIffBang(value: string, comment: string, decode: string -> Option<int>)
    ensures SpecFor(value, comment, decode).required <==> comment != "" && EndsWithBang(SplitName(comment).0)
  {
    var head := SplitName(comment).0;
    if |head| > 0 {
      assert UpperFirstLetter(head)[|head| - 1] == head[|head| - 1] || IsLetter(head[|head| - 1]);
    }
  }

  /** The stored name is the normalised name part without one trailing `!`,
      or `Opaque` when nothing is left (spec.go:72, 91-94). */
  lemma StoredName(value: string, comment: string, decode: string -> Option<int>)
    requires comment != ""
    ensures var name := TrimBang(UpperFirstLetter(SplitName(comment).0));
      SpecFor(value, comment, decode).name == if name == "" then Opaque else name
  {
  }

  /** An unrecognised name is kept, and never valid (spec.go:92-99). */
  lemma UnknownNameIsInvalid(value: string, comment: string, decode: string -> Option<int>)
    ensures SpecFor(value, comment, decode).name !in Handled ==> !SpecFor(value, comment, decode).valid
  {
  }

  /** A recognised name is valid exactly when its value is non-blank and,
      when the key is required and a `length` is given, its value has
      exactly that length (spec.go:42-51, 97-99). */
  lemma HandledNameValidity(value: string, comment: string, decode: string -> Option<int>)
    requires comment != ""
    ensures var spec := SpecFor(value, comment, decode);
      var tail := SplitName(comment).1;
      spec.name in Handled ==>
        (spec.valid <==>
          !IsBlank(value) &&
          (spec.required && tail.Some? && decode(tail.value).Some? ==> |value| == decode(tail.value).value))
  {
    TrimSpaceEmptyIffBlank(value);
  }

  /** Without a `:` there are no parameters, so the length rule never
      applies and `decode` plays no part (spec.go:73-84, 45). */
  lemma NoColonNoLengthRule(value: string, comment: string, decode: string -> Option<int>, decode': string -> Option<int>)
    requires forall i :: 0 <= i < |comment| ==> comment[i] != ':'
    ensures SpecFor(value, comment, decode) == SpecFor(value, comment, decode')
    ensures comment != "" && SpecFor(value, comment, decode).name in Handled ==>
      (SpecFor(value, comment, decode).valid <==> !IsBlank(value))
  {
    TrimSpaceEmptyIffBlank(value);
  }

  /** `password!:{"length":8}` makes a required password of exactly eight
      characters. */
  lemma RequiredPasswordOfLength(decode: string -> Option<int>, value: string)
    requires decode("{\"length\":8}") == Some(8)
    ensures var spec := SpecFor(value, "password!:{\"length\":8}", decode);
      spec.name == Password && spec.required && (spec.valid <==> !IsBlank(value) && |value| == 8)
  {
    PasswordCommentParts();
    TrimSpaceEmptyIffBlank(value);
  }

  lemma PasswordCommentParts()
    ensures SplitName("password!:{\"length\":8}") == ("password!", Some("{\"length\":8}"))
    ensures TrimBang(UpperFirstLetter("password!")) == Password
    ensures EndsWithBang(UpperFirstLetter("password!"))
  {
    PasswordSplit();
    PasswordName();
  }

  lemma PasswordSplit()
    ensures SplitName("password!:{\"length\":8}") == ("password!", Some("{\"length\":8}"))
  {
    var comment := "password!:{\"length\":8}";
    PasswordColon(comment);
    SplitAtFirstColon(comment, 9);
  }

  lemma PasswordColon(comment: string)
    requires comment == "password!:{\"length\":8}"
    ensures |comment| > 9 && comment[9] == ':' && forall i :: 0 <= i < 9 ==> comment[i] != ':'
    ensures comment[..9] == "password!" && comment[10..] == "{\"length\":8}"
  {
  }

  lemma PasswordName()
    ensures UpperFirstLetter("password!") == "Password!"
  {
    var name := UpperFirstLetter("password!");
    assert forall i :: 0 <= i < 9 ==> name[i] == "Password!"[i];
  }

  /** The body of the loop of `GenerateSpecsFromComments` (spec.go:60-99):
      the spec of one key, built up field by field. */
  method BuildSpec(value: string, comment: string, decode: string -> Option<int>) returns (spec: Spec)
    ensures spec == SpecFor(value, comment, decode)
  {
    spec := Spec(Opaque, false, false);
    if comment == "" {
      return;
    }
    var (head, tail) := SplitName(comment);
    var name := UpperFirstLetter(head);
    var params: Option<Params> := None;
    if tail.Some? {
      params := Some(Params(decode(tail.value)));
    }
    if EndsWithBang(name) {
      spec := spec.(required := true);
    }
    name := TrimBang(name);
    if name != "" {
      spec := spec.(name := name);
    }
    if spec.name in Handled {
      TrimSpaceEmptyIffBlank(value);
      spec := ValidateInput(spec, value, params);
    }
  }

  /** `GenerateSpecsFromComments` (spec.go:54-107): one spec per key of
      `values`, each built from the key's comment; keys that only have a
      comment are ignored. Go visits the keys in no fixed order; the loop
      takes them in any order. */
  method GenerateSpecsFromComments(values: map<string, string>, comments: map<string, string>, decode: string -> Option<int>)
    returns (specs: map<string, Spec>)
    ensures specs.Keys == values.Keys
    ensures forall k :: k in specs ==> specs[k] == SpecFor(values[k], Lookup(comments, k), decode)
  {
    specs := map[];
    var pending := values.Keys;
    while pending != {}
      invariant pending <= values.Keys
      invariant specs.Keys == values.Keys - pending
      invariant forall k :: k in specs ==> specs[k] == SpecFor(values[k], Lookup(comments, k), decode)
      decreases |pending|
    {
      var key :| key in pending;
      var spec := BuildSpec(values[key], Lookup(comments, key), decode);
      specs := specs[key := spec];
      pending := pending - {key};
    }
  }
}
