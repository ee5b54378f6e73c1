# A verified model of the godotenv `.env` parser

This project models the core of a `.env` file parser and the annotation
validator that runs on its output.

The parser (`parser.go`) reads a buffer of `KEY=VALUE` statements into a
key-to-value map, and optionally into a key-to-comment map. It works in these
steps:

- it turns CRLF into LF;
- it skips whitespace and `#` comment lines;
- it reads a key, dropping an optional `export ` prefix; the key ends at `=`
  or `:`;
- it reads a value: unquoted, single-quoted or double-quoted;
- it decodes escapes in double-quoted values;
- it expands `$NAME`, `${NAME}` and `$(NAME` against the map built so far.

The validator (`spec.go`) turns each key's comment `Name[!][:params]` into a
`Spec` with three fields:

- `Name`: the kind of value the key holds;
- `Required`: whether the key is required;
- `Valid`: whether its value is valid for that kind.

The project has six modules:

- `Common`: `Option` and `Result`.
- `Text`: the character classes and the `bytes`/`strings` helpers the parser
  calls (`IndexFunc`, the trims, `TrimSpace`, ASCII case mapping).
- `Expand`: the two regular-expression rewrites, written as left-to-right
  scanners that take the same leftmost, non-overlapping matches as Go's
  `ReplaceAllString`.
- `Parser`: every parsing step.
- `Annotation`: `spec.go`.
- `Scenarios`: a few worked inputs.

Each step is written as a specification function, and its properties are
proved about that function. Where Go writes a loop, a method follows the Go
loop and is proved to compute the function. Those loops are:

- `findEndOfVar`, `locateKeyName` and `extractQuotedValue`;
- the driver loop of `parseBytesWithComments`;
- the loop over keys in `GenerateSpecsFromComments`.

The Go maps that the driver fills in place are map values. The driver method
passes them along and returns them as they stand when it stops.

Behaviour of the code worth knowing:

- **Line feeds at statement start.** The statement search skips line feeds
  too, because it uses `unicode.IsSpace` (parser.go:252-256).
- **Entries kept after an error.** Entries written before an error stay in
  the map; the driver returns with the map as it stands (parser.go:34-46).
- **Comments on the quoted path.** The comment search there starts at the
  opening quote, not after the closing one (parser.go:182-197). When the
  last whitespace-preceded `#` of the line lies inside the quotes, the
  comment is taken from that `#` and runs past the closing quote to the end
  of the line.
- **`$(` is not kept literal.** The guard at parser.go:309 tests the group
  that always holds `$`, so only the backslash branch fires, and `$(NAME`
  substitutes `NAME`.
- **`export ` alone.** The statement `export ` leaves no text after the
  prefix and ends the parse with the zero-length error (parser.go:121-123).

## Model

| member | source | states |
|---|---|---|
| Text.IsSpaceIsUnicodeSpaceButNewline | parser.go:278-294 | `isSpace` holds for tab, VT, FF, CR, space, NEL and NBSP, which is Unicode whitespace minus the line feed; `isLineEnd` characters are whitespace |
| Text.IndexWhere | parser.go:216 | `bytes.IndexFunc`: the index found satisfies the predicate and no earlier index does; None means no index does |
| Text.Lookup | parser.go:311-312 | a Go map read: the value at a present key, and the empty string at a missing key |
| Text.TrimSpaceEmptyIffBlank | parser.go:158-162 | `strings.TrimSpace` yields the empty string exactly when the text is all whitespace |
| Parser.NormalizeWithoutCRLF | parser.go:25 | a buffer without a CRLF pair is unchanged |
| Parser.NormalizeNewlines | parser.go:25 | `bytes.Replace` of CRLF by LF: the result is never longer than the buffer |
| Parser.NormalizeIsDropCRBeforeLF | parser.go:25 | normalising equals removing exactly the CR of each CRLF pair, every other character kept in order |
| Parser.IndexOfNonSpaceChar | parser.go:252-256 | the first character that is not Unicode whitespace; everything before it is whitespace |
| Parser.StatementStart | parser.go:62-80 | `getStatementStart` returns None or a non-empty suffix of its input whose first character is neither whitespace nor `#` |
| Parser.StatementStartSkipsOnlyBlanks | parser.go:62-80 | everything skipped is whitespace or a comment running to the next line feed, and the statement found is not inside a comment; None means the whole buffer is whitespace and comments |
| Parser.StripExport | parser.go:84-91 | the result is a suffix of the input that starts with no whitespace; `StripExportDropsPrefix` and `StripExportKeepsOther` state which suffix |
| Parser.StripExportDropsPrefix | parser.go:84-91 | after leading whitespace, `export` followed by a non-empty whitespace run and then text `t` that does not start with whitespace gives exactly `t` |
| Parser.StripExportKeepsOther | parser.go:84-91 | any other text is only left-trimmed: `export` glued to a key, or at the end of the text, stays |
| Parser.LocateKey | parser.go:83-129 | on success the remainder is a suffix of the input, strictly shorter when a key was found |
| Parser.LocateKeyAtFirstDelimiter | parser.go:93-128 | when only key characters and whitespace come before the first `=` or `:`, the key is the text before it, without trailing whitespace, and the remainder is the left-trimmed text after that delimiter |
| Parser.LocateKeyRejectsBadChar | parser.go:107-118 | a character outside letters, digits, `_`, `.` and whitespace ahead of every delimiter is an error naming it and the text it was found in |
| Parser.LocateKeyWithoutDelimiter | parser.go:120-128 | with neither a delimiter nor a character outside the key characters and whitespace, the key is empty, and an empty text after `export` is the zero-length error |
| Parser.LocateKeyShape | parser.go:93-128 | a located key holds only key characters and inner whitespace, starts and ends with a key character, and the remainder starts with no whitespace |
| Parser.LocateKeyName | parser.go:83-129 | the index loop of `locateKeyName` computes `LocateKey` |
| Parser.EndOfLine | parser.go:215-223 | the first LF or CR, or the length when there is none |
| Parser.EndOfVar | parser.go:226-235 | the last `#` preceded by whitespace, or the length of the line exactly when there is no such `#` |
| Parser.FindEndOfVar | parser.go:226-235 | the backward loop of `findEndOfVar` computes `EndOfVar` |
| Parser.ExtractUnquoted | parser.go:142-167 | the rest of an unquoted value is a suffix of the input |
| Parser.UnquotedLineAtMarker | parser.go:153-166 | on a line whose last whitespace-preceded `#` is at `m`, the value is the text before `m`, trimmed of the parser's whitespace and then expanded, and the comment the trimmed text after `m` |
| Parser.UnquotedLineWithoutMarker | parser.go:153-166 | on a line without such a `#`, a leading `#` makes the whole line comment and an empty value; otherwise the trimmed, expanded line is the value and the comment is empty |
| Parser.UnquotedLine | parser.go:153-166 | the value and comment of one unquoted line; defined without a contract, its properties are `UnquotedLineAtMarker` and `UnquotedLineWithoutMarker` |
| Parser.UnquotedAtLastMarker | parser.go:142-167 | an unquoted value ends at the first LF or CR, the rest starts there, and value and comment are split at the last marker of that line |
| Parser.UnquotedWithoutMarker | parser.go:142-167 | the same for a first line without a marker: all comment when it starts with `#`, otherwise all value |
| Parser.ExtractUnquotedValue | parser.go:142-167 | the Go steps compute `ExtractUnquoted` |
| Parser.QuotePrefix | parser.go:259-270 | a quote is found exactly when the text starts with `'` or `"`, and it is that character |
| Parser.ClosingQuote | parser.go:171-178 | the first index at or after 1 holding the quote with no backslash before it; None when there is none |
| Parser.ExtractQuoted | parser.go:170-212 | on success the rest is a proper suffix of the input, so the driver always advances |
| Parser.ExtractQuotedOutcome | parser.go:170-212 | the unterminated-value error happens exactly when there is no closing quote, and it carries the first line; otherwise the rest starts just after the first closing quote |
| Parser.QuotedValueIsContent | parser.go:179-181 | trimming the quote from both ends of `src[0:i]` leaves the text between the quotes, minus an escaped quote just before the closing one |
| Parser.QuotedValueContent | parser.go:170-203 | a single-quoted value is taken as it is; a double-quoted value has its escapes decoded and its variables expanded; the comment comes from the first line of the input |
| Parser.QuotedAt | parser.go:179-203 | the value taken with the closing quote at `i`: the rest is the text just after that quote |
| Parser.QuotedHashYieldsComment | parser.go:182-197 | when the line's last whitespace-preceded `#` lies between the quotes, it yields a non-empty comment, taken from the line that starts at the opening quote |
| Parser.ExtractQuotedValue | parser.go:170-212 | the index loop of `extractQuotedValue` computes `ExtractQuoted` |
| Parser.ExtractValue | parser.go:132-139 | the rest is a suffix of the input, and only a value that starts with a quote can fail |
| Parser.ExtractVarValue | parser.go:132-139 | the dispatch on the quote computes `ExtractValue` |
| Parser.ExtractValueIgnoresVars | parser.go:132-212 | whether a value parses, its error, its comment and the text after it do not depend on the map used for expansion |
| Parser.StepShrinks | parser.go:27-54 | each pass of the driver loop leaves a strictly shorter suffix of the buffer, so the loop ends |
| Parser.ParseFrom | parser.go:27-56 | parsing only adds keys to the value map; the comment map is present exactly when the caller passed one, and it keeps its keys; every comment key is an old comment key or a key of the final value map (`ParseAddsParsedKeys` narrows this to the keys the parse assigned) |
| Parser.ParseFromAnyMap | parser.go:27-56 | parsing the same text from two value maps gives the same error and the same comments, and the keys each adds beyond the other's starting keys agree |
| Parser.ParseAddsParsedKeys | parser.go:27-56 | the keys a parse adds are exactly those the same parse assigns from an empty map; error and comments are the same, and every new comment key is a key the parse assigned |
| Parser.ParseAssigns | parser.go:43-53 | a statement that parses assigns its value to its key, replacing any earlier value, records its comment, and parsing goes on after it; the value was expanded against the map as it stood before |
| Parser.ParseStopsAtKeyError | parser.go:34-37 | a bad key ends the parse with that error, and the maps keep what earlier statements wrote |
| Parser.ParseStopsAtEmptyKey | parser.go:39-41 | a statement with an empty key ends the parse without an error |
| Parser.ParseStopsAtValueError | parser.go:43-46 | a failing value ends the parse with that error, and the maps keep what earlier statements wrote |
| Parser.ParseRecordsOnlyNonEmptyComments | parser.go:51-53 | a comment is recorded only when it is non-empty |
| Parser.RecordComment | parser.go:51-53 | with a comment map, a non-empty comment is stored under the key and every other entry is kept; an empty comment changes nothing; without a map nothing is created |
| Parser.ParsedKeyIsKept | parser.go:48 | a key whose statement parsed stays in the value map, whatever later statements do, errors included |
| Parser.ParseBytesWithComments | parser.go:24-57 | the driver loop computes `Parse`: normalise line endings, then `ParseFrom` |
| Parser.Parse | parser.go:24-57 | CRLF is normalised, then the buffer is parsed; no key of the caller's map is removed, and the comment map is present exactly when passed |
| Parser.ParseBytes | parser.go:20-22 | `parseBytes` is the driver without a comment map |
| Expand.ExpandEscapesIsDecode | parser.go:237-250 | the two regex passes equal one scan over backslash pairs: `\n` is LF, `\r` is CR, `\$` stays as it is, `\X` is `X` otherwise, and a trailing backslash is kept |
| Expand.EscapedBackslashBeforeN | parser.go:237-250 | a double backslash before `n` decodes to backslash and `n`, not to a line feed |
| Expand.EscapedNewline | parser.go:237-250 | backslash-`n` inside a value decodes to a line feed |
| Expand.DecodeWithoutBackslash | parser.go:237-250 | text without a backslash is unchanged by escape decoding |
| Expand.EscapePass | parser.go:237-248 | the first regex pass over `\\.`; defined without a contract, its meaning is stated by `ExpandEscapesIsDecode` |
| Expand.UnescapePass | parser.go:249 | the second regex pass over `\\([^$])`; defined without a contract, its meaning is stated by `ExpandEscapesIsDecode` |
| Expand.ExpandEscapes | parser.go:237-250 | `expandEscapes`, the two passes in sequence; its meaning is stated by `ExpandEscapesIsDecode` and the lemmas after it |
| Expand.NameLength | parser.go:298 | the longest prefix of `[A-Z0-9_]` characters |
| Expand.ReferenceAt | parser.go:298 | the match after a `$` is a prefix of the text, and its name holds only `[A-Z0-9_]`; `ReferenceAtIsGreedy` states each optional part |
| Expand.ReferenceAtIsGreedy | parser.go:298 | the match takes `(` exactly when the text starts with it, then `{` exactly when it follows, then the longest run of name characters, then `}` exactly when it follows the name |
| Expand.ExpandVariables | parser.go:302-316 | `ReplaceAllStringFunc` as a left-to-right scan; defined without a contract, its behaviour is stated by the lemmas that follow |
| Expand.ExpandWithoutDollar | parser.go:302-316 | a string without `$` is returned unchanged |
| Expand.ExpandLiteralPrefix | parser.go:302-316 | text with neither `$` nor a backslash is copied, and expansion resumes after it |
| Expand.ExpandPlainReference | parser.go:311-312 | `$NAME` is replaced by the value of NAME, or by nothing when it is unset |
| Expand.ExpandBracedReference | parser.go:298-312 | `${NAME}` is replaced by the value of NAME |
| Expand.ExpandParenReference | parser.go:309-312 | `$(NAME` is replaced by the value of NAME, because the guard tests the `$` group |
| Expand.ExpandEscapedReference | parser.go:309-310 | `\$NAME` loses only its backslash and is not looked up |
| Expand.ExpandEscapedDollar | parser.go:309-310 | `\$` followed by any text loses only its backslash; the whole match after it is kept as it is |
| Expand.ExpandNamelessReference | parser.go:309-314 | a match without a name, such as `$(`, `${` or `$}`, is kept as it is |
| Expand.ExpandEmptyBraces | parser.go:314 | `${}` is kept as it is |
| Expand.ExpandNameSwallowsBrace | parser.go:298-312 | in `$NAME}` the optional `}` belongs to the match, so it disappears with the substitution |
| Expand.ExpandNamedReference | parser.go:311-312 | any match with a name is replaced by the value of that name, and expansion resumes after the match |
| Expand.ExpandLoneDollar | parser.go:314 | a `$` that starts no reference stays as it is |
| Expand.ExpansionIsNotRecursive | parser.go:311-312 | a substituted value is not expanded again |
| Expand.LowerCaseNameIsLiteral | parser.go:298 | `$foo` stays as it is: lower-case names are not references |
| Scenarios.BadKeyCharacter | parser.go:107-118 | `BA&D=x` fails on `&` |
| Scenarios.UnterminatedQuote | parser.go:205-211 | an unclosed quote reports the first line |
| Scenarios.ExportAloneIsZeroLength | parser.go:84-123 | `export ` with nothing after it is the zero-length error |
| Scenarios.NoDelimiterStopsParsing | parser.go:120-128 | `A B` has the empty key |
| Annotation.ValidateInput | spec.go:42-51 | a blank value leaves the spec unchanged; any other value is valid, except that a required key with a `length` parameter needs exactly that length |
| Annotation.UpperFirstLetter | spec.go:109-117 | same length; the first character upper-cased, the rest lower-cased; the empty string stays empty |
| Annotation.UpperFirstLetterIdempotent | spec.go:109-117 | normalising a name twice gives the same name as once |
| Annotation.UpperFirstLetterKeepsPunctuation | spec.go:109-117 | characters that are not letters, such as `!`, keep their place |
| Annotation.HandledNamesAreNormal | spec.go:14-39 | each handled name is its own normal form, and a comment's name part normalises to it exactly when it is that name in any mix of upper and lower case |
| Annotation.UpperFirstLetterSameLetters | spec.go:109-117 | normalising changes only the case of letters |
| Annotation.CapitalisedMatchesAnyCase | spec.go:109-117 | a capitalised lower-case name is the normal form of exactly the texts that equal it up to case |
| Annotation.SplitName | spec.go:71-77 | the name part is the text before the first `:`, and the parameter text follows that `:` when there is one |
| Annotation.TrimBang | spec.go:91 | exactly one trailing `!` is removed |
| Annotation.SpecWithoutComment | spec.go:61-67 | a key without a comment is `Opaque`, not required, not valid |
| Annotation.RequiredIffBang | spec.go:86-89 | a key is required exactly when its comment's name part ends in `!` |
| Annotation.StoredName | spec.go:72-94 | the stored name is the normalised name part without one trailing `!`, or `Opaque` when that is empty |
| Annotation.SpecFor | spec.go:60-102 | the spec one key gets; a valid spec has a handled name and a non-blank value |
| Annotation.UnknownNameIsInvalid | spec.go:96-99 | a name outside the five handled ones is never valid |
| Annotation.HandledNameValidity | spec.go:42-51 | a handled name is valid exactly when the value is not blank and, for a required key with a decoded `length`, the value has that length |
| Annotation.NoColonNoLengthRule | spec.go:45-84 | without a `:` the parameters play no part, and validity is non-blankness alone |
| Annotation.RequiredPasswordOfLength | spec.go:42-99 | `password!:{"length":8}` makes a required `Password` that is valid exactly for non-blank values of eight characters |
| Annotation.BuildSpec | spec.go:60-99 | the loop body builds the spec that `SpecFor` describes |
| Annotation.GenerateSpecsFromComments | spec.go:54-107 | the result has exactly the keys of `values`, each with the spec its comment describes; keys that only have a comment are ignored |

## Left out

- Regular expressions: Go's `regexp` engine is not modelled. The three
  patterns are replaced by scanners that take the same leftmost,
  non-overlapping, greedy matches.
- Parser.ParseBytesWithComments and Parser.ParseBytes: require ASCII input.
  `findEndOfVar` counts runes while its result indexes bytes (parser.go:153-162,
  192-196), and the two agree only on one-byte characters. The model works on characters
  throughout.
- Unicode classes: `unicode.IsLetter`, `unicode.IsNumber` and
  `unicode.IsSpace` are their ASCII and Latin-1 restrictions. Letters and
  digits beyond ASCII are not modelled.
- Annotation.ValidateInput: counts characters where Go's `len` counts UTF-8
  bytes. The two agree on ASCII values.
- Annotation.UpperFirstLetter: maps case for ASCII letters only.
- `json.Unmarshal` (spec.go:81) is a library call. It is a parameter
  `decode` that yields the `length` number as an integer, or nothing.
  Malformed JSON, a missing `length` and a non-numeric `length` all yield
  nothing, which matches Go's empty map.
- The float64-to-int conversion of `length` (spec.go:46-47) is left to
  `decode`.
- The `fmt.Printf` warning (spec.go:82) is output and is left out.
- Error messages are left out. The `fmt.Errorf` text is replaced by error
  variants that carry the offending character and text.
- The `-1` branches after `findEndOfLine` (parser.go:145-151, 184-190,
  206-209) are not modelled separately, because `findEndOfLine` never
  returns -1.
- File loading and writing to the process environment are not part of this
  model.
- Go map iteration order (spec.go:59) is left out.
  `GenerateSpecsFromComments` takes the keys in any order, and its result
  does not depend on the order.
- Worked examples of whole-buffer parses are not stated; the per-step lemmas
  above state those behaviours for all buffers.
