/** Worked inputs for the parser, each stating what parser.go produces for
    one short `.env` text. */
module Scenarios {
  import opened Common
  import opened Text
  import opened Parser

  /** A key character outside `[A-Za-z0-9_.]` is an error. */
  lemma BadKeyCharacter()
    ensures LocateKey("BA&D=x") == Err(UnexpectedChar('&', "BA&D=x"))
  {
    BadKeyStripped();
    LocateKeyRejectsBadChar("BA&D=x", 2);
  }

  lemma BadKeyStripped()
    ensures StripExport("BA&D=x") == "BA&D=x"
  {
    assert TrimLeftBy("BA&D=x", IsSpace) == "BA&D=x";
  }

  /** A quote that is never closed reports the first line. */
  lemma UnterminatedQuote()
    ensures ExtractQuoted("'abc\nX=1", map[], '\'') == Err(Unterminated("'abc"))
  {
    var s := "'abc\nX=1";
    assert forall i :: 0 <= i < |s| ==> !ClosesAt(s, '\'', i) by {
      forall i | 0 <= i < |s| ensures s[i] != '\'' || i == 0 {
      }
    }
    ExtractQuotedOutcome(s, map[], '\'');
    assert IsLineEnd(s[4]) && !IsLineEnd(s[0]) && !IsLineEnd(s[1]) && !IsLineEnd(s[2]) && !IsLineEnd(s[3]);
    IndexWhereIsFirst(s, IsLineEnd, 4);
    assert EndOfLine(s) == 4;
    assert s[..4] == "'abc";
  }

  /** `export` followed by whitespace and nothing else leaves no text for
      the key, the zero-length error. */
  lemma ExportAloneIsZeroLength()
    ensures LocateKey("export ") == Err(ZeroLength)
  {
    ExportStripped("export ");
    LocateKeyWithoutDelimiter("export ");
  }

  lemma ExportStripped(src: string)
    requires src == "export "
    ensures StripExport(src) == ""
  {
    assert TrimLeftBy(src, IsSpace) == src;
    assert src[..6] == "export" && IsSpace(src[6]);
    assert TrimLeftBy(src[6..], IsSpace) == "";
  }

  /** Without `=` or `:` a statement has the empty key, and parsing stops
      there without an error. */
  lemma NoDelimiterStopsParsing()
    ensures LocateKey("A B") == Ok(("", "A B"))
  {
    NoDelimiterStripped("A B");
    LocateKeyWithoutDelimiter("A B");
  }

  lemma NoDelimiterStripped(src: string)
    requires src == "A B"
    ensures StripExport(src) == src && TrimLeftBy(src, IsSpace) == src
    ensures forall i :: 0 <= i < |src| ==> !StopsKey(src[i])
  {
    assert src[0] == 'A' && src[1] == ' ' && src[2] == 'B';
  }
}
