// The whitespace sets the trimming functions use and the UTF-8 byte order
// mark. Each set is the literal the library spells out, as the units of the
// string type it is declared with.

module StringConstants {
  import opened Units
  import opened IcuUtf
  import opened UtfConversion

  /** TAB, LINE TABULATION, FORM FEED, SPACE. */
  const WhitespaceASCIINoCRLF: seq<int> := [0x09, 0x0B, 0x0C, 0x20]

  /** kWhitespaceASCII and kWhitespaceASCIIAs{UTF8,UTF16,UTF32}: the HTML5
      whitespace, no control characters. */
  const WhitespaceASCII: seq<int> := WhitespaceASCIINoCRLF + [0x0A, 0x0D]

  /** The 19 non-ASCII whitespace code points, U+0085 to U+3000. */
  const WhitespaceNonASCII: seq<int> := [
    0x0085, 0x00A0, 0x1680,
    0x2000, 0x2001, 0x2002, 0x2003, 0x2004, 0x2005, 0x2006, 0x2007, 0x2008, 0x2009, 0x200A,
    0x2028, 0x2029, 0x202F, 0x205F, 0x3000
  ]

  /** kWhitespaceUTF16 and kWhitespaceUTF32. */
  const WhitespaceUnicode: seq<int> := WhitespaceASCII + WhitespaceNonASCII

  /** kWhitespaceUTF16NoCRLF and kWhitespaceUTF32NoCRLF. */
  const WhitespaceUnicodeNoCRLF: seq<int> := WhitespaceASCIINoCRLF + WhitespaceNonASCII

  /** kWhitespaceUTF8: the u8 literal of the Unicode set, that is its UTF-8
      bytes. */
  const WhitespaceUTF8: seq<int> := EncodeAll(Char8, WhitespaceUnicode)

  /** kWhitespaceUTF8NoCRLF. */
  const WhitespaceUTF8NoCRLF: seq<int> := EncodeAll(Char8, WhitespaceUnicodeNoCRLF)

  /** kWhitespaceInfraASCII: ASCII whitespace as section 4.6 of the WHATWG
      Infra Standard defines it. */
  const WhitespaceInfraASCII: seq<int> := [0x09, 0x0A, 0x0C, 0x0D, 0x20]

  /** kUTF8ByteOrderMark as written: the u8 literal of the three code points
      U+00EF U+00BB U+00BF. */
  const UTF8ByteOrderMarkAsWritten: seq<int> := EncodeAll(Char8, [0xEF, 0xBB, 0xBF])

  /** The UTF-8 byte order mark, U+FEFF encoded. */
  const UTF8ByteOrderMark: seq<int> := [0xEF, 0xBB, 0xBF]

  /** kWhitespaceASCII holds exactly TAB, VT, FF, SPACE, LF and CR. */
  lemma WhitespaceASCIIMembers(c: int)
    ensures c in WhitespaceASCII <==> c == 0x09 || c == 0x0B || c == 0x0C || c == 0x20 || c == 0x0A || c == 0x0D
  {
  }

  /** The Infra set is the ASCII set without LINE TABULATION. */
  lemma WhitespaceInfraIsASCIIWithoutVT(c: int)
    ensures c in WhitespaceInfraASCII <==> c in WhitespaceASCII && c != 0x0B
  {
  }

  /** The NoCRLF sets are the full sets without LF and CR. */
  lemma WhitespaceNoCRLFMembers(c: int)
    ensures c in WhitespaceUnicodeNoCRLF <==> c in WhitespaceUnicode && c != 0x0A && c != 0x0D
  {
  }

  /** The Unicode set has 25 distinct scalar values, the six ASCII ones
      first. */
  lemma WhitespaceUnicodeShape()
    ensures |WhitespaceUnicode| == 25 && WhitespaceUnicode[..6] == WhitespaceASCII
    ensures AreScalarValues(WhitespaceUnicode)
    ensures forall i, j :: 0 <= i < j < |WhitespaceUnicode| ==> WhitespaceUnicode[i] != WhitespaceUnicode[j]
  {
    var w := WhitespaceUnicode;
    assert w[..6] == WhitespaceASCII && w[6..] == WhitespaceNonASCII;
    IncreasingFromAdjacent(WhitespaceNonASCII);
    forall i, j | 0 <= i < j < |w| ensures w[i] != w[j] {
      if 6 <= i {
        assert w[i] == w[6..][i - 6] && w[j] == w[6..][j - 6];
      } else if 6 <= j {
        assert w[i] == w[..6][i] <= 0x20 && w[j] == w[6..][j - 6] >= 0x85;
      } else {
        assert w[i] == w[..6][i] && w[j] == w[..6][j];
      }
    }
  }

  /** A sequence that increases from each element to the next is strictly
      increasing. */
  lemma {:induction false} IncreasingFromAdjacent(s: seq<int>)
    requires forall i :: 0 <= i < |s| - 1 ==> s[i] < s[i + 1]
    ensures forall i, j :: 0 <= i < j < |s| ==> s[i] < s[j]
  {
    if |s| > 1 {
      var t := s[1..];
      forall i | 0 <= i < |t| - 1 ensures t[i] < t[i + 1] {
        assert t[i] == s[i + 1] && t[i + 1] == s[i + 2];
      }
      IncreasingFromAdjacent(t);
      forall i, j | 0 <= i < j < |s| ensures s[i] < s[j] {
        if i > 0 {
          assert s[i] == t[i - 1] && s[j] == t[j - 1];
        } else if j > 1 {
          assert s[1] == t[0] && s[j] == t[j - 1];
        }
      }
    }
  }

  /** kWhitespaceUTF8 holds the UTF-8 of every whitespace code point, and so
      the continuation byte 0x80 of U+2000 EN QUAD. */
  lemma WhitespaceUTF8Units(k: nat)
    requires k < |WhitespaceUnicode|
    ensures AreScalarValues(WhitespaceUnicode)
    ensures exists p :: OccursAt(WhitespaceUTF8, U8Encode(WhitespaceUnicode[k]), p)
    ensures 0x80 in WhitespaceUTF8
  {
    var q := EncodeUnitsOffset(Char8, WhitespaceUnicode, k);
    var p := EncodeUnitsOffset(Char8, WhitespaceUnicode, 9);
    assert WhitespaceUTF8[p + 2] == 0x80;
  }

  /** The byte order mark as written is six bytes, not the three bytes of
      U+FEFF. */
  lemma UTF8ByteOrderMarkAsWrittenIsWrong()
    ensures AreScalarValues([0xEF, 0xBB, 0xBF])
    ensures UTF8ByteOrderMarkAsWritten == [0xC3, 0xAF, 0xC2, 0xBB, 0xC2, 0xBF]
    ensures UTF8ByteOrderMarkAsWritten != UTF8ByteOrderMark
  {
    EncodeAllCons(Char8, 0xEF, [0xBB, 0xBF]);
    EncodeAllCons(Char8, 0xBB, [0xBF]);
    EncodeAllSingleton(Char8, 0xBF);
  }

  /** The corrected byte order mark is U+FEFF in UTF-8. */
  lemma UTF8ByteOrderMarkIsEncoding()
    ensures UTF8ByteOrderMark == U8Encode(0xFEFF)
  {
  }
}
