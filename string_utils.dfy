// The string functions with out-of-line definitions: byte-budget truncation
// of UTF-8 text, and the per-type wrappers over the string templates.

module StringUtils {
  import opened Units
  import opened IcuUtf
  import opened UtfConversionUtils
  import opened UnitStrings
  import StringReplace
  import StringInternal
  import StringConstants
  import UtfConversion

  // ---------------------------------------------------------------------------
  // TruncateUTF8ToByteSize

  /** A character U8Next reads at `s` with the bound `limit` is a valid
      character (a scalar value that is not a noncharacter). */
  predicate ValidCharAt(input: seq<Byte>, s: nat, limit: nat)
    requires s < limit <= |input|
  {
    IsValidCharacter(U8Next(input, s, limit).cp)
  }

  /** The last start below `k` from which a valid character is read with
      the bound `limit`; -1 if there is none. */
  function LastValidStart(input: seq<Byte>, limit: nat, k: nat): (s: int)
    requires k <= limit <= |input|
    ensures -1 <= s < k
    ensures s >= 0 ==> ValidCharAt(input, s, limit)
    ensures forall j :: s < j < k ==> !ValidCharAt(input, j, limit)
    decreases k
  {
    if k == 0 then -1
    else if ValidCharAt(input, k - 1, limit) then k - 1
    else LastValidStart(input, limit, k - 1)
  }

  /** What TruncateUTF8ToByteSize leaves in its output: all of the input if
      the budget exceeds it, otherwise the input up to the end of the last
      valid character that starts and ends within the budget. */
  function TruncatedUTF8(input: seq<Byte>, byteSize: nat): (r: seq<Byte>)
    ensures byteSize > |input| ==> r == input
    ensures |r| <= |input| && r == input[..|r|]
    ensures byteSize <= |input| ==> |r| <= byteSize
    ensures byteSize <= |input| ==>
      (r == [] <==> forall s :: 0 <= s < byteSize ==> !ValidCharAt(input, s, byteSize))
    ensures byteSize <= |input| && r != [] ==>
      exists s :: 0 <= s < byteSize && ValidCharAt(input, s, byteSize) &&
        U8Next(input, s, byteSize).offset == |r| &&
        forall j :: s < j < byteSize ==> !ValidCharAt(input, j, byteSize)
  {
    if byteSize > |input| then input
    else
      var s := LastValidStart(input, byteSize, byteSize);
      if s < 0 then [] else input[..U8Next(input, s, byteSize).offset]
  }

  /** TruncateUTF8ToByteSize: scans backwards from the budget for the last
      start of a valid character and keeps the input up to its end. The
      budget is handed to U8Next as an int32_t; the caller keeps it in range
      whenever it does not exceed the input. */
  method TruncateUTF8ToByteSize(input: seq<Byte>, byteSize: nat, output: UnitString)
    requires output.Valid()
    requires byteSize > |input| || byteSize <= 0x7FFF_FFFF
    modifies output, output.buf
    ensures output.Valid() && output.Contents() == TruncatedUTF8(input, byteSize)
  {
    if byteSize > |input| {
      output.Assign(input);
      return;
    }
    var truncationLength: nat := byteSize;
    var charIndex: int := truncationLength - 1;
    while charIndex >= 0
      invariant -1 <= charIndex < truncationLength
      invariant LastValidStart(input, byteSize, byteSize) == LastValidStart(input, byteSize, charIndex + 1)
    {
      var prev := charIndex;
      var next := U8Next(input, charIndex, truncationLength);
      charIndex := next.offset;
      if !IsValidCharacter(next.cp) {
        charIndex := prev - 1;
      } else {
        break;
      }
    }
    if charIndex >= 0 {
      output.Assign(input[..charIndex]);
    } else {
      output.Clear();
    }
  }

  /** The start found by the scan is the only one that can be found. */
  lemma LastValidStartUnique(input: seq<Byte>, limit: nat, k: nat, s: nat)
    requires s < k <= limit <= |input|
    requires ValidCharAt(input, s, limit)
    requires forall j :: s < j < k ==> !ValidCharAt(input, j, limit)
    ensures LastValidStart(input, limit, k) == s
  {
  }

  /** Truncating a truncation again to its own length changes nothing. */
  lemma TruncatedUTF8Idempotent(input: seq<Byte>, byteSize: nat)
    requires byteSize <= |input|
    ensures var out := TruncatedUTF8(input, byteSize);
      TruncatedUTF8(out, |out|) == out
  {
    var out := TruncatedUTF8(input, byteSize);
    var s := LastValidStart(input, byteSize, byteSize);
    if s >= 0 {
      var e := U8Next(input, s, byteSize).offset;
      assert out == input[..e];
      U8NextAnyCoveringLength(input, s, byteSize, e);
      U8NextReadsOnlyUpToLength(out, input, s, e);
      forall j | s < j < e
        ensures !ValidCharAt(out, j, e)
      {
        U8NextReadsOnlyUpToLength(out, input, j, e);
        if ValidCharAt(input, j, e) {
          U8NextAnyCoveringLength(input, j, e, byteSize);
        }
      }
      LastValidStartUnique(out, e, e, s);
    }
  }

  /** A zero budget keeps nothing; an encoded surrogate or a lone
      noncharacter truncates to nothing even when the budget covers it; an
      invalid byte before the last valid character is kept. */
  lemma TruncatedUTF8Examples(input: seq<Byte>)
    ensures TruncatedUTF8(input, 0) == []
    ensures TruncatedUTF8([0xED, 0xA0, 0x8F], 3) == []
    ensures TruncatedUTF8([0xEF, 0xB7, 0x90], 3) == []
    ensures TruncatedUTF8([0x61, 0xFF, 0x62], 3) == [0x61, 0xFF, 0x62]
    ensures TruncatedUTF8([0x61, 0x62, 0xE2, 0x82], 4) == [0x61, 0x62]
  {
  }

  // ---------------------------------------------------------------------------
  // RemoveChars and ReplaceChars

  /** RemoveChars: ReplaceChars with an empty replacement, so `output`
      becomes `input` without the units of `removeChars`, and the result
      says whether any unit was removed. */
  method RemoveChars(input: seq<int>, removeChars: seq<int>, output: UnitString) returns (r: bool)
    requires output.Valid() && |input| < NPos
    modifies output, output.buf
    ensures output.Valid()
    ensures output.Contents() == StringReplace.ReplaceEach(input, removeChars, [])
    ensures forall x :: x in output.Contents() <==> x in input && x !in removeChars
    ensures r <==> |output.Contents()| < |input|
    ensures input == old(output.Contents()) ==> output.buf == old(output.buf)
  {
    r := StringReplace.ReplaceChars(input, removeChars, [], output);
    StringReplace.ReplaceEachRemoves(input, removeChars);
  }

  // ---------------------------------------------------------------------------
  // TrimString, TrimWhitespace and TrimWhitespaceASCII

  /** TrimString, the form that reports a bool: trims both sides and says
      whether anything was trimmed, which is when the input starts or ends
      with a unit of `trimChars`. */
  method TrimString(input: seq<int>, trimChars: seq<int>, output: UnitString) returns (r: bool)
    requires |input| < NPos && output.Valid()
    modifies output, output.buf
    ensures output.Valid()
    ensures output.Contents() == StringInternal.Trimmed(input, trimChars, StringInternal.TrimAll)
    ensures r <==> input != [] && (input[0] in trimChars || input[|input| - 1] in trimChars)
  {
    var p := StringInternal.TrimString(input, trimChars, StringInternal.TrimAll, output);
    StringInternal.TrimStringViewIsTrimmed(input, trimChars, StringInternal.TrimAll);
    if input != [] && input[0] !in trimChars {
      StringInternal.TrimViewBoth(input, trimChars);
    }
    r := p != StringInternal.TrimNone;
  }

  /** The whitespace set TrimWhitespace uses for each unit type: the UTF-8
      bytes of the Unicode whitespace for `char8_t`, the code points
      themselves for the 16- and 32-bit types. */
  function WhitespaceOf(t: CharType): seq<int>
    requires t != Char
  {
    if t == Char8 then StringConstants.WhitespaceUTF8 else StringConstants.WhitespaceUnicode
  }

  /** TrimWhitespace, the view form: the input without its leading and
      trailing whitespace on the requested sides; what is left does not
      begin or end with whitespace on those sides. */
  function TrimWhitespaceView(t: CharType, input: seq<int>, positions: StringInternal.TrimPositions): (r: seq<int>)
    requires t != Char && |input| < NPos
    ensures r == StringInternal.Trimmed(input, WhitespaceOf(t), positions)
    ensures StringInternal.HasLeading(positions) && r != [] ==> r[0] !in WhitespaceOf(t)
    ensures StringInternal.HasTrailing(positions) && r != [] ==> r[|r| - 1] !in WhitespaceOf(t)
  {
    StringInternal.TrimStringViewIsTrimmed(input, WhitespaceOf(t), positions);
    StringInternal.TrimmedHasNoTrimUnitAtEdges(input, WhitespaceOf(t), positions);
    StringInternal.TrimStringView(input, WhitespaceOf(t), positions)
  }

  /** TrimWhitespace, the form that writes `output`: TrimString over the
      type's whitespace set. */
  method TrimWhitespace(t: CharType, input: seq<int>, positions: StringInternal.TrimPositions, output: UnitString)
    returns (r: StringInternal.TrimPositions)
    requires t != Char && |input| < NPos && output.Valid()
    modifies output, output.buf
    ensures output.Valid()
    ensures output.Contents() == TrimWhitespaceView(t, input, positions)
    ensures input == [] ==> r == StringInternal.TrimNone
    ensures input != [] && output.Contents() == [] ==> r == positions
    ensures output.Contents() != [] ==>
              (StringInternal.HasLeading(r) <==> StringInternal.HasLeading(positions) && input[0] in WhitespaceOf(t)) &&
              (StringInternal.HasTrailing(r) <==> StringInternal.HasTrailing(positions) && input[|input| - 1] in WhitespaceOf(t))
  {
    r := StringInternal.TrimString(input, WhitespaceOf(t), positions, output);
  }

  /** TrimWhitespaceASCII, the view form: trimming over the six ASCII
      whitespace units, for every unit type. */
  function TrimWhitespaceASCIIView(input: seq<int>, positions: StringInternal.TrimPositions): (r: seq<int>)
    requires |input| < NPos
    ensures r == StringInternal.Trimmed(input, StringConstants.WhitespaceASCII, positions)
    ensures StringInternal.HasLeading(positions) && r != [] ==> r[0] !in StringConstants.WhitespaceASCII
    ensures StringInternal.HasTrailing(positions) && r != [] ==> r[|r| - 1] !in StringConstants.WhitespaceASCII
  {
    StringInternal.TrimStringViewIsTrimmed(input, StringConstants.WhitespaceASCII, positions);
    StringInternal.TrimmedHasNoTrimUnitAtEdges(input, StringConstants.WhitespaceASCII, positions);
    StringInternal.TrimStringView(input, StringConstants.WhitespaceASCII, positions)
  }

  /** TrimWhitespaceASCII, the form that writes `output`. */
  method TrimWhitespaceASCII(input: seq<int>, positions: StringInternal.TrimPositions, output: UnitString)
    returns (r: StringInternal.TrimPositions)
    requires |input| < NPos && output.Valid()
    modifies output, output.buf
    ensures output.Valid()
    ensures output.Contents() == TrimWhitespaceASCIIView(input, positions)
    ensures input == [] ==> r == StringInternal.TrimNone
    ensures input != [] && output.Contents() == [] ==> r == positions
    ensures output.Contents() != [] ==>
              (StringInternal.HasLeading(r) <==> StringInternal.HasLeading(positions) && input[0] in StringConstants.WhitespaceASCII) &&
              (StringInternal.HasTrailing(r) <==> StringInternal.HasTrailing(positions) && input[|input| - 1] in StringConstants.WhitespaceASCII)
  {
    r := StringInternal.TrimString(input, StringConstants.WhitespaceASCII, positions, output);
  }

  // ---------------------------------------------------------------------------
  // TrimWhitespace over UTF-8: as written it trims bytes, not characters.

  /** The UTF-8 bytes of a sequence of scalar values. */
  function EncodeUTF8(cps: seq<int>): (r: seq<Byte>)
    requires UtfConversion.AreScalarValues(cps)
    ensures r == UtfConversion.EncodeAll(Char8, cps)
  {
    if cps == [] then [] else U8Encode(cps[0]) + EncodeUTF8(cps[1..])
  }

  /** What trimming leaves is a contiguous piece of what was trimmed. */
  lemma TrimmedIsSlice(s: seq<int>, chars: seq<int>, positions: StringInternal.TrimPositions) returns (i: nat)
    requires |s| < NPos
    ensures OccursAt(s, StringInternal.Trimmed(s, chars, positions), i)
  {
    StringInternal.TrimStringViewIsTrimmed(s, chars, positions);
    i :| OccursAt(s, StringInternal.TrimStringView(s, chars, positions), i);
  }

  /** The code points TrimWhitespace on UTF-8 evidently means to keep. */
  function KeptCodePoints(input: seq<Byte>, positions: StringInternal.TrimPositions): seq<int>
  {
    StringInternal.Trimmed(UtfConversion.DecodeUTF8(input, 0), StringConstants.WhitespaceUnicode, positions)
  }

  /** The UTF-8 of a piece of a sequence of scalar values is a piece of its
      UTF-8. */
  lemma EncodedSlice(cps: seq<int>, kept: seq<int>, i: nat) returns (p: nat)
    requires UtfConversion.AreScalarValues(cps) && OccursAt(cps, kept, i)
    ensures UtfConversion.AreScalarValues(kept)
    ensures OccursAt(UtfConversion.EncodeAll(Char8, cps), UtfConversion.EncodeAll(Char8, kept), p)
  {
    var pre := cps[..i];
    var post := cps[i + |kept|..];
    assert cps == pre + kept + post;
    UtfConversion.EncodeAllAppend(Char8, pre, kept);
    UtfConversion.EncodeAllAppend(Char8, pre + kept, post);
    p := |UtfConversion.EncodeAll(Char8, pre)|;
  }

  /** The kept code points are a piece of the decoded input, so scalar
      values; re-encoded, they decode back to themselves and, on valid
      input, are a piece of the input. */
  lemma KeptCodePointsEncoding(input: seq<Byte>, positions: StringInternal.TrimPositions)
    requires |input| < NPos
    ensures UtfConversion.AreScalarValues(KeptCodePoints(input, positions))
    ensures var r := EncodeUTF8(KeptCodePoints(input, positions));
            UtfConversion.IsValidUTF8(r, 0) && UtfConversion.DecodeUTF8(r, 0) == KeptCodePoints(input, positions) &&
            (UtfConversion.IsValidUTF8(input, 0) ==> exists p :: OccursAt(input, r, p))
  {
    var cps := UtfConversion.DecodeUTF8(input, 0);
    var kept := KeptCodePoints(input, positions);
    var i := TrimmedIsSlice(cps, StringConstants.WhitespaceUnicode, positions);
    var p := EncodedSlice(cps, kept, i);
    var r := EncodeUTF8(kept);
    UtfConversion.DecodeUTF8OfEncoding(r, 0, kept);
    if UtfConversion.IsValidUTF8(input, 0) {
      UtfConversion.EncodeOfValidUTF8(input, 0);
      assert input[0..] == input;
      assert OccursAt(input, r, p);
    }
  }

  /** TrimWhitespace over UTF-8 as evidently intended: the text is read as
      code points, whole whitespace code points are trimmed from the
      requested ends, and the rest is encoded again. The result is valid
      UTF-8, and on valid input it is a piece of the input. */
  function TrimWhitespaceUTF8Chars(input: seq<Byte>, positions: StringInternal.TrimPositions): (r: seq<Byte>)
    requires |input| < NPos
    ensures UtfConversion.IsValidUTF8(r, 0)
    ensures UtfConversion.DecodeUTF8(r, 0)
            == StringInternal.Trimmed(UtfConversion.DecodeUTF8(input, 0), StringConstants.WhitespaceUnicode, positions)
    ensures var d := UtfConversion.DecodeUTF8(r, 0);
            (StringInternal.HasLeading(positions) && d != [] ==> d[0] !in StringConstants.WhitespaceUnicode) &&
            (StringInternal.HasTrailing(positions) && d != [] ==> d[|d| - 1] !in StringConstants.WhitespaceUnicode)
    ensures UtfConversion.IsValidUTF8(input, 0) ==> exists p :: OccursAt(input, r, p)
  {
    KeptCodePointsEncoding(input, positions);
    StringInternal.TrimmedHasNoTrimUnitAtEdges(UtfConversion.DecodeUTF8(input, 0), StringConstants.WhitespaceUnicode, positions);
    EncodeUTF8(KeptCodePoints(input, positions))
  }

  /** A byte of kWhitespaceUTF8: byte `j` of the encoding of whitespace
      code point `k`. */
  lemma WhitespaceUTF8Byte(k: nat, j: nat)
    requires k < |StringConstants.WhitespaceUnicode| && IsScalarValue(StringConstants.WhitespaceUnicode[k])
    requires j < |U8Encode(StringConstants.WhitespaceUnicode[k])|
    ensures U8Encode(StringConstants.WhitespaceUnicode[k])[j] in StringConstants.WhitespaceUTF8
  {
    StringConstants.WhitespaceUTF8Units(k);
    var e := U8Encode(StringConstants.WhitespaceUnicode[k]);
    var p :| OccursAt(StringConstants.WhitespaceUTF8, e, p);
    assert StringConstants.WhitespaceUTF8[p + j] == e[j];
  }

  /** kWhitespaceUTF8 holds E2 and 80 (bytes of U+2000), A0 (a byte of
      U+00A0) and A9 (a byte of U+2029). */
  lemma WhitespaceUTF8HoldsLoneBytes()
    ensures 0xE2 in StringConstants.WhitespaceUTF8 && 0x80 in StringConstants.WhitespaceUTF8
    ensures 0xA0 in StringConstants.WhitespaceUTF8 && 0xA9 in StringConstants.WhitespaceUTF8
  {
    var w := StringConstants.WhitespaceUnicode;
    StringConstants.WhitespaceUnicodeShape();
    assert w[7] == 0xA0 && w[9] == 0x2000 && w[21] == 0x2029;
    assert U8Encode(0xA0) == [0xC2, 0xA0];
    assert U8Encode(0x2000) == [0xE2, 0x80, 0x80];
    assert U8Encode(0x2029) == [0xE2, 0x80, 0xA9];
    WhitespaceUTF8Byte(9, 0);
    WhitespaceUTF8Byte(9, 1);
    WhitespaceUTF8Byte(7, 1);
    WhitespaceUTF8Byte(21, 2);
  }

  /** TrimWhitespace on UTF-8 as written trims single bytes: U+2020 DAGGER
      (E2 80 A0) is not whitespace, yet it is trimmed away whole, because
      each of its bytes is a byte of some whitespace code point. Trimming
      whole code points keeps it. */
  lemma TrimWhitespaceUTF8DropsDagger(dagger: seq<Byte>)
    requires dagger == [0xE2, 0x80, 0xA0]
    ensures UtfConversion.IsValidUTF8(dagger, 0)
    ensures UtfConversion.DecodeUTF8(dagger, 0) == [0x2020]
    ensures 0x2020 !in StringConstants.WhitespaceUnicode
    ensures TrimWhitespaceView(Char8, dagger, StringInternal.TrimAll) == []
    ensures TrimWhitespaceUTF8Chars(dagger, StringInternal.TrimAll) == dagger
  {
    var ws := StringConstants.WhitespaceUTF8;
    WhitespaceUTF8HoldsLoneBytes();
    assert U8Encode(0x2020) == dagger;
    UtfConversion.EncodeAllSingleton(Char8, 0x2020);
    UtfConversion.DecodeUTF8OfEncoding(dagger, 0, [0x2020]);
    assert StringInternal.StripLeading(dagger, ws) == [] by {
      assert dagger[1..] == [0x80, 0xA0] && dagger[2..] == [0xA0] && dagger[3..] == [];
      assert StringInternal.StripLeading(dagger[2..], ws) == StringInternal.StripLeading(dagger[3..], ws);
      assert StringInternal.StripLeading(dagger[1..], ws) == StringInternal.StripLeading(dagger[2..], ws);
    }
    assert StringInternal.Trimmed([0x2020], StringConstants.WhitespaceUnicode, StringInternal.TrimAll) == [0x2020];
  }

  /** "café" is valid UTF-8 for the four code points c, a, f, é. */
  lemma CafeDecodes(cafe: seq<Byte>)
    requires cafe == [0x63, 0x61, 0x66, 0xC3, 0xA9]
    ensures UtfConversion.IsValidUTF8(cafe, 0)
    ensures UtfConversion.DecodeUTF8(cafe, 0) == [0x63, 0x61, 0x66, 0xE9]
  {
    assert U8Encode(0xE9) == [0xC3, 0xA9];
    UtfConversion.EncodeAllCons(Char8, 0x63, [0x61, 0x66, 0xE9]);
    UtfConversion.EncodeAllCons(Char8, 0x61, [0x66, 0xE9]);
    UtfConversion.EncodeAllCons(Char8, 0x66, [0xE9]);
    UtfConversion.EncodeAllSingleton(Char8, 0xE9);
    UtfConversion.DecodeUTF8OfEncoding(cafe, 0, [0x63, 0x61, 0x66, 0xE9]);
  }

  /** TrimWhitespace on UTF-8 as written cuts "café" (63 61 66 C3 A9) inside
      its é: A9 is a byte of U+2029, so the trailing trim removes it.
      Trimming whole code points keeps the text as it is. */
  lemma TrimWhitespaceUTF8CutsCafe(cafe: seq<Byte>)
    requires cafe == [0x63, 0x61, 0x66, 0xC3, 0xA9]
    ensures UtfConversion.IsValidUTF8(cafe, 0)
    ensures UtfConversion.DecodeUTF8(cafe, 0) == [0x63, 0x61, 0x66, 0xE9]
    ensures |TrimWhitespaceView(Char8, cafe, StringInternal.TrimTrailing)| < |cafe|
    ensures TrimWhitespaceUTF8Chars(cafe, StringInternal.TrimTrailing) == cafe
  {
    var ws := StringConstants.WhitespaceUTF8;
    CafeDecodes(cafe);
    WhitespaceUTF8HoldsLoneBytes();
    assert StringInternal.StripTrailing(cafe, ws) == StringInternal.StripTrailing(cafe[..4], ws);
    var i := TrimmedIsSlice(cafe[..4], ws, StringInternal.TrimTrailing);
    var cps := [0x63, 0x61, 0x66, 0xE9];
    assert StringInternal.Trimmed(cps, StringConstants.WhitespaceUnicode, StringInternal.TrimTrailing) == cps;
  }
}
