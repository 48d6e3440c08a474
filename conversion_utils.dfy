// Validity tests for code points, the one-character readers for UTF-8,
// UTF-16 and UTF-32 text, the one-character appenders, and the output
// preparation helpers of the generic converter.

module UtfConversionUtils {
  import opened Units
  import opened IcuUtf
  import opened UnitStrings

  /** Whether a code point is a Unicode scalar value: surrogates and values
      above U+10FFFF are refused, noncharacters are accepted. */
  function IsValidCodepoint(cp: int): (r: bool)
    ensures r <==> IsScalarValue(cp)
  {
    (cp >= 0 && cp < 0xD800) || (cp >= 0xE000 && cp <= 0x10FFFF)
  }

  /** The 66 noncharacters: U+FDD0..U+FDEF and the last two code points of
      every plane. */
  predicate IsNoncharacter(cp: int)
  {
    (0xFDD0 <= cp <= 0xFDEF) || (IsCodePoint(cp) && cp % 0x10000 >= 0xFFFE)
  }

  /** Whether a code point is a scalar value that is not a noncharacter. */
  function IsValidCharacter(cp: int): (r: bool)
    ensures r <==> IsScalarValue(cp) && !IsNoncharacter(cp)
  {
    (cp >= 0 && cp < 0xD800) ||
    (cp >= 0xE000 && cp < 0xFDD0) ||
    (cp > 0xFDEF && cp <= 0x10FFFF && MaskFFFE(cp) != 0xFFFE)
  }

  /** x & 0xFFFE for a non-negative x: bits 1 to 15 of x. */
  function MaskFFFE(x: nat): nat
  {
    x % 0x10000 / 2 * 2
  }

  // ---------------------------------------------------------------------------
  // ReadUnicodeCharacter: `charIndex` is where the character starts; the
  // returned `lastIndex` is its last unit, so that the caller's ++ moves on.

  /** Reads the UTF-8 character at `charIndex` of `src` (a `char` view whose
      bytes are read as uint8_t). The length is handed to U8Next as an
      int32_t, hence the bound on `|src|`. */
  method ReadUnicodeCharacterUTF8(src: seq<Byte>, charIndex: nat)
    returns (ok: bool, lastIndex: nat, cp: int)
    requires charIndex < |src| <= 0x7FFF_FFFF
    ensures charIndex <= lastIndex < |src|
    ensures ok <==> cp != Sentinel
    ensures ok ==> IsScalarValue(cp) && src[charIndex..lastIndex + 1] == U8Encode(cp)
    ensures !ok ==> IsMaximalSubpart(src, charIndex, lastIndex + 1, |src|)
    ensures forall c {:trigger U8Encode(c)} ::
      IsScalarValue(c) && charIndex + |U8Encode(c)| <= |src| &&
      src[charIndex..charIndex + |U8Encode(c)|] == U8Encode(c) ==>
        ok && cp == c && lastIndex == charIndex + |U8Encode(c)| - 1
  {
    var next := U8Next(src, charIndex, |src|);
    cp := next.cp;
    lastIndex := next.offset - 1;
    ok := IsValidCodepoint(cp);
    U8NextRead(src, charIndex, ok, lastIndex, cp);
  }

  /** What U8Next promises, for the code point it gives and the last unit it
      takes. */
  lemma U8NextRead(src: seq<Byte>, charIndex: nat, ok: bool, lastIndex: nat, cp: int)
    requires charIndex < |src| && Next(cp, lastIndex + 1) == U8Next(src, charIndex, |src|)
    requires ok == IsValidCodepoint(cp)
    ensures charIndex <= lastIndex < |src|
    ensures ok <==> cp != Sentinel
    ensures ok ==> IsScalarValue(cp) && src[charIndex..lastIndex + 1] == U8Encode(cp)
    ensures !ok ==> IsMaximalSubpart(src, charIndex, lastIndex + 1, |src|)
    ensures forall c {:trigger U8Encode(c)} ::
      IsScalarValue(c) && charIndex + |U8Encode(c)| <= |src| &&
      src[charIndex..charIndex + |U8Encode(c)|] == U8Encode(c) ==>
        ok && cp == c && lastIndex == charIndex + |U8Encode(c)| - 1
  {
    U8NextSound(src, charIndex, |src|);
    U8NextMaximalSubpart(src, charIndex, |src|);
    U8NextOfAnyEncoding(src, charIndex, |src|);
  }

  /** Reads the UTF-16 character at `charIndex`. An unpaired surrogate makes
      it fail without writing anything: the index and the caller's code
      point `cpIn` come back unchanged. */
  method ReadUnicodeCharacterUTF16(src: seq<Unit16>, charIndex: nat, cpIn: int)
    returns (ok: bool, lastIndex: nat, cp: int)
    requires charIndex < |src|
    ensures charIndex <= lastIndex < |src|
    ensures ok <==>
      !U16IsSurrogate(src[charIndex]) ||
      (U16IsSurrogateLead(src[charIndex]) && charIndex + 1 < |src| && U16IsTrail(src[charIndex + 1]))
    ensures ok ==> IsScalarValue(cp) && src[charIndex..lastIndex + 1] == U16Encode(cp)
    ensures !ok ==> lastIndex == charIndex && cp == cpIn
    ensures forall c {:trigger U16Encode(c)} ::
      IsScalarValue(c) && charIndex + |U16Encode(c)| <= |src| &&
      src[charIndex..charIndex + |U16Encode(c)|] == U16Encode(c) ==>
        ok && cp == c && lastIndex == charIndex + |U16Encode(c)| - 1
  {
    lastIndex, cp := charIndex, cpIn;
    if U16IsSurrogate(src[charIndex]) {
      if !U16IsSurrogateLead(src[charIndex]) || |src| == 0 || charIndex >= |src| - 1 ||
         !U16IsTrail(src[charIndex + 1]) {
        return false, lastIndex, cp;
      }
      cp := U16GetSupplementary(src[charIndex], src[charIndex + 1]);
      lastIndex := lastIndex + 1;
    } else {
      cp := src[charIndex];
    }
    ok := IsValidCodepoint(cp);
    assert src[charIndex..lastIndex + 1] == U16Encode(cp);
  }

  /** Reads the UTF-32 unit at `charIndex`, converted to a signed 32-bit
      code point. */
  method ReadUnicodeCharacterUTF32(src: seq<Unit32>, charIndex: nat)
    returns (ok: bool, lastIndex: nat, cp: int)
    requires charIndex < |src|
    ensures lastIndex == charIndex
    ensures ok <==> IsScalarValue(src[charIndex])
    ensures src[charIndex] < 0x8000_0000 ==> cp == src[charIndex]
    ensures src[charIndex] >= 0x8000_0000 ==> cp == src[charIndex] as int - 0x1_0000_0000
  {
    cp := WrapSigned(src[charIndex], W32);
    lastIndex := charIndex;
    ok := IsValidCodepoint(cp);
  }

  // ---------------------------------------------------------------------------
  // AppendUnicodeCharacter: returns the number of units written.

  /** Appends the UTF-8 bytes of `cp`: one byte directly, otherwise by growing
      the string by four bytes, writing in place and cutting it back. */
  method AppendUnicodeCharacterUTF8(cp: int, output: UnitString) returns (written: nat)
    requires output.Valid() && IsCodePoint(cp)
    modifies output, output.buf
    ensures output.Valid()
    ensures output.Contents() == old(output.Contents()) + U8Encode(cp)
    ensures written == |U8Encode(cp)|
  {
    if 0 <= cp <= 0x7F {
      output.PushBack(cp);
      return 1;
    }
    var charOffset := output.size;
    ghost var before := output.Contents();
    output.Resize(charOffset + U8MaxLength);
    var next := U8AppendUnsafe(output.buf, charOffset, cp);
    assert output.buf[..next] == before + U8Encode(cp);
    output.Resize(next);
    written := next - charOffset;
  }

  /** Appends the UTF-16 units of `cp`: a BMP code point as one unit, any
      other by growing the string by two units and writing in place. */
  method AppendUnicodeCharacterUTF16(cp: int, output: UnitString) returns (written: nat)
    requires output.Valid() && IsCodePoint(cp)
    modifies output, output.buf
    ensures output.Valid()
    ensures output.Contents() == old(output.Contents()) + U16Encode(cp)
    ensures written == |U16Encode(cp)|
  {
    if U16Length(cp) == 1 {
      output.PushBack(cp);
      return 1;
    }
    var charOffset := output.size;
    ghost var before := output.Contents();
    output.Resize(charOffset + U16MaxLength);
    var next := U16AppendUnsafe(output.buf, charOffset, cp);
    assert output.buf[..next] == before + U16Encode(cp);
    written := U16MaxLength;
  }

  /** Appends `cp` as one char32_t unit, converted modulo 2^32. */
  method AppendUnicodeCharacterUTF32(cp: int, output: UnitString) returns (written: nat)
    requires output.Valid()
    modifies output, output.buf
    ensures output.Valid()
    ensures output.Contents() == old(output.Contents()) + [WrapUnsigned(cp, W32)]
    ensures written == 1
  {
    output.PushBack(WrapUnsigned(cp, W32));
    written := 1;
  }

  /** Appending a scalar value and reading it back from the start gives it
      again, with the index on its last unit. */
  method AppendThenReadUTF8(cp: int) returns (ok: bool, lastIndex: nat, back: int)
    requires IsScalarValue(cp)
    ensures ok && back == cp && lastIndex == |U8Encode(cp)| - 1
  {
    var s := new UnitString.FromSeq([]);
    var n := AppendUnicodeCharacterUTF8(cp, s);
    var bytes: seq<Byte> := s.Contents();
    ok, lastIndex, back := ReadUnicodeCharacterUTF8(bytes, 0);
  }

  /** The same round trip through UTF-16. */
  method AppendThenReadUTF16(cp: int) returns (ok: bool, lastIndex: nat, back: int)
    requires IsScalarValue(cp)
    ensures ok && back == cp && lastIndex == |U16Encode(cp)| - 1
  {
    var s := new UnitString.FromSeq([]);
    var n := AppendUnicodeCharacterUTF16(cp, s);
    var units: seq<Unit16> := s.Contents();
    ok, lastIndex, back := ReadUnicodeCharacterUTF16(units, 0, Sentinel);
  }

  /** The same round trip through UTF-32. */
  method AppendThenReadUTF32(cp: int) returns (ok: bool, lastIndex: nat, back: int)
    requires IsScalarValue(cp)
    ensures ok && back == cp && lastIndex == 0
  {
    var s := new UnitString.FromSeq([]);
    var n := AppendUnicodeCharacterUTF32(cp, s);
    var units: seq<Unit32> := s.Contents();
    ok, lastIndex, back := ReadUnicodeCharacterUTF32(units, 0);
  }

  // ---------------------------------------------------------------------------
  // Output preparation of the generic converter: clear, then reserve a guess.

  /** Clears `output` and reserves one byte per unit of a UTF-16 or UTF-32
      `src` that starts with an ASCII unit, three bytes per unit otherwise. */
  method PrepareForUTF8Output(src: seq<int>, output: UnitString)
    requires output.Valid()
    modifies output
    ensures output.Valid() && output.Contents() == []
    ensures |src| > 0 && src[0] < 0x80 ==> output.Capacity() >= |src|
    ensures |src| > 0 && src[0] >= 0x80 ==> output.Capacity() >= 3 * |src|
  {
    output.Clear();
    if |src| == 0 {
      return;
    }
    if src[0] < 0x80 {
      output.Reserve(|src|);
      return;
    }
    output.Reserve(|src| * 3);
  }

  /** Clears `output` and reserves one unit per byte of a UTF-8 `src` that
      starts with an ASCII byte, one unit per two bytes otherwise. */
  method PrepareForUTF16Or32Output(src: seq<Byte>, output: UnitString)
    requires output.Valid()
    modifies output
    ensures output.Valid() && output.Contents() == []
    ensures |src| > 0 && src[0] < 0x80 ==> output.Capacity() >= |src|
    ensures |src| > 0 && src[0] >= 0x80 ==> output.Capacity() >= |src| / 2
  {
    output.Clear();
    if |src| == 0 {
      return;
    }
    if src[0] < 0x80 {
      output.Reserve(|src|);
      return;
    }
    output.Reserve(|src| / 2);
  }
}
