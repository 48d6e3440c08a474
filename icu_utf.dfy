// The ICU UTF-8 and UTF-16 primitives that the string layer wraps: decoding
// one UTF-8 character, the UTF-16 surrogate tests, and the unchecked
// appenders. UTF-8 well-formedness is taken from Table 3-7 of the Unicode
// Standard (the same byte table as section 4 of RFC 3629); the UTF-16
// surrogate arithmetic from section 2 of RFC 2781.

module IcuUtf {
  import opened Units

  /** The longest UTF-8 sequence of one code point. */
  const U8MaxLength: nat := 4
  /** The longest UTF-16 sequence of one code point. */
  const U16MaxLength: nat := 2
  /** U_SENTINEL, the value U8Next yields for an ill-formed sequence. */
  const Sentinel: int := -1

  predicate IsCodePoint(c: int)
  {
    0 <= c <= 0x10FFFF
  }

  predicate IsSurrogateCodePoint(c: int)
  {
    0xD800 <= c <= 0xDFFF
  }

  /** A Unicode scalar value (definition D76): any code point but a surrogate. */
  predicate IsScalarValue(c: int)
  {
    IsCodePoint(c) && !IsSurrogateCodePoint(c)
  }

  // ---------------------------------------------------------------------------
  // Table 3-7: the well-formed UTF-8 byte sequences, one row per lead range.

  datatype ByteRange = ByteRange(lo: int, hi: int)

  const Tail: ByteRange := ByteRange(0x80, 0xBF)

  const WellFormedRows: seq<seq<ByteRange>> := [
    [ByteRange(0x00, 0x7F)],
    [ByteRange(0xC2, 0xDF), Tail],
    [ByteRange(0xE0, 0xE0), ByteRange(0xA0, 0xBF), Tail],
    [ByteRange(0xE1, 0xEC), Tail, Tail],
    [ByteRange(0xED, 0xED), ByteRange(0x80, 0x9F), Tail],
    [ByteRange(0xEE, 0xEF), Tail, Tail],
    [ByteRange(0xF0, 0xF0), ByteRange(0x90, 0xBF), Tail, Tail],
    [ByteRange(0xF1, 0xF3), Tail, Tail, Tail],
    [ByteRange(0xF4, 0xF4), ByteRange(0x80, 0x8F), Tail, Tail]
  ]

  /** Every byte of `p` lies in the range the row gives for its position. */
  predicate FitsRow(p: seq<int>, row: seq<ByteRange>)
  {
    |p| <= |row| && forall i :: 0 <= i < |p| ==> row[i].lo <= p[i] <= row[i].hi
  }

  /** `p` is one complete well-formed UTF-8 sequence. */
  predicate IsWellFormed(p: seq<int>)
  {
    exists row :: row in WellFormedRows && |row| == |p| && FitsRow(p, row)
  }

  /** `p` is a non-empty initial part of a well-formed UTF-8 sequence. */
  predicate IsWellFormedPrefix(p: seq<int>)
  {
    |p| > 0 && exists row :: row in WellFormedRows && FitsRow(p, row)
  }

  // ---------------------------------------------------------------------------
  // U8Next

  /** What U8Next leaves behind: the code point and the advanced offset. */
  datatype Next = Next(cp: int, offset: nat)

  predicate IsTrailByte(b: int)
  {
    0x80 <= b <= 0xBF
  }

  /** The length a lead byte announces; 0 for bytes that start nothing. */
  function LeadLength(lead: int): nat
  {
    if lead < 0x80 then 1
    else if lead < 0xC2 then 0
    else if lead < 0xE0 then 2
    else if lead < 0xF0 then 3
    else if lead < 0xF5 then 4
    else 0
  }

  /** The second byte is narrowed after E0, ED, F0 and F4 (no overlong forms,
      no surrogates, nothing above U+10FFFF). */
  predicate SecondByteFits(lead: int, b: int)
  {
    if lead == 0xE0 then 0xA0 <= b <= 0xBF
    else if lead == 0xED then 0x80 <= b <= 0x9F
    else if lead == 0xF0 then 0x90 <= b <= 0xBF
    else if lead == 0xF4 then 0x80 <= b <= 0x8F
    else IsTrailByte(b)
  }

  /** A negative length stands for a NUL-terminated string. */
  predicate IsNulTerminatedFrom(src: seq<Byte>, offset: nat)
  {
    exists k :: offset <= k < |src| && src[k] == 0
  }

  /** What U8Next needs of its caller: a byte to read, and either a length
      within the buffer or a NUL byte ahead. */
  predicate CanReadAt(src: seq<Byte>, offset: nat, length: int)
  {
    offset < |src| &&
    if length >= 0 then offset < length <= |src| else IsNulTerminatedFrom(src, offset)
  }

  /** The end of the readable bytes. */
  function Limit(src: seq<Byte>, length: int): nat
  {
    if length >= 0 && length <= |src| then length else |src|
  }

  /** The cursor has reached `length`; the size_t cursor never equals a
      negative length. */
  predicate AtEnd(i: nat, length: int)
  {
    length >= 0 && i == length
  }

  /** U8_NEXT: reads one character at `offset`. A well-formed sequence gives
      its code point; an ill-formed one gives Sentinel and skips its maximal
      subpart (at least one byte). */
  function U8Next(src: seq<Byte>, offset: nat, length: int): (r: Next)
    requires CanReadAt(src, offset, length)
    ensures offset < r.offset <= offset + U8MaxLength
    ensures r.offset <= Limit(src, length)
  {
    var lead: int := src[offset];
    var n := LeadLength(lead);
    if n == 1 then
      Next(lead, offset + 1)
    else if n == 0 || AtEnd(offset + 1, length) || !SecondByteFits(lead, src[offset + 1]) then
      Next(Sentinel, offset + 1)
    else if n == 2 then
      Next((lead - 0xC0) * 64 + (src[offset + 1] as int - 0x80), offset + 2)
    else if AtEnd(offset + 2, length) || !IsTrailByte(src[offset + 2]) then
      Next(Sentinel, offset + 2)
    else if n == 3 then
      Next((lead - 0xE0) * 4096 + (src[offset + 1] as int - 0x80) * 64 + (src[offset + 2] as int - 0x80),
           offset + 3)
    else if AtEnd(offset + 3, length) || !IsTrailByte(src[offset + 3]) then
      Next(Sentinel, offset + 3)
    else
      Next((lead - 0xF0) * 262144 + (src[offset + 1] as int - 0x80) * 4096
             + (src[offset + 2] as int - 0x80) * 64 + (src[offset + 3] as int - 0x80),
           offset + 4)
  }

  // ---------------------------------------------------------------------------
  // UTF-8 encoding

  /** The UTF-8 bytes of a code point (surrogates included, as
      U8_APPEND_UNSAFE writes them). */
  function U8Encode(cp: int): (r: seq<Byte>)
    requires IsCodePoint(cp)
    ensures 1 <= |r| <= U8MaxLength
    ensures |r| == 1 <==> cp < 0x80
    ensures forall i :: 1 <= i < |r| ==> IsTrailByte(r[i])
  {
    var q1 := cp / 64;
    var q2 := q1 / 64;
    var q3 := q2 / 64;
    if cp <= 0x7F then [cp]
    else if cp <= 0x7FF then [0xC0 + q1, 0x80 + cp % 64]
    else if cp <= 0xFFFF then [0xE0 + q2, 0x80 + q1 % 64, 0x80 + cp % 64]
    else [0xF0 + q3, 0x80 + q2 % 64, 0x80 + q1 % 64, 0x80 + cp % 64]
  }

  /** U8_APPEND_UNSAFE writes 1, 2, 3 or 4 bytes for code points up to
      U+007F, U+07FF, U+FFFF and U+10FFFF. */
  lemma U8EncodeLength(cp: int)
    requires IsCodePoint(cp)
    ensures |U8Encode(cp)| == 2 <==> 0x80 <= cp <= 0x7FF
    ensures |U8Encode(cp)| == 3 <==> 0x800 <= cp <= 0xFFFF
    ensures |U8Encode(cp)| == 4 <==> 0x10000 <= cp
  {
  }

  /** The encoder writes only rows of Table 3-7. */
  lemma U8EncodeIsWellFormed(cp: int)
    requires IsScalarValue(cp)
    ensures IsWellFormed(U8Encode(cp))
  {
    var e := U8Encode(cp);
    if cp <= 0x7F {
      WellFormedFromBytes(e);
    } else if cp <= 0x7FF {
      Encode2Bytes(cp);
      WellFormedFromBytes(e);
    } else if cp <= 0xFFFF {
      Encode3Bytes(cp);
      WellFormedFromBytes(e);
    } else {
      Encode4Bytes(cp);
      WellFormedFromBytes(e);
    }
  }

  /** Bytes whose lead, second and trail bytes pass the decoder's tests
      follow a row of Table 3-7. */
  lemma WellFormedFromBytes(p: seq<int>)
    requires 1 <= |p| <= 4
    requires |p| == 1 ==> 0 <= p[0] <= 0x7F
    requires |p| == 2 ==> 0xC2 <= p[0] <= 0xDF && IsTrailByte(p[1])
    requires |p| == 3 ==> 0xE0 <= p[0] <= 0xEF && SecondByteFits(p[0], p[1]) && IsTrailByte(p[2])
    requires |p| == 4 ==> 0xF0 <= p[0] <= 0xF4 && SecondByteFits(p[0], p[1]) && IsTrailByte(p[2]) && IsTrailByte(p[3])
    ensures IsWellFormed(p)
  {
    var row := WellFormedRows[RowIndex(p[0])];
    assert row in WellFormedRows;
    assert |row| == |p| && FitsRow(p, row);
  }

  // ---------------------------------------------------------------------------
  // What U8Next promises

  /** A character U8Next accepts is a scalar value whose encoding is exactly
      the bytes consumed. */
  lemma U8NextSound(src: seq<Byte>, offset: nat, length: int)
    requires CanReadAt(src, offset, length)
    ensures var r := U8Next(src, offset, length);
      r.cp != Sentinel ==> IsScalarValue(r.cp) && src[offset..r.offset] == U8Encode(r.cp)
  {
    var n := LeadLength(src[offset]);
    if n == 1 {
      assert src[offset..offset + 1] == [src[offset]];
    } else if n == 0 || AtEnd(offset + 1, length) || !SecondByteFits(src[offset], src[offset + 1]) {
    } else if n == 2 {
      U8NextSound2(src, offset, length);
    } else if AtEnd(offset + 2, length) || !IsTrailByte(src[offset + 2]) {
    } else if n == 3 {
      U8NextSound3(src, offset, length);
    } else if AtEnd(offset + 3, length) || !IsTrailByte(src[offset + 3]) {
    } else {
      U8NextSound4(src, offset, length);
    }
  }

  lemma U8NextSound2(src: seq<Byte>, offset: nat, length: int)
    requires CanReadAt(src, offset, length) && LeadLength(src[offset]) == 2
    requires !AtEnd(offset + 1, length) && SecondByteFits(src[offset], src[offset + 1])
    ensures var r := U8Next(src, offset, length);
      r.cp != Sentinel ==> IsScalarValue(r.cp) && src[offset..r.offset] == U8Encode(r.cp)
  {
    var lead: int := src[offset];
    var b1: int := src[offset + 1];
    Decode2(lead, b1);
    assert src[offset..offset + 2] == [lead, b1];
  }

  lemma U8NextSound3(src: seq<Byte>, offset: nat, length: int)
    requires CanReadAt(src, offset, length) && LeadLength(src[offset]) == 3
    requires !AtEnd(offset + 1, length) && SecondByteFits(src[offset], src[offset + 1])
    requires !AtEnd(offset + 2, length) && IsTrailByte(src[offset + 2])
    ensures var r := U8Next(src, offset, length);
      r.cp != Sentinel ==> IsScalarValue(r.cp) && src[offset..r.offset] == U8Encode(r.cp)
  {
    var lead: int := src[offset];
    var b1: int := src[offset + 1];
    var b2: int := src[offset + 2];
    Decode3(lead, b1, b2);
    assert src[offset..offset + 3] == [lead, b1, b2];
  }

  lemma U8NextSound4(src: seq<Byte>, offset: nat, length: int)
    requires CanReadAt(src, offset, length) && LeadLength(src[offset]) == 4
    requires !AtEnd(offset + 1, length) && SecondByteFits(src[offset], src[offset + 1])
    requires !AtEnd(offset + 2, length) && IsTrailByte(src[offset + 2])
    requires !AtEnd(offset + 3, length) && IsTrailByte(src[offset + 3])
    ensures var r := U8Next(src, offset, length);
      r.cp != Sentinel ==> IsScalarValue(r.cp) && src[offset..r.offset] == U8Encode(r.cp)
  {
    var lead: int := src[offset];
    var b1: int := src[offset + 1];
    var b2: int := src[offset + 2];
    var b3: int := src[offset + 3];
    Decode4(lead, b1, b2, b3);
    assert src[offset..offset + 4] == [lead, b1, b2, b3];
  }

  /** Splitting `q * 64 + r` by 64 gives back `q` and `r`. */
  lemma DivMod64(q: int, r: int)
    requires 0 <= q && 0 <= r < 64
    ensures (q * 64 + r) / 64 == q && (q * 64 + r) % 64 == r
  {
  }

  /** The two-byte rows decode to scalar values that encode back to them. */
  lemma Decode2(b0: int, b1: int)
    requires 0xC2 <= b0 <= 0xDF && IsTrailByte(b1)
    ensures var cp := (b0 - 0xC0) * 64 + (b1 - 0x80);
      IsScalarValue(cp) && U8Encode(cp) == [b0, b1]
  {
    DivMod64(b0 - 0xC0, b1 - 0x80);
  }

  /** The three-byte rows: E0 excludes overlong forms, ED the surrogates. */
  lemma Decode3(b0: int, b1: int, b2: int)
    requires 0xE0 <= b0 <= 0xEF && SecondByteFits(b0, b1) && IsTrailByte(b2)
    ensures var cp := (b0 - 0xE0) * 4096 + (b1 - 0x80) * 64 + (b2 - 0x80);
      IsScalarValue(cp) && U8Encode(cp) == [b0, b1, b2]
  {
    var q1 := (b0 - 0xE0) * 64 + (b1 - 0x80);
    assert (b0 - 0xE0) * 4096 + (b1 - 0x80) * 64 + (b2 - 0x80) == q1 * 64 + (b2 - 0x80);
    DivMod64(q1, b2 - 0x80);
    DivMod64(b0 - 0xE0, b1 - 0x80);
  }

  /** The four-byte rows: F0 excludes overlong forms, F4 anything above
      U+10FFFF. */
  lemma Decode4(b0: int, b1: int, b2: int, b3: int)
    requires 0xF0 <= b0 <= 0xF4 && SecondByteFits(b0, b1) && IsTrailByte(b2) && IsTrailByte(b3)
    ensures var cp := (b0 - 0xF0) * 262144 + (b1 - 0x80) * 4096 + (b2 - 0x80) * 64 + (b3 - 0x80);
      IsScalarValue(cp) && U8Encode(cp) == [b0, b1, b2, b3]
  {
    var q2 := (b0 - 0xF0) * 64 + (b1 - 0x80);
    var q1 := q2 * 64 + (b2 - 0x80);
    assert (b0 - 0xF0) * 262144 + (b1 - 0x80) * 4096 + (b2 - 0x80) * 64 + (b3 - 0x80) == q1 * 64 + (b3 - 0x80);
    DivMod64(q1, b3 - 0x80);
    DivMod64(q2, b2 - 0x80);
    DivMod64(b0 - 0xF0, b1 - 0x80);
  }

  /** The two bytes of a code point from U+0080 to U+07FF, and the value
      U8Next assembles from them. */
  lemma Encode2Bytes(cp: int)
    requires 0x80 <= cp <= 0x7FF
    ensures var e := U8Encode(cp);
      |e| == 2 && 0xC2 <= e[0] <= 0xDF && IsTrailByte(e[1]) &&
      (e[0] as int - 0xC0) * 64 + (e[1] as int - 0x80) == cp
  {
    assert cp == 64 * (cp / 64) + cp % 64;
  }

  /** The three bytes of a scalar value from U+0800 to U+FFFF. */
  lemma Encode3Bytes(cp: int)
    requires IsScalarValue(cp) && 0x800 <= cp <= 0xFFFF
    ensures var e := U8Encode(cp);
      |e| == 3 && 0xE0 <= e[0] <= 0xEF && SecondByteFits(e[0], e[1]) && IsTrailByte(e[2]) &&
      (e[0] as int - 0xE0) * 4096 + (e[1] as int - 0x80) * 64 + (e[2] as int - 0x80) == cp
  {
    var q1 := cp / 64;
    assert cp == 64 * q1 + cp % 64;
    assert q1 == 64 * (q1 / 64) + q1 % 64;
  }

  /** The four bytes of a scalar value from U+10000 to U+10FFFF. */
  lemma Encode4Bytes(cp: int)
    requires IsScalarValue(cp) && 0x10000 <= cp
    ensures var e := U8Encode(cp);
      |e| == 4 && 0xF0 <= e[0] <= 0xF4 && SecondByteFits(e[0], e[1]) &&
      IsTrailByte(e[2]) && IsTrailByte(e[3]) &&
      (e[0] as int - 0xF0) * 262144 + (e[1] as int - 0x80) * 4096 + (e[2] as int - 0x80) * 64 + (e[3] as int - 0x80) == cp
  {
    var q1 := cp / 64;
    var q2 := q1 / 64;
    assert cp == 64 * q1 + cp % 64;
    assert q1 == 64 * q2 + q1 % 64;
    assert q2 == 64 * (q2 / 64) + q2 % 64;
  }

  lemma U8NextOfEncoding2(src: seq<Byte>, offset: nat, length: int, cp: int)
    requires 0x80 <= cp <= 0x7FF
    requires CanReadAt(src, offset, length) && offset + 2 <= Limit(src, length)
    requires src[offset..offset + 2] == U8Encode(cp)
    ensures U8Next(src, offset, length) == Next(cp, offset + 2)
  {
    Encode2Bytes(cp);
    var e := src[offset..offset + 2];
    assert src[offset] == e[0] && src[offset + 1] == e[1];
  }

  lemma U8NextOfEncoding3(src: seq<Byte>, offset: nat, length: int, cp: int)
    requires IsScalarValue(cp) && 0x800 <= cp <= 0xFFFF
    requires CanReadAt(src, offset, length) && offset + 3 <= Limit(src, length)
    requires src[offset..offset + 3] == U8Encode(cp)
    ensures U8Next(src, offset, length) == Next(cp, offset + 3)
  {
    Encode3Bytes(cp);
    var e := src[offset..offset + 3];
    assert src[offset] == e[0] && src[offset + 1] == e[1] && src[offset + 2] == e[2];
  }

  lemma U8NextOfEncoding4(src: seq<Byte>, offset: nat, length: int, cp: int)
    requires IsScalarValue(cp) && 0x10000 <= cp
    requires CanReadAt(src, offset, length) && offset + 4 <= Limit(src, length)
    requires src[offset..offset + 4] == U8Encode(cp)
    ensures U8Next(src, offset, length) == Next(cp, offset + 4)
  {
    Encode4Bytes(cp);
    var e := src[offset..offset + 4];
    assert src[offset] == e[0] && src[offset + 1] == e[1] && src[offset + 2] == e[2] && src[offset + 3] == e[3];
  }

  /** Round trip: the encoding of any scalar value, followed by anything,
      decodes to that scalar value and moves past exactly its bytes. */
  lemma U8NextOfEncoding(src: seq<Byte>, offset: nat, length: int, cp: int)
    requires IsScalarValue(cp)
    requires CanReadAt(src, offset, length)
    requires offset + |U8Encode(cp)| <= Limit(src, length)
    requires src[offset..offset + |U8Encode(cp)|] == U8Encode(cp)
    ensures U8Next(src, offset, length) == Next(cp, offset + |U8Encode(cp)|)
  {
    U8EncodeLength(cp);
    if cp <= 0x7F {
      assert src[offset] == src[offset..offset + 1][0];
    } else if cp <= 0x7FF {
      U8NextOfEncoding2(src, offset, length, cp);
    } else if cp <= 0xFFFF {
      U8NextOfEncoding3(src, offset, length, cp);
    } else {
      U8NextOfEncoding4(src, offset, length, cp);
    }
  }

  /** The round trip for every scalar value whose encoding starts at
      `offset`. */
  lemma U8NextOfAnyEncoding(src: seq<Byte>, offset: nat, length: int)
    requires CanReadAt(src, offset, length)
    ensures forall c {:trigger U8Encode(c)} ::
      IsScalarValue(c) && offset + |U8Encode(c)| <= Limit(src, length) &&
      src[offset..offset + |U8Encode(c)|] == U8Encode(c) ==>
        U8Next(src, offset, length) == Next(c, offset + |U8Encode(c)|)
  {
    forall c | IsScalarValue(c) && offset + |U8Encode(c)| <= Limit(src, length) &&
      src[offset..offset + |U8Encode(c)|] == U8Encode(c)
      ensures U8Next(src, offset, length) == Next(c, offset + |U8Encode(c)|)
    {
      U8NextOfEncoding(src, offset, length, c);
    }
  }

  /** Decoding examples: a four-byte character read from the middle of a
      buffer, a noncharacter (decoded like any scalar value), an encoded
      surrogate, an overlong form, a sequence cut by the length, and a NUL
      terminating both the string and a sequence. */
  lemma U8NextExamples(nul: seq<Byte>, cut: seq<Byte>)
    requires nul == [0x00, 0x41] && cut == [0xE2, 0x00]
    ensures U8Next([0x61, 0xF0, 0x90, 0x90, 0x81], 1, 5) == Next(0x10401, 5)
    ensures U8Next([0xEF, 0xB7, 0x90], 0, 3) == Next(0xFDD0, 3)
    ensures U8Next([0xED, 0xA0, 0x81], 0, 3) == Next(Sentinel, 1)
    ensures U8Next([0xC0, 0x80], 0, 2) == Next(Sentinel, 1)
    ensures U8Next([0xF3, 0xBE], 0, 2) == Next(Sentinel, 2)
    ensures CanReadAt(nul, 0, -1) && U8Next(nul, 0, -1) == Next(0, 1)
    ensures CanReadAt(cut, 0, -1) && U8Next(cut, 0, -1) == Next(Sentinel, 1)
  {
    assert nul[0] == 0 && cut[1] == 0;
  }

  /** `src[offset..next]` is the maximal subpart of an ill-formed sequence
      (definition D93b of the Unicode Standard): not well-formed, the
      longest initial part of a well-formed sequence or else one byte, and
      not extensible by the byte that follows before `limit`. */
  predicate IsMaximalSubpart(src: seq<Byte>, offset: nat, next: nat, limit: nat)
    requires offset < next <= limit <= |src|
  {
    !IsWellFormed(src[offset..next]) &&
    (next == offset + 1 || IsWellFormedPrefix(src[offset..next])) &&
    (next < limit ==> !IsWellFormedPrefix(src[offset..next + 1]))
  }

  /** U8Next accepts exactly the complete rows of Table 3-7 and skips the
      maximal subpart of anything else. */
  lemma U8NextMaximalSubpart(src: seq<Byte>, offset: nat, length: int)
    requires CanReadAt(src, offset, length)
    ensures var r := U8Next(src, offset, length);
      (r.cp != Sentinel ==> IsWellFormed(src[offset..r.offset])) &&
      (r.cp == Sentinel ==> IsMaximalSubpart(src, offset, r.offset, Limit(src, length)))
  {
    var r := U8Next(src, offset, length);
    var lead: int := src[offset];
    RowAgreesWithDecoder(lead);
    ConsumedFitRow(src, offset, length);
    if r.cp == Sentinel && r.offset < Limit(src, length) {
      NextByteBreaksRow(src, offset, length);
    }
    RowVerdict(src, offset, r.offset, Limit(src, length), r.cp == Sentinel);
  }

  /** How far the bytes from `offset` to `next` follow the row of their lead
      decides whether they are well-formed or a maximal subpart. */
  lemma RowVerdict(src: seq<Byte>, offset: nat, next: nat, limit: nat, failed: bool)
    requires offset < next <= limit <= |src|
    requires RowIndex(src[offset]) < 0 ==> failed && next == offset + 1
    requires RowIndex(src[offset]) >= 0 ==>
      FitsRow(src[offset..next], WellFormedRows[RowIndex(src[offset])]) &&
      (failed <==> next - offset < |WellFormedRows[RowIndex(src[offset])]|)
    requires RowIndex(src[offset]) >= 0 && failed && next < limit ==>
      !FitsRow(src[offset..next + 1], WellFormedRows[RowIndex(src[offset])])
    ensures !failed ==> IsWellFormed(src[offset..next])
    ensures failed ==> IsMaximalSubpart(src, offset, next, limit)
  {
    assert src[offset..next][0] == src[offset];
    WellFormedByLead(src[offset..next]);
    if failed && next < limit {
      assert src[offset..next + 1][0] == src[offset];
      WellFormedByLead(src[offset..next + 1]);
    }
  }

  /** Under a valid lead, every byte U8Next consumes fits the lead's row, and
      it stops short of the row's length exactly when it fails. */
  lemma ConsumedFitRow(src: seq<Byte>, offset: nat, length: int)
    requires CanReadAt(src, offset, length)
    ensures var r := U8Next(src, offset, length);
      var k := RowIndex(src[offset]);
      k >= 0 ==>
        FitsRow(src[offset..r.offset], WellFormedRows[k]) &&
        (r.cp == Sentinel <==> r.offset - offset < |WellFormedRows[k]|)
  {
    var r := U8Next(src, offset, length);
    var lead: int := src[offset];
    RowAgreesWithDecoder(lead);
    var p := src[offset..r.offset];
    assert forall i :: 0 <= i < |p| ==> p[i] == src[offset + i];
  }

  /** After a failure inside a row, the byte that follows does not fit it. */
  lemma NextByteBreaksRow(src: seq<Byte>, offset: nat, length: int)
    requires CanReadAt(src, offset, length)
    requires U8Next(src, offset, length).cp == Sentinel
    requires U8Next(src, offset, length).offset < Limit(src, length)
    ensures var r := U8Next(src, offset, length);
      var k := RowIndex(src[offset]);
      k >= 0 ==> !FitsRow(src[offset..r.offset + 1], WellFormedRows[k])
  {
    var r := U8Next(src, offset, length);
    var lead: int := src[offset];
    RowAgreesWithDecoder(lead);
    var q := src[offset..r.offset + 1];
    assert q[r.offset - offset] == src[r.offset];
  }

  /** The row of Table 3-7 a lead byte selects, or -1 if it selects none. */
  function RowIndex(lead: int): int
  {
    if 0 <= lead <= 0x7F then 0
    else if 0xC2 <= lead <= 0xDF then 1
    else if lead == 0xE0 then 2
    else if 0xE1 <= lead <= 0xEC then 3
    else if lead == 0xED then 4
    else if 0xEE <= lead <= 0xEF then 5
    else if lead == 0xF0 then 6
    else if 0xF1 <= lead <= 0xF3 then 7
    else if lead == 0xF4 then 8
    else -1
  }

  /** The lead ranges of the rows do not overlap, so the first byte picks the
      only row a sequence can follow. */
  lemma WellFormedByLead(p: seq<int>)
    requires |p| > 0
    ensures IsWellFormedPrefix(p) <==>
      RowIndex(p[0]) >= 0 && FitsRow(p, WellFormedRows[RowIndex(p[0])])
    ensures IsWellFormed(p) <==>
      RowIndex(p[0]) >= 0 && |p| == |WellFormedRows[RowIndex(p[0])]| &&
      FitsRow(p, WellFormedRows[RowIndex(p[0])])
  {
    if IsWellFormedPrefix(p) {
      var row :| row in WellFormedRows && FitsRow(p, row);
      OnlyRowOfLead(p, row);
    }
    if IsWellFormed(p) {
      var row :| row in WellFormedRows && |row| == |p| && FitsRow(p, row);
      OnlyRowOfLead(p, row);
    }
    if RowIndex(p[0]) >= 0 {
      assert WellFormedRows[RowIndex(p[0])] in WellFormedRows;
    }
  }

  /** A row a sequence fits is the row of its lead byte. */
  lemma OnlyRowOfLead(p: seq<int>, row: seq<ByteRange>)
    requires |p| > 0 && row in WellFormedRows && FitsRow(p, row)
    ensures RowIndex(p[0]) >= 0 && row == WellFormedRows[RowIndex(p[0])]
  {
    var k :| 0 <= k < |WellFormedRows| && WellFormedRows[k] == row;
    assert row[0].lo <= p[0] <= row[0].hi;
  }

  /** The decoder's lead-length and second-byte tests are the table's rows. */
  lemma RowAgreesWithDecoder(lead: int)
    requires 0 <= lead < 0x100
    ensures RowIndex(lead) >= 0 <==> LeadLength(lead) > 0
    ensures RowIndex(lead) >= 0 ==>
      var row := WellFormedRows[RowIndex(lead)];
      |row| == LeadLength(lead) && row[0].lo <= lead <= row[0].hi &&
      (|row| >= 2 ==> forall b :: row[1].lo <= b <= row[1].hi <==> SecondByteFits(lead, b)) &&
      (forall j :: 2 <= j < |row| ==> row[j] == Tail)
  {
  }

  /** U8Next reads nothing at or past a non-negative `length`: buffers that
      agree on the readable bytes give the same result. */
  lemma U8NextReadsOnlyUpToLength(s1: seq<Byte>, s2: seq<Byte>, offset: nat, length: int)
    requires length >= 0 && CanReadAt(s1, offset, length) && CanReadAt(s2, offset, length)
    requires s1[offset..length] == s2[offset..length]
    ensures U8Next(s1, offset, length) == U8Next(s2, offset, length)
  {
    forall i | offset <= i < length ensures s1[i] == s2[i] {
      assert s1[offset..length][i - offset] == s2[offset..length][i - offset];
    }
  }

  /** A character U8Next reads completely under one bound reads the same
      under any other bound that still covers it. */
  lemma U8NextAnyCoveringLength(src: seq<Byte>, offset: nat, l1: nat, l2: nat)
    requires offset < l1 <= |src| && offset < l2 <= |src|
    requires U8Next(src, offset, l1).cp != Sentinel && U8Next(src, offset, l1).offset <= l2
    ensures U8Next(src, offset, l2) == U8Next(src, offset, l1)
  {
    var r := U8Next(src, offset, l1);
    U8NextSound(src, offset, l1);
    U8NextOfEncoding(src, offset, l2, r.cp);
  }

  // ---------------------------------------------------------------------------
  // UTF-16

  /** U16_IS_SURROGATE: the unit lies in D800..DFFF. */
  predicate U16IsSurrogate(u: Unit16)
  {
    0xD800 <= u <= 0xDFFF
  }

  /** U16_IS_SURROGATE_LEAD: a lead (high) surrogate, D800..DBFF. */
  predicate U16IsSurrogateLead(u: Unit16)
  {
    0xD800 <= u <= 0xDBFF
  }

  /** U16_IS_TRAIL: a trail (low) surrogate, DC00..DFFF. */
  predicate U16IsTrail(u: Unit16)
  {
    0xDC00 <= u <= 0xDFFF
  }

  /** A unit that encodes a code point by itself (U16_IS_SINGLE). */
  predicate U16IsSingle(u: Unit16)
  {
    !U16IsSurrogate(u)
  }

  /** The lead and trail tests split the surrogates between them, and a
      single unit is one that is neither. */
  lemma U16SurrogateClasses(u: Unit16)
    ensures U16IsSurrogate(u) <==> U16IsSurrogateLead(u) || U16IsTrail(u)
    ensures !(U16IsSurrogateLead(u) && U16IsTrail(u))
    ensures U16IsSingle(u) <==> !U16IsSurrogateLead(u) && !U16IsTrail(u)
  {
  }

  /** U16_GET_SUPPLEMENTARY: the code point a lead and a trail surrogate
      encode (section 2.2 of RFC 2781). */
  function U16GetSupplementary(lead: Unit16, trail: Unit16): (cp: int)
    ensures U16IsSurrogateLead(lead) && U16IsTrail(trail) ==>
      0x10000 <= cp <= 0x10FFFF && U16Encode(cp) == [lead, trail]
  {
    (lead - 0xD800) * 0x400 + (trail - 0xDC00) + 0x10000
  }

  /** The UTF-16 units of a code point (section 2.1 of RFC 2781); a
      surrogate code point is written as the single unit it is. */
  function U16Encode(cp: int): (r: seq<Unit16>)
    requires IsCodePoint(cp)
    ensures |r| == 1 <==> cp <= 0xFFFF
    ensures |r| == 1 ==> r[0] == cp
    ensures |r| == 2 ==> U16IsSurrogateLead(r[0]) && U16IsTrail(r[1])
  {
    if cp <= 0xFFFF then [cp]
    else [0xD800 + (cp - 0x10000) / 0x400, 0xDC00 + (cp - 0x10000) % 0x400]
  }

  /** Round trip through a surrogate pair. */
  lemma U16EncodeThenGetSupplementary(cp: int)
    requires IsCodePoint(cp) && cp > 0xFFFF
    ensures U16GetSupplementary(U16Encode(cp)[0], U16Encode(cp)[1]) == cp
  {
  }

  /** The extremes of the supplementary planes, and the unchecked UTF-8
      writer encoding a surrogate code point as it is. */
  lemma EncodeExamples()
    ensures U16Encode(0x10000) == [0xD800, 0xDC00]
    ensures U16Encode(0x10FFFF) == [0xDBFF, 0xDFFF]
    ensures U8Encode(0xD800) == [0xED, 0xA0, 0x80]
    ensures U8Encode(0x10401) == [0xF0, 0x90, 0x90, 0x81]
  {
  }

  /** U16_LENGTH: how many units U16AppendUnsafe writes. The code point is
      compared as a uint32, so a negative one counts as long. */
  function U16Length(cp: int): (n: nat)
    ensures IsCodePoint(cp) ==> n == |U16Encode(cp)|
    ensures n == 1 <==> 0 <= cp <= 0xFFFF
  {
    if 0 <= cp <= 0xFFFF then 1 else 2
  }

  // ---------------------------------------------------------------------------
  // Unchecked appenders: they write into a buffer the caller has sized.

  /** U8_APPEND_UNSAFE: writes the UTF-8 bytes of `cp` at `offset` and
      returns the offset past them. */
  method U8AppendUnsafe(a: array<int>, offset: nat, cp: int) returns (next: nat)
    requires IsCodePoint(cp)
    requires offset + |U8Encode(cp)| <= a.Length
    modifies a
    ensures next == offset + |U8Encode(cp)|
    ensures a[..] == old(a[..offset]) + U8Encode(cp) + old(a[next..])
  {
    U8EncodeAsWritten(cp);
    if cp <= 0x7F {
      next := PutUnits(a, offset, [cp]);
    } else if cp <= 0x7FF {
      next := PutUnits(a, offset, [cp / 64 + 0xC0, cp % 64 + 0x80]);
    } else if cp <= 0xFFFF {
      next := PutUnits(a, offset, [cp / 4096 + 0xE0, cp / 64 % 64 + 0x80, cp % 64 + 0x80]);
    } else {
      next := PutUnits(a, offset, [cp / 262144 + 0xF0, cp / 4096 % 64 + 0x80, cp / 64 % 64 + 0x80, cp % 64 + 0x80]);
    }
  }

  /** Writes `units`, one to four of them, at `offset`, first to last. */
  method PutUnits(a: array<int>, offset: nat, units: seq<int>) returns (next: nat)
    requires 1 <= |units| <= 4 && offset + |units| <= a.Length
    modifies a
    ensures next == offset + |units|
    ensures a[..] == old(a[..offset]) + units + old(a[next..])
  {
    a[offset] := units[0];
    if |units| > 1 {
      a[offset + 1] := units[1];
    }
    if |units| > 2 {
      a[offset + 2] := units[2];
    }
    if |units| > 3 {
      a[offset + 3] := units[3];
    }
    next := offset + |units|;
    assert forall k :: 0 <= k < |units| ==> a[offset + k] == units[k];
    Spliced(old(a[..]), a[..], offset, units);
  }

  /** `after` is `before` with `e` written at `offset`. */
  lemma Spliced(before: seq<int>, after: seq<int>, offset: nat, e: seq<int>)
    requires |after| == |before| && offset + |e| <= |before|
    requires forall i :: 0 <= i < offset ==> after[i] == before[i]
    requires forall i :: offset + |e| <= i < |before| ==> after[i] == before[i]
    requires forall k :: 0 <= k < |e| ==> after[offset + k] == e[k]
    ensures after == before[..offset] + e + before[offset + |e|..]
  {
    forall i | 0 <= i < |after| ensures after[i] == (before[..offset] + e + before[offset + |e|..])[i] {
      if offset <= i < offset + |e| {
        assert after[offset + (i - offset)] == e[i - offset];
      }
    }
  }

  /** U8Encode in the shifts and masks U8_APPEND_UNSAFE writes. */
  lemma U8EncodeAsWritten(cp: int)
    requires IsCodePoint(cp)
    ensures cp <= 0x7F ==> U8Encode(cp) == [cp]
    ensures 0x7F < cp <= 0x7FF ==> U8Encode(cp) == [cp / 64 + 0xC0, cp % 64 + 0x80]
    ensures 0x7FF < cp <= 0xFFFF ==>
      U8Encode(cp) == [cp / 4096 + 0xE0, cp / 64 % 64 + 0x80, cp % 64 + 0x80]
    ensures 0xFFFF < cp ==>
      U8Encode(cp) == [cp / 262144 + 0xF0, cp / 4096 % 64 + 0x80, cp / 64 % 64 + 0x80, cp % 64 + 0x80]
  {
    var q1 := cp / 64;
    var q2 := q1 / 64;
    DivMod64(q1, cp % 64);
    DivMod64(q2, q1 % 64);
    DivMod64(q2 / 64, q2 % 64);
    assert cp == 4096 * q2 + 64 * (q1 % 64) + cp % 64;
    assert cp == 262144 * (q2 / 64) + 4096 * (q2 % 64) + 64 * (q1 % 64) + cp % 64;
  }

  /** U16_APPEND_UNSAFE: writes the UTF-16 units of `cp` at `offset` and
      returns the offset past them. */
  method U16AppendUnsafe(a: array<int>, offset: nat, cp: int) returns (next: nat)
    requires IsCodePoint(cp)
    requires offset + U16Length(cp) <= a.Length
    modifies a
    ensures next == offset + U16Length(cp)
    ensures a[..] == old(a[..offset]) + U16Encode(cp) + old(a[next..])
  {
    if cp <= 0xFFFF {
      a[offset] := cp;
      next := offset + 1;
    } else {
      a[offset] := cp / 1024 + 0xD7C0;
      a[offset + 1] := cp % 1024 + 0xDC00;
      next := offset + 2;
    }
    assert a[..] == old(a[..offset]) + U16Encode(cp) + old(a[next..]);
  }
}
