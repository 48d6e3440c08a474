// Integer types of the C++ string layer and the implicit conversions between
// them that change values.

module Units {
  /** A uint8_t, which is also what a UTF-8 code unit (char8_t) holds. */
  type Byte = b: int | 0 <= b < 0x100
  /** A char16_t. */
  type Unit16 = u: int | 0 <= u < 0x1_0000
  /** A char32_t. */
  type Unit32 = u: int | 0 <= u < 0x1_0000_0000

  /** The four character types the string templates are instantiated with. */
  datatype CharType = Char | Char8 | Char16 | Char32

  /** The smallest value of the type; `char` is signed on the targets. */
  function MinUnit(t: CharType): int
  {
    if t == Char then -0x80 else 0
  }

  function MaxUnit(t: CharType): int
  {
    match t
    case Char => 0x7F
    case Char8 => 0xFF
    case Char16 => 0xFFFF
    case Char32 => 0xFFFF_FFFF
  }

  predicate IsUnit(t: CharType, c: int)
  {
    MinUnit(t) <= c <= MaxUnit(t)
  }

  predicate AreUnits(t: CharType, s: seq<int>)
  {
    forall i :: 0 <= i < |s| ==> IsUnit(t, s[i])
  }

  /** static_cast to std::make_unsigned_t of the type: only `char` changes. */
  function AsUnsigned(t: CharType, c: int): (r: int)
    requires IsUnit(t, c)
    ensures 0 <= r <= MaxUnit(t) - MinUnit(t)
    ensures t != Char ==> r == c
    ensures t == Char ==> (r - c) % 0x100 == 0
  {
    if t == Char && c < 0 then c + 0x100 else c
  }

  /** The widths of the fixed-size integer types the code converts to. */
  datatype Width = W8 | W16 | W32 | W64

  function Modulus(w: Width): nat
  {
    match w
    case W8 => 0x100
    case W16 => 0x1_0000
    case W32 => 0x1_0000_0000
    case W64 => 0x1_0000_0000_0000_0000
  }

  /** Conversion of any integer to the unsigned type of width `w`. */
  function WrapUnsigned(x: int, w: Width): (r: int)
    ensures 0 <= r < Modulus(w)
    ensures 0 <= x < Modulus(w) ==> r == x
  {
    x % Modulus(w)
  }

  /** Conversion of any integer to the signed type of width `w` (two's
      complement, as C++20 defines it). */
  function WrapSigned(x: int, w: Width): (r: int)
    ensures -(Modulus(w) / 2) <= r < Modulus(w) / 2
    ensures -(Modulus(w) / 2) <= x < Modulus(w) / 2 ==> r == x
    ensures 0 <= x < Modulus(w) ==> r == (if x < Modulus(w) / 2 then x else x - Modulus(w))
  {
    var u := x % Modulus(w);
    if u < Modulus(w) / 2 then u else u - Modulus(w)
  }

  /** `needle` is found in `hay` starting at `p`. */
  predicate OccursAt(hay: seq<int>, needle: seq<int>, p: int)
  {
    0 <= p <= |hay| - |needle| && hay[p..p + |needle|] == needle
  }

  /** std::string::npos, the largest size_t. */
  const NPos: int := 0xFFFF_FFFF_FFFF_FFFF
}
