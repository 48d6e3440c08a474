// IdType: a type-safe integer identifier with a null value, and its
// Generator, a counter handing out consecutive ids.

module IdTypes {
  import opened Units

  /** The template arguments of IdType: the wrapped integer type (its width
      and signedness), kInvalidValue and kFirstGeneratedId. */
  datatype IdParams = IdParams(w: Width, signed: bool, invalid: int, first: int)

  /** `v` is a value of the wrapped integer type. */
  predicate InRange(w: Width, signed: bool, v: int)
  {
    if signed then -(Modulus(w) / 2) <= v < Modulus(w) / 2 else 0 <= v < Modulus(w)
  }

  /** The largest value of the wrapped type. */
  function MaxValue(w: Width, signed: bool): int
  {
    if signed then Modulus(w) / 2 - 1 else Modulus(w) - 1
  }

  /** The requires clause on the template: for a signed type the invalid
      value is at most 0 and the first generated id lies above it; for an
      unsigned type the first generated id is not the invalid one. */
  predicate ValidParams(p: IdParams)
  {
    InRange(p.w, p.signed, p.invalid) && InRange(p.w, p.signed, p.first) &&
    if p.signed then p.invalid <= 0 && p.first > p.invalid else p.first != p.invalid
  }

  /** The default kFirstGeneratedId, kInvalidValue + 1 computed in the
      wrapped type: an unsigned invalid value at the maximum makes it 0.
      The default always meets the template's requires clause. */
  function DefaultFirst(w: Width, signed: bool, invalid: int): (first: int)
    requires InRange(w, signed, invalid) && (signed ==> invalid <= 0)
    ensures ValidParams(IdParams(w, signed, invalid, first))
    ensures !signed && invalid == MaxValue(w, signed) ==> first == 0
  {
    if signed then invalid + 1 else WrapUnsigned(invalid + 1, w)
  }

  /** IdType32, IdTypeU32, IdType64 and IdTypeU64: zero is the invalid value
      and ids are generated from 1. */
  function StandardParams(w: Width, signed: bool): (p: IdParams)
    requires w == W32 || w == W64
    ensures ValidParams(p) && p.invalid == 0 && p.first == 1
  {
    IdParams(w, signed, 0, DefaultFirst(w, signed, 0))
  }

  /** An id: the wrapped value. */
  datatype IdType = IdType(value: int)
  {
    /** GetUnsafeValue: the wrapped value. */
    function GetUnsafeValue(): int
    {
      value
    }
  }

  /** FromUnsafeValue: an id holding `v`. */
  function FromUnsafeValue(v: int): IdType
  {
    IdType(v)
  }

  /** is_null: the id holds kInvalidValue. */
  predicate IsNull(p: IdParams, id: IdType)
  {
    id.GetUnsafeValue() == p.invalid
  }

  /** The explicit conversion to bool. */
  predicate AsBool(p: IdParams, id: IdType)
  {
    !IsNull(p, id)
  }

  /** The default constructor: the null id. */
  function Default(p: IdParams): (id: IdType)
    ensures IsNull(p, id) && !AsBool(p, id)
  {
    IdType(p.invalid)
  }

  /** FromUnsafeValue and GetUnsafeValue are inverse, and an id made from
      `v` is null exactly when `v` is kInvalidValue. */
  lemma FromUnsafeValueRoundTrip(p: IdParams, v: int)
    ensures FromUnsafeValue(v).GetUnsafeValue() == v
    ensures IsNull(p, FromUnsafeValue(v)) <==> v == p.invalid
    ensures AsBool(p, FromUnsafeValue(v)) <==> !IsNull(p, FromUnsafeValue(v))
  {
  }

  /** The wrapped type is narrower than int, so `++` computes in int and
      converts back, which C++20 defines as wrapping modulo 2^width. */
  predicate IsPromoted(w: Width)
  {
    w == W8 || w == W16
  }

  /** `v` incremented in the wrapped type: an unsigned value wraps from its
      largest value to 0, and so does a signed 8- or 16-bit value, to its
      smallest; a wider signed one is never incremented past its largest
      value. */
  function Increment(p: IdParams, v: int): int
  {
    if !p.signed && v == MaxValue(p.w, false) then 0
    else if p.signed && IsPromoted(p.w) then WrapSigned(v + 1, p.w)
    else v + 1
  }

  /** The value the n-th GenerateNextId of a fresh generator returns:
      kFirstGeneratedId incremented n times. */
  function NthId(p: IdParams, n: nat): int
  {
    if n == 0 then p.first else Increment(p, NthId(p, n - 1))
  }

  /** The counter state of Generator. `generated` counts the ids handed out
      so far, which is what makes next_id_ the n-th id. */
  class Generator {
    const p: IdParams
    var nextId: int
    ghost var generated: nat

    ghost predicate Valid()
      reads this
    {
      ValidParams(p) && InRange(p.w, p.signed, nextId) && nextId == NthId(p, generated)
    }

    /** A fresh generator starts at kFirstGeneratedId. */
    constructor(p: IdParams)
      requires ValidParams(p)
      ensures Valid() && this.p == p && generated == 0 && nextId == p.first
    {
      this.p := p;
      nextId := p.first;
      generated := 0;
    }

    /** GenerateNextId: returns the counter and post-increments it. An
        unsigned counter wraps, and so does a signed 8- or 16-bit one; a
        32- or 64-bit signed counter must not pass its largest value (that
        overflow is undefined behaviour). */
    method GenerateNextId() returns (id: IdType)
      requires Valid()
      requires p.signed && !IsPromoted(p.w) ==> nextId < MaxValue(p.w, p.signed)
      modifies this
      ensures Valid() && generated == old(generated) + 1
      ensures id == FromUnsafeValue(old(nextId)) && id.GetUnsafeValue() == NthId(p, old(generated))
    {
      id := FromUnsafeValue(nextId);
      if !p.signed && nextId == Modulus(p.w) - 1 {
        nextId := 0;
      } else if p.signed && IsPromoted(p.w) {
        nextId := WrapSigned(nextId + 1, p.w);
      } else {
        nextId := nextId + 1;
      }
      generated := generated + 1;
    }
  }

  /** Converting to a narrow signed type and then adding one is converting
      the successor. */
  lemma WrapSignedSucc(x: int, w: Width)
    requires IsPromoted(w)
    ensures WrapSigned(WrapSigned(x, w) + 1, w) == WrapSigned(x + 1, w)
  {
    var m: int := Modulus(w);
    var y := WrapSigned(x, w);
    var k := WrapSignedOffset(x, w);
    if y + 1 < m / 2 {
      WrapSignedUnique(x + 1, y + 1, k, w);
    } else {
      WrapSignedUnique(x + 1, -(m / 2), k + 1, w);
      WrapSignedUnique(y + 1, -(m / 2), 1, w);
    }
  }

  /** The conversion differs from its argument by a multiple of 2^width. */
  lemma WrapSignedOffset(x: int, w: Width) returns (k: int)
    requires IsPromoted(w)
    ensures x - WrapSigned(x, w) == k * Modulus(w)
  {
    var m := Modulus(w);
    k := if x % m < m / 2 then x / m else x / m + 1;
  }

  /** A value of the narrow signed type that differs from `x` by a multiple
      of 2^width is the conversion of `x`. */
  lemma WrapSignedUnique(x: int, r: int, k: int, w: Width)
    requires IsPromoted(w) && -(Modulus(w) / 2) <= r < Modulus(w) / 2 && x - r == k * Modulus(w)
    ensures WrapSigned(x, w) == r
  {
    var q := if r >= 0 then k else k - 1;
    if w == W8 {
      var u := if r >= 0 then r else r + 0x100;
      assert x == q * 0x100 + u;
      assert x % 0x100 == u;
    } else {
      var u := if r >= 0 then r else r + 0x1_0000;
      assert x == q * 0x1_0000 + u;
      assert x % 0x1_0000 == u;
    }
  }

  /** For a signed type the n-th id is kFirstGeneratedId + n, converted to
      the wrapped type when that is 8 or 16 bits wide. */
  lemma {:induction false} SignedNthId(p: IdParams, n: nat)
    requires p.signed && (IsPromoted(p.w) ==> InRange(p.w, true, p.first))
    ensures NthId(p, n) == if IsPromoted(p.w) then WrapSigned(p.first + n, p.w) else p.first + n
  {
    if n > 0 {
      SignedNthId(p, n - 1);
      if IsPromoted(p.w) {
        WrapSignedSucc(p.first + n - 1, p.w);
      }
    }
  }

  /** A signed 8- or 16-bit generator comes round to kInvalidValue: after
      the largest value it wraps to the smallest and counts up again. */
  lemma NarrowSignedReachesInvalid(p: IdParams)
    requires ValidParams(p) && p.signed && IsPromoted(p.w)
    ensures p.invalid - p.first + Modulus(p.w) >= 0
    ensures NthId(p, p.invalid - p.first + Modulus(p.w)) == p.invalid
    ensures IsNull(p, FromUnsafeValue(NthId(p, p.invalid - p.first + Modulus(p.w))))
  {
    var n := p.invalid - p.first + Modulus(p.w);
    SignedNthId(p, n);
    WrapSignedUnique(p.first + n, p.invalid, 1, p.w);
  }

  /** The int8_t generator with kInvalidValue 0 hands out 1 to 127, then
      -128, and its 256th id is the null id 0. */
  lemma NarrowSignedExamples(p: IdParams)
    requires p == IdParams(W8, true, 0, DefaultFirst(W8, true, 0))
    ensures NthId(p, 126) == 127 && NthId(p, 127) == -128
    ensures NthId(p, 255) == 0 && IsNull(p, FromUnsafeValue(NthId(p, 255)))
  {
    SignedNthId(p, 126);
    SignedNthId(p, 127);
    SignedNthId(p, 255);
    WrapSignedUnique(128, -128, 1, W8);
    WrapSignedUnique(256, 0, 1, W8);
  }

  /** For an unsigned type the n-th id is kFirstGeneratedId + n taken
      modulo 2^width, for n within one period. */
  lemma {:induction false} UnsignedNthId(p: IdParams, n: nat)
    requires ValidParams(p) && !p.signed && n < Modulus(p.w)
    ensures NthId(p, n) == if p.first + n < Modulus(p.w) then p.first + n else p.first + n - Modulus(p.w)
  {
    if n > 0 {
      UnsignedNthId(p, n - 1);
    }
  }

  /** For a signed type, generated ids strictly increase and are never
      null, since they start above kInvalidValue; for 8 and 16 bits, until
      the counter wraps. */
  lemma SignedIdsIncrease(p: IdParams, i: nat, j: nat)
    requires ValidParams(p) && p.signed && i < j
    requires IsPromoted(p.w) ==> p.first + j <= MaxValue(p.w, true)
    ensures NthId(p, i) < NthId(p, j)
    ensures NthId(p, i) != p.invalid && !IsNull(p, FromUnsafeValue(NthId(p, i)))
  {
    SignedNthId(p, i);
    SignedNthId(p, j);
  }

  /** For an unsigned type, the ids are non-null until the
      counter wraps round to kInvalidValue. */
  lemma UnsignedIdsNotNullBeforeWrap(p: IdParams, n: nat)
    requires ValidParams(p) && !p.signed
    requires n < if p.invalid > p.first then p.invalid - p.first else p.invalid - p.first + Modulus(p.w)
    ensures NthId(p, n) != p.invalid && !IsNull(p, FromUnsafeValue(NthId(p, n)))
  {
    UnsignedNthId(p, n);
  }

  /** The generator with kInvalidValue the largest uint32_t starts at 0
      and hands out 0, 1, 2, ... none of them null; with the signed int
      and kInvalidValue -1 it also starts at 0. */
  lemma GeneratorExamples(n: nat)
    requires n < 10
    ensures var p := IdParams(W32, false, 0xFFFF_FFFF, DefaultFirst(W32, false, 0xFFFF_FFFF));
            NthId(p, n) == n && !IsNull(p, FromUnsafeValue(NthId(p, n)))
    ensures NthId(IdParams(W32, true, -1, DefaultFirst(W32, true, -1)), n) == n
    ensures NthId(StandardParams(W32, true), n) == n + 1
  {
    UnsignedNthId(IdParams(W32, false, 0xFFFF_FFFF, 0), n);
    SignedNthId(IdParams(W32, true, -1, 0), n);
    SignedNthId(StandardParams(W32, true), n);
  }
}
