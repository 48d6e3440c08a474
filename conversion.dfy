// The UTF conversion drivers: each reads the source one character at a
// time, substitutes U+FFFD for whatever is ill-formed, appends the code
// point in the destination encoding and reports whether everything was
// well-formed. The destination is the raw buffer the driver writes through
// (a pointer with an offset); the caller sizes it with SizeCoefficient.

module UtfConversion {
  import opened Units
  import opened IcuUtf
  import opened UtfConversionUtils
  import opened UnitStrings

  /** U+FFFD REPLACEMENT CHARACTER, written for every ill-formed part. */
  const ErrorCodePoint: int := 0xFFFD

  predicate AreScalarValues(cps: seq<int>)
  {
    forall k :: 0 <= k < |cps| ==> IsScalarValue(cps[k])
  }

  /** CHAR_BIT * sizeof(Char). */
  function SizeInBits(t: CharType): nat
  {
    match t
    case Char => 8
    case Char8 => 8
    case Char16 => 16
    case Char32 => 32
  }

  // ---------------------------------------------------------------------------
  // Size coefficient

  /** The most destination units one source unit can turn into, for the
      conversions the library declares; 1 for the others. */
  function SizeCoefficient(src: CharType, dest: CharType): (k: nat)
    ensures 1 <= k <= 4
  {
    if src == Char32 && dest == Char16 then 2
    else if src == Char32 && dest == Char8 then 4
    else if src == Char16 && dest == Char8 then 3
    else 1
  }

  /** SizeCoefficient as written: the test meant for UTF-16 to UTF-8 repeats
      the UTF-32 to UTF-8 test, so it is never reached and UTF-16 to UTF-8
      falls through to 1. */
  function SizeCoefficientAsWritten(src: CharType, dest: CharType): (k: int)
    ensures k == SizeCoefficient(src, dest) || (src == Char16 && dest == Char8)
  {
    if src == Char32 && dest == Char16 then 2
    else if src == Char32 && dest == Char8 then 4
    else if src == Char32 && dest == Char8 then 3
    else 1
  }

  // ---------------------------------------------------------------------------
  // Appending one code point

  /** The units UnicodeAppendUnsafe writes for `cp` into a string of `t`:
      UTF-8 for 8-bit units, UTF-16 for 16-bit units, the value itself for
      32-bit units. */
  function EncodeUnits(t: CharType, cp: int): (r: seq<int>)
    requires IsCodePoint(cp)
    ensures 1 <= |r| <= 4
    ensures SizeInBits(t) == 32 ==> r == [cp]
  {
    if SizeInBits(t) == 8 then U8Encode(cp)
    else if SizeInBits(t) == 16 then U16Encode(cp)
    else [cp]
  }

  /** The units of a sequence of code points, one after the other. */
  function EncodeAll(t: CharType, cps: seq<int>): (r: seq<int>)
    requires AreScalarValues(cps)
    ensures |r| >= |cps|
  {
    if cps == [] then [] else EncodeUnits(t, cps[0]) + EncodeAll(t, cps[1..])
  }

  lemma {:induction false} EncodeAllAppend(t: CharType, a: seq<int>, b: seq<int>)
    requires AreScalarValues(a) && AreScalarValues(b)
    ensures AreScalarValues(a + b)
    ensures EncodeAll(t, a + b) == EncodeAll(t, a) + EncodeAll(t, b)
  {
    if a == [] {
      assert a + b == b;
    } else {
      var head, rest := EncodeAllFirst(t, a);
      assert (a + b)[0] == a[0] && (a + b)[1..] == a[1..] + b;
      EncodeAllAppend(t, a[1..], b);
      var head2, rest2 := EncodeAllFirst(t, a + b);
      ConcatAssociative(head, rest, EncodeAll(t, b));
    }
  }

  lemma EncodeAllSingleton(t: CharType, cp: int)
    requires IsScalarValue(cp)
    ensures AreScalarValues([cp]) && EncodeAll(t, [cp]) == EncodeUnits(t, cp)
  {
    assert [cp][1..] == [];
  }

  /** The units of the k-th code point sit, contiguous, inside the units of
      the whole sequence, starting at `p`. */
  lemma EncodeUnitsOffset(t: CharType, cps: seq<int>, k: nat) returns (p: nat)
    requires AreScalarValues(cps) && k < |cps|
    ensures OccursAt(EncodeAll(t, cps), EncodeUnits(t, cps[k]), p)
  {
    var pre, post := cps[..k], cps[k + 1..];
    assert cps == pre + [cps[k]] + post;
    assert AreScalarValues(pre) && AreScalarValues(post) by {
      assert forall i :: 0 <= i < |pre| ==> pre[i] == cps[i];
      assert forall i :: 0 <= i < |post| ==> post[i] == cps[k + 1 + i];
    }
    EncodeAllSingleton(t, cps[k]);
    EncodeAllAppend(t, pre, [cps[k]]);
    EncodeAllAppend(t, pre + [cps[k]], post);
    p := |EncodeAll(t, pre)|;
    OccursMiddle(EncodeAll(t, pre), EncodeUnits(t, cps[k]), EncodeAll(t, post));
  }

  /** `b` occurs in `a + b + c` right after `a`. */
  lemma OccursMiddle(a: seq<int>, b: seq<int>, c: seq<int>)
    ensures OccursAt(a + b + c, b, |a|)
  {
    assert (a + b + c)[|a|..|a| + |b|] == b;
  }

  /** The units of a non-empty sequence: those of its first code point, then
      those of the rest. */
  lemma EncodeAllFirst(t: CharType, cps: seq<int>) returns (head: seq<int>, tail: seq<int>)
    requires AreScalarValues(cps) && cps != []
    ensures AreScalarValues(cps[1..])
    ensures head == EncodeUnits(t, cps[0]) && tail == EncodeAll(t, cps[1..]) && EncodeAll(t, cps) == head + tail
  {
    head, tail := EncodeUnits(t, cps[0]), EncodeAll(t, cps[1..]);
  }

  lemma ConcatAssociative(a: seq<int>, b: seq<int>, c: seq<int>)
    ensures a + b + c == a + (b + c)
  {
  }

  /** UnicodeAppendUnsafe: writes `cp` at `size` and returns the new size. */
  method UnicodeAppendUnsafe(t: CharType, out: array<int>, size: nat, cp: int) returns (next: nat)
    requires IsCodePoint(cp) && size + |EncodeUnits(t, cp)| <= out.Length
    modifies out
    ensures next == size + |EncodeUnits(t, cp)|
    ensures out[..] == old(out[..size]) + EncodeUnits(t, cp) + old(out[next..])
  {
    if SizeInBits(t) == 8 {
      next := U8AppendUnsafe(out, size, cp);
    } else if SizeInBits(t) == 16 {
      next := U16AppendUnsafe(out, size, cp);
    } else {
      out[size] := cp;
      next := size + 1;
      assert out[..] == old(out[..size]) + [cp] + old(out[next..]);
    }
  }

  /** A decoded code point, or U+FFFD if it is not a scalar value. */
  function Replaced(cp: int): (r: int)
    ensures IsScalarValue(r)
    ensures IsValidCodepoint(cp) ==> r == cp
    ensures !IsValidCodepoint(cp) ==> r == 0xFFFD
  {
    if IsValidCodepoint(cp) then cp else ErrorCodePoint
  }

  // ---------------------------------------------------------------------------
  // UTF-8 source

  /** The code points the UTF-8 driver appends for `src[i..]`: one per
      character U8Next reads, U+FFFD for each ill-formed part. */
  function DecodeUTF8(src: seq<Byte>, i: nat): (r: seq<int>)
    requires i <= |src|
    ensures AreScalarValues(r)
    ensures |r| <= |src| - i
    ensures i < |src| ==> |r| >= 1
    decreases |src| - i
  {
    if i == |src| then []
    else
      var next := U8Next(src, i, |src|);
      [Replaced(next.cp)] + DecodeUTF8(src, next.offset)
  }

  /** Every character of `src[i..]` is well-formed. */
  predicate IsValidUTF8(src: seq<Byte>, i: nat)
    requires i <= |src|
    decreases |src| - i
  {
    i == |src| ||
    var next := U8Next(src, i, |src|);
    IsValidCodepoint(next.cp) && IsValidUTF8(src, next.offset)
  }

  /** One step of the UTF-8 driver's specification. */
  lemma DecodeUTF8Step(src: seq<Byte>, i: nat)
    requires i < |src|
    ensures var next := U8Next(src, i, |src|);
      DecodeUTF8(src, i) == [Replaced(next.cp)] + DecodeUTF8(src, next.offset) &&
      (IsValidUTF8(src, i) <==> IsValidCodepoint(next.cp) && IsValidUTF8(src, next.offset))
  {
  }

  /** What one iteration of a driver's loop keeps: the code points done so
      far and those still to come make up the whole, and so do their units. */
  lemma AdvanceDone(t: CharType, whole: seq<int>, done: seq<int>, rest: seq<int>, cp: int, rest2: seq<int>)
    requires AreScalarValues(done) && AreScalarValues(rest2) && IsScalarValue(cp)
    requires whole == done + rest && rest == [cp] + rest2
    ensures AreScalarValues(done + [cp])
    ensures whole == (done + [cp]) + rest2
    ensures EncodeAll(t, done + [cp]) == EncodeAll(t, done) + EncodeUnits(t, cp)
    ensures EncodeAll(t, rest) == EncodeUnits(t, cp) + EncodeAll(t, rest2)
  {
    EncodeAllSingleton(t, cp);
    EncodeAllAppend(t, done, [cp]);
    EncodeAllAppend(t, [cp], rest2);
    ConcatAssociative(done, [cp], rest2);
  }

  /** The UTF-8 driver: converts all of `src` into `dest` from `destOffset`
      on, returns whether `src` was well-formed and where the output ends. */
  method DoUTFConversionFromUTF8(src: seq<Byte>, t: CharType, dest: array<int>, destOffset: nat)
    returns (success: bool, end: nat)
    requires |src| <= 0x7FFF_FFFF
    requires destOffset + |EncodeAll(t, DecodeUTF8(src, 0))| <= dest.Length
    modifies dest
    ensures end == destOffset + |EncodeAll(t, DecodeUTF8(src, 0))|
    ensures dest[..] == old(dest[..destOffset]) + EncodeAll(t, DecodeUTF8(src, 0)) + old(dest[end..])
    ensures success <==> IsValidUTF8(src, 0)
  {
    success := true;
    var startOffset: nat := destOffset;
    var i: nat := 0;
    ghost var orig := dest[..];
    ghost var whole := DecodeUTF8(src, 0);
    ghost var done: seq<int> := [];
    ghost var written := orig[..destOffset];
    ConvertingStart(t, orig, destOffset, whole);
    while i < |src|
      invariant i <= |src|
      invariant Converting(t, dest[..], orig, destOffset, startOffset, whole, done, DecodeUTF8(src, i), written)
      invariant IsValidUTF8(src, 0) <==> success && IsValidUTF8(src, i)
      decreases |src| - i
    {
      DecodeUTF8Step(src, i);
      ghost var rest := DecodeUTF8(src, i);
      var next := U8Next(src, i, |src|);
      var codePoint := next.cp;
      i := next.offset;
      if !IsValidCodepoint(codePoint) {
        success := false;
        codePoint := ErrorCodePoint;
      }
      startOffset, done, written :=
        AppendStep(t, dest, startOffset, codePoint, orig, destOffset, whole, done, rest, written);
    }
    assert DecodeUTF8(src, i) == [];
    ConvertingEnd(t, dest[..], orig, destOffset, startOffset, whole, done, written);
    end := startOffset;
  }

  /** The bookkeeping of a driver's loop: `d` holds `written` (the units of
      the code points `done`, after the first `destOffset` units of `orig`)
      and then the rest of `orig`; `rest` is what is left of `whole`, and
      its units still fit. */
  ghost predicate Converting(t: CharType, d: seq<int>, orig: seq<int>, destOffset: nat, startOffset: nat,
                             whole: seq<int>, done: seq<int>, rest: seq<int>, written: seq<int>)
  {
    destOffset <= startOffset && destOffset <= |orig| == |d| &&
    AreScalarValues(done) && AreScalarValues(rest) && whole == done + rest &&
    written == orig[..destOffset] + EncodeAll(t, done) && startOffset == |written| &&
    startOffset + |EncodeAll(t, rest)| <= |d| && d == written + orig[startOffset..]
  }

  /** Before the first append nothing is done. */
  lemma ConvertingStart(t: CharType, orig: seq<int>, destOffset: nat, whole: seq<int>)
    requires AreScalarValues(whole) && destOffset + |EncodeAll(t, whole)| <= |orig|
    ensures Converting(t, orig, orig, destOffset, destOffset, whole, [], whole, orig[..destOffset])
  {
    assert orig == orig[..destOffset] + orig[destOffset..];
  }

  /** After the last append `d` holds the units of `whole` in place. */
  lemma ConvertingEnd(t: CharType, d: seq<int>, orig: seq<int>, destOffset: nat, startOffset: nat,
                      whole: seq<int>, done: seq<int>, written: seq<int>)
    requires Converting(t, d, orig, destOffset, startOffset, whole, done, [], written)
    ensures startOffset == destOffset + |EncodeAll(t, whole)|
    ensures d == orig[..destOffset] + EncodeAll(t, whole) + orig[startOffset..]
  {
    assert done == whole;
  }

  /** One append of a driver: `cp`, the next code point of `whole`, is done
      and its units follow `written`. */
  method AppendStep(t: CharType, dest: array<int>, startOffset: nat, cp: int,
                    ghost orig: seq<int>, ghost destOffset: nat, ghost whole: seq<int>,
                    ghost done: seq<int>, ghost rest: seq<int>, ghost written: seq<int>)
    returns (next: nat, ghost done2: seq<int>, ghost written2: seq<int>)
    requires Converting(t, dest[..], orig, destOffset, startOffset, whole, done, rest, written)
    requires |rest| > 0 && rest[0] == cp
    modifies dest
    ensures Converting(t, dest[..], orig, destOffset, next, whole, done2, rest[1..], written2)
  {
    assert rest == [cp] + rest[1..];
    AdvanceDone(t, whole, done, rest, cp, rest[1..]);
    next := UnicodeAppendUnsafe(t, dest, startOffset, cp);
    assert old(dest[..startOffset]) == written;
    assert old(dest[next..]) == orig[next..];
    ConcatAssociative(orig[..destOffset], EncodeAll(t, done), EncodeUnits(t, cp));
    done2 := done + [cp];
    written2 := written + EncodeUnits(t, cp);
  }

  // ---------------------------------------------------------------------------
  // UTF-16 source

  /** The driver's convert_single_char: a unit that is not a surrogate is
      its own code point; any surrogate becomes U+FFFD. */
  function ConvertSingle(u: Unit16): (r: int)
    ensures IsScalarValue(r)
    ensures r == u <==> !U16IsSurrogate(u)
    ensures r != u ==> r == ErrorCodePoint
  {
    if !U16IsSingle(u) || !IsValidCodepoint(u) then ErrorCodePoint else u
  }

  /** A lead surrogate at `i` with a trail surrogate right after it. */
  predicate IsPairAt(src: seq<Unit16>, i: nat)
  {
    i + 1 < |src| && U16IsSurrogateLead(src[i]) && U16IsTrail(src[i + 1])
  }

  /** The code points the UTF-16 driver appends for `src[i..]`: a pair
      becomes one supplementary code point, any other unit one code point. */
  function DecodeUTF16(src: seq<Unit16>, i: nat): (r: seq<int>)
    requires i <= |src|
    ensures AreScalarValues(r)
    ensures |r| <= |src| - i
    ensures i < |src| ==> |r| >= 1
    decreases |src| - i
  {
    if i == |src| then []
    else if IsPairAt(src, i) then
      [Replaced(U16GetSupplementary(src[i], src[i + 1]))] + DecodeUTF16(src, i + 2)
    else [ConvertSingle(src[i])] + DecodeUTF16(src, i + 1)
  }

  /** Every unit of `src[i..]` is a non-surrogate or part of a pair. */
  predicate IsValidUTF16(src: seq<Unit16>, i: nat)
    requires i <= |src|
    decreases |src| - i
  {
    if i == |src| then true
    else if IsPairAt(src, i) then
      IsValidCodepoint(U16GetSupplementary(src[i], src[i + 1])) && IsValidUTF16(src, i + 2)
    else U16IsSingle(src[i]) && IsValidCodepoint(src[i]) && IsValidUTF16(src, i + 1)
  }

  /** One iteration of the UTF-16 driver's loop: a pair at `i`, or the
      single unit at `i`; `valid` is false when U+FFFD was substituted. */
  method ConvertAt(src: seq<Unit16>, i: nat) returns (cp: int, next: nat, valid: bool)
    requires i + 1 < |src|
    ensures i < next <= |src|
    ensures DecodeUTF16(src, i) == [cp] + DecodeUTF16(src, next)
    ensures IsValidUTF16(src, i) <==> valid && IsValidUTF16(src, next)
  {
    valid := true;
    if U16IsSurrogateLead(src[i]) && U16IsTrail(src[i + 1]) {
      cp := U16GetSupplementary(src[i], src[i + 1]);
      if !IsValidCodepoint(cp) {
        cp := ErrorCodePoint;
        valid := false;
      }
      next := i + 2;
    } else {
      cp := ConvertSingle(src[i]);
      if !U16IsSingle(src[i]) || !IsValidCodepoint(src[i]) {
        valid := false;
      }
      next := i + 1;
    }
  }

  /** The last unit of the source, taken on its own. */
  lemma DecodeUTF16Last(src: seq<Unit16>, i: nat)
    requires i + 1 == |src|
    ensures DecodeUTF16(src, i) == [ConvertSingle(src[i])]
    ensures IsValidUTF16(src, i) <==> U16IsSingle(src[i]) && IsValidCodepoint(src[i])
  {
  }

  /** The UTF-16 driver: pairs are looked for while another unit follows;
      a last unit left over is converted on its own. */
  method DoUTFConversionFromUTF16(src: seq<Unit16>, t: CharType, dest: array<int>, destOffset: nat)
    returns (success: bool, end: nat)
    requires destOffset + |EncodeAll(t, DecodeUTF16(src, 0))| <= dest.Length
    modifies dest
    ensures end == destOffset + |EncodeAll(t, DecodeUTF16(src, 0))|
    ensures dest[..] == old(dest[..destOffset]) + EncodeAll(t, DecodeUTF16(src, 0)) + old(dest[end..])
    ensures success <==> IsValidUTF16(src, 0)
  {
    success := true;
    var i: nat := 0;
    var startOffset: nat := destOffset;
    ghost var orig := dest[..];
    ghost var whole := DecodeUTF16(src, 0);
    ghost var done: seq<int> := [];
    ghost var written := orig[..destOffset];
    ConvertingStart(t, orig, destOffset, whole);
    while i + 1 < |src|
      invariant i <= |src|
      invariant Converting(t, dest[..], orig, destOffset, startOffset, whole, done, DecodeUTF16(src, i), written)
      invariant IsValidUTF16(src, 0) <==> success && IsValidUTF16(src, i)
      decreases |src| - i
    {
      ghost var rest := DecodeUTF16(src, i);
      var codePoint, valid;
      codePoint, i, valid := ConvertAt(src, i);
      success := success && valid;
      startOffset, done, written :=
        AppendStep(t, dest, startOffset, codePoint, orig, destOffset, whole, done, rest, written);
    }
    if i < |src| {
      ghost var rest := DecodeUTF16(src, i);
      var codePoint := ConvertSingle(src[i]);
      if !U16IsSingle(src[i]) || !IsValidCodepoint(src[i]) {
        success := false;
      }
      DecodeUTF16Last(src, i);
      startOffset, done, written :=
        AppendStep(t, dest, startOffset, codePoint, orig, destOffset, whole, done, rest, written);
      i := i + 1;
    }
    assert DecodeUTF16(src, i) == [];
    ConvertingEnd(t, dest[..], orig, destOffset, startOffset, whole, done, written);
    end := startOffset;
  }

  // ---------------------------------------------------------------------------
  // UTF-32 source

  /** The code points the UTF-32 driver appends for `src[i..]`: each unit
      read as a signed 32-bit code point, U+FFFD if it is not a scalar value. */
  function DecodeUTF32(src: seq<Unit32>, i: nat): (r: seq<int>)
    requires i <= |src|
    ensures AreScalarValues(r)
    ensures |r| == |src| - i
    decreases |src| - i
  {
    if i == |src| then []
    else [Replaced(WrapSigned(src[i], W32))] + DecodeUTF32(src, i + 1)
  }

  /** Every unit of `src[i..]` is a scalar value. */
  predicate IsValidUTF32(src: seq<Unit32>, i: nat)
    requires i <= |src|
    decreases |src| - i
  {
    i == |src| || (IsValidCodepoint(WrapSigned(src[i], W32)) && IsValidUTF32(src, i + 1))
  }

  /** The UTF-32 driver: one code point per unit. */
  method DoUTFConversionFromUTF32(src: seq<Unit32>, t: CharType, dest: array<int>, destOffset: nat)
    returns (success: bool, end: nat)
    requires destOffset + |EncodeAll(t, DecodeUTF32(src, 0))| <= dest.Length
    modifies dest
    ensures end == destOffset + |EncodeAll(t, DecodeUTF32(src, 0))|
    ensures dest[..] == old(dest[..destOffset]) + EncodeAll(t, DecodeUTF32(src, 0)) + old(dest[end..])
    ensures success <==> IsValidUTF32(src, 0)
  {
    success := true;
    var startOffset: nat := destOffset;
    ghost var orig := dest[..];
    ghost var whole := DecodeUTF32(src, 0);
    ghost var done: seq<int> := [];
    ghost var written := orig[..destOffset];
    ConvertingStart(t, orig, destOffset, whole);
    for i := 0 to |src|
      invariant Converting(t, dest[..], orig, destOffset, startOffset, whole, done, DecodeUTF32(src, i), written)
      invariant IsValidUTF32(src, 0) <==> success && IsValidUTF32(src, i)
    {
      ghost var rest := DecodeUTF32(src, i);
      var codePoint := WrapSigned(src[i], W32);
      if !IsValidCodepoint(codePoint) {
        success := false;
        codePoint := ErrorCodePoint;
      }
      DecodeUTF32Step(src, i, codePoint, IsValidCodepoint(WrapSigned(src[i], W32)));
      startOffset, done, written :=
        AppendStep(t, dest, startOffset, codePoint, orig, destOffset, whole, done, rest, written);
    }
    assert DecodeUTF32(src, |src|) == [];
    ConvertingEnd(t, dest[..], orig, destOffset, startOffset, whole, done, written);
    end := startOffset;
  }

  /** One step of the UTF-32 driver's specification. */
  lemma DecodeUTF32Step(src: seq<Unit32>, i: nat, cp: int, valid: bool)
    requires i < |src| && valid == IsValidCodepoint(WrapSigned(src[i], W32))
    requires cp == if valid then WrapSigned(src[i], W32) else ErrorCodePoint
    ensures IsScalarValue(cp) && DecodeUTF32(src, i) == [cp] + DecodeUTF32(src, i + 1)
    ensures IsValidUTF32(src, i) <==> valid && IsValidUTF32(src, i + 1)
  {
  }

  // ---------------------------------------------------------------------------
  // Round trips: well-formed input converts losslessly.

  lemma EncodeAllCons(t: CharType, cp: int, cps: seq<int>)
    requires IsScalarValue(cp) && AreScalarValues(cps)
    ensures AreScalarValues([cp] + cps)
    ensures EncodeAll(t, [cp] + cps) == EncodeUnits(t, cp) + EncodeAll(t, cps)
  {
    assert ([cp] + cps)[0] == cp && ([cp] + cps)[1..] == cps;
  }

  /** Units that encode a non-empty sequence of code points start with the
      units of the first and go on with those of the others. */
  lemma SplitEncoding(t: CharType, src: seq<int>, i: nat, cps: seq<int>)
    requires i <= |src| && AreScalarValues(cps) && cps != [] && src[i..] == EncodeAll(t, cps)
    ensures AreScalarValues(cps[1..])
    ensures var e := EncodeUnits(t, cps[0]);
      i + |e| <= |src| && src[i..i + |e|] == e && src[i + |e|..] == EncodeAll(t, cps[1..])
  {
    var e, rest := EncodeAllFirst(t, cps);
    SplitAt(src, i, e, rest);
  }

  /** A suffix that is `e + rest` holds `e` first and `rest` after it. */
  lemma SplitAt(src: seq<int>, i: nat, e: seq<int>, rest: seq<int>)
    requires i <= |src| && src[i..] == e + rest
    ensures i + |e| <= |src| && src[i..i + |e|] == e && src[i + |e|..] == rest
  {
    assert src[i..i + |e|] == src[i..][..|e|];
    assert src[i + |e|..] == src[i..][|e|..];
  }

  /** U8Next reads the first of the encoded code points back and stops where
      the encoding of the others starts. */
  lemma U8NextOfEncodingAt(src: seq<Byte>, i: nat, cps: seq<int>) returns (j: nat)
    requires i <= |src| && AreScalarValues(cps) && cps != [] && src[i..] == EncodeAll(Char8, cps)
    ensures i < j <= |src| && AreScalarValues(cps[1..])
    ensures U8Next(src, i, |src|) == Next(cps[0], j)
    ensures src[j..] == EncodeAll(Char8, cps[1..])
  {
    SplitEncoding(Char8, src, i, cps);
    j := i + |U8Encode(cps[0])|;
    U8NextOfEncoding(src, i, |src|, cps[0]);
  }

  /** One step of the UTF-8 driver over a well-formed character. */
  lemma DecodeUTF8Cons(src: seq<Byte>, i: nat, c: int, j: nat, rest: seq<int>)
    requires i < j <= |src| && IsScalarValue(c) && U8Next(src, i, |src|) == Next(c, j)
    requires DecodeUTF8(src, j) == rest && IsValidUTF8(src, j)
    ensures DecodeUTF8(src, i) == [c] + rest && IsValidUTF8(src, i)
  {
    DecodeUTF8Step(src, i);
  }

  /** The UTF-8 of any scalar values decodes back to them, with no
      replacement. */
  lemma {:induction false} DecodeUTF8OfEncoding(src: seq<Byte>, i: nat, cps: seq<int>)
    requires i <= |src| && AreScalarValues(cps) && src[i..] == EncodeAll(Char8, cps)
    ensures DecodeUTF8(src, i) == cps && IsValidUTF8(src, i)
    decreases cps
  {
    if cps != [] {
      var j := U8NextOfEncodingAt(src, i, cps);
      DecodeUTF8OfEncoding(src, j, cps[1..]);
      DecodeUTF8Cons(src, i, cps[0], j, cps[1..]);
      assert cps == [cps[0]] + cps[1..];
    } else {
      assert |src[i..]| == 0;
    }
  }

  /** Decoding well-formed UTF-8 and encoding it again gives the same bytes. */
  lemma {:induction false} EncodeOfValidUTF8(src: seq<Byte>, i: nat)
    requires i <= |src| && IsValidUTF8(src, i)
    ensures EncodeAll(Char8, DecodeUTF8(src, i)) == src[i..]
    decreases |src| - i
  {
    if i < |src| {
      var c, j := ValidUTF8Step(src, i);
      EncodeOfValidUTF8(src, j);
      EncodeJoined(src, i, j, c, DecodeUTF8(src, j), DecodeUTF8(src, i));
    }
  }

  /** The units of `c` at `src[i..j]`, then the units of `rest`, are the
      units of `[c] + rest`. */
  lemma EncodeJoined(src: seq<Byte>, i: nat, j: nat, c: int, rest: seq<int>, cps: seq<int>)
    requires i <= j <= |src| && IsScalarValue(c) && AreScalarValues(rest) && cps == [c] + rest
    requires src[i..j] == EncodeUnits(Char8, c) && EncodeAll(Char8, rest) == src[j..]
    ensures AreScalarValues(cps) && EncodeAll(Char8, cps) == src[i..]
  {
    EncodeAllCons(Char8, c, rest);
    assert src[i..] == src[i..j] + src[j..];
  }

  /** The first character of well-formed UTF-8: a scalar value whose
      encoding is exactly the bytes it takes up. */
  lemma ValidUTF8Step(src: seq<Byte>, i: nat) returns (c: int, j: nat)
    requires i < |src| && IsValidUTF8(src, i)
    ensures i < j <= |src| && IsScalarValue(c) && src[i..j] == EncodeUnits(Char8, c)
    ensures DecodeUTF8(src, i) == [c] + DecodeUTF8(src, j) && IsValidUTF8(src, j)
  {
    var r := U8Next(src, i, |src|);
    U8NextSound(src, i, |src|);
    DecodeUTF8Step(src, i);
    c, j := r.cp, r.offset;
  }

  /** The UTF-16 of any scalar values decodes back to them. */
  lemma {:induction false} DecodeUTF16OfEncoding(src: seq<Unit16>, i: nat, cps: seq<int>)
    requires i <= |src| && AreScalarValues(cps) && src[i..] == EncodeAll(Char16, cps)
    ensures DecodeUTF16(src, i) == cps && IsValidUTF16(src, i)
    decreases cps
  {
    if cps != [] {
      var c := cps[0];
      var e := U16Encode(c);
      EncodeAllCons(Char16, c, cps[1..]);
      assert cps == [c] + cps[1..];
      assert src[i..] == e + EncodeAll(Char16, cps[1..]);
      assert src[i + |e|..] == EncodeAll(Char16, cps[1..]);
      assert src[i] == e[0];
      if |e| == 2 {
        assert src[i + 1] == e[1];
        U16EncodeThenGetSupplementary(c);
      }
      DecodeUTF16OfEncoding(src, i + |e|, cps[1..]);
    }
  }

  /** Where the UTF-16 driver's next step starts. */
  function NextUTF16(src: seq<Unit16>, i: nat): (n: nat)
    requires i < |src|
    ensures i < n <= |src| && n <= i + 2
    ensures n == i + 2 <==> IsPairAt(src, i)
  {
    if IsPairAt(src, i) then i + 2 else i + 1
  }

  /** One step of the UTF-16 driver's specification: one code point for
      the units up to NextUTF16, which are its own encoding when valid. */
  lemma DecodeUTF16Step(src: seq<Unit16>, i: nat)
    requires i < |src|
    ensures var n := NextUTF16(src, i);
      DecodeUTF16(src, i) == [DecodeUTF16(src, i)[0]] + DecodeUTF16(src, n) &&
      (IsValidUTF16(src, i) ==> IsValidUTF16(src, n) && U16Encode(DecodeUTF16(src, i)[0]) == src[i..n])
  {
    var n := NextUTF16(src, i);
    if IsPairAt(src, i) {
      assert src[i..n] == [src[i], src[i + 1]];
    } else {
      assert src[i..n] == [src[i]];
    }
  }

  /** Decoding well-formed UTF-16 and encoding it again gives the same units. */
  lemma {:induction false} EncodeOfValidUTF16(src: seq<Unit16>, i: nat)
    requires i <= |src| && IsValidUTF16(src, i)
    ensures EncodeAll(Char16, DecodeUTF16(src, i)) == src[i..]
    decreases |src| - i
  {
    if i < |src| {
      var n := NextUTF16(src, i);
      var cp := DecodeUTF16(src, i)[0];
      DecodeUTF16Step(src, i);
      EncodeOfValidUTF16(src, n);
      EncodeAllCons(Char16, cp, DecodeUTF16(src, n));
      assert src[i..] == src[i..n] + src[n..];
    }
  }

  /** A UTF-32 string is well-formed exactly when its units are scalar
      values, and then the driver copies it unchanged. */
  lemma {:induction false} DecodeOfValidUTF32(src: seq<Unit32>, i: nat)
    requires i <= |src|
    ensures IsValidUTF32(src, i) <==> AreScalarValues(src[i..])
    ensures IsValidUTF32(src, i) ==> DecodeUTF32(src, i) == src[i..]
    ensures IsValidUTF32(src, i) ==> EncodeAll(Char32, DecodeUTF32(src, i)) == src[i..]
    decreases |src| - i
  {
    if i < |src| {
      DecodeOfValidUTF32(src, i + 1);
      assert src[i..] == [src[i]] + src[i + 1..];
      if IsValidUTF32(src, i) {
        EncodeAllCons(Char32, src[i], src[i + 1..]);
      }
    }
  }

  // ---------------------------------------------------------------------------
  // Output sizes: SizeCoefficient units per source unit are enough.

  /** One step of the UTF-8 driver writes at most one UTF-16 or UTF-32
      unit per byte it consumes. */
  lemma SizeStepUTF8(src: seq<Byte>, i: nat, t: CharType)
    requires i < |src| && (t == Char16 || t == Char32)
    ensures var r := U8Next(src, i, |src|);
      |EncodeUnits(t, Replaced(r.cp))| <= r.offset - i
  {
    var r := U8Next(src, i, |src|);
    U8NextSound(src, i, |src|);
    if r.cp != Sentinel {
      U8EncodeLength(r.cp);
    }
  }

  /** UTF-8 to UTF-16 or UTF-32: at most one unit per byte. */
  lemma SizeBoundUTF8(src: seq<Byte>, i: nat, t: CharType)
    requires i <= |src| && (t == Char16 || t == Char32)
    ensures |EncodeAll(t, DecodeUTF8(src, i))| <= SizeCoefficient(Char8, t) * (|src| - i)
  {
    UnitsPerByteUTF8(src, i, t);
    assert SizeCoefficient(Char8, t) == 1;
  }

  lemma {:induction false} UnitsPerByteUTF8(src: seq<Byte>, i: nat, t: CharType)
    requires i <= |src| && (t == Char16 || t == Char32)
    ensures |EncodeAll(t, DecodeUTF8(src, i))| <= |src| - i
    decreases |src| - i
  {
    if i < |src| {
      var c, j := SizeStepUTF8At(src, i, t);
      UnitsPerByteUTF8(src, j, t);
      EncodeAllCons(t, c, DecodeUTF8(src, j));
    }
  }

  /** SizeStepUTF8, in terms of the code point the driver appends and the
      offset it moves to. */
  lemma SizeStepUTF8At(src: seq<Byte>, i: nat, t: CharType) returns (c: int, j: nat)
    requires i < |src| && (t == Char16 || t == Char32)
    ensures i < j <= |src| && IsScalarValue(c) && DecodeUTF8(src, i) == [c] + DecodeUTF8(src, j)
    ensures |EncodeUnits(t, c)| <= j - i
  {
    var r := U8Next(src, i, |src|);
    DecodeUTF8Step(src, i);
    SizeStepUTF8(src, i, t);
    c, j := Replaced(r.cp), r.offset;
  }

  /** One step of the UTF-16 driver writes at most SizeCoefficient units
      per unit it consumes. */
  lemma SizeStepUTF16(src: seq<Unit16>, i: nat, t: CharType)
    requires i < |src| && t != Char
    ensures |EncodeUnits(t, DecodeUTF16(src, i)[0])| <= SizeCoefficient(Char16, t) * (NextUTF16(src, i) - i)
  {
    if IsPairAt(src, i) {
      UnitsOfPair(t, DecodeUTF16(src, i)[0], NextUTF16(src, i) - i);
    } else {
      assert DecodeUTF16(src, i)[0] == ConvertSingle(src[i]);
      UnitsOfSingle(t, ConvertSingle(src[i]), NextUTF16(src, i) - i);
    }
  }

  /** Any code point takes at most twice SizeCoefficient units. */
  lemma UnitsOfPair(t: CharType, cp: int, width: int)
    requires IsScalarValue(cp) && t != Char && width == 2
    ensures |EncodeUnits(t, cp)| <= SizeCoefficient(Char16, t) * width
  {
  }

  /** A code point of the Basic Multilingual Plane takes at most
      SizeCoefficient units. */
  lemma UnitsOfSingle(t: CharType, cp: int, width: int)
    requires IsScalarValue(cp) && cp <= 0xFFFF && t != Char && width == 1
    ensures |EncodeUnits(t, cp)| <= SizeCoefficient(Char16, t) * width
  {
    U8EncodeLength(cp);
  }

  /** Bounds of `k` units per source unit for a code point and for the
      code points after it add up. */
  lemma EncodeSizeJoin(t: CharType, c: int, rest: seq<int>, cps: seq<int>, k: int, x: int, y: int, z: int)
    requires IsScalarValue(c) && AreScalarValues(rest) && cps == [c] + rest
    requires |EncodeUnits(t, c)| <= k * x && |EncodeAll(t, rest)| <= k * y && z == x + y
    ensures AreScalarValues(cps) && |EncodeAll(t, cps)| <= k * z
  {
    EncodeAllCons(t, c, rest);
    SizeJoin(EncodeUnits(t, c), EncodeAll(t, rest), k, x, y);
  }

  /** Two bounds of `k` units per source unit add up. */
  lemma SizeJoin(a: seq<int>, b: seq<int>, k: int, x: int, y: int)
    requires |a| <= k * x && |b| <= k * y
    ensures |a + b| <= k * (x + y)
  {
    assert k * (x + y) == k * x + k * y;
  }

  /** UTF-16 to UTF-8: at most three bytes per unit; to UTF-16 or UTF-32 at
      most one unit per unit. */
  lemma {:induction false} SizeBoundUTF16(src: seq<Unit16>, i: nat, t: CharType)
    requires i <= |src| && t != Char
    ensures |EncodeAll(t, DecodeUTF16(src, i))| <= SizeCoefficient(Char16, t) * (|src| - i)
    decreases |src| - i
  {
    if i < |src| {
      var n := NextUTF16(src, i);
      var cp := DecodeUTF16(src, i)[0];
      DecodeUTF16Step(src, i);
      SizeStepUTF16(src, i, t);
      SizeBoundUTF16(src, n, t);
      EncodeSizeJoin(t, cp, DecodeUTF16(src, n), DecodeUTF16(src, i), SizeCoefficient(Char16, t), n - i, |src| - n, |src| - i);
    }
  }

  /** Any code point takes at most SizeCoefficient units per UTF-32 unit. */
  lemma UnitsOfUTF32(t: CharType, cp: int, width: int)
    requires IsScalarValue(cp) && t != Char && width == 1
    ensures |EncodeUnits(t, cp)| <= SizeCoefficient(Char32, t) * width
  {
  }

  /** UTF-32 to UTF-8 or UTF-16: at most four bytes or two units per unit. */
  lemma {:induction false} SizeBoundUTF32(src: seq<Unit32>, i: nat, t: CharType)
    requires i <= |src| && t != Char
    ensures |EncodeAll(t, DecodeUTF32(src, i))| <= SizeCoefficient(Char32, t) * (|src| - i)
    decreases |src| - i
  {
    if i < |src| {
      var cp := Replaced(WrapSigned(src[i], W32));
      SizeBoundUTF32(src, i + 1, t);
      UnitsOfUTF32(t, cp, 1);
      EncodeSizeJoin(t, cp, DecodeUTF32(src, i + 1), DecodeUTF32(src, i), SizeCoefficient(Char32, t), 1, |src| - (i + 1), |src| - i);
    }
  }

  /** Every unit of `s[i..]` is ASCII: what the conversions to ASCII
      require of their input. */
  predicate AllASCII(s: seq<int>, i: nat)
  {
    forall k :: i <= k < |s| ==> 0 <= s[k] < 0x80
  }

  /** An ASCII code point is one unit in every destination. */
  lemma UnitsOfASCII(t: CharType, cp: int)
    requires 0 <= cp < 0x80
    ensures |EncodeUnits(t, cp)| == 1
  {
  }

  /** UTF-8 to ASCII: an all-ASCII source takes one unit per byte. */
  lemma {:induction false} SizeBoundUTF8ToASCII(src: seq<Byte>, i: nat)
    requires i <= |src| && AllASCII(src, i)
    ensures |EncodeAll(Char, DecodeUTF8(src, i))| <= SizeCoefficient(Char8, Char) * (|src| - i)
    decreases |src| - i
  {
    if i < |src| {
      var r := U8Next(src, i, |src|);
      DecodeUTF8Step(src, i);
      U8NextSound(src, i, |src|);
      assert r.cp == src[i] && r.offset == i + 1;
      SizeBoundUTF8ToASCII(src, i + 1);
      UnitsOfASCII(Char, src[i]);
      EncodeSizeJoin(Char, src[i], DecodeUTF8(src, i + 1), DecodeUTF8(src, i), 1, 1, |src| - (i + 1), |src| - i);
    }
  }

  /** UTF-16 to ASCII: an all-ASCII source takes one unit per unit. */
  lemma {:induction false} SizeBoundUTF16ToASCII(src: seq<Unit16>, i: nat)
    requires i <= |src| && AllASCII(src, i)
    ensures |EncodeAll(Char, DecodeUTF16(src, i))| <= SizeCoefficient(Char16, Char) * (|src| - i)
    decreases |src| - i
  {
    if i < |src| {
      assert !IsPairAt(src, i) && ConvertSingle(src[i]) == src[i];
      SizeBoundUTF16ToASCII(src, i + 1);
      UnitsOfASCII(Char, src[i]);
      EncodeSizeJoin(Char, src[i], DecodeUTF16(src, i + 1), DecodeUTF16(src, i), 1, 1, |src| - (i + 1), |src| - i);
    }
  }

  /** UTF-32 to ASCII: an all-ASCII source takes one unit per unit. */
  lemma {:induction false} SizeBoundUTF32ToASCII(src: seq<Unit32>, i: nat)
    requires i <= |src| && AllASCII(src, i)
    ensures |EncodeAll(Char, DecodeUTF32(src, i))| <= SizeCoefficient(Char32, Char) * (|src| - i)
    decreases |src| - i
  {
    if i < |src| {
      assert Replaced(WrapSigned(src[i], W32)) == src[i];
      SizeBoundUTF32ToASCII(src, i + 1);
      UnitsOfASCII(Char, src[i]);
      EncodeSizeJoin(Char, src[i], DecodeUTF32(src, i + 1), DecodeUTF32(src, i), 1, 1, |src| - (i + 1), |src| - i);
    }
  }

  /** SizeCoefficientAsWritten undersizes UTF-16 to UTF-8: one unit U+0800
      takes three bytes, the coefficient allows one. */
  lemma SizeCoefficientAsWrittenUndersizes()
    ensures SizeCoefficientAsWritten(Char16, Char8) * 1 < |EncodeAll(Char8, DecodeUTF16([0x0800], 0))|
  {
    assert DecodeUTF16([0x0800], 0) == [0x0800];
    EncodeAllSingleton(Char8, 0x0800);
  }

  /** A lone lead surrogate followed by 'A' converts to U+FFFD 'A' in UTF-8,
      and the conversion reports the error. */
  lemma LoneLeadSurrogateToUTF8()
    ensures EncodeAll(Char8, DecodeUTF16([0xD800, 0x41], 0)) == [0xEF, 0xBF, 0xBD, 0x41]
    ensures !IsValidUTF16([0xD800, 0x41], 0)
  {
    assert DecodeUTF16([0xD800, 0x41], 0) == [ErrorCodePoint] + DecodeUTF16([0xD800, 0x41], 1);
    assert DecodeUTF16([0xD800, 0x41], 1) == [0x41];
    EncodeAllCons(Char8, ErrorCodePoint, [0x41]);
    EncodeAllSingleton(Char8, 0x41);
  }

  // ---------------------------------------------------------------------------
  // ASCII to the other encodings

  /** Each `char` converted to the unsigned unit type of width `w`, as the
      iterator-range constructor of the destination string converts it. */
  function Widened(ascii: seq<int>, w: Width): (r: seq<int>)
    ensures |r| == |ascii|
    ensures forall k :: 0 <= k < |r| ==> 0 <= r[k] < Modulus(w)
  {
    seq(|ascii|, k requires 0 <= k < |ascii| => WrapUnsigned(ascii[k], w))
  }

  /** ASCII text is copied unit for unit; a negative `char` is sign-extended
      and so lands at the top of the destination type. */
  lemma WidenedValues(ascii: seq<int>, w: Width)
    requires AreUnits(Char, ascii)
    ensures forall k :: 0 <= k < |ascii| && ascii[k] >= 0 ==> Widened(ascii, w)[k] == ascii[k]
    ensures forall k :: 0 <= k < |ascii| && ascii[k] < 0 ==> Widened(ascii, w)[k] == ascii[k] + Modulus(w)
  {
    forall k | 0 <= k < |ascii| && ascii[k] < 0
      ensures Widened(ascii, w)[k] == ascii[k] + Modulus(w)
    {
      assert ascii[k] + Modulus(w) == ascii[k] % Modulus(w) + 0;
    }
  }

  /** ASCIIToUTF8: the output holds the input units as char8_t. */
  method ASCIIToUTF8(ascii: seq<int>, output: UnitString) returns (ok: bool)
    requires output.Valid()
    modifies output, output.buf
    ensures output.Valid() && output.Contents() == Widened(ascii, W8) && ok
  {
    output.Reserve(|ascii|);
    output.Assign(Widened(ascii, W8));
    ok := true;
  }

  /** ASCIIToUTF16: the output holds the input units as char16_t. */
  method ASCIIToUTF16(ascii: seq<int>, output: UnitString) returns (ok: bool)
    requires output.Valid()
    modifies output, output.buf
    ensures output.Valid() && output.Contents() == Widened(ascii, W16) && ok
  {
    output.Reserve(|ascii|);
    output.Assign(Widened(ascii, W16));
    ok := true;
  }

  /** ASCIIToUTF32: the output holds the input units as char32_t. */
  method ASCIIToUTF32(ascii: seq<int>, output: UnitString) returns (ok: bool)
    requires output.Valid()
    modifies output, output.buf
    ensures output.Valid() && output.Contents() == Widened(ascii, W32) && ok
  {
    output.Reserve(|ascii|);
    output.Assign(Widened(ascii, W32));
    ok := true;
  }
}
