// The character and string templates behind the string utilities: ASCII case
// mapping, case-insensitive comparison and equality, character
// classification, hex digits, whitespace tests and trimming. The templates
// are instantiated at the four unit types of `Units.CharType`; a unit is an
// `int` in the range of its type.

module StringInternal {
  import opened Units
  import opened UnitStrings
  import opened StringConstants

  // ---------------------------------------------------------------------
  // Case mapping

  predicate IsASCIIUpper(c: int)
  {
    'A' as int <= c <= 'Z' as int
  }

  predicate IsASCIILower(c: int)
  {
    'a' as int <= c <= 'z' as int
  }

  /** ToLowerASCII on one unit: only 'A'..'Z' move, to 'a'..'z'. */
  function ToLowerASCII(c: int): (r: int)
    ensures r != c <==> IsASCIIUpper(c)
    ensures IsASCIIUpper(c) ==> IsASCIILower(r) && r - c == 'a' as int - 'A' as int
    ensures !IsASCIIUpper(r)
  {
    if IsASCIIUpper(c) then c + ('a' as int - 'A' as int) else c
  }

  /** ToUpperASCII on one unit: only 'a'..'z' move, to 'A'..'Z'. */
  function ToUpperASCII(c: int): (r: int)
    ensures r != c <==> IsASCIILower(c)
    ensures IsASCIILower(c) ==> IsASCIIUpper(r) && c - r == 'a' as int - 'A' as int
    ensures !IsASCIILower(r)
  {
    if IsASCIILower(c) then c + 'A' as int - 'a' as int else c
  }

  /** The two mappings undo each other on letters, and each is idempotent. */
  lemma CaseMappingInverse(c: int)
    ensures IsASCIIUpper(c) ==> ToUpperASCII(ToLowerASCII(c)) == c
    ensures IsASCIILower(c) ==> ToLowerASCII(ToUpperASCII(c)) == c
    ensures ToLowerASCII(ToLowerASCII(c)) == ToLowerASCII(c)
    ensures ToUpperASCII(ToUpperASCII(c)) == ToUpperASCII(c)
    ensures ToLowerASCII(ToUpperASCII(c)) == ToLowerASCII(c)
    ensures ToUpperASCII(ToLowerASCII(c)) == ToUpperASCII(c)
  {
  }

  /** Case mapping keeps a unit inside the range of its type. */
  lemma CaseMappingKeepsUnit(t: CharType, c: int)
    requires IsUnit(t, c)
    ensures IsUnit(t, ToLowerASCII(c)) && IsUnit(t, ToUpperASCII(c))
  {
  }

  /** ToLowerASCII on a string: a new string, one unit per unit. */
  method ToLowerASCIIString(s: seq<int>) returns (r: seq<int>)
    ensures |r| == |s|
    ensures forall i :: 0 <= i < |s| ==> r[i] == ToLowerASCII(s[i])
  {
    r := [];
    for i := 0 to |s|
      invariant |r| == i
      invariant forall k :: 0 <= k < i ==> r[k] == ToLowerASCII(s[k])
    {
      r := r + [ToLowerASCII(s[i])];
    }
  }

  /** ToUpperASCII on a string. */
  method ToUpperASCIIString(s: seq<int>) returns (r: seq<int>)
    ensures |r| == |s|
    ensures forall i :: 0 <= i < |s| ==> r[i] == ToUpperASCII(s[i])
  {
    r := [];
    for i := 0 to |s|
      invariant |r| == i
      invariant forall k :: 0 <= k < i ==> r[k] == ToUpperASCII(s[k])
    {
      r := r + [ToUpperASCII(s[i])];
    }
  }

  /** CaseInsensitiveCompareASCII, the functor for STL algorithms: two units
      are equal once lowered, which is the same as once raised. */
  function CaseInsensitiveCompareASCII(l: int, r: int): (eq: bool)
    ensures eq <==> ToUpperASCII(l) == ToUpperASCII(r)
    ensures eq <==> l == r || ToLowerASCII(l) == r || l == ToLowerASCII(r)
  {
    ToLowerASCII(l) == ToLowerASCII(r)
  }

  // ---------------------------------------------------------------------
  // Case-insensitive comparison

  /** A unit lowered and then read as the unsigned type of its width, the
      value the comparison orders by. */
  function FoldedUnit(t: CharType, c: int): (r: int)
    requires IsUnit(t, c)
    ensures 0 <= r <= MaxUnit(t) - MinUnit(t)
  {
    AsUnsigned(t, ToLowerASCII(c))
  }

  /** Folding identifies exactly the units that lower to the same unit. */
  lemma FoldedUnitInjective(t: CharType, x: int, y: int)
    requires IsUnit(t, x) && IsUnit(t, y)
    ensures FoldedUnit(t, x) == FoldedUnit(t, y) <==> ToLowerASCII(x) == ToLowerASCII(y)
  {
  }

  /** The order CompareCaseInsensitiveASCII computes, defined
      lexicographically: the first folded difference decides, and a proper
      prefix comes first. */
  function CaseInsensitiveOrder(t: CharType, a: seq<int>, b: seq<int>): (r: int)
    requires AreUnits(t, a) && AreUnits(t, b)
    ensures -1 <= r <= 1
    ensures r == 0 ==> |a| == |b|
    decreases |a|
  {
    if a == [] || b == [] then
      (if |a| == |b| then 0 else if |a| < |b| then -1 else 1)
    else if FoldedUnit(t, a[0]) < FoldedUnit(t, b[0]) then -1
    else if FoldedUnit(t, a[0]) > FoldedUnit(t, b[0]) then 1
    else CaseInsensitiveOrder(t, a[1..], b[1..])
  }

  /** Equal folded prefixes do not change the order. */
  lemma {:induction false} OrderSkipsEqualPrefix(t: CharType, a: seq<int>, b: seq<int>, i: nat)
    requires AreUnits(t, a) && AreUnits(t, b) && i <= |a| && i <= |b|
    requires forall k :: 0 <= k < i ==> FoldedUnit(t, a[k]) == FoldedUnit(t, b[k])
    ensures CaseInsensitiveOrder(t, a, b) == CaseInsensitiveOrder(t, a[i..], b[i..])
    decreases i
  {
    if i > 0 {
      OrderSkipsEqualPrefix(t, a[1..], b[1..], i - 1);
      assert a[1..][i - 1..] == a[i..] && b[1..][i - 1..] == b[i..];
    }
  }

  /** The first index whose folded units differ decides the order. */
  lemma OrderByFirstDifference(t: CharType, a: seq<int>, b: seq<int>, i: nat)
    requires AreUnits(t, a) && AreUnits(t, b) && i < |a| && i < |b|
    requires forall k :: 0 <= k < i ==> FoldedUnit(t, a[k]) == FoldedUnit(t, b[k])
    requires FoldedUnit(t, a[i]) != FoldedUnit(t, b[i])
    ensures CaseInsensitiveOrder(t, a, b) == if FoldedUnit(t, a[i]) < FoldedUnit(t, b[i]) then -1 else 1
  {
    OrderSkipsEqualPrefix(t, a, b, i);
  }

  /** Without a folded difference, the lengths decide. */
  lemma OrderByLength(t: CharType, a: seq<int>, b: seq<int>)
    requires AreUnits(t, a) && AreUnits(t, b)
    requires forall k :: 0 <= k < |a| && k < |b| ==> FoldedUnit(t, a[k]) == FoldedUnit(t, b[k])
    ensures CaseInsensitiveOrder(t, a, b) == if |a| == |b| then 0 else if |a| < |b| then -1 else 1
  {
    var m := if |a| < |b| then |a| else |b|;
    OrderSkipsEqualPrefix(t, a, b, m);
  }

  /** Swapping the arguments negates the result. */
  lemma {:induction false} OrderAntisymmetric(t: CharType, a: seq<int>, b: seq<int>)
    requires AreUnits(t, a) && AreUnits(t, b)
    ensures CaseInsensitiveOrder(t, b, a) == -CaseInsensitiveOrder(t, a, b)
    decreases |a|
  {
    if a != [] && b != [] && FoldedUnit(t, a[0]) == FoldedUnit(t, b[0]) {
      OrderAntisymmetric(t, a[1..], b[1..]);
    }
  }

  /** CompareCaseInsensitiveASCII: walks both strings while both have units,
      returning at the first folded difference, then compares lengths. */
  method CompareCaseInsensitiveASCII(t: CharType, a: seq<int>, b: seq<int>) returns (r: int)
    requires AreUnits(t, a) && AreUnits(t, b)
    ensures r == CaseInsensitiveOrder(t, a, b)
  {
    var i := 0;
    while i < |a| && i < |b|
      invariant 0 <= i <= |a| && i <= |b|
      invariant CaseInsensitiveOrder(t, a, b) == CaseInsensitiveOrder(t, a[i..], b[i..])
    {
      var lowerA := AsUnsigned(t, ToLowerASCII(a[i]));
      var lowerB := AsUnsigned(t, ToLowerASCII(b[i]));
      if lowerA < lowerB {
        return -1;
      }
      if lowerA > lowerB {
        return 1;
      }
      assert a[i..][1..] == a[i + 1..] && b[i..][1..] == b[i + 1..];
      i := i + 1;
    }
    if |a| == |b| {
      return 0;
    }
    if |a| < |b| {
      return -1;
    }
    return 1;
  }

  // ---------------------------------------------------------------------
  // Case-insensitive equality across unit types

  /** `x == y` for a unit of type `ta` and one of type `tb` under the usual
      arithmetic conversions: both sides become `int`, except that a
      `char32_t` side makes the comparison one of 32-bit unsigned values, so a
      negative `char` is compared modulo 2^32. */
  predicate UnitsEqual(ta: CharType, x: int, tb: CharType, y: int)
  {
    if ta == Char32 || tb == Char32 then WrapUnsigned(x, W32) == WrapUnsigned(y, W32)
    else x == y
  }

  /** EqualsCaseInsensitiveASCII: the same length and, position by position,
      lowered units that compare equal. */
  function EqualsCaseInsensitiveASCII(ta: CharType, a: seq<int>, tb: CharType, b: seq<int>): (r: bool)
    ensures r <==> |a| == |b| &&
                   forall i :: 0 <= i < |a| ==> UnitsEqual(ta, ToLowerASCII(a[i]), tb, ToLowerASCII(b[i]))
    decreases |a|
  {
    if a == [] || b == [] then |a| == |b|
    else UnitsEqual(ta, ToLowerASCII(a[0]), tb, ToLowerASCII(b[0])) &&
         EqualsCaseInsensitiveASCII(ta, a[1..], tb, b[1..])
  }

  /** For one unit type, equality is the comparison returning 0. */
  lemma EqualsIffCompareZero(t: CharType, a: seq<int>, b: seq<int>)
    requires AreUnits(t, a) && AreUnits(t, b)
    ensures EqualsCaseInsensitiveASCII(t, a, t, b) <==> CaseInsensitiveOrder(t, a, b) == 0
  {
    var m := if |a| < |b| then |a| else |b|;
    if k :| 0 <= k < m && FoldedUnit(t, a[k]) != FoldedUnit(t, b[k]) {
      var i := FirstFoldedDifference(t, a, b, k);
      OrderByFirstDifference(t, a, b, i);
      FoldedUnitInjective(t, a[i], b[i]);
    } else {
      OrderByLength(t, a, b);
      forall i | 0 <= i < m
        ensures UnitsEqual(t, ToLowerASCII(a[i]), t, ToLowerASCII(b[i]))
      {
        FoldedUnitInjective(t, a[i], b[i]);
      }
    }
  }

  /** The smallest index, up to `k`, whose folded units differ. */
  lemma {:induction false} FirstFoldedDifference(t: CharType, a: seq<int>, b: seq<int>, k: nat) returns (i: nat)
    requires AreUnits(t, a) && AreUnits(t, b) && k < |a| && k < |b|
    requires FoldedUnit(t, a[k]) != FoldedUnit(t, b[k])
    ensures i <= k && FoldedUnit(t, a[i]) != FoldedUnit(t, b[i])
    ensures forall j :: 0 <= j < i ==> FoldedUnit(t, a[j]) == FoldedUnit(t, b[j])
    decreases k
  {
    if k == 0 || forall j :: 0 <= j < k ==> FoldedUnit(t, a[j]) == FoldedUnit(t, b[j]) {
      i := k;
    } else {
      var j :| 0 <= j < k && FoldedUnit(t, a[j]) != FoldedUnit(t, b[j]);
      i := FirstFoldedDifference(t, a, b, j);
    }
  }

  /** A negative `char` equals the `char32_t` of its 32-bit pattern and not
      the `char32_t` or `char16_t` of its byte value; a `char16_t` is
      promoted to `int` and keeps its value. */
  lemma EqualsAcrossSignedness()
    ensures EqualsCaseInsensitiveASCII(Char, [-0x3D], Char32, [0xFFFF_FFC3])
    ensures !EqualsCaseInsensitiveASCII(Char, [-0x3D], Char32, [0xC3])
    ensures !EqualsCaseInsensitiveASCII(Char, [-0x3D], Char16, [0xFFC3])
    ensures !EqualsCaseInsensitiveASCII(Char, [-0x3D], Char8, [0xC3])
    ensures EqualsCaseInsensitiveASCII(Char, ['A' as int], Char32, ['a' as int])
  {
    assert WrapUnsigned(-0x3D, W32) == 0xFFFF_FFC3;
  }

  // ---------------------------------------------------------------------
  // Classification

  predicate IsASCIIAlpha(c: int)
  {
    IsASCIIUpper(c) || IsASCIILower(c)
  }

  predicate IsASCIIDigit(c: int)
  {
    '0' as int <= c <= '9' as int
  }

  predicate IsASCIIAlphaNumeric(c: int)
  {
    IsASCIIAlpha(c) || IsASCIIDigit(c)
  }

  predicate IsASCIIPrintable(c: int)
  {
    ' ' as int <= c <= '~' as int
  }

  /** A negative (signed `char`) unit is never a control character. */
  predicate IsASCIIControl(c: int)
  {
    if c < 0 then false else c <= 0x1F || c == 0x7F
  }

  predicate IsASCIIPunctuation(c: int)
  {
    0x20 < c < 0x7F && !IsASCIIAlphaNumeric(c)
  }

  predicate IsHexDigit(c: int)
  {
    IsASCIIDigit(c) || 'A' as int <= c <= 'F' as int || 'a' as int <= c <= 'f' as int
  }

  /** IsASCIIWhitespace: membership in kWhitespaceASCII, or in its copy of
      the same unit type. */
  predicate IsASCIIWhitespace(c: int)
  {
    c in WhitespaceASCII
  }

  /** The ASCII range splits into control characters, space, punctuation and
      alphanumerics; only space and the 94 visible units are printable. */
  lemma ClassesPartitionASCII(c: int)
    requires 0 <= c <= 0x7F
    ensures IsASCIIControl(c) || c == 0x20 || IsASCIIPunctuation(c) || IsASCIIAlphaNumeric(c)
    ensures !(IsASCIIControl(c) && IsASCIIPrintable(c))
    ensures IsASCIIPrintable(c) <==> !IsASCIIControl(c)
    ensures IsASCIIPunctuation(c) ==> IsASCIIPrintable(c) && !IsASCIIAlphaNumeric(c) && c != 0x20
    ensures IsASCIIAlpha(c) <==> ToLowerASCII(c) != ToUpperASCII(c)
    ensures IsASCIIWhitespace(c) ==> (IsASCIIControl(c) && !IsASCIIPrintable(c)) || c == 0x20
  {
  }

  /** Outside 0..0x7F nothing is classified, whatever the unit type. */
  lemma NonASCIIUnclassified(c: int)
    requires c < 0 || c > 0x7F
    ensures !IsASCIIAlphaNumeric(c) && !IsASCIIPrintable(c) && !IsASCIIControl(c)
    ensures !IsASCIIPunctuation(c) && !IsHexDigit(c) && !IsASCIIWhitespace(c)
  {
  }

  // ---------------------------------------------------------------------
  // Hex digits

  /** The width and signedness of `std::char_traits<T>::int_type`, the result
      type of HexDigitToInt: `int` for `char`, `unsigned int` for `char8_t`,
      `uint_least16_t` and `uint_least32_t` for the wide types. */
  function ToIntType(t: CharType, x: int): int
  {
    match t
    case Char => WrapSigned(x, W32)
    case Char8 => WrapUnsigned(x, W32)
    case Char16 => WrapUnsigned(x, W16)
    case Char32 => WrapUnsigned(x, W32)
  }

  /** "0123456789ABCDEF" and its lower-case twin. */
  const UpperHexDigits: seq<int> := ['0' as int, '1' as int, '2' as int, '3' as int, '4' as int, '5' as int,
                                     '6' as int, '7' as int, '8' as int, '9' as int, 'A' as int, 'B' as int,
                                     'C' as int, 'D' as int, 'E' as int, 'F' as int]
  const LowerHexDigits: seq<int> := ['0' as int, '1' as int, '2' as int, '3' as int, '4' as int, '5' as int,
                                     '6' as int, '7' as int, '8' as int, '9' as int, 'a' as int, 'b' as int,
                                     'c' as int, 'd' as int, 'e' as int, 'f' as int]

  /** HexDigitToInt: the value of a hex digit. The digit is not checked: any
      other unit goes through the 'a'..'f' arithmetic and the cast to the
      result type. */
  function HexDigitToInt(t: CharType, c: int): (r: int)
    ensures IsHexDigit(c) ==> 0 <= r < 16 && (c == UpperHexDigits[r] || c == LowerHexDigits[r])
  {
    if IsASCIIDigit(c) then
      HexValue(t, c - '0' as int);
      ToIntType(t, c - '0' as int)
    else if 'A' as int <= c <= 'F' as int then
      HexValue(t, c - 'A' as int + 10);
      ToIntType(t, c - 'A' as int + 10)
    else
      HexValue(t, c - 'a' as int + 10);
      ToIntType(t, c - 'a' as int + 10)
  }

  /** A value below 16 survives the cast to the result type, and the digit
      tables hold its digit at its position. */
  lemma HexValue(t: CharType, x: int)
    ensures 0 <= x < 16 ==> ToIntType(t, x) == x
    ensures 0 <= x < 10 ==> UpperHexDigits[x] == LowerHexDigits[x] == x + '0' as int
    ensures 10 <= x < 16 ==> UpperHexDigits[x] == x - 10 + 'A' as int && LowerHexDigits[x] == x - 10 + 'a' as int
  {
  }

  /** Every digit of either table converts back to its position. */
  lemma HexDigitToIntInverse(t: CharType, v: nat)
    requires v < 16
    ensures IsHexDigit(UpperHexDigits[v]) && IsHexDigit(LowerHexDigits[v])
    ensures HexDigitToInt(t, UpperHexDigits[v]) == v && HexDigitToInt(t, LowerHexDigits[v]) == v
  {
    HexValue(t, v);
  }

  /** Without the check, 'g' yields 16 and '!' a negative `int` for `char`
      but a wrapped value for `char16_t`. */
  lemma HexDigitToIntUnchecked()
    ensures HexDigitToInt(Char, 'g' as int) == 16
    ensures HexDigitToInt(Char, '!' as int) == -54
    ensures HexDigitToInt(Char16, '!' as int) == 0xFFCA
    ensures HexDigitToInt(Char32, '!' as int) == 0xFFFF_FFCA
  {
  }

  // ---------------------------------------------------------------------
  // Whitespace

  /** IsUnicodeWhitespace, for the 16- and 32-bit types: a scan of
      kWhitespaceUTF16 comparing unsigned values. */
  method IsUnicodeWhitespace(t: CharType, c: int) returns (r: bool)
    requires t == Char16 || t == Char32
    requires IsUnit(t, c)
    ensures r <==> c in WhitespaceUnicode
  {
    for k := 0 to |WhitespaceUnicode|
      invariant forall j :: 0 <= j < k ==> WhitespaceUnicode[j] != c
    {
      if WhitespaceUnicode[k] == AsUnsigned(t, c) {
        return true;
      }
    }
    return false;
  }

  /** IsWhitespace: Unicode whitespace for the wide types, ASCII whitespace
      for the 8-bit ones. */
  method IsWhitespace(t: CharType, c: int) returns (r: bool)
    requires IsUnit(t, c)
    ensures r <==> if t == Char16 || t == Char32 then c in WhitespaceUnicode else IsASCIIWhitespace(c)
  {
    if t == Char16 || t == Char32 {
      r := IsUnicodeWhitespace(t, c);
    } else {
      r := IsASCIIWhitespace(c);
    }
  }

  /** ASCII whitespace is Unicode whitespace, and below 0x80 the two agree. */
  lemma ASCIIWhitespaceIsUnicodeWhitespace(c: int)
    ensures IsASCIIWhitespace(c) ==> c in WhitespaceUnicode
    ensures c < 0x80 ==> (c in WhitespaceUnicode <==> IsASCIIWhitespace(c))
  {
  }

  // ---------------------------------------------------------------------
  // Trimming

  /** TrimPositions: bit 0 is leading, bit 1 trailing. */
  type TrimPositions = p: int | 0 <= p <= 3

  const TrimNone: TrimPositions := 0
  const TrimLeading: TrimPositions := 1
  const TrimTrailing: TrimPositions := 2
  const TrimAll: TrimPositions := 3

  predicate HasLeading(p: TrimPositions)
  {
    p % 2 == 1
  }

  predicate HasTrailing(p: TrimPositions)
  {
    p >= 2
  }

  /** find_first_not_of: the first index whose unit is not in `chars`, or
      npos. */
  function FindFirstNotOf(s: seq<int>, chars: seq<int>): (r: int)
    requires |s| < NPos
    ensures r == NPos || 0 <= r < |s|
    ensures r == NPos <==> forall i :: 0 <= i < |s| ==> s[i] in chars
    ensures r != NPos ==> s[r] !in chars && forall i :: 0 <= i < r ==> s[i] in chars
  {
    if s == [] then NPos
    else if s[0] !in chars then 0
    else var k := FindFirstNotOf(s[1..], chars); if k == NPos then NPos else k + 1
  }

  /** find_last_not_of: the last index whose unit is not in `chars`, or
      npos. */
  function FindLastNotOf(s: seq<int>, chars: seq<int>): (r: int)
    requires |s| < NPos
    ensures r == NPos || 0 <= r < |s|
    ensures r == NPos <==> forall i :: 0 <= i < |s| ==> s[i] in chars
    ensures r != NPos ==> s[r] !in chars && forall i :: r < i < |s| ==> s[i] in chars
    ensures r != NPos ==> FindFirstNotOf(s, chars) <= r
  {
    if s == [] then NPos
    else if s[|s| - 1] !in chars then |s| - 1
    else FindLastNotOf(s[..|s| - 1], chars)
  }

  /** Drops the units of `chars` from the front, one at a time. */
  function StripLeading(s: seq<int>, chars: seq<int>): seq<int>
  {
    if s != [] && s[0] in chars then StripLeading(s[1..], chars) else s
  }

  /** Drops the units of `chars` from the back, one at a time. */
  function StripTrailing(s: seq<int>, chars: seq<int>): seq<int>
  {
    if s != [] && s[|s| - 1] in chars then StripTrailing(s[..|s| - 1], chars) else s
  }

  /** What trimming means, independently of npos arithmetic. */
  function Trimmed(s: seq<int>, chars: seq<int>, positions: TrimPositions): seq<int>
  {
    var front := if HasLeading(positions) then StripLeading(s, chars) else s;
    if HasTrailing(positions) then StripTrailing(front, chars) else front
  }

  /** TrimStringView: `substr(min(begin, size), end - begin)` with `size_t`
      arithmetic; when every unit is trimmed, `begin` is npos or `end` wraps
      to 0. */
  function TrimStringView(input: seq<int>, trimChars: seq<int>, positions: TrimPositions): (r: seq<int>)
    requires |input| < NPos
    ensures exists i :: OccursAt(input, r, i)
  {
    var begin := if HasLeading(positions) then FindFirstNotOf(input, trimChars) else 0;
    var end := if HasTrailing(positions) then WrapUnsigned(FindLastNotOf(input, trimChars) + 1, W64)
               else |input|;
    var pos := if begin < |input| then begin else |input|;
    var count := WrapUnsigned(end - begin, W64);
    var len := if count < |input| - pos then count else |input| - pos;
    assert OccursAt(input, input[pos..pos + len], pos);
    input[pos..pos + len]
  }

  /** find_last_not_of is determined by its characterization. */
  lemma FindLastNotOfUnique(s: seq<int>, chars: seq<int>, r: nat)
    requires |s| < NPos && r < |s| && s[r] !in chars
    requires forall i :: r < i < |s| ==> s[i] in chars
    ensures FindLastNotOf(s, chars) == r
  {
  }

  lemma {:induction false} StripLeadingIsSuffix(s: seq<int>, chars: seq<int>)
    requires |s| < NPos
    ensures StripLeading(s, chars) == if FindFirstNotOf(s, chars) == NPos then [] else s[FindFirstNotOf(s, chars)..]
  {
    if s != [] && s[0] in chars {
      StripLeadingIsSuffix(s[1..], chars);
      assert FindFirstNotOf(s[1..], chars) != NPos ==>
        s[1..][FindFirstNotOf(s[1..], chars)..] == s[FindFirstNotOf(s, chars)..];
    }
  }

  lemma {:induction false} StripTrailingIsPrefix(s: seq<int>, chars: seq<int>)
    requires |s| < NPos
    ensures StripTrailing(s, chars) == if FindLastNotOf(s, chars) == NPos then [] else s[..FindLastNotOf(s, chars) + 1]
  {
    if s != [] && s[|s| - 1] in chars {
      StripTrailingIsPrefix(s[..|s| - 1], chars);
      var k := FindLastNotOf(s[..|s| - 1], chars);
      assert k != NPos ==> s[..|s| - 1][..k + 1] == s[..k + 1];
    }
  }

  /** Dropping units before the last unit not in `chars` moves it down. */
  lemma FindLastNotOfSuffix(s: seq<int>, chars: seq<int>, k: nat)
    requires |s| < NPos && k <= FindLastNotOf(s, chars) < |s|
    ensures FindLastNotOf(s[k..], chars) == FindLastNotOf(s, chars) - k
  {
    var last := FindLastNotOf(s, chars);
    forall i | last - k < i < |s| - k
      ensures s[k..][i] in chars
    {
      assert s[k..][i] == s[k + i];
    }
    FindLastNotOfUnique(s[k..], chars, last - k);
  }

  /** Trimming both sides keeps input[first .. last], the units between the
      first and the last unit not in `chars`. */
  lemma TrimmedBothSides(input: seq<int>, chars: seq<int>)
    requires |input| < NPos && FindFirstNotOf(input, chars) != NPos
    ensures Trimmed(input, chars, TrimAll) ==
              input[FindFirstNotOf(input, chars)..FindLastNotOf(input, chars) + 1]
  {
    var first, last := FindFirstNotOf(input, chars), FindLastNotOf(input, chars);
    StripLeadingAt(input, chars, first);
    StripTrailingOfSuffix(input, chars, first, last);
    TrimmedFromParts(input, chars, input[first..], first, last);
  }

  lemma StripLeadingAt(input: seq<int>, chars: seq<int>, first: nat)
    requires |input| < NPos && first == FindFirstNotOf(input, chars) != NPos
    ensures StripLeading(input, chars) == input[first..]
  {
    StripLeadingIsSuffix(input, chars);
  }

  /** Once the front up to `first` is gone, the trailing units to strip are
      still those after `last`. */
  lemma StripTrailingOfSuffix(input: seq<int>, chars: seq<int>, first: nat, last: nat)
    requires |input| < NPos && last == FindLastNotOf(input, chars) && first <= last < |input|
    ensures StripTrailing(input[first..], chars) == input[first..][..last + 1 - first]
  {
    FindLastNotOfSuffix(input, chars, first);
    StripTrailingIsPrefix(input[first..], chars);
  }

  lemma TrimmedFromParts(input: seq<int>, chars: seq<int>, front: seq<int>, first: nat, last: nat)
    requires first <= last < |input| && front == input[first..] && StripLeading(input, chars) == front
    requires StripTrailing(front, chars) == front[..last + 1 - first]
    ensures Trimmed(input, chars, TrimAll) == input[first..last + 1]
  {
    PrefixOfSuffix(input, first, last + 1);
  }

  lemma PrefixOfSuffix(s: seq<int>, a: nat, b: nat)
    requires a <= b <= |s|
    ensures s[a..][..b - a] == s[a..b]
  {
  }

  /** The npos arithmetic of TrimStringView yields exactly the trimmed
      string: the view is the input without its leading and trailing units
      of `trimChars`, on the requested sides. */
  lemma TrimStringViewIsTrimmed(input: seq<int>, trimChars: seq<int>, positions: TrimPositions)
    requires |input| < NPos
    ensures TrimStringView(input, trimChars, positions) == Trimmed(input, trimChars, positions)
  {
    if positions == TrimAll {
      TrimStringViewAll(input, trimChars);
    } else if positions == TrimLeading {
      TrimStringViewLeading(input, trimChars);
    } else if positions == TrimTrailing {
      TrimStringViewTrailing(input, trimChars);
    } else {
      assert input[0..|input|] == input;
    }
  }

  lemma TrimStringViewAll(input: seq<int>, trimChars: seq<int>)
    requires |input| < NPos
    ensures TrimStringView(input, trimChars, TrimAll) == Trimmed(input, trimChars, TrimAll)
  {
    if FindFirstNotOf(input, trimChars) != NPos {
      TrimViewBoth(input, trimChars);
      TrimmedBothSides(input, trimChars);
    } else {
      TrimViewNone(input, trimChars);
    }
  }

  lemma TrimViewBoth(input: seq<int>, chars: seq<int>)
    requires |input| < NPos && FindFirstNotOf(input, chars) != NPos
    ensures TrimStringView(input, chars, TrimAll) ==
              input[FindFirstNotOf(input, chars)..FindLastNotOf(input, chars) + 1]
  {
    var first, last := FindFirstNotOf(input, chars), FindLastNotOf(input, chars);
    TrimViewOf(input, chars, first, last);
  }

  /** TrimStringView on trimming both sides, with `first` and `last` the
      bounds find_first_not_of and find_last_not_of return. */
  lemma TrimViewOf(input: seq<int>, chars: seq<int>, first: nat, last: nat)
    requires |input| < NPos && first == FindFirstNotOf(input, chars) && last == FindLastNotOf(input, chars)
    requires first <= last < |input|
    ensures TrimStringView(input, chars, TrimAll) == input[first..last + 1]
  {
    assert WrapUnsigned(last + 1, W64) == last + 1;
    assert WrapUnsigned(last + 1 - first, W64) == last + 1 - first;
  }

  lemma TrimViewNone(input: seq<int>, chars: seq<int>)
    requires |input| < NPos && FindFirstNotOf(input, chars) == NPos
    ensures TrimStringView(input, chars, TrimAll) == [] == Trimmed(input, chars, TrimAll)
  {
    StripLeadingIsSuffix(input, chars);
  }

  lemma TrimStringViewLeading(input: seq<int>, trimChars: seq<int>)
    requires |input| < NPos
    ensures TrimStringView(input, trimChars, TrimLeading) == Trimmed(input, trimChars, TrimLeading)
  {
    StripLeadingIsSuffix(input, trimChars);
  }

  lemma TrimStringViewTrailing(input: seq<int>, trimChars: seq<int>)
    requires |input| < NPos
    ensures TrimStringView(input, trimChars, TrimTrailing) == Trimmed(input, trimChars, TrimTrailing)
  {
    StripTrailingIsPrefix(input, trimChars);
  }

  /** Trimming leaves no unit of `trimChars` on a trimmed side. */
  lemma TrimmedHasNoTrimUnitAtEdges(input: seq<int>, trimChars: seq<int>, positions: TrimPositions)
    requires |input| < NPos
    ensures var r := Trimmed(input, trimChars, positions);
            (HasLeading(positions) && r != [] ==> r[0] !in trimChars) &&
            (HasTrailing(positions) && r != [] ==> r[|r| - 1] !in trimChars)
  {
    var front := if HasLeading(positions) then StripLeading(input, trimChars) else input;
    if HasLeading(positions) {
      StripLeadingFront(input, trimChars);
    }
    if HasTrailing(positions) {
      StripTrailingBack(front, trimChars);
      StripTrailingKeepsFront(front, trimChars);
    }
  }

  /** What StripLeading leaves does not start with a unit of `chars`. */
  lemma {:induction false} StripLeadingFront(s: seq<int>, chars: seq<int>)
    ensures var r := StripLeading(s, chars); r != [] ==> r[0] !in chars
  {
    if s != [] && s[0] in chars {
      StripLeadingFront(s[1..], chars);
    }
  }

  /** What StripTrailing leaves does not end with a unit of `chars`. */
  lemma {:induction false} StripTrailingBack(s: seq<int>, chars: seq<int>)
    ensures var r := StripTrailing(s, chars); r != [] ==> r[|r| - 1] !in chars
  {
    if s != [] && s[|s| - 1] in chars {
      StripTrailingBack(s[..|s| - 1], chars);
    }
  }

  /** StripTrailing leaves a prefix, so a non-empty result starts where its
      input does. */
  lemma {:induction false} StripTrailingKeepsFront(s: seq<int>, chars: seq<int>)
    ensures var r := StripTrailing(s, chars); r != [] ==> s != [] && r[0] == s[0]
  {
    if s != [] && s[|s| - 1] in chars {
      StripTrailingKeepsFront(s[..|s| - 1], chars);
    }
  }

  /** TrimString: writes the trimmed input to `output` and reports which
      requested sides lost units; all of the input trimmed away reports the
      requested sides, an empty input nothing. */
  method TrimString(input: seq<int>, trimChars: seq<int>, positions: TrimPositions, output: UnitString)
    returns (r: TrimPositions)
    requires |input| < NPos && output.Valid()
    modifies output, output.buf
    ensures output.Valid()
    ensures output.Contents() == TrimStringView(input, trimChars, positions)
    ensures input == [] ==> r == TrimNone
    ensures input != [] && output.Contents() == [] ==> r == positions
    ensures output.Contents() != [] ==>
              (HasLeading(r) <==> HasLeading(positions) && input[0] in trimChars) &&
              (HasTrailing(r) <==> HasTrailing(positions) && input[|input| - 1] in trimChars)
  {
    var lastChar := WrapUnsigned(|input| - 1, W64);
    var firstGood := if HasLeading(positions) then FindFirstNotOf(input, trimChars) else 0;
    var lastGood := if HasTrailing(positions) then FindLastNotOf(input, trimChars) else lastChar;
    if |input| == 0 || firstGood == NPos || lastGood == NPos {
      var inputWasEmpty := |input| == 0;
      output.Clear();
      r := if inputWasEmpty then TrimNone else positions;
      return;
    }
    assert firstGood <= lastGood < |input|;
    output.Assign(input[firstGood..lastGood + 1]);
    r := (if firstGood == 0 then TrimNone else TrimLeading) + (if lastGood == lastChar then TrimNone else TrimTrailing);
  }
}
