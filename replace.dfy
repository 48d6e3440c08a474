// The O(n) replace engine behind ReplaceChars and RemoveChars: a matcher
// finds the next match, and the string is rewritten in one pass, in place
// when its buffer is large enough. The engine is specified by ReplaceAllFrom,
// a left-to-right, non-overlapping replacement that never searches the text
// it has put in.

module StringReplace {
  import opened Units
  import opened UnitStrings

  /** SubstringMatcher and CharacterMatcher, the two matchers the engine is
      instantiated with. */
  datatype Matcher =
    | SubstringMatcher(findThis: seq<int>)
    | CharacterMatcher(findAnyOfThese: seq<int>)
  {
    /** MatchSize(): how many units one match covers. */
    function MatchSize(): nat
    {
      match this
      case SubstringMatcher(f) => |f|
      case CharacterMatcher(_) => 1
    }

    /** A match starts at `i` of `input`: the substring occurs there, or the
        unit there is one of the set. */
    predicate MatchesAt(input: seq<int>, i: int)
    {
      match this
      case SubstringMatcher(f) => 0 <= i <= |input| - |f| && SubstringAt(input, f, i)
      case CharacterMatcher(chars) => 0 <= i < |input| && input[i] in chars
    }

    /** Find(input, pos): `find` or `find_first_of` from `pos`, the first
        match at or after `pos`, or npos if there is none. */
    function Find(input: seq<int>, pos: nat): (r: int)
      requires |input| < NPos
      ensures r == NPos || (pos <= r <= |input| && MatchesAt(input, r))
      ensures r != NPos ==> r + MatchSize() <= |input|
      decreases |input| + 1 - pos
    {
      if pos > |input| then NPos
      else if MatchesAt(input, pos) then pos
      else if pos == |input| then NPos
      else Find(input, pos + 1)
    }
  }

  /** `f` occurs in `input` at `i`, compared unit by unit: OccursAt, in the
      recursive form the matcher tests (SubstringAtIsOccursAt). */
  predicate SubstringAt(input: seq<int>, f: seq<int>, i: int)
    decreases |f|
  {
    if f == [] then 0 <= i <= |input|
    else 0 <= i < |input| && input[i] == f[0] && SubstringAt(input, f[1..], i + 1)
  }

  lemma {:induction false} SubstringAtIsOccursAt(input: seq<int>, f: seq<int>, i: int)
    ensures SubstringAt(input, f, i) <==> OccursAt(input, f, i)
    decreases |f|
  {
    if f != [] {
      SubstringAtIsOccursAt(input, f[1..], i + 1);
      if 0 <= i && i + |f| <= |input| {
        assert input[i..i + |f|] == [input[i]] + input[i + 1..i + 1 + |f[1..]|];
        assert f == [f[0]] + f[1..];
      }
    }
  }

  /** Find returns the first match: none starts between `pos` and it, nor
      anywhere from `pos` on when it returns npos. */
  lemma {:induction false} FindIsFirst(m: Matcher, input: seq<int>, pos: nat)
    requires |input| < NPos
    ensures forall j :: pos <= j <= |input| && (m.Find(input, pos) == NPos || j < m.Find(input, pos)) ==>
              !m.MatchesAt(input, j)
    decreases |input| + 1 - pos
  {
    if pos < |input| && !m.MatchesAt(input, pos) {
      FindIsFirst(m, input, pos + 1);
    }
  }

  datatype ReplaceType = ReplaceAll | ReplaceFirst

  // ---------------------------------------------------------------------------
  // What the engine computes

  /** Every match of `s[p..]`, left to right and without overlap, replaced by
      `rw`; the search goes on after the match, never inside `rw`. */
  function ReplaceAllFrom(m: Matcher, s: seq<int>, p: nat, rw: seq<int>): seq<int>
    requires m.MatchSize() > 0 && p <= |s| < NPos
    decreases |s| - p
  {
    var k := m.Find(s, p);
    if k == NPos then s[p..]
    else s[p..k] + rw + ReplaceAllFrom(m, s, k + m.MatchSize(), rw)
  }

  /** How many matches ReplaceAllFrom replaces. */
  function MatchCount(m: Matcher, s: seq<int>, p: nat): nat
    requires m.MatchSize() > 0 && p <= |s| < NPos
    decreases |s| - p
  {
    var k := m.Find(s, p);
    if k == NPos then 0 else 1 + MatchCount(m, s, k + m.MatchSize())
  }

  /** The engine finds something to replace: matches are not empty and one
      starts at or after `initialOffset`. */
  predicate HasMatchAfter(m: Matcher, s: seq<int>, initialOffset: nat)
    requires |s| < NPos
  {
    m.MatchSize() > 0 && m.Find(s, initialOffset) != NPos
  }

  /** The string DoReplaceMatchesAfterOffset leaves: unchanged without a
      match; otherwise the first match, or it and every later one, replaced. */
  function Replaced(m: Matcher, s: seq<int>, initialOffset: nat, rw: seq<int>, rt: ReplaceType): seq<int>
    requires |s| < NPos
  {
    if !HasMatchAfter(m, s, initialOffset) then s
    else
      var first := m.Find(s, initialOffset);
      match rt
      case ReplaceFirst => s[..first] + rw + s[first + m.MatchSize()..]
      case ReplaceAll => s[..first] + rw + ReplaceAllFrom(m, s, first + m.MatchSize(), rw)
  }

  // ---------------------------------------------------------------------------
  // Properties of the specification

  /** `n` copies of `x` added up; the length arithmetic below is kept linear
      by counting with it instead of multiplying. */
  function Times(n: nat, x: nat): nat
  {
    if n == 0 then 0 else x + Times(n - 1, x)
  }

  lemma {:induction false} TimesIsProduct(n: nat, x: nat)
    ensures Times(n, x) == n * x
  {
    if n > 0 {
      TimesIsProduct(n - 1, x);
      assert n * x == x + (n - 1) * x;
    }
  }

  /** Each match changes the length by |rw| - MatchSize(), and the matches
      fit in the string. */
  lemma {:induction false} ReplaceAllFromLength(m: Matcher, s: seq<int>, p: nat, rw: seq<int>)
    requires m.MatchSize() > 0 && p <= |s| < NPos
    ensures |ReplaceAllFrom(m, s, p, rw)| + Times(MatchCount(m, s, p), m.MatchSize()) ==
            |s| - p + Times(MatchCount(m, s, p), |rw|)
    ensures Times(MatchCount(m, s, p), m.MatchSize()) <= |s| - p
    decreases |s| - p
  {
    var k := m.Find(s, p);
    if k != NPos {
      var q := k + m.MatchSize();
      ReplaceAllFromLength(m, s, q, rw);
      var c := MatchCount(m, s, q);
      assert MatchCount(m, s, p) == 1 + c;
      assert ReplaceAllFrom(m, s, p, rw) == s[p..k] + rw + ReplaceAllFrom(m, s, q, rw);
      assert Times(1 + c, m.MatchSize()) == m.MatchSize() + Times(c, m.MatchSize());
      assert Times(1 + c, |rw|) == |rw| + Times(c, |rw|);
    }
  }

  /** The length after replacing every match: the old length plus, per
      match, the difference of the lengths. */
  lemma ReplacedAllLength(m: Matcher, s: seq<int>, initialOffset: nat, rw: seq<int>) returns (n: nat)
    requires |s| < NPos && HasMatchAfter(m, s, initialOffset)
    ensures n == 1 + MatchCount(m, s, m.Find(s, initialOffset) + m.MatchSize())
    ensures |Replaced(m, s, initialOffset, rw, ReplaceAll)| + Times(n, m.MatchSize()) == |s| + Times(n, |rw|)
    ensures n <= Times(n, m.MatchSize()) <= |s|
  {
    var first := m.Find(s, initialOffset);
    var q := first + m.MatchSize();
    ReplacedAllSize(m, s, initialOffset, rw);
    ReplaceAllFromLength(m, s, q, rw);
    n := CountedLength(|Replaced(m, s, initialOffset, rw, ReplaceAll)|, first, |rw|, |ReplaceAllFrom(m, s, q, rw)|,
                       |s|, m.MatchSize(), MatchCount(m, s, q));
  }

  lemma ReplacedAllSize(m: Matcher, s: seq<int>, initialOffset: nat, rw: seq<int>)
    requires |s| < NPos && HasMatchAfter(m, s, initialOffset)
    ensures m.Find(s, initialOffset) + m.MatchSize() <= |s|
    ensures |Replaced(m, s, initialOffset, rw, ReplaceAll)| ==
            m.Find(s, initialOffset) + |rw| + |ReplaceAllFrom(m, s, m.Find(s, initialOffset) + m.MatchSize(), rw)|
  {
    ReplacedAll(m, s, initialOffset, rw);
  }

  /** The length bookkeeping of ReplacedAllLength on plain numbers: `first`
      units kept, then `rl` put in, then a tail holding `c` more matches. */
  lemma CountedLength(len: nat, first: nat, rl: nat, tail: nat, size: nat, fl: nat, c: nat) returns (n: nat)
    requires fl >= 1 && first + fl <= size && len == first + rl + tail
    requires tail + Times(c, fl) == size - (first + fl) + Times(c, rl) && Times(c, fl) <= size - (first + fl)
    ensures n == 1 + c && len + Times(n, fl) == size + Times(n, rl) && n <= Times(n, fl) <= size
  {
    n := 1 + c;
    TimesAtLeastCount(n, fl);
  }

  lemma {:induction false} TimesAtLeastCount(n: nat, x: nat)
    requires x >= 1
    ensures Times(n, x) >= n
  {
    if n > 0 {
      TimesAtLeastCount(n - 1, x);
    }
  }

  /** With as many units put in as taken out the length never changes. */
  lemma ReplacedSameLength(m: Matcher, s: seq<int>, initialOffset: nat, rw: seq<int>, rt: ReplaceType)
    requires |s| < NPos && |rw| == m.MatchSize()
    ensures |Replaced(m, s, initialOffset, rw, rt)| == |s|
  {
    if HasMatchAfter(m, s, initialOffset) && rt == ReplaceAll {
      var n := ReplacedAllLength(m, s, initialOffset, rw);
    }
  }

  /** The final length is bounded by the length of a string in which every
      unit is a match. */
  lemma ReplacedLengthBound(m: Matcher, s: seq<int>, initialOffset: nat, rw: seq<int>, rt: ReplaceType)
    requires |s| < NPos
    ensures |Replaced(m, s, initialOffset, rw, rt)| <= |s| * (|rw| + 1)
  {
    var r := Replaced(m, s, initialOffset, rw, rt);
    if !HasMatchAfter(m, s, initialOffset) {
      assert r == s;
      LengthBoundArithmetic(|r|, |s|, 0, 1, |rw|);
    } else if rt == ReplaceAll {
      var n := ReplacedAllLength(m, s, initialOffset, rw);
      LengthBoundArithmetic(|r|, |s|, n, m.MatchSize(), |rw|);
    } else {
      var first := m.Find(s, initialOffset);
      assert r == s[..first] + rw + s[first + m.MatchSize()..];
      LengthBoundArithmetic(|r|, |s|, 1, m.MatchSize(), |rw|);
    }
  }

  /** A string whose worst-case replacement fits in a size_t has a result
      that fits. */
  lemma ReplacedFits(m: Matcher, s: seq<int>, initialOffset: nat, rw: seq<int>, rt: ReplaceType)
    requires |s| * (|rw| + 1) < NPos
    ensures |s| < NPos && |Replaced(m, s, initialOffset, rw, rt)| < NPos
  {
    assert |s| * (|rw| + 1) == |s| * |rw| + |s|;
    ReplacedLengthBound(m, s, initialOffset, rw, rt);
  }

  /** A length that gains at most `rl` units for each of at most |s| matches
      stays within |s| * (rl + 1). */
  lemma LengthBoundArithmetic(len: nat, size: nat, n: nat, fl: nat, rl: nat)
    requires fl >= 1 && len + Times(n, fl) == size + Times(n, rl) && n <= Times(n, fl) <= size
    ensures len <= size * (rl + 1)
  {
    TimesMonotone(n, size, rl);
    TimesIsProduct(size, rl);
    assert size * (rl + 1) == size * rl + size;
  }

  lemma {:induction false} TimesMonotone(a: nat, b: nat, x: nat)
    requires a <= b
    ensures Times(a, x) <= Times(b, x)
    decreases b
  {
    if a < b {
      TimesMonotone(a, b - 1, x);
    }
  }

  /** Find sees only `input[pos..]`: two strings with the same suffix give
      the same match, shifted by the difference of the positions. */
  lemma {:induction false} FindSeesOnlySuffix(m: Matcher, a: seq<int>, p: nat, b: seq<int>, q: nat)
    requires |a| < NPos && |b| < NPos && p <= |a| && q <= |b| && a[p..] == b[q..]
    ensures m.Find(a, p) == NPos <==> m.Find(b, q) == NPos
    ensures m.Find(a, p) != NPos ==> m.Find(a, p) - p == m.Find(b, q) - q
    decreases |a| - p
  {
    assert |a| - p == |b| - q;
    MatchesAtSuffix(m, a, p, b, q);
    if p < |a| {
      assert a[p + 1..] == a[p..][1..] == b[q..][1..] == b[q + 1..];
      FindSeesOnlySuffix(m, a, p + 1, b, q + 1);
    }
  }

  /** Strings that agree from `p` on give the same Find from `p`. */
  lemma FindSameSuffix(m: Matcher, a: seq<int>, b: seq<int>, p: nat)
    requires |a| == |b| < NPos && p <= |a| && a[p..] == b[p..]
    ensures m.Find(a, p) == m.Find(b, p)
  {
    FindSeesOnlySuffix(m, a, p, b, p);
  }

  lemma MatchesAtSuffix(m: Matcher, a: seq<int>, p: nat, b: seq<int>, q: nat)
    requires p <= |a| && q <= |b| && a[p..] == b[q..]
    ensures m.MatchesAt(a, p) <==> m.MatchesAt(b, q)
  {
    if m.SubstringMatcher? {
      var n := |m.findThis|;
      SubstringAtIsOccursAt(a, m.findThis, p);
      SubstringAtIsOccursAt(b, m.findThis, q);
      if n <= |a| - p {
        assert a[p..p + n] == a[p..][..n] == b[q..][..n] == b[q..q + n];
      }
    } else if p < |a| {
      assert a[p] == a[p..][0] == b[q..][0] == b[q];
    }
  }

  /** The part of ReplaceAllFrom before the next match is the input itself. */
  lemma ReplaceAllFromStep(m: Matcher, s: seq<int>, p: nat, k: int, q: nat, rw: seq<int>)
    requires m.MatchSize() > 0 && p <= |s| < NPos
    requires k == m.Find(s, p) && k != NPos && q == k + m.MatchSize()
    ensures ReplaceAllFrom(m, s, p, rw) == s[p..k] + rw + ReplaceAllFrom(m, s, q, rw)
    ensures MatchCount(m, s, p) == 1 + MatchCount(m, s, q)
  {
  }


  // ---------------------------------------------------------------------------
  // Character matching: each unit of the set is replaced independently

  /** Every unit of `s` that belongs to `chars` replaced by `rw`. */
  function ReplaceEach(s: seq<int>, chars: seq<int>, rw: seq<int>): seq<int>
  {
    if s == [] then []
    else (if s[0] in chars then rw else [s[0]]) + ReplaceEach(s[1..], chars, rw)
  }

  lemma {:induction false} ReplaceEachAppend(a: seq<int>, b: seq<int>, chars: seq<int>, rw: seq<int>)
    ensures ReplaceEach(a + b, chars, rw) == ReplaceEach(a, chars, rw) + ReplaceEach(b, chars, rw)
    decreases |a|
  {
    if a == [] {
      assert a + b == b;
    } else {
      assert (a + b)[0] == a[0] && (a + b)[1..] == a[1..] + b;
      ReplaceEachAppend(a[1..], b, chars, rw);
    }
  }

  /** A string with no unit of `chars` is left as it is. */
  lemma {:induction false} ReplaceEachNoMember(s: seq<int>, chars: seq<int>, rw: seq<int>)
    requires forall i :: 0 <= i < |s| ==> s[i] !in chars
    ensures ReplaceEach(s, chars, rw) == s
    decreases |s|
  {
    if s != [] {
      ReplaceEachNoMember(s[1..], chars, rw);
    }
  }

  /** With a CharacterMatcher the left-to-right replacement is the
      unit-by-unit one. */
  lemma {:induction false} ReplaceAllFromIsReplaceEach(chars: seq<int>, s: seq<int>, p: nat, rw: seq<int>)
    requires p <= |s| < NPos
    ensures ReplaceAllFrom(CharacterMatcher(chars), s, p, rw) == ReplaceEach(s[p..], chars, rw)
    decreases |s| - p
  {
    var m := CharacterMatcher(chars);
    var k := m.Find(s, p);
    if k == NPos {
      ReplaceEachAfterLastMatch(chars, s, p, rw);
    } else {
      ReplaceAllFromIsReplaceEach(chars, s, k + 1, rw);
      ReplaceAllFromStep(m, s, p, k, k + 1, rw);
      ReplaceEachToMatch(chars, s, p, k, rw);
    }
  }

  /** ReplaceEach leaves `s[p..]` as it is when no unit from `p` on is in
      the set. */
  lemma ReplaceEachAfterLastMatch(chars: seq<int>, s: seq<int>, p: nat, rw: seq<int>)
    requires p <= |s| < NPos && CharacterMatcher(chars).Find(s, p) == NPos
    ensures ReplaceEach(s[p..], chars, rw) == s[p..]
  {
    NoCharacterBeforeFind(chars, s, p);
    ReplaceEachNoMember(s[p..], chars, rw);
  }

  /** ReplaceEach up to and including the unit a CharacterMatcher finds:
      the units before it as they are, then `rw`. */
  lemma ReplaceEachToMatch(chars: seq<int>, s: seq<int>, p: nat, k: int, rw: seq<int>)
    requires p <= |s| < NPos && k == CharacterMatcher(chars).Find(s, p) && k != NPos
    ensures ReplaceEach(s[p..], chars, rw) == s[p..k] + rw + ReplaceEach(s[k + 1..], chars, rw)
  {
    ReplaceEachAround(s, p, k, chars, rw);
    ReplaceEachBeforeMatch(chars, s, p, k, rw);
  }

  /** ReplaceEach leaves the units before the one a CharacterMatcher finds
      as they are. */
  lemma ReplaceEachBeforeMatch(chars: seq<int>, s: seq<int>, p: nat, k: int, rw: seq<int>)
    requires p <= |s| < NPos && k == CharacterMatcher(chars).Find(s, p) && k != NPos
    ensures ReplaceEach(s[p..k], chars, rw) == s[p..k]
  {
    NoCharacterBeforeFind(chars, s, p);
    forall i | 0 <= i < |s[p..k]| ensures s[p..k][i] !in chars {
      assert s[p..k][i] == s[p..][i];
    }
    ReplaceEachNoMember(s[p..k], chars, rw);
  }

  /** ReplaceEach of `s[p..]` taken apart around the unit at `k`. */
  lemma ReplaceEachAround(s: seq<int>, p: nat, k: nat, chars: seq<int>, rw: seq<int>)
    requires p <= k < |s|
    ensures ReplaceEach(s[p..], chars, rw) ==
      ReplaceEach(s[p..k], chars, rw) + (if s[k] in chars then rw else [s[k]]) + ReplaceEach(s[k + 1..], chars, rw)
  {
    assert s[p..] == s[p..k] + ([s[k]] + s[k + 1..]);
    ReplaceEachAppend(s[p..k], [s[k]] + s[k + 1..], chars, rw);
    ReplaceEachAppend([s[k]], s[k + 1..], chars, rw);
    assert [s[k]][1..] == [];
  }

  /** Before the unit a CharacterMatcher finds, or anywhere after `p` when
      it finds none, no unit is in the set. */
  lemma NoCharacterBeforeFind(chars: seq<int>, s: seq<int>, p: nat)
    requires p <= |s| < NPos
    ensures var k := CharacterMatcher(chars).Find(s, p);
      forall i :: 0 <= i < (if k == NPos then |s| else k) - p ==> s[p..][i] !in chars
  {
    var m := CharacterMatcher(chars);
    FindIsFirst(m, s, p);
    forall i | 0 <= i < (if m.Find(s, p) == NPos then |s| else m.Find(s, p)) - p
      ensures s[p..][i] !in chars
    {
      assert !m.MatchesAt(s, p + i);
    }
  }

  /** A CharacterMatcher finds something exactly when some unit of `s` is in
      `chars`; never with an empty set. */
  lemma CharacterMatchExists(chars: seq<int>, s: seq<int>)
    requires |s| < NPos
    ensures HasMatchAfter(CharacterMatcher(chars), s, 0) <==> exists i :: 0 <= i < |s| && s[i] in chars
    ensures chars == [] ==> !HasMatchAfter(CharacterMatcher(chars), s, 0)
  {
    var m := CharacterMatcher(chars);
    NoCharacterBeforeFind(chars, s, 0);
    if i :| 0 <= i < |s| && s[i] in chars {
      assert s[0..][i] == s[i];
    }
    if m.Find(s, 0) != NPos {
      assert s[m.Find(s, 0)] in chars;
    }
  }

  /** Replacing every match of a CharacterMatcher from the start replaces each
      unit of `chars` where it stands. */
  lemma ReplacedCharacters(chars: seq<int>, s: seq<int>, rw: seq<int>)
    requires |s| < NPos
    ensures Replaced(CharacterMatcher(chars), s, 0, rw, ReplaceAll) == ReplaceEach(s, chars, rw)
  {
    var m := CharacterMatcher(chars);
    if HasMatchAfter(m, s, 0) {
      var k := m.Find(s, 0);
      ReplaceAllFromIsReplaceEach(chars, s, 0, rw);
      ReplaceAllFromStep(m, s, 0, k, k + 1, rw);
      assert s[0..k] == s[..k];
    } else {
      assert s[0..] == s;
      NoCharacterBeforeFind(chars, s, 0);
      ReplaceEachNoMember(s, chars, rw);
    }
  }

  /** With nothing put in, ReplaceEach removes exactly the units of `chars`:
      the others stay, in order. */
  lemma {:induction false} ReplaceEachRemoves(s: seq<int>, chars: seq<int>)
    ensures forall x :: x in ReplaceEach(s, chars, []) <==> x in s && x !in chars
    ensures |ReplaceEach(s, chars, [])| <= |s|
    ensures |ReplaceEach(s, chars, [])| == |s| <==> forall i :: 0 <= i < |s| ==> s[i] !in chars
    decreases |s|
  {
    if s != [] {
      ReplaceEachRemoves(s[1..], chars);
      assert s == [s[0]] + s[1..];
      assert forall i :: 1 <= i < |s| ==> s[i] == s[1..][i - 1];
    }
  }

  /** ReplaceChars("test", "t", "test") is "testestest": the 't's put in are
      not matched again. */
  lemma ReplaceCharsNotRescanned()
    ensures ReplaceEach(['t' as int, 'e' as int, 's' as int, 't' as int], ['t' as int],
                        ['t' as int, 'e' as int, 's' as int, 't' as int]) ==
            ['t' as int, 'e' as int, 's' as int, 't' as int, 'e' as int, 's' as int, 't' as int,
             'e' as int, 's' as int, 't' as int]
  {
    var t, e, s := 't' as int, 'e' as int, 's' as int;
    assert ReplaceEach([t], [t], [t, e, s, t]) == [t, e, s, t];
    assert ReplaceEach([s, t], [t], [t, e, s, t]) == [s, t, e, s, t];
    assert ReplaceEach([e, s, t], [t], [t, e, s, t]) == [e, s, t, e, s, t];
  }

  /** Substring matches do not overlap: "aa" in "aaa" matches once, at 0. */
  lemma SubstringMatchesDoNotOverlap()
    ensures Replaced(SubstringMatcher([1, 1]), [1, 1, 1], 0, [2], ReplaceAll) == [2, 1]
  {
    var m := SubstringMatcher([1, 1]);
    var s := [1, 1, 1];
    assert s[0..2] == [1, 1];
    assert m.MatchesAt(s, 0);
    assert m.Find(s, 0) == 0;
    assert !m.MatchesAt(s, 2) && !m.MatchesAt(s, 3);
    assert m.Find(s, 2) == NPos;
  }

  // ---------------------------------------------------------------------------
  // char_traits copy and move on the string's buffer

  /** Traits::copy: `units` written over the string from `dst` on. */
  method CopyUnits(str: UnitString, dst: nat, units: seq<int>)
    requires str.Valid() && dst + |units| <= str.size
    modifies str.buf
    ensures str.Valid()
    ensures Overwritten(old(str.Contents()), str.Contents(), dst, units)
  {
    forall i | 0 <= i < |units| {
      str.buf[dst + i] := units[i];
    }
  }

  /** Traits::move: the units at [src, src + n) copied to [dst, dst + n), the
      ranges possibly overlapping. */
  method MoveUnits(str: UnitString, dst: nat, src: nat, n: nat)
    requires str.Valid() && dst + n <= str.size && src + n <= str.size
    modifies str.buf
    ensures str.Valid()
    ensures Moved(old(str.Contents()), str.Contents(), dst, src, n)
  {
    forall i | 0 <= i < n {
      str.buf[dst + i] := str.buf[src + i];
    }
  }

  /** `c1` is `c` with `units` written at `at`. */
  ghost predicate Overwritten(c: seq<int>, c1: seq<int>, at: nat, units: seq<int>)
  {
    |c1| == |c| && at + |units| <= |c| &&
    forall i {:trigger c1[i]} :: 0 <= i < |c1| ==> c1[i] == if at <= i < at + |units| then units[i - at] else c[i]
  }

  /** `c1` is `c` with the `n` units at `src` copied to `dst`, as they were
      before the copy. */
  ghost predicate Moved(c: seq<int>, c1: seq<int>, dst: nat, src: nat, n: nat)
  {
    |c1| == |c| && dst + n <= |c| && src + n <= |c| &&
    forall i {:trigger c1[i]} :: 0 <= i < |c1| ==> c1[i] == if dst <= i < dst + n then c[i - dst + src] else c[i]
  }

  /** Writing no units changes nothing. */
  lemma NothingWritten(c: seq<int>, at: nat)
    requires at <= |c|
    ensures Overwritten(c, c, at, [])
  {
  }

  /** Moving no units changes nothing. */
  lemma NothingMoved(c: seq<int>, dst: nat, src: nat)
    requires dst <= |c| && src <= |c|
    ensures Moved(c, c, dst, src, 0)
  {
  }

  lemma OverwrittenSplice(c: seq<int>, c1: seq<int>, at: nat, units: seq<int>)
    requires Overwritten(c, c1, at, units)
    ensures c1 == c[..at] + units + c[at + |units|..]
  {
  }

  // ---------------------------------------------------------------------------
  // DoReplaceMatchesAfterOffset and its three rewriting passes

  /** The first pass of a lengthening replace: counts the matches from the
      first one on. */
  lemma MatchCountAt(m: Matcher, s: seq<int>, i: nat)
    requires m.MatchSize() > 0 && i <= |s| < NPos && m.MatchesAt(s, i)
    ensures MatchCount(m, s, i) == 1 + MatchCount(m, s, i + m.MatchSize())
  {
    assert m.Find(s, i) == i;
  }

  lemma MatchCountSkip(m: Matcher, s: seq<int>, p: nat)
    requires m.MatchSize() > 0 && p <= |s| < NPos
    ensures m.Find(s, p) == NPos ==> MatchCount(m, s, p) == 0
    ensures m.Find(s, p) != NPos ==> MatchCount(m, s, p) == MatchCount(m, s, m.Find(s, p))
  {
    var k := m.Find(s, p);
    if k != NPos {
      MatchCountAt(m, s, k);
    }
  }

  method CountMatches(m: Matcher, s: seq<int>, first: nat, expansionPerMatch: nat)
    returns (numMatches: nat, expansion: nat)
    requires m.MatchSize() > 0 && first <= |s| < NPos && m.MatchesAt(s, first)
    ensures numMatches == 1 + MatchCount(m, s, first + m.MatchSize())
    ensures expansion == Times(numMatches, expansionPerMatch)
  {
    MatchCountAt(m, s, first);
    ghost var total := MatchCount(m, s, first);
    ghost var rest := total;
    var matchPos: int := first;
    numMatches, expansion := 0, 0;
    while matchPos != NPos
      invariant Counting(m, s, matchPos, rest)
      invariant numMatches + rest == total && expansion == Times(numMatches, expansionPerMatch)
      decreases rest
    {
      CountingStep(m, s, matchPos, rest);
      expansion := expansion + expansionPerMatch;
      numMatches := numMatches + 1;
      rest := rest - 1;
      matchPos := m.Find(s, matchPos + m.MatchSize());
    }
  }

  /** CountMatches' loop state: `rest` matches remain from `matchPos` on, a
      match when it is not npos. */
  ghost predicate Counting(m: Matcher, s: seq<int>, matchPos: int, rest: nat)
    requires m.MatchSize() > 0 && |s| < NPos
  {
    if matchPos == NPos then rest == 0
    else 0 <= matchPos <= |s| && m.MatchesAt(s, matchPos) && rest == MatchCount(m, s, matchPos)
  }

  lemma CountingStep(m: Matcher, s: seq<int>, matchPos: int, rest: nat)
    requires m.MatchSize() > 0 && |s| < NPos && matchPos != NPos && Counting(m, s, matchPos, rest)
    ensures rest > 0 && matchPos + m.MatchSize() <= |s|
    ensures Counting(m, s, m.Find(s, matchPos + m.MatchSize()), rest - 1)
  {
    MatchCountAt(m, s, matchPos);
    MatchCountSkip(m, s, matchPos + m.MatchSize());
  }

  /** One step of a pass: the units from `p` up to the match at `k` kept
      and the match overwritten by `rw` of the same length. */
  lemma OverwriteStep(before: seq<int>, after: seq<int>, s: seq<int>, p: nat, k: nat, q: nat, rw: seq<int>)
    requires |before| == |s| && p <= k && q == k + |rw| <= |s| && before[p..] == s[p..]
    requires after == before[..k] + rw + before[q..]
    ensures |after| == |s|
    ensures after[..q] == before[..p] + s[p..k] + rw
    ensures after[q..] == s[q..]
  {
    assert before[..k] == before[..p] + before[p..k];
    assert before[p..k] == before[p..][..k - p];
    assert before[q..] == before[p..][q - p..];
  }


  lemma Regroup(a: seq<int>, b: seq<int>, c: seq<int>, d: seq<int>)
    ensures a + (b + c + d) == (a + b + c) + d
  {
  }

  /** What ReplaceAllFrom does at a match and past the last one. */
  lemma ReplaceAllFromAt(m: Matcher, s: seq<int>, i: nat, rw: seq<int>)
    requires m.MatchSize() > 0 && i <= |s| < NPos && m.MatchesAt(s, i)
    ensures ReplaceAllFrom(m, s, i, rw) == rw + ReplaceAllFrom(m, s, i + m.MatchSize(), rw)
  {
    assert m.Find(s, i) == i;
    assert s[i..i] + rw == rw;
  }

  lemma ReplaceAllFromEnd(m: Matcher, s: seq<int>, p: nat, rw: seq<int>)
    requires m.MatchSize() > 0 && p <= |s| < NPos && m.Find(s, p) == NPos
    ensures ReplaceAllFrom(m, s, p, rw) == s[p..] && MatchCount(m, s, p) == 0
  {
  }

  /** The state of OverwriteMatches before the match at `offset`: the
      units before `p` are final, the rest is still the input. */
  ghost predicate OverwriteState(m: Matcher, s: seq<int>, rw: seq<int>, whole: seq<int>,
                                 c: seq<int>, p: nat, offset: int)
  {
    m.MatchSize() > 0 && |c| == |s| < NPos && p <= |s| &&
    c[..p] + ReplaceAllFrom(m, s, p, rw) == whole && c[p..] == s[p..] && offset == m.Find(s, p)
  }

  lemma OverwriteAdvance(m: Matcher, s: seq<int>, rw: seq<int>, whole: seq<int>,
                         before: seq<int>, after: seq<int>, p: nat, offset: int, next: nat, nextOffset: int)
    requires OverwriteState(m, s, rw, whole, before, p, offset) && offset != NPos
    requires |rw| == m.MatchSize() && after == before[..offset] + rw + before[offset + |rw|..]
    requires next == offset + |rw| && |after| < NPos && nextOffset == m.Find(after, next)
    ensures OverwriteState(m, s, rw, whole, after, next, nextOffset)
  {
    var rest := ReplaceAllFrom(m, s, next, rw);
    ReplaceAllFromStep(m, s, p, offset, next, rw);
    OverwriteStep(before, after, s, p, offset, next, rw);
    Regroup(before[..p], s[p..offset], rw, rest);
    FindSameSuffix(m, after, s, next);
  }

  lemma OverwriteStart(m: Matcher, s: seq<int>, rw: seq<int>, initialOffset: nat)
    requires m.MatchSize() > 0 && |s| < NPos && m.Find(s, initialOffset) != NPos
    ensures var first := m.Find(s, initialOffset);
      OverwriteState(m, s, rw, s[..first] + rw + ReplaceAllFrom(m, s, first + m.MatchSize(), rw),
                     s, initialOffset, first)
  {
    var first := m.Find(s, initialOffset);
    var q := first + m.MatchSize();
    ReplaceAllFromStep(m, s, initialOffset, first, q, rw);
    PrefixJoin(s, initialOffset, first, rw, ReplaceAllFrom(m, s, q, rw));
  }

  /** The units before `p`, then those from `p` to `k` followed by more, are
      the units before `k` followed by the same. */
  lemma PrefixJoin(s: seq<int>, p: nat, k: nat, rw: seq<int>, tail: seq<int>)
    requires p <= k <= |s|
    ensures s[..p] + (s[p..k] + rw + tail) == s[..k] + rw + tail
  {
    assert s[..p] + s[p..k] == s[..k];
  }

  lemma OverwriteFinish(m: Matcher, s: seq<int>, rw: seq<int>, whole: seq<int>, c: seq<int>, p: nat)
    requires OverwriteState(m, s, rw, whole, c, p, NPos)
    ensures c == whole
  {
    ReplaceAllFromEnd(m, s, p, rw);
    assert c == c[..p] + c[p..];
  }

  /** Same lengths: each match is overwritten in place. */
  method OverwriteMatches(str: UnitString, m: Matcher, rw: seq<int>, first: nat,
                          ghost s: seq<int>, ghost initialOffset: nat)
    requires str.Valid() && str.Contents() == s && |s| < NPos
    requires m.MatchSize() > 0 && |rw| == m.MatchSize()
    requires first == m.Find(s, initialOffset) && first != NPos
    modifies str.buf
    ensures str.Valid()
    ensures str.Contents() == s[..first] + rw + ReplaceAllFrom(m, s, first + m.MatchSize(), rw)
  {
    ghost var whole := s[..first] + rw + ReplaceAllFrom(m, s, first + m.MatchSize(), rw);
    ghost var p: nat := initialOffset;
    OverwriteStart(m, s, rw, initialOffset);
    var offset: int := first;
    while offset != NPos
      invariant str.Valid() && OverwriteState(m, s, rw, whole, str.Contents(), p, offset)
      decreases |s| - p
    {
      offset, p := OverwriteNext(str, m, rw, offset, s, whole, p);
    }
    OverwriteFinish(m, s, rw, whole, str.Contents(), p);
  }

  /** One iteration of OverwriteMatches: the match at `offset` overwritten
      and the next one found. */
  method OverwriteNext(str: UnitString, m: Matcher, rw: seq<int>, offset: int,
                       ghost s: seq<int>, ghost whole: seq<int>, ghost p: nat)
    returns (next: int, ghost nextP: nat)
    requires str.Valid() && OverwriteState(m, s, rw, whole, str.Contents(), p, offset)
    requires offset != NPos && |rw| == m.MatchSize()
    modifies str.buf
    ensures str.Valid() && OverwriteState(m, s, rw, whole, str.Contents(), nextP, next)
    ensures p < nextP <= |s|
  {
    var afterMatch := offset + |rw|;
    nextP := afterMatch;
    ghost var before := str.Contents();
    CopyUnits(str, offset, rw);
    OverwrittenSplice(before, str.Contents(), offset, rw);
    next := m.Find(str.Contents(), afterMatch);
    OverwriteAdvance(m, s, rw, whole, before, str.Contents(), p, offset, nextP, next);
  }

  /** A lengthening replace into a new buffer: the old contents are swapped
      out and the result is appended piece by piece. */
  /** The state of AppendIntoNewBuffer before the match at `matchPos`: `out`
      is built up to `pos` of `s`, and `left` matches remain, this one
      included. */
  ghost predicate NewBufferState(m: Matcher, s: seq<int>, rw: seq<int>, whole: seq<int>,
                                 out: seq<int>, pos: nat, matchPos: nat, left: nat)
  {
    m.MatchSize() > 0 && |s| < NPos && pos <= matchPos && matchPos + m.MatchSize() <= |s| &&
    m.MatchesAt(s, matchPos) &&
    out + s[pos..matchPos] + rw + ReplaceAllFrom(m, s, matchPos + m.MatchSize(), rw) == whole &&
    left == 1 + MatchCount(m, s, matchPos + m.MatchSize())
  }

  lemma NewBufferAdvance(m: Matcher, s: seq<int>, rw: seq<int>, whole: seq<int>, out: seq<int>,
                         built: seq<int>, pos: nat, matchPos: nat, left: nat, next: int)
    requires NewBufferState(m, s, rw, whole, out, pos, matchPos, left) && left > 1
    requires built == out + s[pos..matchPos] + rw && next == m.Find(s, matchPos + m.MatchSize())
    ensures next != NPos && 0 <= next
    ensures NewBufferState(m, s, rw, whole, built, matchPos + m.MatchSize(), next, left - 1)
  {
    var q := matchPos + m.MatchSize();
    NextMatchExists(m, s, q);
    MatchCountSkip(m, s, q);
    MatchCountAt(m, s, next);
    ReplaceAllFromStep(m, s, q, next, next + m.MatchSize(), rw);
    ShiftPiece(out, s[pos..matchPos], rw, built, ReplaceAllFrom(m, s, q, rw), s[q..next],
               ReplaceAllFrom(m, s, next + m.MatchSize(), rw), whole);
  }

  /** Some match remains while MatchCount is positive. */
  lemma NextMatchExists(m: Matcher, s: seq<int>, q: nat)
    requires m.MatchSize() > 0 && q <= |s| < NPos && MatchCount(m, s, q) > 0
    ensures m.Find(s, q) != NPos
  {
  }

  /** The piece before the next match moves from the unwritten part to the
      written part. */
  lemma ShiftPiece(out: seq<int>, piece: seq<int>, rw: seq<int>, built: seq<int>, rest: seq<int>,
                   nextPiece: seq<int>, nextRest: seq<int>, whole: seq<int>)
    requires out + piece + rw + rest == whole && rest == nextPiece + rw + nextRest
    requires built == out + piece + rw
    ensures built + nextPiece + rw + nextRest == whole
  {
  }

  lemma NewBufferFinish(m: Matcher, s: seq<int>, rw: seq<int>, whole: seq<int>, out: seq<int>,
                        built: seq<int>, pos: nat, matchPos: nat)
    requires NewBufferState(m, s, rw, whole, out, pos, matchPos, 1)
    requires built == out + s[pos..matchPos] + rw
    ensures built + s[matchPos + m.MatchSize()..] == whole
  {
    ReplaceAllFromEnd(m, s, matchPos + m.MatchSize(), rw);
  }

  /** Before the first match nothing is built yet. */
  lemma NewBufferStart(m: Matcher, s: seq<int>, rw: seq<int>, first: nat, numMatches: nat)
    requires m.MatchSize() > 0 && first + m.MatchSize() <= |s| < NPos && m.MatchesAt(s, first)
    requires numMatches == 1 + MatchCount(m, s, first + m.MatchSize())
    ensures NewBufferState(m, s, rw, s[..first] + rw + ReplaceAllFrom(m, s, first + m.MatchSize(), rw),
                           [], 0, first, numMatches)
  {
    assert [] + s[0..first] == s[..first];
  }

  /** A lengthening replace into a new buffer: the old contents are swapped
      out and the result is appended piece by piece. */
  method AppendIntoNewBuffer(str: UnitString, m: Matcher, rw: seq<int>, first: nat, numMatches: nat,
                             finalLength: nat, ghost s: seq<int>)
    requires str.Valid() && str.Contents() == s && |s| < NPos
    requires m.MatchSize() > 0 && first <= |s| && m.MatchesAt(s, first)
    requires numMatches == 1 + MatchCount(m, s, first + m.MatchSize())
    modifies str, str.buf
    ensures str.Valid()
    ensures str.Contents() == s[..first] + rw + ReplaceAllFrom(m, s, first + m.MatchSize(), rw)
  {
    var src := new UnitString.FromSeq([]);
    str.Swap(src);
    str.Reserve(finalLength);
    NewBufferStart(m, s, rw, first, numMatches);
    AppendMatches(str, src, m, rw, first, numMatches, s,
                  s[..first] + rw + ReplaceAllFrom(m, s, first + m.MatchSize(), rw));
  }

  /** The loop of AppendIntoNewBuffer: for each match, the units before it
      and `rw` appended; then the units after the last one. */
  method AppendMatches(str: UnitString, src: UnitString, m: Matcher, rw: seq<int>, first: nat,
                       numMatches: nat, ghost s: seq<int>, ghost whole: seq<int>)
    requires str.Valid() && src.Valid() && src.Contents() == s && str.buf != src.buf && str != src
    requires NewBufferState(m, s, rw, whole, str.Contents(), 0, first, numMatches)
    modifies str, str.buf
    ensures str.Valid() && str.Contents() == whole
  {
    var pos: nat := 0;
    var matchPos: nat := first;
    var left: nat := numMatches;
    while left > 0
      invariant str.Valid() && src.Valid() && src.Contents() == s && str.buf != src.buf && str != src
      invariant str.buf == old(str.buf) || fresh(str.buf)
      invariant left > 0 ==> NewBufferState(m, s, rw, whole, str.Contents(), pos, matchPos, left)
      invariant left == 0 ==> pos <= |s| && str.Contents() + s[pos..] == whole
      decreases left
    {
      pos, matchPos, left := NewBufferNext(str, src, m, rw, pos, matchPos, left, s, whole);
    }
    str.Append(src.Contents()[pos..]);
  }

  /** One iteration of AppendIntoNewBuffer: the units up to the match and
      `rw` appended; the next match found unless this was the last. */
  method NewBufferNext(str: UnitString, src: UnitString, m: Matcher, rw: seq<int>, pos: nat, matchPos: nat,
                       left: nat, ghost s: seq<int>, ghost whole: seq<int>)
    returns (pos2: nat, matchPos2: nat, left2: nat)
    requires str.Valid() && src.Valid() && src.Contents() == s && str.buf != src.buf && str != src
    requires NewBufferState(m, s, rw, whole, str.Contents(), pos, matchPos, left)
    modifies str, str.buf
    ensures str.Valid() && (str.buf == old(str.buf) || fresh(str.buf))
    ensures left2 == left - 1 && pos2 <= |s|
    ensures left2 > 0 ==> NewBufferState(m, s, rw, whole, str.Contents(), pos2, matchPos2, left2)
    ensures left2 == 0 ==> str.Contents() + s[pos2..] == whole
  {
    ghost var out := str.Contents();
    AppendPieces(str, src, pos, matchPos, rw);
    ghost var built := str.Contents();
    pos2 := matchPos + m.MatchSize();
    left2 := left - 1;
    matchPos2 := matchPos;
    if left2 == 0 {
      NewBufferFinish(m, s, rw, whole, out, built, pos, matchPos);
      return;
    }
    matchPos2 := m.Find(src.Contents(), pos2);
    NewBufferAdvance(m, s, rw, whole, out, built, pos, matchPos, left, matchPos2);
  }

  /** A slice of a prefix is the slice of the whole. */
  lemma PrefixSlice(a: seq<int>, n: nat, i: nat, j: nat)
    requires i <= j <= n <= |a|
    ensures a[..n][i..j] == a[i..j]
  {
  }

  /** `src[pos..matchPos]` and then `rw` appended to `str`. */
  method AppendPieces(str: UnitString, src: UnitString, pos: nat, matchPos: nat, rw: seq<int>)
    requires str.Valid() && src.Valid() && str.buf != src.buf && str != src && pos <= matchPos <= src.size
    modifies str, str.buf
    ensures str.Valid() && (str.buf == old(str.buf) || fresh(str.buf))
    ensures str.Contents() == old(str.Contents()) + src.Contents()[pos..matchPos] + rw
  {
    PrefixSlice(src.buf[..], src.size, pos, matchPos);
    str.Append(src.buf[pos..matchPos]);
    str.Append(rw);
  }

  /** A lengthening replace in place: the string grows to its final length
      by moving everything after the first match up by `expansion`. */
  method OpenGap(str: UnitString, first: nat, fl: nat, expansion: nat, ghost s: seq<int>)
    requires str.Valid() && str.Contents() == s && first + fl <= |s|
    requires str.Capacity() >= |s| + expansion
    modifies str, str.buf
    ensures str.Valid() && str.buf == old(str.buf)
    ensures AgreeBelow(str.Contents(), s, first)
    ensures ShiftedFrom(str.Contents(), first + fl + expansion, s, expansion)
  {
    var strLength := str.size;
    var shiftSrc := first + fl;
    var shiftDst := shiftSrc + expansion;
    if shiftDst > strLength {
      str.Resize(shiftDst);
    }
    ghost var padded := str.Contents();
    assert padded[..strLength] == s;
    str.Replace(shiftDst, strLength - shiftSrc, str.buf[shiftSrc..strLength]);
    assert str.Contents()[..first] == padded[..first];
    SlicesAgree(str.Contents(), s, first, shiftDst, expansion);
  }

  /** `c` agrees with `t` below `n`. */
  ghost predicate AgreeBelow(c: seq<int>, t: seq<int>, n: nat)
  {
    n <= |c| && n <= |t| && forall i {:trigger c[i]} :: 0 <= i < n ==> c[i] == t[i]
  }

  /** From `from` on, `c` holds the tail of `s`, shifted up by `shift`. */
  ghost predicate ShiftedFrom(c: seq<int>, from: nat, s: seq<int>, shift: nat)
  {
    shift <= from <= |c| == |s| + shift &&
    forall i {:trigger c[i]} :: from <= i < |c| ==> c[i] == s[i - shift]
  }

  lemma SlicesAgree(c: seq<int>, s: seq<int>, n: nat, from: nat, shift: nat)
    requires n <= |s| && shift <= from <= |c| == |s| + shift
    requires c[..n] == s[..n] && c[from..] == s[from - shift..]
    ensures AgreeBelow(c, s, n) && ShiftedFrom(c, from, s, shift)
  {
    forall i | 0 <= i < n
      ensures c[i] == s[i]
    {
      assert c[..n][i] == s[..n][i];
    }
    forall i | from <= i < |c|
      ensures c[i] == s[i - shift]
    {
      assert c[from..][i - from] == s[from - shift..][i - from];
    }
  }

  lemma ShiftedIsSuffix(c: seq<int>, from: nat, s: seq<int>, shift: nat, q: nat)
    requires ShiftedFrom(c, from, s, shift) && q + shift == from
    ensures c[from..] == s[q..]
  {
    assert forall k | 0 <= k < |c| - from :: c[from..][k] == c[from + k];
  }

  lemma AgreeBelowAll(c: seq<int>, t: seq<int>, n: nat)
    requires AgreeBelow(c, t, n) && |t| == n
    ensures c[..n] == t
  {
  }

  /** The state of CompactMatches before the match at `o` of `s`: `c` is
      final up to `write`, holds the input after that match from
      `read + MatchSize()` on, and when the string grows `read` is ahead of
      `write` by what the remaining matches add. */
  ghost predicate CompactState(m: Matcher, s: seq<int>, rw: seq<int>, whole: seq<int>, expansion: nat,
                               c: seq<int>, write: nat, read: nat, o: nat)
  {
    var fl := m.MatchSize();
    fl > 0 && |c| == |s| + expansion < NPos &&
    read == o + expansion && write <= read && o + fl <= |s| && m.MatchesAt(s, o) &&
    (|rw| < fl ==> expansion == 0) &&
    (|rw| > fl ==> read - write == Times(MatchCount(m, s, o), |rw| - fl)) &&
    AgreeBelow(c, whole, write) && whole[write..] == ReplaceAllFrom(m, s, o, rw) &&
    ShiftedFrom(c, read + fl, s, expansion)
  }

  lemma CompactStart(m: Matcher, s: seq<int>, rw: seq<int>, expansion: nat, c: seq<int>, first: nat)
    requires |s| + expansion < NPos
    requires m.MatchSize() > 0 && first <= |s| && m.MatchesAt(s, first)
    requires (|rw| < m.MatchSize() && expansion == 0) ||
             (|rw| > m.MatchSize() &&
              expansion == Times(1 + MatchCount(m, s, first + m.MatchSize()), |rw| - m.MatchSize()))
    requires AgreeBelow(c, s, first) && ShiftedFrom(c, first + m.MatchSize() + expansion, s, expansion)
    ensures CompactState(m, s, rw, s[..first] + rw + ReplaceAllFrom(m, s, first + m.MatchSize(), rw),
                         expansion, c, first, first + expansion, first)
  {
    var whole := s[..first] + rw + ReplaceAllFrom(m, s, first + m.MatchSize(), rw);
    StartWritten(m, s, rw, c, first, whole);
    if |rw| > m.MatchSize() {
      MatchCountAt(m, s, first);
    }
  }

  /** Before the first match the buffer already holds the result, and from
      it on the result is what ReplaceAllFrom puts there. */
  lemma StartWritten(m: Matcher, s: seq<int>, rw: seq<int>, c: seq<int>, first: nat, whole: seq<int>)
    requires m.MatchSize() > 0 && first <= |s| < NPos && m.MatchesAt(s, first)
    requires AgreeBelow(c, s, first)
    requires whole == s[..first] + rw + ReplaceAllFrom(m, s, first + m.MatchSize(), rw)
    ensures AgreeBelow(c, whole, first) && whole[first..] == ReplaceAllFrom(m, s, first, rw)
  {
    ReplaceAllFromAt(m, s, first, rw);
    assert whole[first..] == rw + ReplaceAllFrom(m, s, first + m.MatchSize(), rw);
    assert forall i | 0 <= i < first :: whole[i] == s[i];
  }

  /** The pointer arithmetic stays sound: `rw` written at `write` ends
      before the units not read yet. */
  lemma CompactRoom(m: Matcher, s: seq<int>, rw: seq<int>, whole: seq<int>, expansion: nat,
                    c: seq<int>, write: nat, read: nat, o: nat)
    requires CompactState(m, s, rw, whole, expansion, c, write, read, o)
    ensures write + |rw| <= read + m.MatchSize() <= |c|
  {
    if |rw| > m.MatchSize() {
      MatchCountAt(m, s, o);
      assert Times(MatchCount(m, s, o), |rw| - m.MatchSize()) >= |rw| - m.MatchSize();
    }
  }

  /** Where the next match is found in the buffer: as far from `r` as the
      next match of `s` is from `q`; npos, clamped to the length, when
      there is none. */
  lemma NextInBuffer(m: Matcher, c1: seq<int>, r: nat, s: seq<int>, q: nat, shift: nat, next: int)
    requires |c1| < NPos && ShiftedFrom(c1, r, s, shift) && q + shift == r
    requires next == m.Find(c1, r)
    ensures var nextInS := m.Find(s, q);
      var upTo := if nextInS == NPos then |s| else nextInS;
      q <= upTo <= |s| && r <= (if next < |c1| then next else |c1|) &&
      (if next < |c1| then next else |c1|) - r == upTo - q
  {
    ShiftedIsSuffix(c1, r, s, shift, q);
    FindSeesOnlySuffix(m, c1, r, s, q);
  }

  /** `rw` written at `write`, then `length` units moved down from `r`
      behind it: the written part grows by `rw` and those units, and
      what was not read yet stays. */
  lemma CompactPrefix(c: seq<int>, c1: seq<int>, c2: seq<int>, whole: seq<int>, s: seq<int>, rw: seq<int>,
                      rest: seq<int>, write: nat, r: nat, shift: nat, length: nat, q: nat, upTo: nat)
    requires AgreeBelow(c, whole, write) && write + |rw| <= r
    requires Overwritten(c, c1, write, rw) && ShiftedFrom(c, r, s, shift)
    requires Moved(c1, c2, write + |rw|, r, length)
    requires q + shift == r && q + length == upTo <= |s|
    requires write <= |whole| && whole[write..] == rw + s[q..upTo] + rest
    ensures AgreeBelow(c2, whole, write + |rw| + length)
    ensures whole[write + |rw| + length..] == rest
  {
    var w2 := write + |rw|;
    forall i | 0 <= i < w2 + length
      ensures c2[i] == whole[i]
    {
      if write <= i {
        assert whole[i] == whole[write..][i - write];
      }
    }
    assert whole[w2 + length..] == whole[write..][w2 + length - write..];
  }

  /** The units past the next match are still those of the input. */
  lemma ShiftedAfterStep(c: seq<int>, c1: seq<int>, c2: seq<int>, s: seq<int>, rw: seq<int>,
                         write: nat, r: nat, shift: nat, length: nat, from: nat)
    requires Overwritten(c, c1, write, rw) && ShiftedFrom(c, r, s, shift) && write + |rw| <= r
    requires Moved(c1, c2, write + |rw|, r, length) && r + length <= from <= |c|
    ensures ShiftedFrom(c2, from, s, shift)
  {
  }

  /** From the match at `o` to the next one, ReplaceAllFrom puts in `rw`,
      keeps the units between, and puts in `rw` again. */
  lemma MatchToMatch(m: Matcher, s: seq<int>, rw: seq<int>, o: nat, next: int)
    requires m.MatchSize() > 0 && o + m.MatchSize() <= |s| < NPos && m.MatchesAt(s, o)
    requires next == m.Find(s, o + m.MatchSize()) && next != NPos
    ensures ReplaceAllFrom(m, s, o, rw) == rw + s[o + m.MatchSize()..next] + ReplaceAllFrom(m, s, next, rw)
  {
    ReplaceAllFromAt(m, s, o, rw);
    UpToMatch(m, s, rw, o + m.MatchSize(), next);
    Splice(rw, s[o + m.MatchSize()..next], ReplaceAllFrom(m, s, next, rw),
           ReplaceAllFrom(m, s, o, rw), ReplaceAllFrom(m, s, o + m.MatchSize(), rw));
  }

  /** Up to the match Find reports, ReplaceAllFrom keeps the input. */
  lemma UpToMatch(m: Matcher, s: seq<int>, rw: seq<int>, p: nat, next: int)
    requires m.MatchSize() > 0 && p <= |s| < NPos
    requires next == m.Find(s, p) && next != NPos
    ensures ReplaceAllFrom(m, s, p, rw) == s[p..next] + ReplaceAllFrom(m, s, next, rw)
  {
    ReplaceAllFromStep(m, s, p, next, next + m.MatchSize(), rw);
    ReplaceAllFromAt(m, s, next, rw);
    RegroupAtMatch(s[p..next], rw, ReplaceAllFrom(m, s, next + m.MatchSize(), rw),
            ReplaceAllFrom(m, s, p, rw), ReplaceAllFrom(m, s, next, rw));
  }

  lemma RegroupAtMatch(piece: seq<int>, rw: seq<int>, tail: seq<int>, atP: seq<int>, atNext: seq<int>)
    requires atP == piece + rw + tail && atNext == rw + tail
    ensures atP == piece + atNext
  {
  }

  lemma Splice(rw: seq<int>, piece: seq<int>, atNext: seq<int>, atMatch: seq<int>, afterMatch: seq<int>)
    requires atMatch == rw + afterMatch && afterMatch == piece + atNext
    ensures atMatch == rw + piece + atNext
  {
  }

  /** MatchCount's side of a step: one match fewer, so `read` gains one
      expansion less on `write`. */
  lemma StepCount(m: Matcher, s: seq<int>, o: nat, next: int, x: nat)
    requires m.MatchSize() > 0 && o + m.MatchSize() <= |s| < NPos && m.MatchesAt(s, o)
    requires next == m.Find(s, o + m.MatchSize()) && next != NPos
    ensures Times(MatchCount(m, s, o), x) == x + Times(MatchCount(m, s, next), x)
  {
    MatchCountAt(m, s, o);
    MatchCountSkip(m, s, o + m.MatchSize());
    TimesSucc(MatchCount(m, s, o), MatchCount(m, s, next), x);
  }

  lemma TimesSucc(n: nat, n0: nat, x: nat)
    requires n == n0 + 1
    ensures Times(n, x) == x + Times(n0, x)
  {
  }

  /** The second pass: each match is overwritten with `rw` and the units up
      to the next match are moved down behind it. `read` runs `expansion`
      ahead of the position in `s` it stands for; `write` never passes it. */
  method CompactMatches(str: UnitString, m: Matcher, rw: seq<int>, first: nat, expansion: nat,
                        ghost s: seq<int>)
    requires str.Valid() && |s| + expansion < NPos
    requires m.MatchSize() > 0 && first <= |s| && m.MatchesAt(s, first)
    requires (|rw| < m.MatchSize() && expansion == 0) ||
             (|rw| > m.MatchSize() &&
              expansion == Times(1 + MatchCount(m, s, first + m.MatchSize()), |rw| - m.MatchSize()))
    requires AgreeBelow(str.Contents(), s, first)
    requires ShiftedFrom(str.Contents(), first + m.MatchSize() + expansion, s, expansion)
    modifies str, str.buf
    ensures str.Valid() && str.buf == old(str.buf)
    ensures str.Contents() == s[..first] + rw + ReplaceAllFrom(m, s, first + m.MatchSize(), rw)
  {
    ghost var whole := s[..first] + rw + ReplaceAllFrom(m, s, first + m.MatchSize(), rw);
    var strLength := str.size;
    var writeOffset: nat := first;
    var readOffset: nat := first + expansion;
    ghost var o: nat := first;
    CompactStart(m, s, rw, expansion, str.Contents(), first);
    while true
      invariant str.Valid() && str.buf == old(str.buf) && str.size == strLength
      invariant CompactState(m, s, rw, whole, expansion, str.Contents(), writeOffset, readOffset, o)
      decreases strLength - readOffset
    {
      writeOffset, readOffset, o := CompactNext(str, m, rw, writeOffset, readOffset, s, whole, expansion, o);
      if readOffset >= strLength {
        break;
      }
    }
    str.Resize(writeOffset);
  }

  /** Where a CompactMatches step leaves the buffer `c`: with every unit
      read, it begins with the whole result; otherwise CompactState holds
      at the next match. */
  ghost predicate Compacted(m: Matcher, s: seq<int>, rw: seq<int>, whole: seq<int>, expansion: nat,
                            c: seq<int>, write: nat, read: nat, o: nat)
  {
    (read >= |c| ==> write <= |c| && c[..write] == whole) &&
    (read < |c| ==> CompactState(m, s, rw, whole, expansion, c, write, read, o))
  }

  /** One iteration of CompactMatches' loop. */
  method CompactNext(str: UnitString, m: Matcher, rw: seq<int>, write: nat, read: nat,
                     ghost s: seq<int>, ghost whole: seq<int>, ghost expansion: nat, ghost o: nat)
    returns (write2: nat, read2: nat, ghost o2: nat)
    requires str.Valid() && CompactState(m, s, rw, whole, expansion, str.Contents(), write, read, o)
    modifies str.buf
    ensures str.Valid() && str.size == old(str.size) && read < read2
    ensures Compacted(m, s, rw, whole, expansion, str.Contents(), write2, read2, o2)
  {
    var strLength := str.size;
    ghost var c := str.Contents();
    CompactRoom(m, s, rw, whole, expansion, c, write, read, o);
    var write1 := WriteReplacement(str, write, rw);
    var readAt := read + m.MatchSize();
    ghost var c1 := str.Contents();
    var next := m.Find(str.Contents(), readAt);
    var matchPos := if next < strLength then next else strLength;
    var length := matchPos - readAt;
    CompactLength(m, s, rw, whole, expansion, c, write, read, o, c1, readAt, next, length);
    write2, read2 := MoveRun(str, write1, readAt, length);
    if m.Find(s, o + m.MatchSize()) == NPos {
      o2 := |s|;
    } else {
      o2 := m.Find(s, o + m.MatchSize());
    }
    CompactAdvance(m, s, rw, whole, expansion, c, write, read, o, c1, readAt, next, length, str.Contents(),
                   write1, write2, read2, o2);
  }

  /** `rw` written over the match at `write`, when it is not empty; the
      write position moves past it. */
  method WriteReplacement(str: UnitString, write: nat, rw: seq<int>) returns (write2: nat)
    requires str.Valid() && write + |rw| <= str.size
    modifies str.buf
    ensures str.Valid() && write2 == write + |rw|
    ensures Overwritten(old(str.Contents()), str.Contents(), write, rw)
  {
    if |rw| > 0 {
      CopyUnits(str, write, rw);
    } else {
      NothingWritten(str.Contents(), write);
    }
    write2 := write + |rw|;
  }

  /** The `length` units at `read` moved down to `write`, when there are
      any; both positions move past them. */
  method MoveRun(str: UnitString, write: nat, read: nat, length: int) returns (write2: nat, read2: nat)
    requires str.Valid() && 0 <= length && write + length <= str.size && read + length <= str.size
    modifies str.buf
    ensures str.Valid() && write2 == write + length && read2 == read + length
    ensures Moved(old(str.Contents()), str.Contents(), write, read, length)
  {
    write2, read2 := write, read;
    if length > 0 {
      MoveUnits(str, write, read, length);
      write2 := write2 + length;
      read2 := read2 + length;
    } else {
      NothingMoved(str.Contents(), write, read);
    }
  }

  /** Where one CompactMatches step stops: `rw` fits before the units not
      read yet, and the units moved reach the next match of `s`, or the
      end when there is none. */
  lemma CompactLength(m: Matcher, s: seq<int>, rw: seq<int>, whole: seq<int>, expansion: nat,
                      c: seq<int>, write: nat, read: nat, o: nat, c1: seq<int>, readAt: nat, next: int,
                      length: int)
    requires CompactState(m, s, rw, whole, expansion, c, write, read, o)
    requires Overwritten(c, c1, write, rw)
    requires readAt == read + m.MatchSize() && next == m.Find(c1, readAt)
    requires length == (if next < |c1| then next else |c1|) - readAt
    ensures write + |rw| <= read + m.MatchSize() && 0 <= length
    ensures m.Find(s, o + m.MatchSize()) == NPos ==>
              o + m.MatchSize() + length == |s| && read + m.MatchSize() + length == |c|
    ensures m.Find(s, o + m.MatchSize()) != NPos ==>
              o + m.MatchSize() + length == m.Find(s, o + m.MatchSize()) && read + m.MatchSize() + length < |c|
  {
    CompactRoom(m, s, rw, whole, expansion, c, write, read, o);
    NextInBuffer(m, c1, read + m.MatchSize(), s, o + m.MatchSize(), expansion, next);
  }

  /** One CompactMatches step on values, in the terms CompactNext computes
      it: `rw` written at `write` (up to `write1`), then the units from
      `readAt` up to the match found in the buffer moved behind it. */
  lemma CompactAdvance(m: Matcher, s: seq<int>, rw: seq<int>, whole: seq<int>, expansion: nat,
                       c: seq<int>, write: nat, read: nat, o: nat, c1: seq<int>, readAt: nat, next: int,
                       length: int, c2: seq<int>, write1: nat, write2: nat, read2: nat, o2: nat)
    requires CompactState(m, s, rw, whole, expansion, c, write, read, o)
    requires Overwritten(c, c1, write, rw) && write1 == write + |rw|
    requires readAt == read + m.MatchSize() && next == m.Find(c1, readAt)
    requires length == (if next < |c1| then next else |c1|) - readAt
    requires 0 <= length && Moved(c1, c2, write1, readAt, length)
    requires write2 == write1 + length && read2 == readAt + length
    requires o2 == if m.Find(s, o + m.MatchSize()) == NPos then |s| else m.Find(s, o + m.MatchSize())
    ensures read < read2 && |c2| == |c|
    ensures Compacted(m, s, rw, whole, expansion, c2, write2, read2, o2)
  {
    CompactLength(m, s, rw, whole, expansion, c, write, read, o, c1, readAt, next, length);
    CompactFinish(m, s, rw, whole, expansion, c, write, read, o, c1, length, c2, write2, read2, o2);
  }

  /** One CompactMatches step on values, once CompactLength has placed it:
      past the last match the buffer holds the whole result, otherwise the
      state moves on to the next match. */
  lemma CompactFinish(m: Matcher, s: seq<int>, rw: seq<int>, whole: seq<int>, expansion: nat,
                      c: seq<int>, write: nat, read: nat, o: nat, c1: seq<int>, length: nat, c2: seq<int>,
                      write2: nat, read2: nat, o2: nat)
    requires CompactState(m, s, rw, whole, expansion, c, write, read, o)
    requires Overwritten(c, c1, write, rw) && Moved(c1, c2, write + |rw|, read + m.MatchSize(), length)
    requires write + |rw| <= read + m.MatchSize()
    requires m.Find(s, o + m.MatchSize()) == NPos ==>
               o + m.MatchSize() + length == |s| && read + m.MatchSize() + length == |c|
    requires m.Find(s, o + m.MatchSize()) != NPos ==>
               o + m.MatchSize() + length == m.Find(s, o + m.MatchSize()) && read + m.MatchSize() + length < |c|
    requires write2 == write + |rw| + length && read2 == read + m.MatchSize() + length
    requires o2 == if m.Find(s, o + m.MatchSize()) == NPos then |s| else m.Find(s, o + m.MatchSize())
    ensures read < read2 && |c2| == |c|
    ensures Compacted(m, s, rw, whole, expansion, c2, write2, read2, o2)
  {
    if m.Find(s, o + m.MatchSize()) == NPos {
      CompactLast(m, s, rw, whole, expansion, c, write, read, o, c1, length, c2);
    } else {
      CompactStep(m, s, rw, whole, expansion, c, write, read, o, c1, length, c2, m.Find(s, o + m.MatchSize()));
    }
  }

  /** Past the last match: the buffer holds the whole result. */
  lemma CompactLast(m: Matcher, s: seq<int>, rw: seq<int>, whole: seq<int>, expansion: nat,
                    c: seq<int>, write: nat, read: nat, o: nat, c1: seq<int>, length: nat, c2: seq<int>)
    requires CompactState(m, s, rw, whole, expansion, c, write, read, o)
    requires write + |rw| <= read + m.MatchSize()
    requires m.Find(s, o + m.MatchSize()) == NPos && o + m.MatchSize() + length == |s|
    requires Overwritten(c, c1, write, rw) && Moved(c1, c2, write + |rw|, read + m.MatchSize(), length)
    ensures c2[..write + |rw| + length] == whole
  {
    MatchToEnd(m, s, rw, o);
    CompactPrefix(c, c1, c2, whole, s, rw, [], write, read + m.MatchSize(), expansion, length,
                  o + m.MatchSize(), |s|);
    AgreeBelowAll(c2, whole, write + |rw| + length);
  }

  /** From the last match on, ReplaceAllFrom puts in `rw` and keeps the
      rest of the input. */
  lemma MatchToEnd(m: Matcher, s: seq<int>, rw: seq<int>, o: nat)
    requires m.MatchSize() > 0 && o + m.MatchSize() <= |s| < NPos && m.MatchesAt(s, o)
    requires m.Find(s, o + m.MatchSize()) == NPos
    ensures ReplaceAllFrom(m, s, o, rw) == rw + s[o + m.MatchSize()..|s|] + []
  {
    ReplaceAllFromAt(m, s, o, rw);
    ReplaceAllFromEnd(m, s, o + m.MatchSize(), rw);
    assert s[o + m.MatchSize()..] == s[o + m.MatchSize()..|s|] + [];
  }

  /** Up to the next match: the state moves on to it. */
  lemma CompactStep(m: Matcher, s: seq<int>, rw: seq<int>, whole: seq<int>, expansion: nat,
                    c: seq<int>, write: nat, read: nat, o: nat, c1: seq<int>, length: nat, c2: seq<int>,
                    next: nat)
    requires CompactState(m, s, rw, whole, expansion, c, write, read, o)
    requires write + |rw| <= read + m.MatchSize()
    requires next == m.Find(s, o + m.MatchSize()) && next != NPos && o + m.MatchSize() + length == next
    requires Overwritten(c, c1, write, rw) && Moved(c1, c2, write + |rw|, read + m.MatchSize(), length)
    ensures CompactState(m, s, rw, whole, expansion, c2, write + |rw| + length, read + m.MatchSize() + length,
                         next)
  {
    StepWritten(m, s, rw, whole, expansion, c, write, read, o, c1, length, c2, next);
    StepPending(m, s, rw, whole, expansion, c, write, read, o, c1, length, c2, next);
    if |rw| > m.MatchSize() {
      StepCounted(m, s, rw, whole, expansion, c, write, read, o, c1, length, c2, next);
    }
  }

  /** The written part grows by `rw` and the units up to the next match,
      and what ReplaceAllFrom still has to produce starts there. */
  lemma StepWritten(m: Matcher, s: seq<int>, rw: seq<int>, whole: seq<int>, expansion: nat,
                    c: seq<int>, write: nat, read: nat, o: nat, c1: seq<int>, length: nat, c2: seq<int>,
                    next: nat)
    requires CompactState(m, s, rw, whole, expansion, c, write, read, o)
    requires write + |rw| <= read + m.MatchSize()
    requires next == m.Find(s, o + m.MatchSize()) && next != NPos && o + m.MatchSize() + length == next
    requires Overwritten(c, c1, write, rw) && Moved(c1, c2, write + |rw|, read + m.MatchSize(), length)
    ensures AgreeBelow(c2, whole, write + |rw| + length)
    ensures whole[write + |rw| + length..] == ReplaceAllFrom(m, s, next, rw)
  {
    MatchToMatch(m, s, rw, o, next);
    CompactPrefix(c, c1, c2, whole, s, rw, ReplaceAllFrom(m, s, next, rw), write, read + m.MatchSize(),
                  expansion, length, o + m.MatchSize(), next);
  }

  /** The units past the next match are still unread input. */
  lemma StepPending(m: Matcher, s: seq<int>, rw: seq<int>, whole: seq<int>, expansion: nat,
                    c: seq<int>, write: nat, read: nat, o: nat, c1: seq<int>, length: nat, c2: seq<int>,
                    next: nat)
    requires CompactState(m, s, rw, whole, expansion, c, write, read, o)
    requires write + |rw| <= read + m.MatchSize()
    requires next == m.Find(s, o + m.MatchSize()) && next != NPos && o + m.MatchSize() + length == next
    requires Overwritten(c, c1, write, rw) && Moved(c1, c2, write + |rw|, read + m.MatchSize(), length)
    ensures ShiftedFrom(c2, read + m.MatchSize() + length + m.MatchSize(), s, expansion)
  {
    ShiftedAfterStep(c, c1, c2, s, rw, write, read + m.MatchSize(), expansion, length,
                     read + m.MatchSize() + length + m.MatchSize());
  }

  /** When lengthening, the gap left shrinks by one expansion per match. */
  lemma StepCounted(m: Matcher, s: seq<int>, rw: seq<int>, whole: seq<int>, expansion: nat,
                    c: seq<int>, write: nat, read: nat, o: nat, c1: seq<int>, length: nat, c2: seq<int>,
                    next: nat)
    requires CompactState(m, s, rw, whole, expansion, c, write, read, o)
    requires write + |rw| <= read + m.MatchSize()
    requires next == m.Find(s, o + m.MatchSize()) && next != NPos && o + m.MatchSize() + length == next
    requires |rw| > m.MatchSize()
    ensures read + m.MatchSize() + length - (write + |rw| + length) ==
            Times(MatchCount(m, s, next), |rw| - m.MatchSize())
  {
    StepCount(m, s, o, next, |rw| - m.MatchSize());
  }

  /** DoReplaceMatchesAfterOffset: replaces the first match at or after
      `initialOffset`, or that and every later one, and reports whether
      there was one. A string whose capacity holds the result is rewritten in
      its own buffer. */
  method DoReplaceMatchesAfterOffset(str: UnitString, initialOffset: nat, m: Matcher, rw: seq<int>,
                                     rt: ReplaceType) returns (found: bool)
    requires str.Valid() && |str.Contents()| < NPos
    requires |Replaced(m, str.Contents(), initialOffset, rw, rt)| < NPos
    modifies str, str.buf
    ensures str.Valid()
    ensures found == HasMatchAfter(m, old(str.Contents()), initialOffset)
    ensures str.Contents() == Replaced(m, old(str.Contents()), initialOffset, rw, rt)
    ensures old(str.Capacity()) >= |str.Contents()| ==> str.buf == old(str.buf)
  {
    ghost var s := str.Contents();
    var findLength := m.MatchSize();
    if findLength == 0 {
      return false;
    }
    var firstMatch := m.Find(str.Contents(), initialOffset);
    if firstMatch == NPos {
      return false;
    }
    ReplaceFromFirstMatch(str, m, rw, rt, firstMatch, s, initialOffset);
    return true;
  }

  /** The part of DoReplaceMatchesAfterOffset after the first match is found:
      a single replacement, or every match replaced. */
  method ReplaceFromFirstMatch(str: UnitString, m: Matcher, rw: seq<int>, rt: ReplaceType, first: nat,
                               ghost s: seq<int>, ghost initialOffset: nat)
    requires str.Valid() && str.Contents() == s && |s| < NPos
    requires HasMatchAfter(m, s, initialOffset) && first == m.Find(s, initialOffset)
    requires |Replaced(m, s, initialOffset, rw, rt)| < NPos
    modifies str, str.buf
    ensures str.Valid() && str.Contents() == Replaced(m, s, initialOffset, rw, rt)
    ensures old(str.Capacity()) >= |str.Contents()| ==> str.buf == old(str.buf)
  {
    if rt == ReplaceFirst {
      ReplaceFirstMatch(str, m, rw, first, s, initialOffset);
    } else {
      ReplaceEveryMatch(str, m, rw, first, s, initialOffset);
    }
  }

  /** ReplaceFirst: the match at `first` replaced in place. */
  method ReplaceFirstMatch(str: UnitString, m: Matcher, rw: seq<int>, first: nat,
                           ghost s: seq<int>, ghost initialOffset: nat)
    requires str.Valid() && str.Contents() == s && |s| < NPos
    requires HasMatchAfter(m, s, initialOffset) && first == m.Find(s, initialOffset)
    modifies str, str.buf
    ensures str.Valid() && str.Contents() == Replaced(m, s, initialOffset, rw, ReplaceFirst)
    ensures old(str.Capacity()) >= |str.Contents()| ==> str.buf == old(str.buf)
  {
    ReplacedFirst(m, s, initialOffset, rw);
    str.Replace(first, m.MatchSize(), rw);
  }

  /** ReplaceAll: an overwrite when the lengths agree, a resize otherwise. */
  method ReplaceEveryMatch(str: UnitString, m: Matcher, rw: seq<int>, first: nat,
                           ghost s: seq<int>, ghost initialOffset: nat)
    requires str.Valid() && str.Contents() == s && |s| < NPos
    requires HasMatchAfter(m, s, initialOffset) && first == m.Find(s, initialOffset)
    requires |Replaced(m, s, initialOffset, rw, ReplaceAll)| < NPos
    modifies str, str.buf
    ensures str.Valid() && str.Contents() == Replaced(m, s, initialOffset, rw, ReplaceAll)
    ensures old(str.Capacity()) >= |str.Contents()| ==> str.buf == old(str.buf)
  {
    var findLength := m.MatchSize();
    var replaceLength := |rw|;
    ReplacedAll(m, s, initialOffset, rw);
    if findLength == replaceLength {
      OverwriteMatches(str, m, rw, first, s, initialOffset);
    } else {
      ResizeMatches(str, m, rw, first, s);
    }
  }

  /** The ReplaceFirst result once the first match is known. */
  lemma ReplacedFirst(m: Matcher, s: seq<int>, initialOffset: nat, rw: seq<int>)
    requires |s| < NPos && HasMatchAfter(m, s, initialOffset)
    ensures m.Find(s, initialOffset) + m.MatchSize() <= |s|
    ensures Replaced(m, s, initialOffset, rw, ReplaceFirst) ==
            s[..m.Find(s, initialOffset)] + rw + s[m.Find(s, initialOffset) + m.MatchSize()..]
  {
  }

  /** The ReplaceAll result once the first match is known. */
  lemma ReplacedAll(m: Matcher, s: seq<int>, initialOffset: nat, rw: seq<int>)
    requires |s| < NPos && HasMatchAfter(m, s, initialOffset)
    ensures Replaced(m, s, initialOffset, rw, ReplaceAll) ==
            s[..m.Find(s, initialOffset)] + rw +
            ReplaceAllFrom(m, s, m.Find(s, initialOffset) + m.MatchSize(), rw)
  {
  }

  /** Every match from `first` on replaced by an `rw` of another length:
      a shorter one is compacted in place, a longer one first opens the gap
      it needs, or goes to a new buffer when the capacity is too small. */
  method ResizeMatches(str: UnitString, m: Matcher, rw: seq<int>, first: nat, ghost s: seq<int>)
    requires str.Valid() && str.Contents() == s && |s| < NPos
    requires m.MatchSize() > 0 && |rw| != m.MatchSize()
    requires first + m.MatchSize() <= |s| && m.MatchesAt(s, first)
    requires |s[..first] + rw + ReplaceAllFrom(m, s, first + m.MatchSize(), rw)| < NPos
    modifies str, str.buf
    ensures str.Valid()
    ensures str.Contents() == s[..first] + rw + ReplaceAllFrom(m, s, first + m.MatchSize(), rw)
    ensures old(str.Capacity()) >= |str.Contents()| ==> str.buf == old(str.buf)
  {
    if |rw| > m.MatchSize() {
      GrowMatches(str, m, rw, first, s);
    } else {
      UnshiftedAgrees(s, first, first + m.MatchSize());
      CompactMatches(str, m, rw, first, 0, s);
    }
  }

  /** The input agrees with itself below `first` and, unshifted, from `from`. */
  lemma UnshiftedAgrees(s: seq<int>, first: nat, from: nat)
    requires first <= from <= |s|
    ensures AgreeBelow(s, s, first) && ShiftedFrom(s, from, s, 0)
  {
  }

  /** The lengthening path: count the matches to learn the final length,
      then open the gap and compact, or build the result in a new buffer. */
  method GrowMatches(str: UnitString, m: Matcher, rw: seq<int>, first: nat, ghost s: seq<int>)
    requires str.Valid() && str.Contents() == s && |s| < NPos
    requires m.MatchSize() > 0 && |rw| > m.MatchSize()
    requires first + m.MatchSize() <= |s| && m.MatchesAt(s, first)
    requires |s[..first] + rw + ReplaceAllFrom(m, s, first + m.MatchSize(), rw)| < NPos
    modifies str, str.buf
    ensures str.Valid()
    ensures str.Contents() == s[..first] + rw + ReplaceAllFrom(m, s, first + m.MatchSize(), rw)
    ensures old(str.Capacity()) >= |str.Contents()| ==> str.buf == old(str.buf)
  {
    var numMatches, expansion := CountMatches(m, str.Contents(), first, |rw| - m.MatchSize());
    var finalLength := str.size + expansion;
    GrownLength(m, s, rw, first, numMatches, expansion);
    if str.Capacity() < finalLength {
      AppendIntoNewBuffer(str, m, rw, first, numMatches, finalLength, s);
      return;
    }
    OpenGap(str, first, m.MatchSize(), expansion, s);
    CompactMatches(str, m, rw, first, expansion, s);
  }

  /** Lengthening: the result is longer by the expansion of every match. */
  lemma GrownLength(m: Matcher, s: seq<int>, rw: seq<int>, first: nat, numMatches: nat, expansion: nat)
    requires m.MatchSize() > 0 && first + m.MatchSize() <= |s| < NPos && m.MatchesAt(s, first)
    requires |rw| > m.MatchSize()
    requires numMatches == 1 + MatchCount(m, s, first + m.MatchSize())
    requires expansion == Times(numMatches, |rw| - m.MatchSize())
    ensures |s[..first] + rw + ReplaceAllFrom(m, s, first + m.MatchSize(), rw)| == |s| + expansion
  {
    var q := first + m.MatchSize();
    var c, tail := TailLength(m, s, q, rw);
    TimesAdd(c, m.MatchSize(), |rw| - m.MatchSize());
    GrownArithmetic(|s[..first] + rw + ReplaceAllFrom(m, s, q, rw)|, first, |rw|, tail,
                    |s|, m.MatchSize(), c, expansion);
  }

  /** ReplaceAllFromLength, handing back the match count and the length of
      the rewritten tail. */
  lemma TailLength(m: Matcher, s: seq<int>, q: nat, rw: seq<int>) returns (c: nat, tail: nat)
    requires m.MatchSize() > 0 && q <= |s| < NPos
    ensures c == MatchCount(m, s, q) && tail == |ReplaceAllFrom(m, s, q, rw)|
    ensures tail + Times(c, m.MatchSize()) == |s| - q + Times(c, |rw|)
  {
    ReplaceAllFromLength(m, s, q, rw);
    c, tail := MatchCount(m, s, q), |ReplaceAllFrom(m, s, q, rw)|;
  }

  /** The length bookkeeping of GrownLength on plain numbers. */
  lemma GrownArithmetic(len: nat, first: nat, rl: nat, tail: nat, size: nat, fl: nat, c: nat, expansion: nat)
    requires fl < rl && first + fl <= size && len == first + rl + tail
    requires tail + Times(c, fl) == size - (first + fl) + Times(c, rl)
    requires Times(c, rl) == Times(c, fl) + Times(c, rl - fl)
    requires expansion == Times(1 + c, rl - fl)
    ensures len == size + expansion
  {
  }

  lemma {:induction false} TimesAdd(n: nat, a: nat, b: nat)
    ensures Times(n, a + b) == Times(n, a) + Times(n, b)
  {
    if n > 0 {
      TimesAdd(n - 1, a, b);
    }
  }

  /** ReplaceChars: `output` becomes `input` with each unit of
      `findAnyOfThese` replaced by `rw`; the result says whether there was
      such a unit. An `output` that already holds `input` (the two are the
      same string) is not copied first. */
  method ReplaceChars(input: seq<int>, findAnyOfThese: seq<int>, rw: seq<int>, output: UnitString)
    returns (r: bool)
    requires output.Valid() && |input| * (|rw| + 1) < NPos
    modifies output, output.buf
    ensures output.Valid()
    ensures output.Contents() == ReplaceEach(input, findAnyOfThese, rw)
    ensures r <==> exists i :: 0 <= i < |input| && input[i] in findAnyOfThese
    ensures input == old(output.Contents()) && old(output.Capacity()) >= |output.Contents()| ==>
              output.buf == old(output.buf)
  {
    if input != output.Contents() {
      output.Assign(input);
    }
    ReplacedFits(CharacterMatcher(findAnyOfThese), input, 0, rw, ReplaceAll);
    r := DoReplaceMatchesAfterOffset(output, 0, CharacterMatcher(findAnyOfThese), rw, ReplaceAll);
    ReplacedCharacters(findAnyOfThese, input, rw);
    CharacterMatchExists(findAnyOfThese, input);
  }
}
