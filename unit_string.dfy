// The owning strings (std::basic_string) the string layer writes into: a
// buffer of `Capacity()` units of which the first `size` are the contents.
// Only the members the modelled code calls are here; a growth never moves
// the buffer unless the capacity is too small, as the standard requires.

module UnitStrings {
  class UnitString {
    var buf: array<int>
    var size: nat

    ghost predicate Valid()
      reads this
    {
      size <= buf.Length
    }

    /** The units of the string, data()[0 .. size()). */
    function Contents(): seq<int>
      reads this, buf
      requires Valid()
    {
      buf[..size]
    }

    /** capacity(): how many units fit before the buffer must move. */
    function Capacity(): nat
      reads this
    {
      buf.Length
    }

    constructor FromSeq(s: seq<int>)
      ensures Valid() && fresh(buf)
      ensures Contents() == s && Capacity() == |s|
    {
      buf := new int[|s|](i requires 0 <= i < |s| => s[i]);
      size := |s|;
    }

    /** reserve(n): afterwards at least `n` units fit; the contents stay. */
    method Reserve(n: nat)
      requires Valid()
      modifies this
      ensures Valid() && size == old(size)
      ensures Contents() == old(Contents())
      ensures Capacity() >= n && Capacity() >= old(Capacity())
      ensures old(Capacity()) >= n ==> buf == old(buf)
      ensures buf == old(buf) || fresh(buf)
    {
      if n > buf.Length {
        var b := new int[n];
        forall i | 0 <= i < size {
          b[i] := buf[i];
        }
        buf := b;
      }
    }

    /** clear(): no units; the buffer is kept. */
    method Clear()
      requires Valid()
      modifies this
      ensures Valid() && buf == old(buf)
      ensures Contents() == []
    {
      size := 0;
    }

    /** resize(n): cut to `n` units, or pad with zero units up to `n`. */
    method Resize(n: nat)
      requires Valid()
      modifies this, buf
      ensures Valid()
      ensures Contents() ==
        if n <= old(size) then old(Contents())[..n] else old(Contents()) + Zeros(n - old(size))
      ensures old(Capacity()) >= n ==> buf == old(buf)
      ensures buf == old(buf) || fresh(buf)
    {
      Reserve(n);
      if n > size {
        forall i | size <= i < n {
          buf[i] := 0;
        }
      }
      size := n;
    }

    /** push_back(c). */
    method PushBack(c: int)
      requires Valid()
      modifies this, buf
      ensures Valid()
      ensures Contents() == old(Contents()) + [c]
      ensures old(Capacity()) > old(size) ==> buf == old(buf)
      ensures buf == old(buf) || fresh(buf)
    {
      Append([c]);
    }

    /** append(s). */
    method Append(s: seq<int>)
      requires Valid()
      modifies this, buf
      ensures Valid()
      ensures Contents() == old(Contents()) + s
      ensures old(Capacity()) >= old(size) + |s| ==> buf == old(buf)
      ensures buf == old(buf) || fresh(buf)
    {
      if size + |s| > buf.Length {
        Reserve(if size + |s| > 2 * buf.Length then size + |s| else 2 * buf.Length);
      }
      forall i | 0 <= i < |s| {
        buf[size + i] := s[i];
      }
      size := size + |s|;
    }

    /** assign(s): the contents become `s`. */
    method Assign(s: seq<int>)
      requires Valid()
      modifies this, buf
      ensures Valid()
      ensures Contents() == s
      ensures old(Capacity()) >= |s| ==> buf == old(buf)
      ensures buf == old(buf) || fresh(buf)
    {
      size := 0;
      Append(s);
    }

    /** replace(pos, count, s): the units [pos, pos + count) become `s`; a
        count reaching past the end stops at the end. */
    method Replace(pos: nat, count: nat, s: seq<int>)
      requires Valid() && pos <= size
      modifies this, buf
      ensures Valid()
      ensures var n := if count < old(size) - pos then count else old(size) - pos;
              Contents() == old(Contents())[..pos] + s + old(Contents())[pos + n..]
      ensures old(Capacity()) >= old(size) - (if count < old(size) - pos then count else old(size) - pos) + |s| ==>
                buf == old(buf)
      ensures buf == old(buf) || fresh(buf)
    {
      var n := if count < size - pos then count else size - pos;
      var tail := buf[pos + n..size];
      size := pos;
      Append(s + tail);
    }

    /** swap(other): the two strings exchange their buffers. */
    method Swap(other: UnitString)
      requires Valid() && other.Valid() && other != this
      modifies this, other
      ensures Valid() && other.Valid()
      ensures buf == old(other.buf) && size == old(other.size)
      ensures other.buf == old(buf) && other.size == old(size)
    {
      buf, other.buf := other.buf, buf;
      size, other.size := other.size, size;
    }
  }

  /** `n` zero units, what resize pads with (CharT()). */
  function Zeros(n: nat): (r: seq<int>)
    ensures |r| == n && forall i :: 0 <= i < n ==> r[i] == 0
  {
    seq(n, i => 0)
  }
}
