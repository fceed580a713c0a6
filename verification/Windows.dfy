/** The decompressor's output: a linear buffer, or a ring whose size is a power of two.  Whatever the
    way a match is copied, the effect is that of copying byte by byte. */
module Windows {
  import opened Bits
  import opened Format

  class Window {
    const out: array<byte>
    /** The buffer is a ring: TINFL_FLAG_USING_NON_WRAPPING_OUTPUT_BUF is not set. */
    const wraps: bool
    var pos: nat
    var end: nat
    /** Everything written since the start of the stream. */
    ghost var hist: seq<byte>

    constructor (buffer: array<byte>, ring: bool)
      requires ring ==> buffer.Length > 0
      ensures Valid() && out == buffer && wraps == ring && pos == 0 && hist == [] && end == if ring then buffer.Length else 0
    {
      out, wraps, pos := buffer, ring, 0;
      end := if ring then buffer.Length else 0;
      hist := [];
    }

    /** Where the byte written d bytes ago is. */
    function Back(d: nat): int
      reads this
    {
      if d <= pos then pos - d else pos - d + out.Length
    }

    /** How much was written before the front of the buffer was last written. */
    ghost function Before(): int
      reads `pos, `hist
    {
      |hist| - pos
    }

    /** How far back a match may reach. */
    ghost predicate Kept(d: nat)
      reads `hist
    {
      1 <= d <= |hist| && (wraps ==> d <= out.Length)
    }

    ghost predicate Valid()
      reads this, out
    {
      && pos <= end <= out.Length
      && (wraps ==> end == out.Length > 0)
      && pos <= |hist| && (!wraps ==> pos == |hist|)
      && forall d: nat :: Kept(d) ==> out[Back(d)] == hist[|hist| - d]
    }

    lemma Bounds()
      requires Valid()
      ensures pos <= end <= out.Length
    {
    }

    /** The last n bytes written are the n before pos. */
    lemma Latest(n: nat)
      requires Valid() && n <= pos
      ensures n <= |hist| && out[pos - n..pos] == hist[|hist| - n..]
    {
      forall i | pos - n <= i < pos
        ensures out[i] == hist[|hist| - (pos - i)]
      {
        assert Kept(pos - i);
      }
    }

    method Put(b: byte)
      requires Valid() && pos < end
      modifies this`pos, this`hist, out
      ensures Valid() && pos == old(pos) + 1 && hist == old(hist) + [b]
    {
      ghost var oldPos, oldHist := pos, hist;
      out[pos] := b;
      pos := pos + 1;
      hist := hist + [b];
      forall d: nat | Kept(d)
        ensures out[Back(d)] == hist[|hist| - d]
      {
        if d > 1 {
          assert old(Kept(d - 1));
          assert Back(d) == old(Back(d - 1)) != oldPos;
          assert hist[|hist| - d] == oldHist[|oldHist| - (d - 1)];
        }
      }
    }

    method PutAll(s: seq<byte>)
      requires Valid() && pos + |s| <= end
      modifies this`pos, this`hist, out
      ensures Valid() && pos == old(pos) + |s| && hist == old(hist) + s
    {
      for i := 0 to |s|
        invariant Valid() && pos == old(pos) + i && hist == old(hist) + s[..i]
      {
        Put(s[i]);
      }
    }

    /** Starts a call: the caller gives more room behind what was written, or, in a ring, has taken
        what was written and starts over at the front when the ring is full. */
    method Resume(limit: nat)
      requires Valid() && pos <= limit <= out.Length
      modifies this`pos, this`end
      ensures Valid() && hist == old(hist)
      ensures end == if wraps then out.Length else limit
      ensures pos == if wraps && old(pos) == out.Length then 0 else old(pos)
    {
      if !wraps {
        end := limit;
      } else if pos == out.Length {
        pos := 0;
      }
      forall d: nat | Kept(d)
        ensures out[Back(d)] == hist[|hist| - d]
      {
        assert old(Kept(d)) && Back(d) == old(Back(d));
      }
    }

    /** Four bytes read before any of them is written. */
    method CopyWord(src: nat, ghost dist: nat)
      requires Valid() && Kept(dist) && dist >= 4 && src == Back(dist)
      requires pos + 4 <= end && src + 4 <= end
      modifies this`pos, this`hist, out
      ensures Valid() && pos == old(pos) + 4 && hist == Copy(old(hist), 4, dist)
      ensures Before() == old(Before())
    {
      var a, b, c, d := out[src], out[src + 1], out[src + 2], out[src + 3];
      assert Kept(dist - 1) && Kept(dist - 2) && Kept(dist - 3);
      assert src + 1 == Back(dist - 1) && src + 2 == Back(dist - 2) && src + 3 == Back(dist - 3);
      ghost var h, n := hist, |hist|;
      assert [a, b, c, d] == [h[n - dist], h[n - dist + 1], h[n - dist + 2], h[n - dist + 3]];
      CopyFour(h, dist);
      Put(a);
      Put(b);
      Put(c);
      Put(d);
    }

    /** counter more bytes are to be copied from src on, and then the output is goal. */
    ghost predicate Copying(goal: seq<byte>, counter: nat, dist: nat, src: nat)
      reads this, out
    {
      && Valid() && Kept(dist)
      && Copy(hist, counter, dist) == goal
      && (counter > 0 ==> src == Back(dist))
      && pos + counter <= end && src + counter <= end
    }

    method CopyOne(ghost goal: seq<byte>, ghost counter: nat, ghost dist: nat, src: nat)
      requires Copying(goal, counter, dist, src) && counter > 0
      modifies this`pos, this`hist, out
      ensures Copying(goal, counter - 1, dist, src + 1)
      ensures Before() == old(Before())
    {
      Put(out[src]);
    }

    /** The last one or two bytes of a match. */
    method CopyTail(ghost goal: seq<byte>, counter: nat, ghost dist: nat, src: nat)
      requires Copying(goal, counter, dist, src) && counter < 3
      modifies this`pos, this`hist, out
      ensures Valid() && hist == goal
      ensures Before() == old(Before())
    {
      if counter > 0 {
        CopyOne(goal, counter, dist, src);
        if counter > 1 {
          CopyOne(goal, counter - 1, dist, src + 1);
        }
      }
    }

    method CopyEight(ghost goal: seq<byte>, ghost counter: nat, ghost dist: nat, src: nat)
      requires Copying(goal, counter, dist, src) && 8 <= counter <= dist
      modifies this`pos, this`hist, out
      ensures Copying(goal, counter - 8, dist, src + 8)
      ensures Before() == old(Before())
    {
      ghost var h := hist;
      CopySplit(h, 4, counter - 4, dist);
      CopyWord(src, dist);
      CopySplit(hist, 4, counter - 8, dist);
      assert Back(dist) == src + 4;
      CopyWord(src + 4, dist);
    }

    /** The whole groups of eight bytes of a match that does not overlap itself. */
    method CopyEights(ghost goal: seq<byte>, len: nat, ghost dist: nat, start: nat) returns (src: nat)
      requires Copying(goal, len, dist, start) && len <= dist
      modifies this`pos, this`hist, out
      ensures Copying(goal, len % 8, dist, src)
      ensures Before() == old(Before())
    {
      src := start;
      var srcEnd := start + (len - len % 8);
      while src < srcEnd
        invariant Before() == old(Before())
        invariant start <= src <= srcEnd && (srcEnd - src) % 8 == 0
        invariant Copying(goal, srcEnd - src + len % 8, dist, src)
      {
        CopyEight(goal, srcEnd - src + len % 8, dist, src);
        src := src + 8;
      }
    }

    method CopyThrees(ghost goal: seq<byte>, len: nat, ghost dist: nat, start: nat)
      requires Copying(goal, len, dist, start)
      modifies this`pos, this`hist, out
      ensures Valid() && hist == goal
      ensures Before() == old(Before())
    {
      var counter: nat, src: nat := len, start;
      while counter > 2
        invariant Copying(goal, counter, dist, src) && Before() == old(Before())
      {
        CopyOne(goal, counter, dist, src);
        CopyOne(goal, counter - 1, dist, src + 1);
        CopyOne(goal, counter - 2, dist, src + 2);
        src, counter := src + 3, counter - 3;
      }
      CopyTail(goal, counter, dist, src);
    }

    /** A match that neither side of the copy takes over the end of the buffer: eight bytes at a time
        when the match does not overlap itself, and three at a time otherwise. */
    method CopyFast(len: nat, dist: nat, start: nat)
      requires Valid() && Kept(dist) && len >= 3 && start == Back(dist)
      requires pos + len <= end && start + len <= end
      modifies this`pos, this`hist, out
      ensures Valid() && hist == Copy(old(hist), len, dist)
      ensures Before() == old(Before())
    {
      ghost var goal := Copy(hist, len, dist);
      if len >= 9 && len <= dist {
        var src := CopyEights(goal, len, dist, start);
        if len % 8 < 3 {
          CopyTail(goal, len % 8, dist, src);
        } else {
          CopyThrees(goal, len % 8, dist, src);
        }
      } else {
        CopyThrees(goal, len, dist, start);
      }
    }

    /** An offset from the start of the buffer, masked to the size of a ring. */
    function Mask(x: int): int
      requires wraps ==> out.Length > 0
    {
      if wraps then x % out.Length else x
    }

    /** Byte by byte, as far as there is room; from counts on from the start of the buffer, over the end
        of a ring any number of times. */
    method CopySlow(len: nat, dist: nat, from: nat, ghost laps: nat) returns (left: nat, from': nat)
      requires Valid() && Kept(dist) && from == pos + laps * out.Length && (!wraps ==> laps == 0)
      modifies this`pos, this`hist, out
      ensures Valid() && left <= len && (left > 0 ==> pos == end)
      ensures Before() == old(Before())
      ensures Kept(dist) && Copy(hist, left, dist) == Copy(old(hist), len, dist)
      ensures from' == pos + laps * out.Length
    {
      ghost var goal := Copy(hist, len, dist);
      left, from' := len, from;
      while left > 0
        invariant Before() == old(Before())
        invariant Valid() && left <= len && Kept(dist) && Copy(hist, left, dist) == goal
        invariant from' == pos + laps * out.Length
      {
        if pos >= end {
          return;
        }
        MaskIsBack(dist, from', laps);
        Put(out[Mask(from' - dist)]);
        left, from' := left - 1, from' + 1;
      }
    }

    lemma MaskIsBack(dist: nat, from: nat, laps: nat)
      requires Valid() && Kept(dist) && from == pos + laps * out.Length && (!wraps ==> laps == 0)
      ensures Mask(from - dist) == Back(dist)
    {
      if wraps {
        var n := out.Length;
        if dist <= pos {
          ModUnique(from - dist, n, laps, pos - dist);
        } else {
          assert (laps - 1) * n == laps * n - n;
          ModUnique(from - dist, n, laps - 1, pos - dist + n);
        }
      }
    }
  }

  lemma CopyFour(h: seq<byte>, dist: nat)
    requires 4 <= dist <= |h|
    ensures var n := |h|;
            Copy(h, 4, dist) == h + [h[n - dist]] + [h[n - dist + 1]] + [h[n - dist + 2]] + [h[n - dist + 3]]
  {
    var n := |h|;
    var h1 := h + [h[n - dist]];
    var h2 := h1 + [h[n - dist + 1]];
    var h3 := h2 + [h[n - dist + 2]];
    assert Copy(h, 4, dist) == Copy(h1, 3, dist);
    assert Copy(h1, 3, dist) == Copy(h2, 2, dist);
    assert Copy(h2, 2, dist) == Copy(h3, 1, dist);
    assert Copy(h3, 1, dist) == Copy(h3 + [h[n - dist + 3]], 0, dist);
  }

  /** A copy in two parts. */
  lemma {:induction false} CopySplit(h: seq<byte>, a: nat, b: nat, dist: nat)
    requires 1 <= dist <= |h|
    ensures Copy(h, a + b, dist) == Copy(Copy(h, a, dist), b, dist)
    decreases a
  {
    if a > 0 {
      CopySplit(h + [h[|h| - dist]], a - 1, b, dist);
    }
  }
}
