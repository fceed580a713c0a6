/** Whole runs of the decompressor: however the input and the room for output are cut up, the output is
    the data that the stream stands for. */
module Inflate {
  import opened Bits
  import opened Format
  import opened Symbols
  import opened Progress
  import opened BitReaders
  import opened Windows
  import opened Inflators
  import opened Sinks

  const FAILED := -1

  /** What the parts of the input are when put together. */
  function Join(parts: seq<seq<byte>>): seq<byte>
  {
    if parts == [] then [] else parts[0] + Join(parts[1..])
  }

  /** The input is a stream: its blocks, and then whatever follows. */
  ghost predicate Holds(input: seq<byte>, blocks: seq<Block>, tail: seq<bool>)
  {
    blocks != [] && WholeStream(blocks, tail) && BytesToBits(input) == StreamBits(blocks, true) + tail
  }

  lemma GoalData(blocks: seq<Block>, tail: seq<bool>)
    requires WholeStream(blocks, tail)
    ensures StreamGrounded(blocks, []) && GoalOf(blocks, tail).data == StreamData(blocks, [])
  {
    hide StreamData, StreamBits, StreamAligned, Shape;
  }

  lemma HoldsWhole(input: seq<byte>, blocks: seq<Block>, tail: seq<bool>)
    requires Holds(input, blocks, tail)
    ensures blocks != [] && WholeStream(blocks, tail) && AllShape(blocks)
    ensures BytesToBits(input) == StreamBits(blocks, true) + tail
  {
    hide StreamData, StreamBits, StreamAligned, Shape;
  }

  /** tinfl_decompress_mem_to_mem: from memory to memory, in one call.  It succeeds exactly if there is
      room for the data. */
  method MemToMem(out: array<byte>, input: seq<byte>, ghost blocks: seq<Block>, ghost tail: seq<bool>) returns (n: int)
    requires Holds(input, blocks, tail)
    modifies out
    ensures StreamGrounded(blocks, [])
    ensures var data := StreamData(blocks, []);
            if |data| <= out.Length then n == |data| && out[..n] == data else n == FAILED
  {
    hide *;
    HoldsWhole(input, blocks, tail);
    GoalData(blocks, tail);
    var d := new Inflator(out, false, blocks, tail);
    Fresh(d, input);
    var s := d.Decompress(input, false, out.Length, []);
    n := if s == Done then d.w.pos else FAILED;
    assert [] + out[0..d.w.pos] == out[..d.w.pos];
  }

  lemma Fresh(d: Inflator, input: seq<byte>)
    requires d.r.input == [] && d.r.pos == 0 && d.r.future == BytesToBits(input)
    ensures d.r.pos <= |d.r.input| && BytesToBits(input) + [] == d.r.Unread()
  {
  }

  lemma NoBytes()
    ensures BytesToBits([]) == []
  {
  }

  lemma LeftOver(r: BitReader)
    requires r.pos <= |r.input|
    ensures BytesToBits(r.input[r.pos..]) + r.future == r.Unread()
  {
  }

  lemma LastPart(parts: seq<seq<byte>>, i: nat)
    requires i <= |parts|
    ensures i == |parts| ==> BytesToBits(Join(parts[i..])) == []
  {
  }

  lemma NextPart(parts: seq<seq<byte>>, i: nat)
    requires i < |parts|
    ensures BytesToBits(Join(parts[i..])) == BytesToBits(parts[i]) + BytesToBits(Join(parts[i + 1..]))
  {
    assert parts[i..][1..] == parts[i + 1..];
    BytesToBitsConcat(parts[i], Join(parts[i + 1..]));
  }

  /** One call with what is left of the input so far, into a linear buffer. */
  method Feed(d: Inflator, chunk: seq<byte>, hasMore: bool, limit: nat, ghost rest: seq<bool>)
    returns (s: Status, left: seq<byte>)
    requires d.Valid() && !d.w.wraps && (!hasMore ==> rest == [])
    requires d.r.pos <= |d.r.input| && BytesToBits(chunk) + rest == d.r.Unread()
    requires d.w.pos == |d.w.hist| && d.w.pos <= limit <= d.w.out.Length
    modifies d, d.r, d.w`pos, d.w`end, d.w`hist, d.w.out, d.rawHeader, d.tableSizes, d.lenCodes
    modifies d.pk.codeSize, d.pk.lookUp, d.pk.tree, d.lit.codeSize, d.lit.lookUp, d.lit.tree
    modifies d.dst.codeSize, d.dst.lookUp, d.dst.tree
    ensures d.Valid() && d.goal == old(d.goal)
    ensures d.r.pos <= |d.r.input| && BytesToBits(left) + rest == d.r.Unread()
    ensures d.w.pos == |d.w.hist| && d.w.pos <= limit && d.w.out[..d.w.pos] == d.w.hist <= d.goal.data
    ensures match s
            case Going => false
            case NeedsMoreInput => hasMore && left == []
            case HasMoreOutput => d.w.pos == limit && limit < |d.goal.data|
            case Done => d.w.hist == d.goal.data
  {
    hide *;
    s := d.Decompress(chunk, hasMore, limit, rest);
    LeftOver(d.r);
    d.Outcome();
    left := chunk[d.r.pos..];
    assert d.w.hist[0..] == d.w.hist;
  }

  /** Any number of calls, each with some of the input and some more room for the output: the outcome is
      that of a single call with all of both. */
  method InPieces(out: array<byte>, parts: seq<seq<byte>>, rooms: seq<nat>, ghost blocks: seq<Block>, ghost tail: seq<bool>)
    returns (n: int)
    requires Holds(Join(parts), blocks, tail)
    modifies out
    ensures StreamGrounded(blocks, [])
    ensures var data := StreamData(blocks, []);
            if |data| <= out.Length then n == |data| && out[..n] == data else n == FAILED
  {
    hide *;
    HoldsWhole(Join(parts), blocks, tail);
    GoalData(blocks, tail);
    var d := new Inflator(out, false, blocks, tail);
    var left, i, k, limit := [], 0, 0, 0;
    assert parts[0..] == parts;
    Fresh(d, Join(parts));
    NoBytes();
    ghost var goal := d.goal;
    while true
      invariant d.Valid() && d.goal == goal && i <= |parts| && k <= |rooms|
      invariant d.w.pos == |d.w.hist| && d.w.pos <= limit <= out.Length
      invariant d.r.pos <= |d.r.input| && BytesToBits(left) + BytesToBits(Join(parts[i..])) == d.r.Unread()
      decreases |parts| - i, |rooms| - k, out.Length - limit
    {
      LastPart(parts, i);
      var s;
      s, left := Feed(d, left, i < |parts|, limit, BytesToBits(Join(parts[i..])));
      if s == Done {
        return d.w.pos;
      } else if s == NeedsMoreInput {
        NextPart(parts, i);
        left := parts[i];
        i := i + 1;
      } else if k < |rooms| {
        limit := if limit + rooms[k] < out.Length then limit + rooms[k] else out.Length;
        k := k + 1;
      } else if limit < out.Length {
        limit := out.Length;
      } else {
        return FAILED;
      }
    }
  }

  /** One call with all that is left of the input, into a ring. */
  method FeedRing(d: Inflator, chunk: seq<byte>) returns (s: Status, piece: seq<byte>, left: seq<byte>)
    requires d.Valid() && d.w.wraps && d.w.out.Length == DICT_SIZE && d.w.pos <= DICT_SIZE
    requires d.r.pos <= |d.r.input| && BytesToBits(chunk) + [] == d.r.Unread()
    modifies d, d.r, d.w`pos, d.w`end, d.w`hist, d.w.out, d.rawHeader, d.tableSizes, d.lenCodes
    modifies d.pk.codeSize, d.pk.lookUp, d.pk.tree, d.lit.codeSize, d.lit.lookUp, d.lit.tree
    modifies d.dst.codeSize, d.dst.lookUp, d.dst.tree
    ensures d.Valid() && d.goal == old(d.goal) && d.w.pos <= DICT_SIZE
    ensures d.r.pos <= |d.r.input| && BytesToBits(left) + [] == d.r.Unread() && |left| <= |chunk|
    ensures d.w.hist == old(d.w.hist) + piece && d.w.hist <= d.goal.data
    ensures match s
            case HasMoreOutput => piece != [] && |d.w.hist| < |d.goal.data|
            case Done => d.w.hist == d.goal.data
            case _ => false
  {
    hide *;
    SameSize();
    var ofs := if d.w.pos == DICT_SIZE then 0 else d.w.pos;
    s := d.Decompress(chunk, false, DICT_SIZE, []);
    LeftOver(d.r);
    d.Outcome();
    left := chunk[d.r.pos..];
    piece := d.w.out[ofs..d.w.pos];
  }

  lemma SameSize()
    ensures DICT_SIZE == DICT_SIZE == 32768
  {
  }

  /** The loop of calls, each of which passes on what it has written into the ring. */
  method RunRing(d: Inflator, input: seq<byte>, sink: Sink) returns (result: bool, used: nat)
    requires d.Valid() && d.w.wraps && d.w.out.Length == DICT_SIZE && d.w.pos <= DICT_SIZE && d.w.hist == [] == sink.got
    requires d.r.pos <= |d.r.input| && BytesToBits(input) + [] == d.r.Unread()
    modifies d, d.r, d.w`pos, d.w`end, d.w`hist, d.w.out, d.rawHeader, d.tableSizes, d.lenCodes
    modifies d.pk.codeSize, d.pk.lookUp, d.pk.tree, d.lit.codeSize, d.lit.lookUp, d.lit.tree
    modifies d.dst.codeSize, d.dst.lookUp, d.dst.tree, sink
    ensures used <= |input| && d.goal == old(d.goal)
    ensures if result then sink.got == d.goal.data else sink.got <= d.goal.data && sink.patience == 0 && !sink.endless
    ensures old(sink.patience) >= |d.goal.data| ==> result
  {
    hide *;
    ghost var goal := d.goal;
    var left := input;
    used := 0;
    while true
      invariant d.Valid() && d.goal == goal && d.w.pos <= DICT_SIZE
      invariant used + |left| == |input| && sink.got == d.w.hist <= goal.data
      invariant d.r.pos <= |d.r.input| && BytesToBits(left) + [] == d.r.Unread()
      invariant sink.endless || old(sink.patience) <= sink.patience + |sink.got|
      decreases |goal.data| - |d.w.hist|
    {
      var s, piece;
      s, piece, left := FeedRing(d, left);
      used := |input| - |left|;
      if piece != [] {
        var ok := sink.Put(piece);
        if !ok {
          return false, used;
        }
      }
      if s != HasMoreOutput {
        return s == Done, used;
      }
    }
  }

  /** tinfl_decompress_mem_to_callback: the output goes through a ring of 32768 bytes, which is handed
      on whenever it is full. */
  method MemToCallback(input: seq<byte>, sink: Sink, ghost blocks: seq<Block>, ghost tail: seq<bool>)
    returns (result: bool, used: nat)
    requires Holds(input, blocks, tail) && sink.got == []
    modifies sink
    ensures StreamGrounded(blocks, []) && used <= |input|
    ensures if result then sink.got == StreamData(blocks, []) else sink.got <= StreamData(blocks, []) && sink.patience == 0 && !sink.endless
    ensures old(sink.patience) >= |StreamData(blocks, [])| ==> result
  {
    hide *;
    HoldsWhole(input, blocks, tail);
    GoalData(blocks, tail);
    SameSize();
    var dict := new byte[DICT_SIZE];
    var d := new Inflator(dict, true, blocks, tail);
    Fresh(d, input);
    result, used := RunRing(d, input, sink);
  }
}
