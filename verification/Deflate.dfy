/** The round trip: whatever the options, and however the data are cut up on either side, the decompressor
    gives back what the compressor was given. */
module Deflate {
  import opened Bits
  import opened Symbols
  import opened Format
  import opened Inflators
  import opened Inflate
  import opened Sinks
  import opened Parsers
  import opened Compressors

  /** A whole stream, put out by the compressor, is one that the decompressor can be given. */
  lemma CompleteHolds(c: Compressor, tail: seq<bool>, data: seq<byte>)
    requires c.Complete(tail, data)
    ensures Holds(c.sink.got, c.blocks, tail) && StreamGrounded(c.blocks, []) && StreamData(c.blocks, []) == data
  {
    hide Shape, StreamBits, StreamAligned, StreamGrounded, StreamData;
    assert |BytesToBits(c.sink.got)| % 8 == 0;
  }

  /** The steps of the parser, and the tokens that it records for each block. */
  datatype Parse = Parse(looks: seq<Look>, told: seq<seq<Token>>)

  /** tdefl_compress_mem_to_output: all of the data in one call.  It fails only if the output is refused.  The blocks
      are what a parse of the data with these options makes. */
  method MemToOutput(data: seq<byte>, options: Options, sink: Sink)
    returns (ok: bool, ghost blocks: seq<Block>, ghost tail: seq<bool>, ghost parse: Parse)
    requires options.probes >= 1 && options.probesLong >= 1 && sink.got == []
    modifies sink
    ensures ok ==> |tail| < 8 && Holds(sink.got, blocks, tail) && StreamGrounded(blocks, []) && StreamData(blocks, []) == data
    ensures ok ==> Explained(parse.looks, parse.told, blocks, options, data)
    ensures !ok ==> sink.patience == 0 && !sink.endless
  {
    hide *;
    var c := new Compressor(options, sink);
    var r;
    r, tail := c.Compress(data, true);
    ok := r == Result.Done;
    blocks, parse := c.blocks, Parse(c.looks, c.told);
    if ok {
      assert [] + data == data;
      CompleteHolds(c, tail, data);
    }
  }

  /** Compressing and then decompressing gives back the data. */
  method RoundTrip(data: seq<byte>, options: Options) returns (packed: seq<byte>, n: int, out: array<byte>)
    requires options.probes >= 1 && options.probesLong >= 1
    ensures n == |data| == out.Length && out[..] == data
  {
    hide *;
    var sink := new Sink(true, 0);
    var ok;
    ghost var blocks, tail, parse;
    ok, blocks, tail, parse := MemToOutput(data, options, sink);
    packed := sink.got;
    out := new byte[|data|];
    n := MemToMem(out, packed, blocks, tail);
    assert out[..] == out[..n];
  }

  /** Any number of calls for more input, and one that ends it. */
  method PiecesToOutput(pieces: seq<seq<byte>>, last: seq<byte>, options: Options, sink: Sink)
    returns (ok: bool, ghost blocks: seq<Block>, ghost tail: seq<bool>, ghost parse: Parse)
    requires options.probes >= 1 && options.probesLong >= 1 && sink.got == []
    modifies sink
    ensures ok ==> Explained(parse.looks, parse.told, blocks, options, Join(pieces) + last)
    ensures ok ==> Holds(sink.got, blocks, tail) && StreamGrounded(blocks, []) && StreamData(blocks, []) == Join(pieces) + last
    ensures !ok ==> sink.patience == 0 && !sink.endless
  {
    hide *;
    var c := new Compressor(options, sink);
    JoinNone();
    blocks, tail, parse := [], [], Parse([], []);
    for i := 0 to |pieces|
      invariant c.Valid() && FarSighted(c.looks) && c.opt == options && c.prevResult == Result.Okay && !c.wantsToFinish && !c.finished
      invariant c.win.src == Join(pieces[..i])
    {
      var r;
      r, tail := c.Compress(pieces[i], false);
      JoinSnoc(pieces, i);
      if r != Result.Okay {
        return false, blocks, tail, parse;
      }
    }
    assert pieces[..|pieces|] == pieces;
    var r;
    r, tail := c.Compress(last, true);
    ok := r == Result.Done;
    blocks, parse := c.blocks, Parse(c.looks, c.told);
    if ok {
      CompleteHolds(c, tail, Join(pieces) + last);
    }
  }

  lemma JoinNone()
    ensures Join([]) == []
  {
  }

  lemma {:induction false} JoinSnoc(parts: seq<seq<byte>>, i: nat)
    requires i < |parts|
    ensures Join(parts[..i + 1]) == Join(parts[..i]) + parts[i]
    decreases i
  {
    if i == 0 {
      assert parts[..1] == [parts[0]] && parts[..1][1..] == parts[..0] && Join(parts[..0]) == [];
    } else {
      JoinSnoc(parts[1..], i - 1);
      assert parts[..i + 1][1..] == parts[1..][..i] && parts[..i][1..] == parts[1..][..i - 1];
    }
  }

  /** The parts of s between the given places. */
  function CutAt(s: seq<byte>, sizes: seq<nat>): (parts: seq<seq<byte>>)
    ensures Join(parts) == s
  {
    if sizes == [] || sizes[0] > |s| then [s] else [s[..sizes[0]]] + CutAt(s[sizes[0]..], sizes[1..])
  }

  /** The same however the data come in, the compressed bytes are cut up and the room for the output grows. */
  method RoundTripInPieces(pieces: seq<seq<byte>>, last: seq<byte>, options: Options, cuts: seq<nat>, rooms: seq<nat>)
    returns (n: int, out: array<byte>)
    requires options.probes >= 1 && options.probesLong >= 1
    ensures n == out.Length && out[..] == Join(pieces) + last
  {
    hide *;
    var sink := new Sink(true, 0);
    var ok;
    ghost var blocks, tail, parse;
    ok, blocks, tail, parse := PiecesToOutput(pieces, last, options, sink);
    out := new byte[|Join(pieces)| + |last|];
    n := InPieces(out, CutAt(sink.got, cuts), rooms, blocks, tail);
    assert out[..] == out[..n];
  }
}
