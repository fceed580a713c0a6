/** A stream that grows by one block, and tokens that grow by one token. */
module Streams {
  import opened Bits
  import opened Symbols
  import opened Format

  lemma AddToken(ts: seq<Token>, t: Token, h: seq<byte>)
    requires AllReach(ts, h) && Reaches(t, Expand(ts, h))
    ensures AllReach(ts + [t], h) && Expand(ts + [t], h) == Step(t, Expand(ts, h))
  {
    hide Reaches, Step;
    var e := Expand(ts, h);
    assert AllReach([t], e) && Expand([t], e) == Step(t, e) by {
      assert [t][1..] == [];
      assert AllReach([], Step(t, e)) && Expand([], Step(t, e)) == Step(t, e);
    }
    ExpandConcat(ts, [t], h);
  }

  lemma {:induction false} StreamBitsSnoc(bs: seq<Block>, b: Block, ends: bool)
    requires AllShape(bs) && Shape(b)
    ensures AllShape(bs + [b]) && StreamBits(bs + [b], ends) == StreamBits(bs, false) + BlockBits(b, ends)
  {
    hide Shape, BlockBits;
    if bs == [] {
      assert bs + [b] == [b] && [b][1..] == [];
      assert StreamBits([b], ends) == BlockBits(b, ends) + StreamBits([], ends);
    } else {
      StreamBitsSnoc(bs[1..], b, ends);
      assert (bs + [b])[1..] == bs[1..] + [b];
      assert StreamBits(bs + [b], ends) == BlockBits(bs[0], false) + StreamBits(bs[1..] + [b], ends);
      assert StreamBits(bs, false) == BlockBits(bs[0], false) + StreamBits(bs[1..], false);
    }
  }

  lemma {:induction false} StreamAlignedSnoc(bs: seq<Block>, b: Block, ofs: nat)
    requires AllShape(bs) && Shape(b) && StreamAligned(bs, ofs) && Aligned(b, ofs + |StreamBits(bs, false)|)
    ensures AllShape(bs + [b]) && StreamAligned(bs + [b], ofs)
  {
    hide Shape, BlockBits, Aligned;
    if bs == [] {
      assert bs + [b] == [b] && [b][1..] == [];
    } else {
      assert StreamBits(bs, false) == BlockBits(bs[0], false) + StreamBits(bs[1..], false);
      StreamAlignedSnoc(bs[1..], b, ofs + |BlockBits(bs[0], false)|);
      assert (bs + [b])[1..] == bs[1..] + [b];
    }
  }

  lemma {:induction false} StreamDataSnoc(bs: seq<Block>, b: Block, h: seq<byte>)
    requires StreamGrounded(bs, h) && Grounded(b, StreamData(bs, h))
    ensures StreamGrounded(bs + [b], h) && StreamData(bs + [b], h) == BlockData(b, StreamData(bs, h))
  {
    hide Grounded, BlockData;
    if bs == [] {
      assert bs + [b] == [b] && [b][1..] == [];
      assert StreamGrounded([], BlockData(b, h)) && StreamData([], BlockData(b, h)) == BlockData(b, h);
    } else {
      StreamDataSnoc(bs[1..], b, BlockData(bs[0], h));
      assert (bs + [b])[1..] == bs[1..] + [b];
    }
  }
}
