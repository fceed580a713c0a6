/** How far the decompressor has come in a stream: for every point where it may be, what is still to be
    read and what the output will be.  The lemmas are its moves; each reads some bits or writes some
    output, and none changes where the stream as a whole is going. */
module Progress {
  import opened Bits
  import opened Canonical
  import opened Symbols
  import opened RunLength
  import opened Format

  /** The rest of a compressed block: its codes and the tokens still to come. */
  datatype Body = Body(lens: seq<nat>, dists: seq<nat>, ts: seq<Token>)

  /** Within a stored block. */
  datatype Raw =
    | Align(pad: seq<bool>, data: seq<byte>)
    | RawHeader(data: seq<byte>, i: nat)
    | RawBits(data: seq<byte>)
    | RawPut(b: byte, data: seq<byte>)
    | RawBytes(data: seq<byte>)

  /** Within the header of a block with dynamic codes. */
  datatype Dyn =
    | Sizes(i: nat)
    | PackLens(i: nat)
    | Lengths(sofar: seq<nat>, ops: seq<Op>)
    | Run(sofar: seq<nat>, op: Op, ops: seq<Op>)

  /** Within the body of a compressed block. */
  datatype Item =
    | Symbol
    | PutLit(lit: byte)
    | LenTail(len: nat, dist: nat)
    | DistCode(len: nat, dist: nat)
    | DistTail(len: nat, dist: nat)
    | CopyRest(left: nat, dist: nat)

  datatype Phase =
    | AtBlock
    | InRaw(raw: Raw)
    | InHeader(h: Header, dyn: Dyn, ts: seq<Token>)
    | InBody(item: Item, body: Body)
    | AtEnd

  ghost predicate BodyOk(b: Body)
  {
    && Decodable(b.lens) && Decodable(b.dists) && |b.lens| <= 288 && |b.dists| <= 32
    && Used(b.lens, END_OF_BLOCK) && AllCoded(b.lens, b.dists, b.ts)
  }

  ghost predicate RawOk(raw: Raw)
  {
    (raw.Align? ==> |raw.pad| < 8) && (raw.RawHeader? ==> raw.i <= 4) && |raw.data| < 0x10000
  }

  ghost predicate DynOk(h: Header, dyn: Dyn)
    requires HeaderOk(h)
  {
    match dyn
    case Sizes(i) => i <= 3
    case PackLens(i) => i <= h.numPackLens
    case Lengths(sofar, ops) => OpsCoded(h.packLens, ops) && Unpacks(ops, sofar, h.lens + h.dists)
    case Run(sofar, op, ops) =>
      OpsCoded(h.packLens, ops) && OpOk(op) && op.sym >= 16 && (op.sym == 16 ==> sofar != []) &&
      Unpacks(ops, Apply(op, sofar), h.lens + h.dists)
  }

  ghost predicate ItemOk(item: Item, b: Body)
  {
    match item
    case Symbol => true
    case PutLit(_) => true
    case LenTail(len, dist) => Coded(b.lens, b.dists, Match(len, dist))
    case DistCode(len, dist) => Coded(b.lens, b.dists, Match(len, dist))
    case DistTail(len, dist) => Coded(b.lens, b.dists, Match(len, dist))
    case CopyRest(left, dist) => 1 <= dist <= DICT_SIZE
  }

  ghost predicate PhaseOk(ph: Phase)
  {
    match ph
    case AtBlock => true
    case AtEnd => true
    case InRaw(raw) => RawOk(raw)
    case InHeader(h, dyn, ts) => HeaderOk(h) && BodyOk(Body(h.lens, h.dists, ts)) && DynOk(h, dyn)
    case InBody(item, b) => BodyOk(b) && ItemOk(item, b)
  }

  ghost function Remaining(b: Body): seq<bool>
    requires BodyOk(b)
  {
    BodyBits(b.lens, b.dists, b.ts)
  }

  ghost function RawRest(raw: Raw): seq<bool>
    requires RawOk(raw)
  {
    match raw
    case Align(pad, data) => pad + (LengthField(|data|) + BytesToBits(data))
    case RawHeader(data, i) => LengthField(|data|)[8 * i..] + BytesToBits(data)
    case _ => BytesToBits(raw.data)
  }

  ghost function SizesFrom(h: Header, i: nat): seq<bool>
    requires HeaderOk(h)
  {
    if i == 0 then SizeBits(h, 0) + (SizeBits(h, 1) + SizeBits(h, 2))
    else if i == 1 then SizeBits(h, 1) + SizeBits(h, 2)
    else if i == 2 then SizeBits(h, 2)
    else []
  }

  ghost function DynRest(h: Header, dyn: Dyn): seq<bool>
    requires HeaderOk(h) && DynOk(h, dyn)
  {
    match dyn
    case Sizes(i) => SizesFrom(h, i) + (PackLensBits(h.packLens, 0, h.numPackLens) + OpsBits(h.packLens, h.ops))
    case PackLens(i) => PackLensBits(h.packLens, i, h.numPackLens) + OpsBits(h.packLens, h.ops)
    case Lengths(_, ops) => OpsBits(h.packLens, ops)
    case Run(_, op, ops) => ToBits(op.extra, ExtraBits(op.sym)) + OpsBits(h.packLens, ops)
  }

  ghost function ItemRest(item: Item, b: Body): seq<bool>
    requires ItemOk(item, b)
  {
    match item
    case LenTail(len, dist) => LenExtraBits(len) + DistBits(b.dists, dist)
    case DistCode(_, dist) => DistBits(b.dists, dist)
    case DistTail(_, dist) => DistExtraBits(dist)
    case _ => []
  }

  /** The bits of the current block still to be read. */
  ghost function BlockRest(ph: Phase): seq<bool>
    requires PhaseOk(ph)
  {
    match ph
    case AtBlock => []
    case AtEnd => []
    case InRaw(raw) => RawRest(raw)
    case InHeader(h, dyn, ts) => DynRest(h, dyn) + Remaining(Body(h.lens, h.dists, ts))
    case InBody(item, b) => ItemRest(item, b) + Remaining(b)
  }

  /** The output once the current item is written. */
  ghost function ItemEnd(item: Item, hist: seq<byte>): seq<byte>
    requires HasDist(item) ==> 1 <= item.dist <= |hist|
  {
    match item
    case Symbol => hist
    case PutLit(x) => hist + [x]
    case LenTail(len, dist) => Copy(hist, len, dist)
    case DistCode(len, dist) => Copy(hist, len, dist)
    case DistTail(len, dist) => Copy(hist, len, dist)
    case CopyRest(left, dist) => Copy(hist, left, dist)
  }

  /** The tokens of the current block reach back only into output that there is. */
  ghost predicate Reached(ph: Phase, hist: seq<byte>)
  {
    match ph
    case InHeader(_, _, ts) => AllReach(ts, hist)
    case InBody(item, b) =>
      (HasDist(item) ==> 1 <= item.dist <= |hist|) &&
      AllReach(b.ts, ItemEnd(item, hist))
    case _ => true
  }

  /** The output at the end of the current block. */
  ghost function BlockEnd(ph: Phase, hist: seq<byte>): seq<byte>
    requires Reached(ph, hist)
  {
    match ph
    case AtBlock => hist
    case AtEnd => hist
    case InRaw(raw) => RawEnd(raw, hist)
    case InHeader(_, _, ts) => Expand(ts, hist)
    case InBody(item, b) => Expand(b.ts, ItemEnd(item, hist))
  }

  /** Where a stream is going: its length in bits (whole bytes), what follows its last block, and its data. */
  datatype Goal = Goal(total: nat, tail: seq<bool>, data: seq<byte>)

  /** A point of the decompression: within a block, before the blocks after it, with the output so far. */
  datatype View = View(ph: Phase, after: seq<Block>, hist: seq<byte>)

  ghost predicate AfterOk(after: seq<Block>, end: seq<byte>, g: Goal)
  {
    && AllShape(after) && g.total % 8 == 0
    && |StreamBits(after, true)| + |g.tail| <= g.total
    && StreamAligned(after, g.total - |g.tail| - |StreamBits(after, true)|)
    && StreamGrounded(after, end) && StreamData(after, end) == g.data
  }

  ghost predicate ViewOk(v: View, g: Goal)
  {
    && PhaseOk(v.ph) && Reached(v.ph, v.hist)
    && AfterOk(v.after, BlockEnd(v.ph, v.hist), g)
    && (v.ph.AtBlock? ==> v.after != []) && (v.ph.AtEnd? ==> v.after == [])
  }

  /** The bits still to be read, up to the end of the last block. */
  ghost function Pending(v: View): seq<bool>
  {
    if PhaseOk(v.ph) && AllShape(v.after) then BlockRest(v.ph) + StreamBits(v.after, true) else []
  }

  /** From v to v', reading bits on the way. */
  ghost predicate Moves(v: View, v': View, bits: seq<bool>, g: Goal)
    requires ViewOk(v, g)
  {
    ViewOk(v', g) && Pending(v) == bits + Pending(v')
  }

  lemma Moved(v: View, v': View, bits: seq<bool>, g: Goal)
    requires ViewOk(v, g) && Moves(v, v', bits, g)
    ensures ViewOk(v', g) && Pending(v) == bits + Pending(v')
  {
  }

  /** A move within a block: what the block still holds and where it ends are all that matter. */
  lemma Within(v: View, v': View, bits: seq<bool>, g: Goal)
    requires ViewOk(v, g) && v'.after == v.after && !v'.ph.AtBlock? && !v'.ph.AtEnd?
    requires PhaseOk(v'.ph) && BlockRest(v.ph) == bits + BlockRest(v'.ph)
    requires Reached(v'.ph, v'.hist) && BlockEnd(v.ph, v.hist) == BlockEnd(v'.ph, v'.hist)
    ensures Moves(v, v', bits, g)
  {
    hide PhaseOk, BlockRest, Reached, BlockEnd, Shape, StreamBits, StreamAligned, StreamGrounded, StreamData;
    assert BlockRest(v.ph) + StreamBits(v.after, true) == bits + (BlockRest(v'.ph) + StreamBits(v.after, true));
  }

  // ---------- between blocks

  lemma OpenBlock(after: seq<Block>, hist: seq<byte>, g: Goal)
    requires after != [] && AfterOk(after, hist, g)
    ensures Shape(after[0]) && Grounded(after[0], hist)
    ensures StreamBits(after, true) ==
              HeaderThree(after[0], |after| == 1) + (ContentBits(after[0]) + StreamBits(after[1..], true))
    ensures AfterOk(after[1..], BlockData(after[0], hist), g)
    ensures Aligned(after[0], g.total - |g.tail| - |StreamBits(after, true)|)
  {
    hide Shape, Grounded, ContentBits, BlockData, HeaderThree, Aligned, BlockBits, AllShape, AfterOk, StreamAligned,
      StreamGrounded, StreamData;
    OpenParts(after, hist, g);
    OpenBits(after[0], after[1..], |after| == 1);
    OpenRest(after, hist, g);
  }

  lemma OpenParts(after: seq<Block>, hist: seq<byte>, g: Goal)
    requires after != [] && AfterOk(after, hist, g)
    ensures AllShape(after) && AllShape(after[1..]) && Shape(after[0]) && Grounded(after[0], hist)
    ensures |StreamBits(after, true)| + |g.tail| <= g.total
    ensures Aligned(after[0], g.total - |g.tail| - |StreamBits(after, true)|)
  {
    hide Shape, Grounded, BlockData, Aligned, BlockBits, AllShape, StreamBits, StreamData;
    TailShape(after);
  }

  lemma OpenRest(after: seq<Block>, hist: seq<byte>, g: Goal)
    requires after != [] && AfterOk(after, hist, g) && Shape(after[0]) && AllShape(after[1..])
    requires |BlockBits(after[0], false)| == |BlockBits(after[0], |after| == 1)|
    ensures AfterOk(after[1..], BlockData(after[0], hist), g)
  {
    hide Shape, Grounded, BlockData, Aligned, BlockBits, AllShape;
  }

  lemma TailShape(after: seq<Block>)
    requires after != [] && AllShape(after)
    ensures Shape(after[0]) && AllShape(after[1..])
  {
    hide Shape;
  }

  lemma OpenBits(b: Block, rest: seq<Block>, last: bool)
    requires Shape(b) && AllShape(rest)
    ensures BlockBits(b, last) + StreamBits(rest, true) == HeaderThree(b, last) + (ContentBits(b) + StreamBits(rest, true))
    ensures |BlockBits(b, false)| == |BlockBits(b, last)|
  {
    hide Shape, ContentBits, HeaderThree, StreamBits;
  }

  /** The first move of a block, past its three header bits. */
  lemma IntoBlock(v: View, ph: Phase, g: Goal)
    requires ViewOk(v, g) && v.ph.AtBlock? && Shape(v.after[0]) && Grounded(v.after[0], v.hist)
    requires PhaseOk(ph) && !ph.AtBlock? && !ph.AtEnd? && BlockRest(ph) == ContentBits(v.after[0])
    requires Reached(ph, v.hist) && BlockEnd(ph, v.hist) == BlockData(v.after[0], v.hist)
    ensures Moves(v, View(ph, v.after[1..], v.hist), HeaderThree(v.after[0], |v.after| == 1), g)
  {
    OpenBlock(v.after, v.hist, g);
    hide PhaseOk, BlockRest, Reached, BlockEnd, Shape, StreamAligned, StreamGrounded, StreamData, Grounded, HeaderThree,
      ContentBits, BlockData;
  }

  /** The padding of a stored block is what is left of the byte. */
  lemma PadLength(pad: nat, rest: nat, total: nat)
    requires pad < 8 && total % 8 == 0 && rest + 3 <= total && (total - (rest + 3) + 3 + pad) % 8 == 0
    ensures pad == rest % 8
  {
  }

  /** What the decompressor makes of a block once it has read the three header bits. */
  function Entered(b: Block): (ph: Phase)
    ensures !ph.AtBlock? && !ph.AtEnd?
  {
    match b
    case Stored(pad, data) => InRaw(Align(pad, data))
    case Compressed(Fixed, ts) => InBody(Symbol, Body(FixedLens(), FixedDists(), ts))
    case Compressed(Dynamic(h), ts) => InHeader(h, Sizes(0), ts)
  }

  lemma EnterStored(b: Block, hist: seq<byte>)
    requires b.Stored? && Shape(b) && Grounded(b, hist)
    ensures var ph := Entered(b);
            PhaseOk(ph) && BlockRest(ph) == ContentBits(b) && Reached(ph, hist) && BlockEnd(ph, hist) == BlockData(b, hist)
  {
    hide LengthField, BytesToBits;
  }

  lemma EnterFixed(b: Block, hist: seq<byte>)
    requires b.Compressed? && b.tables.Fixed? && Shape(b) && Grounded(b, hist)
    ensures var ph := Entered(b);
            PhaseOk(ph) && BlockRest(ph) == ContentBits(b) && Reached(ph, hist) && BlockEnd(ph, hist) == BlockData(b, hist)
  {
    hide BodyOk, BodyBits, FixedLens, FixedDists, Code, Used, AllCoded, HeaderOk, Decodable;
    FixedBody(b.tokens);
  }

  lemma EnterDynamic(b: Block, hist: seq<byte>)
    requires b.Compressed? && b.tables.Dynamic? && Shape(b) && Grounded(b, hist)
    ensures var ph := Entered(b);
            PhaseOk(ph) && BlockRest(ph) == ContentBits(b) && Reached(ph, hist) && BlockEnd(ph, hist) == BlockData(b, hist)
  {
    hide HeaderOk, HeaderBits, DynRest, BodyOk, BodyBits;
    HeaderBitsFrom(b.tables.header);
    HeaderBody(b.tables.header, b.tokens);
  }

  lemma FixedBody(ts: seq<Token>)
    requires Used(FixedLens(), END_OF_BLOCK) && AllCoded(FixedLens(), FixedDists(), ts)
    ensures BodyOk(Body(FixedLens(), FixedDists(), ts))
  {
    FixedComplete();
    hide Complete, AtMostOne, AllCoded;
  }

  lemma HeaderBody(h: Header, ts: seq<Token>)
    requires HeaderOk(h) && Used(h.lens, END_OF_BLOCK) && AllCoded(h.lens, h.dists, ts)
    ensures BodyOk(Body(h.lens, h.dists, ts))
  {
  }

  lemma HeaderBitsFrom(h: Header)
    requires HeaderOk(h)
    ensures HeaderBits(h) == DynRest(h, Sizes(0))
  {
    hide HeaderOk, SizeBits;
  }

  lemma EnterBlock(b: Block, hist: seq<byte>)
    requires Shape(b) && Grounded(b, hist)
    ensures var ph := Entered(b);
            PhaseOk(ph) && BlockRest(ph) == ContentBits(b) && Reached(ph, hist) && BlockEnd(ph, hist) == BlockData(b, hist)
  {
    hide *;
    if b.Stored? {
      EnterStored(b, hist);
    } else if b.tables.Fixed? {
      EnterFixed(b, hist);
    } else {
      EnterDynamic(b, hist);
    }
  }

  lemma StartBlock(v: View, g: Goal)
    requires ViewOk(v, g) && v.ph.AtBlock?
    ensures Shape(v.after[0])
    ensures Moves(v, View(Entered(v.after[0]), v.after[1..], v.hist), HeaderThree(v.after[0], |v.after| == 1), g)
  {
    hide AfterOk, Shape, Grounded, Entered, HeaderThree, ContentBits, BlockData;
    OpenBlock(v.after, v.hist, g);
    EnterBlock(v.after[0], v.hist);
    IntoBlock(v, Entered(v.after[0]), g);
  }

  lemma AfterBounds(after: seq<Block>, end: seq<byte>, g: Goal)
    requires AfterOk(after, end, g)
    ensures AllShape(after) && g.total % 8 == 0 && |StreamBits(after, true)| + |g.tail| <= g.total
  {
  }

  /** The padding of a stored block ends with the byte that the header bits are in. */
  lemma StartPad(v: View, g: Goal)
    requires ViewOk(v, g) && v.ph.AtBlock? && v.after[0].Stored?
    ensures |v.after[0].pad| == (|Pending(v)| - 3 + |g.tail|) % 8
  {
    hide AfterOk, Shape, Grounded, HeaderThree, ContentBits, BlockData, StreamBits;
    AfterBounds(v.after, v.hist, g);
    OpenBlock(v.after, v.hist, g);
    PadShape(v.after[0]);
    var rest := |StreamBits(v.after, true)| - 3 + |g.tail|;
    assert |Pending(v)| == |StreamBits(v.after, true)|;
    PadLength(|v.after[0].pad|, rest, g.total);
  }

  lemma PadShape(b: Block)
    requires Shape(b) && b.Stored?
    ensures |b.pad| < 8
  {
  }

  function Next(after: seq<Block>): Phase
  {
    if after == [] then AtEnd else AtBlock
  }

  lemma NextOk(after: seq<Block>, hist: seq<byte>)
    ensures var ph := Next(after); PhaseOk(ph) && BlockRest(ph) == [] && Reached(ph, hist) && BlockEnd(ph, hist) == hist
  {
  }

  /** The last move of a block. */
  lemma OutOfBlock(v: View, bits: seq<bool>, g: Goal)
    requires ViewOk(v, g) && !v.ph.AtBlock? && !v.ph.AtEnd?
    requires BlockRest(v.ph) == bits && BlockEnd(v.ph, v.hist) == v.hist
    ensures Moves(v, v.(ph := Next(v.after)), bits, g)
  {
    NextOk(v.after, v.hist);
    hide PhaseOk, BlockRest, Reached, BlockEnd, Shape, StreamBits, StreamAligned, StreamGrounded, StreamData;
  }

  lemma EndStored(v: View, g: Goal)
    requires ViewOk(v, g) && v.ph.InRaw? && v.ph.raw.RawBytes? && v.ph.raw.data == []
    ensures Moves(v, v.(ph := Next(v.after)), [], g)
  {
    hide AfterOk;
    assert v.hist + [] == v.hist;
    OutOfBlock(v, [], g);
  }

  lemma EndBody(v: View, g: Goal)
    requires ViewOk(v, g) && v.ph.InBody? && v.ph.item.Symbol? && v.ph.body.ts == []
    ensures Used(v.ph.body.lens, END_OF_BLOCK)
    ensures Moves(v, v.(ph := Next(v.after)), Code(v.ph.body.lens, END_OF_BLOCK), g)
  {
    hide AfterOk, Decodable;
    OutOfBlock(v, Code(v.ph.body.lens, END_OF_BLOCK), g);
  }

  // ---------- within a stored block

  function RawEnd(raw: Raw, hist: seq<byte>): seq<byte>
  {
    if raw.RawPut? then hist + [raw.b] + raw.data else hist + raw.data
  }

  lemma RawMove(v: View, raw: Raw, hist: seq<byte>, bits: seq<bool>, g: Goal)
    requires ViewOk(v, g) && v.ph.InRaw?
    requires RawOk(raw) && RawRest(v.ph.raw) == bits + RawRest(raw)
    requires RawEnd(v.ph.raw, v.hist) == RawEnd(raw, hist)
    ensures Moves(v, View(InRaw(raw), v.after, hist), bits, g)
  {
    hide AfterOk, RawRest;
    Within(v, View(InRaw(raw), v.after, hist), bits, g);
  }

  lemma SkipPad(v: View, g: Goal)
    requires ViewOk(v, g) && v.ph.InRaw? && v.ph.raw.Align?
    ensures Moves(v, v.(ph := InRaw(RawHeader(v.ph.raw.data, 0))), v.ph.raw.pad, g)
  {
    hide AfterOk, LengthField, BytesToBits;
    RawMove(v, RawHeader(v.ph.raw.data, 0), v.hist, v.ph.raw.pad, g);
  }

  /** The i-th byte of the length field. */
  function LengthByte(n: nat, i: nat): (c: nat)
    requires n < 0x10000 && i < 4
    ensures c < 256
  {
    if i == 0 then n % 256 else if i == 1 then n / 256
    else if i == 2 then (0xFFFF - n) % 256 else (0xFFFF - n) / 256
  }

  lemma TwoBytes(n: nat)
    requires n < 0x10000
    ensures ToBits(n, 16) == ToBits(n % 256, 8) + ToBits(n / 256, 8)
  {
    EightShift(n);
    assert Pow2(8) == 256;
    LowMod(n, 8);
    ToBitsSplit(n, 8, 8);
  }

  lemma EightShift(n: nat)
    ensures Shr(n, 8) == n / 256
  {
    ShrStep(n, 0);
    ShrStep(n, 1);
    ShrStep(n, 2);
    ShrStep(n, 3);
    ShrStep(n, 4);
    ShrStep(n, 5);
    ShrStep(n, 6);
    ShrStep(n, 7);
  }

  lemma FourParts(a: seq<bool>, b: seq<bool>, c: seq<bool>, d: seq<bool>, i: nat)
    requires |a| == |b| == |c| == |d| == 8 && i < 4
    ensures var f := (a + b) + (c + d);
            f[8 * i..] == (if i == 0 then a else if i == 1 then b else if i == 2 then c else d) + f[8 * (i + 1)..]
  {
  }

  lemma LengthFieldBytes(n: nat, i: nat)
    requires n < 0x10000 && i < 4
    ensures LengthField(n)[8 * i..] == ToBits(LengthByte(n, i), 8) + LengthField(n)[8 * (i + 1)..]
  {
    TwoBytes(n);
    TwoBytes(0xFFFF - n);
    hide ToBits;
    var m := 0xFFFF - n;
    FourParts(ToBits(n % 256, 8), ToBits(n / 256, 8), ToBits(m % 256, 8), ToBits(m / 256, 8), i);
  }

  lemma ReadLengthByte(v: View, g: Goal)
    requires ViewOk(v, g) && v.ph.InRaw? && v.ph.raw.RawHeader? && v.ph.raw.i < 4
    ensures |v.ph.raw.data| < 0x10000
    ensures Moves(v, v.(ph := InRaw(RawHeader(v.ph.raw.data, v.ph.raw.i + 1))),
                  ToBits(LengthByte(|v.ph.raw.data|, v.ph.raw.i), 8), g)
  {
    hide AfterOk, LengthField, BytesToBits, ToBits;
    LengthFieldBytes(|v.ph.raw.data|, v.ph.raw.i);
    RawMove(v, RawHeader(v.ph.raw.data, v.ph.raw.i + 1), v.hist, ToBits(LengthByte(|v.ph.raw.data|, v.ph.raw.i), 8), g);
  }

  lemma StartRaw(v: View, g: Goal)
    requires ViewOk(v, g) && v.ph.InRaw? && v.ph.raw.RawHeader? && v.ph.raw.i >= 4
    ensures v.ph.raw.i == 4 && |v.ph.raw.data| < 0x10000
    ensures Moves(v, v.(ph := InRaw(RawBits(v.ph.raw.data))), [], g)
  {
    hide AfterOk, BytesToBits, LengthField;
    RawMove(v, RawBits(v.ph.raw.data), v.hist, [], g);
  }

  lemma ReadRawByte(v: View, g: Goal)
    requires ViewOk(v, g) && v.ph.InRaw? && v.ph.raw.RawBits? && v.ph.raw.data != []
    ensures Moves(v, v.(ph := InRaw(RawPut(v.ph.raw.data[0], v.ph.raw.data[1..]))), ToBits(v.ph.raw.data[0], 8), g)
  {
    hide AfterOk, ToBits;
    var d := v.ph.raw.data;
    assert v.hist + d == v.hist + [d[0]] + d[1..];
    RawMove(v, RawPut(d[0], d[1..]), v.hist, ToBits(d[0], 8), g);
  }

  lemma PutRawByte(v: View, g: Goal)
    requires ViewOk(v, g) && v.ph.InRaw? && v.ph.raw.RawPut?
    ensures Moves(v, View(InRaw(RawBits(v.ph.raw.data)), v.after, v.hist + [v.ph.raw.b]), [], g)
  {
    hide AfterOk, BytesToBits;
    RawMove(v, RawBits(v.ph.raw.data), v.hist + [v.ph.raw.b], [], g);
  }

  lemma DrainBits(v: View, g: Goal)
    requires ViewOk(v, g) && v.ph.InRaw? && v.ph.raw.RawBits?
    ensures Moves(v, v.(ph := InRaw(RawBytes(v.ph.raw.data))), [], g)
  {
    hide AfterOk, BytesToBits;
    RawMove(v, RawBytes(v.ph.raw.data), v.hist, [], g);
  }

  /** n bytes copied from the input to the output. */
  lemma CopyRaw(v: View, g: Goal, n: nat)
    requires ViewOk(v, g) && v.ph.InRaw? && v.ph.raw.RawBytes? && n <= |v.ph.raw.data|
    ensures Moves(v, View(InRaw(RawBytes(v.ph.raw.data[n..])), v.after, v.hist + v.ph.raw.data[..n]),
                  BytesToBits(v.ph.raw.data[..n]), g)
  {
    hide AfterOk, BytesToBits;
    var d := v.ph.raw.data;
    assert d == d[..n] + d[n..];
    BytesToBitsConcat(d[..n], d[n..]);
    assert v.hist + d == (v.hist + d[..n]) + d[n..];
    RawMove(v, RawBytes(d[n..]), v.hist + d[..n], BytesToBits(d[..n]), g);
  }

  lemma RawNotOver(v: View, g: Goal)
    requires ViewOk(v, g) && v.ph.InRaw? && v.ph.raw.RawBytes? && v.ph.raw.data != []
    ensures |Pending(v)| >= 8
  {
    hide ViewOk, Pending;
    CopyRaw(v, g, 1);
  }

  // ---------- within a dynamic header

  lemma DynMove(v: View, dyn: Dyn, bits: seq<bool>, g: Goal)
    requires ViewOk(v, g) && v.ph.InHeader?
    requires DynOk(v.ph.h, dyn) && DynRest(v.ph.h, v.ph.dyn) == bits + DynRest(v.ph.h, dyn)
    ensures Moves(v, v.(ph := v.ph.(dyn := dyn)), bits, g)
  {
    hide AfterOk, HeaderOk, BodyOk, DynOk, DynRest;
    Within(v, v.(ph := v.ph.(dyn := dyn)), bits, g);
  }

  lemma ReadSize(v: View, g: Goal)
    requires ViewOk(v, g) && v.ph.InHeader? && v.ph.dyn.Sizes? && v.ph.dyn.i < 3
    ensures Moves(v, v.(ph := v.ph.(dyn := Sizes(v.ph.dyn.i + 1))), SizeBits(v.ph.h, v.ph.dyn.i), g)
  {
    hide AfterOk, HeaderOk, BodyOk, SizeBits;
    DynMove(v, Sizes(v.ph.dyn.i + 1), SizeBits(v.ph.h, v.ph.dyn.i), g);
  }

  lemma StartPackLens(v: View, g: Goal)
    requires ViewOk(v, g) && v.ph.InHeader? && v.ph.dyn.Sizes? && v.ph.dyn.i >= 3
    ensures v.ph.dyn.i == 3
    ensures Moves(v, v.(ph := v.ph.(dyn := PackLens(0))), [], g)
  {
    hide AfterOk, HeaderOk, BodyOk;
    DynMove(v, PackLens(0), [], g);
  }

  lemma ReadPackLen(v: View, g: Goal)
    requires ViewOk(v, g) && v.ph.InHeader? && v.ph.dyn.PackLens? && v.ph.dyn.i < v.ph.h.numPackLens
    ensures v.ph.dyn.i < PACK_SYMBOLS == |v.ph.h.packLens|
    ensures Moves(v, v.(ph := v.ph.(dyn := PackLens(v.ph.dyn.i + 1))), ToBits(v.ph.h.packLens[Swizzle(v.ph.dyn.i)], 3), g)
  {
    hide AfterOk, BodyOk, Swizzle, Decodable, Unpacks, OpsCoded, Moves, AllReach, Expand, RawOk, ItemOk, Remaining;
    DynMove(v, PackLens(v.ph.dyn.i + 1), ToBits(v.ph.h.packLens[Swizzle(v.ph.dyn.i)], 3), g);
  }

  lemma StartLengths(v: View, g: Goal)
    requires ViewOk(v, g) && v.ph.InHeader? && v.ph.dyn.PackLens? && v.ph.dyn.i >= v.ph.h.numPackLens
    ensures v.ph.dyn.i == v.ph.h.numPackLens
    ensures Moves(v, v.(ph := v.ph.(dyn := Lengths([], v.ph.h.ops))), [], g)
  {
    hide AfterOk, BodyOk, Decodable, Unpacks, OpsCoded;
    DynMove(v, Lengths([], v.ph.h.ops), [], g);
  }

  lemma OpsStep(packLens: seq<nat>, ops: seq<Op>, sofar: seq<nat>, all: seq<nat>)
    requires ops != [] && OpsCoded(packLens, ops) && Unpacks(ops, sofar, all)
    ensures OpsCoded(packLens, ops[1..]) && Used(packLens, ops[0].sym) && OpOk(ops[0])
    ensures ops[0].sym == 16 ==> sofar != []
    ensures Unpacks(ops[1..], Apply(ops[0], sofar), all)
    ensures OpsBits(packLens, ops) ==
              Code(packLens, ops[0].sym) + (ToBits(ops[0].extra, ExtraBits(ops[0].sym)) + OpsBits(packLens, ops[1..]))
  {
    hide Apply, ToBits, ExtraBits, Code, OpOk, Used;
  }

  lemma ReadPlain(v: View, g: Goal)
    requires ViewOk(v, g) && v.ph.InHeader? && v.ph.dyn.Lengths? && v.ph.dyn.ops != [] && v.ph.dyn.ops[0].sym < 16
    ensures Used(v.ph.h.packLens, v.ph.dyn.ops[0].sym)
    ensures Moves(v, v.(ph := v.ph.(dyn := Lengths(v.ph.dyn.sofar + [v.ph.dyn.ops[0].sym], v.ph.dyn.ops[1..]))),
                  Code(v.ph.h.packLens, v.ph.dyn.ops[0].sym), g)
  {
    hide AfterOk, BodyOk, HeaderOk, Unpacks, OpsCoded;
    var dyn := v.ph.dyn;
    OpsStep(v.ph.h.packLens, dyn.ops, dyn.sofar, v.ph.h.lens + v.ph.h.dists);
    DynMove(v, Lengths(dyn.sofar + [dyn.ops[0].sym], dyn.ops[1..]), Code(v.ph.h.packLens, dyn.ops[0].sym), g);
  }

  lemma ReadRunSym(v: View, g: Goal)
    requires ViewOk(v, g) && v.ph.InHeader? && v.ph.dyn.Lengths? && v.ph.dyn.ops != [] && v.ph.dyn.ops[0].sym >= 16
    ensures Used(v.ph.h.packLens, v.ph.dyn.ops[0].sym)
    ensures Moves(v, v.(ph := v.ph.(dyn := Run(v.ph.dyn.sofar, v.ph.dyn.ops[0], v.ph.dyn.ops[1..]))),
                  Code(v.ph.h.packLens, v.ph.dyn.ops[0].sym), g)
  {
    hide AfterOk, BodyOk, HeaderOk, Unpacks, OpsCoded, Apply, ToBits, ExtraBits;
    var dyn := v.ph.dyn;
    OpsStep(v.ph.h.packLens, dyn.ops, dyn.sofar, v.ph.h.lens + v.ph.h.dists);
    DynMove(v, Run(dyn.sofar, dyn.ops[0], dyn.ops[1..]), Code(v.ph.h.packLens, dyn.ops[0].sym), g);
  }

  lemma ReadRun(v: View, g: Goal)
    requires ViewOk(v, g) && v.ph.InHeader? && v.ph.dyn.Run?
    ensures v.ph.dyn.op.sym == 16 ==> v.ph.dyn.sofar != []
    ensures Moves(v, v.(ph := v.ph.(dyn := Lengths(Apply(v.ph.dyn.op, v.ph.dyn.sofar), v.ph.dyn.ops))),
                  ToBits(v.ph.dyn.op.extra, ExtraBits(v.ph.dyn.op.sym)), g)
  {
    hide AfterOk, BodyOk, HeaderOk, Unpacks, OpsCoded, Apply, ToBits, ExtraBits;
    var dyn := v.ph.dyn;
    DynMove(v, Lengths(Apply(dyn.op, dyn.sofar), dyn.ops), ToBits(dyn.op.extra, ExtraBits(dyn.op.sym)), g);
  }

  lemma StartBody(v: View, g: Goal)
    requires ViewOk(v, g) && v.ph.InHeader? && v.ph.dyn.Lengths? && v.ph.dyn.ops == []
    ensures v.ph.dyn.sofar == v.ph.h.lens + v.ph.h.dists
    ensures Moves(v, v.(ph := InBody(Symbol, Body(v.ph.h.lens, v.ph.h.dists, v.ph.ts))), [], g)
  {
    hide AfterOk, BodyOk, HeaderOk;
    Within(v, v.(ph := InBody(Symbol, Body(v.ph.h.lens, v.ph.h.dists, v.ph.ts))), [], g);
  }

  // ---------- within a body

  predicate HasDist(item: Item)
  {
    item.LenTail? || item.DistCode? || item.DistTail? || item.CopyRest?
  }

  lemma ItemMove(v: View, item: Item, b: Body, hist: seq<byte>, bits: seq<bool>, g: Goal)
    requires ViewOk(v, g) && v.ph.InBody? && BodyOk(b) && ItemOk(item, b)
    requires ItemRest(v.ph.item, v.ph.body) + Remaining(v.ph.body) == bits + (ItemRest(item, b) + Remaining(b))
    requires HasDist(item) ==> 1 <= item.dist <= |hist|
    requires AllReach(b.ts, ItemEnd(item, hist))
    requires Expand(b.ts, ItemEnd(item, hist)) == BlockEnd(v.ph, v.hist)
    ensures Moves(v, View(InBody(item, b), v.after, hist), bits, g)
  {
    hide AfterOk, BodyOk, ItemOk, ItemRest, ItemEnd;
    Within(v, View(InBody(item, b), v.after, hist), bits, g);
  }

  /** A move to another part of the same match. */
  lemma PartMove(v: View, item: Item, bits: seq<bool>, g: Goal)
    requires ViewOk(v, g) && v.ph.InBody? && ItemOk(item, v.ph.body)
    requires HasDist(v.ph.item) && HasDist(item) && item.dist == v.ph.item.dist
    requires (if item.CopyRest? then item.left else item.len) == if v.ph.item.CopyRest? then v.ph.item.left else v.ph.item.len
    requires ItemRest(v.ph.item, v.ph.body) == bits + ItemRest(item, v.ph.body)
    ensures Moves(v, v.(ph := v.ph.(item := item)), bits, g)
  {
    hide AfterOk, BodyOk, ItemOk, ItemRest, Remaining;
    var b := v.ph.body;
    assert ItemRest(v.ph.item, b) + Remaining(b) == bits + (ItemRest(item, b) + Remaining(b));
    ItemMove(v, item, b, v.hist, bits, g);
  }

  lemma BodyStep(b: Body)
    requires BodyOk(b) && b.ts != []
    ensures BodyOk(b.(ts := b.ts[1..])) && Coded(b.lens, b.dists, b.ts[0])
    ensures Remaining(b) == TokenBits(b.lens, b.dists, b.ts[0]) + Remaining(b.(ts := b.ts[1..]))
  {
    hide Decodable, Coded, TokenBits;
    assert Coded(b.lens, b.dists, b.ts[0]);
    assert TokensBits(b.lens, b.dists, b.ts) == TokenBits(b.lens, b.dists, b.ts[0]) + TokensBits(b.lens, b.dists, b.ts[1..]);
  }

  lemma ReadLiteral(v: View, g: Goal)
    requires ViewOk(v, g) && v.ph.InBody? && v.ph.item.Symbol? && v.ph.body.ts != [] && v.ph.body.ts[0].Literal?
    ensures Used(v.ph.body.lens, v.ph.body.ts[0].lit)
    ensures Moves(v, v.(ph := InBody(PutLit(v.ph.body.ts[0].lit), v.ph.body.(ts := v.ph.body.ts[1..]))),
                  Code(v.ph.body.lens, v.ph.body.ts[0].lit), g)
  {
    hide AfterOk, BodyOk, Remaining;
    var b := v.ph.body;
    BodyStep(b);
    ItemMove(v, PutLit(b.ts[0].lit), b.(ts := b.ts[1..]), v.hist, Code(b.lens, b.ts[0].lit), g);
  }

  lemma PutLiteral(v: View, g: Goal)
    requires ViewOk(v, g) && v.ph.InBody? && v.ph.item.PutLit?
    ensures Moves(v, View(InBody(Symbol, v.ph.body), v.after, v.hist + [v.ph.item.lit]), [], g)
  {
    hide AfterOk, BodyOk, Remaining;
    ItemMove(v, Symbol, v.ph.body, v.hist + [v.ph.item.lit], [], g);
  }

  lemma ReadMatch(v: View, g: Goal)
    requires ViewOk(v, g) && v.ph.InBody? && v.ph.item.Symbol? && v.ph.body.ts != [] && v.ph.body.ts[0].Match?
    ensures MIN_MATCH <= v.ph.body.ts[0].len <= MAX_MATCH && Used(v.ph.body.lens, LenSym(v.ph.body.ts[0].len - MIN_MATCH))
    ensures Moves(v, v.(ph := InBody(LenTail(v.ph.body.ts[0].len, v.ph.body.ts[0].dist), v.ph.body.(ts := v.ph.body.ts[1..]))),
                  Code(v.ph.body.lens, LenSym(v.ph.body.ts[0].len - MIN_MATCH)), g)
  {
    hide AfterOk, BodyOk, Remaining, LenExtraBits, DistBits, Copy;
    var b := v.ph.body;
    var t, b' := b.ts[0], b.(ts := b.ts[1..]);
    BodyStep(b);
    assert Reaches(t, v.hist);
    ItemMove(v, LenTail(t.len, t.dist), b', v.hist, Code(b.lens, LenSym(t.len - MIN_MATCH)), g);
  }

  lemma ReadLenBits(v: View, g: Goal)
    requires ViewOk(v, g) && v.ph.InBody? && v.ph.item.LenTail?
    ensures MIN_MATCH <= v.ph.item.len <= MAX_MATCH
    ensures Moves(v, v.(ph := v.ph.(item := DistCode(v.ph.item.len, v.ph.item.dist))), LenExtraBits(v.ph.item.len), g)
  {
    hide AfterOk, BodyOk, LenExtraBits, DistBits;
    PartMove(v, DistCode(v.ph.item.len, v.ph.item.dist), LenExtraBits(v.ph.item.len), g);
  }

  lemma ReadDistCode(v: View, g: Goal)
    requires ViewOk(v, g) && v.ph.InBody? && v.ph.item.DistCode?
    ensures 1 <= v.ph.item.dist <= DICT_SIZE && Used(v.ph.body.dists, DistSym(v.ph.item.dist - 1))
    ensures Moves(v, v.(ph := v.ph.(item := DistTail(v.ph.item.len, v.ph.item.dist))),
                  Code(v.ph.body.dists, DistSym(v.ph.item.dist - 1)), g)
  {
    hide AfterOk, BodyOk, DistExtraBits;
    PartMove(v, DistTail(v.ph.item.len, v.ph.item.dist), Code(v.ph.body.dists, DistSym(v.ph.item.dist - 1)), g);
  }

  lemma ReadDistBits(v: View, g: Goal)
    requires ViewOk(v, g) && v.ph.InBody? && v.ph.item.DistTail?
    ensures 1 <= v.ph.item.dist <= DICT_SIZE && MIN_MATCH <= v.ph.item.len
    ensures Moves(v, v.(ph := v.ph.(item := CopyRest(v.ph.item.len, v.ph.item.dist))), DistExtraBits(v.ph.item.dist), g)
  {
    hide AfterOk, BodyOk, DistExtraBits;
    PartMove(v, CopyRest(v.ph.item.len, v.ph.item.dist), DistExtraBits(v.ph.item.dist), g);
  }

  /** Part of a match has been copied, or all of it. */
  lemma CopyMore(v: View, g: Goal, hist: seq<byte>, left: nat)
    requires ViewOk(v, g) && v.ph.InBody? && v.ph.item.CopyRest?
    requires 1 <= v.ph.item.dist <= |hist| && v.ph.item.dist <= |v.hist|
    requires Copy(hist, left, v.ph.item.dist) == Copy(v.hist, v.ph.item.left, v.ph.item.dist)
    ensures Moves(v, View(v.ph.(item := CopyRest(left, v.ph.item.dist)), v.after, hist), [], g)
  {
    hide AfterOk, BodyOk, Remaining, Copy, Moves, AllReach, Expand, HeaderOk, DynOk, RawOk, Coded;
    ItemMove(v, CopyRest(left, v.ph.item.dist), v.ph.body, hist, [], g);
  }

  lemma EndCopy(v: View, g: Goal)
    requires ViewOk(v, g) && v.ph.InBody? && v.ph.item.CopyRest? && v.ph.item.left == 0
    ensures Moves(v, v.(ph := v.ph.(item := Symbol)), [], g)
  {
    hide AfterOk, BodyOk, Remaining, Moves, AllReach, Expand, HeaderOk, DynOk, RawOk, Coded;
    ItemMove(v, Symbol, v.ph.body, v.hist, [], g);
  }

  // ---------- what decoding asks for next, and why it comes to an end

  /** The symbol of the next code, where a code comes next. */
  function NextSym(ph: Phase): nat
  {
    match ph
    case InHeader(_, Lengths(_, ops), _) => if ops == [] then 0 else ops[0].sym
    case InBody(Symbol, b) =>
      if b.ts == [] then END_OF_BLOCK
      else if b.ts[0].Literal? then b.ts[0].lit
      else if MIN_MATCH <= b.ts[0].len <= MAX_MATCH then LenSym(b.ts[0].len - MIN_MATCH) else 0
    case InBody(DistCode(_, dist), _) => if 1 <= dist <= DICT_SIZE then DistSym(dist - 1) else 0
    case _ => 0
  }

  function SizeAt(sizes: seq<nat>, k: nat): nat
  {
    if k < |sizes| then sizes[k] else 0
  }

  /** Output that has been decoded and not been written. */
  function Owed(ph: Phase): nat
  {
    match ph
    case InRaw(RawPut(_, _)) => 1
    case InBody(PutLit(_), _) => 1
    case InBody(LenTail(len, _), _) => len
    case InBody(DistCode(len, _), _) => len
    case InBody(DistTail(len, _), _) => len
    case InBody(CopyRest(left, _), _) => left
    case _ => 0
  }

  /** The output so far is the beginning of the data. */
  lemma Prefix(v: View, g: Goal)
    requires ViewOk(v, g)
    ensures v.hist <= g.data
    ensures v.ph.AtEnd? ==> v.hist == g.data
  {
    hide RawOk, HeaderOk, DynOk, BodyOk, ItemOk, Reaches, Shape, StreamBits, StreamAligned, Grounded, BlockData;
  }

  /** Where output is about to be written, it is not yet complete. */
  lemma Unfinished(v: View, g: Goal)
    requires ViewOk(v, g)
    ensures v.ph.InRaw? && (v.ph.raw.RawPut? || (v.ph.raw.RawBytes? && v.ph.raw.data != [])) ==> |v.hist| < |g.data|
    ensures v.ph.InBody? && v.ph.item.PutLit? ==> |v.hist| < |g.data|
    ensures v.ph.InBody? && v.ph.item.CopyRest? && v.ph.item.left > 0 ==> |v.hist| < |g.data|
  {
    hide RawOk, HeaderOk, DynOk, BodyOk, ItemOk, Reaches, Shape, StreamBits, StreamAligned, Grounded, BlockData;
    assert BlockEnd(v.ph, v.hist) <= g.data;
  }

  /** Moves that neither read nor write go down in rank. */
  function Rank(ph: Phase): nat
  {
    match ph
    case AtEnd => 0
    case AtBlock => 1
    case InRaw(raw) =>
      if raw.Align? then 9 else if raw.RawHeader? then 8 else if raw.RawBytes? then 6 else 7
    case InHeader(_, dyn, _) => if dyn.Sizes? then 9 else if dyn.PackLens? then 8 else 7
    case InBody(item, _) =>
      if item.LenTail? then 6 else if item.DistCode? then 5 else if item.DistTail? then 4
      else if item.CopyRest? then 3 else 2
  }

  /** Strictly less is left to do. */
  ghost predicate Less(v': View, v: View)
  {
    var n', n := |Pending(v')|, |Pending(v)|;
    n' < n || (n' == n && (Owed(v'.ph) < Owed(v.ph) || (Owed(v'.ph) == Owed(v.ph) && Rank(v'.ph) < Rank(v.ph))))
  }

  lemma MovedLess(v: View, v': View, bits: seq<bool>, g: Goal)
    requires ViewOk(v, g) && Moves(v, v', bits, g)
    requires |bits| > 0 || Owed(v'.ph) < Owed(v.ph) || (Owed(v'.ph) == Owed(v.ph) && Rank(v'.ph) < Rank(v.ph))
    ensures Less(v', v)
  {
    hide ViewOk, Pending;
  }

  // ---------- a symbol of any kind

  /** The point after the next literal/length symbol. */
  ghost function AfterSym(v: View): View
    requires v.ph.InBody? && v.ph.item.Symbol?
  {
    var b := v.ph.body;
    if b.ts == [] then v.(ph := Next(v.after))
    else
      var b' := b.(ts := b.ts[1..]);
      match b.ts[0]
      case Literal(x) => v.(ph := InBody(PutLit(x), b'))
      case Match(len, dist) => v.(ph := InBody(LenTail(len, dist), b'))
  }

  lemma ReadSymbol(v: View, g: Goal)
    requires ViewOk(v, g) && v.ph.InBody? && v.ph.item.Symbol?
    ensures Used(v.ph.body.lens, NextSym(v.ph))
    ensures Moves(v, AfterSym(v), Code(v.ph.body.lens, NextSym(v.ph)), g)
  {
    hide ViewOk, Moves, LenSym, Code, Used;
    if v.ph.body.ts == [] {
      EndBody(v, g);
    } else if v.ph.body.ts[0].Literal? {
      ReadLiteral(v, g);
    } else {
      ReadMatch(v, g);
    }
  }

  /** What the symbol says about what comes next. */
  lemma SymbolKinds(v: View, g: Goal)
    requires ViewOk(v, g) && v.ph.InBody? && v.ph.item.Symbol?
    ensures var k, ts := NextSym(v.ph), v.ph.body.ts;
            if k < END_OF_BLOCK then ts != [] && ts[0] == Literal(k)
            else if k == END_OF_BLOCK then ts == []
            else ts != [] && ts[0].Match? && MIN_MATCH <= ts[0].len <= MAX_MATCH && k == LenSym(ts[0].len - MIN_MATCH)
  {
    hide AfterOk, Decodable, Reached, BlockEnd, LenSym, DistSym, Used;
    var b := v.ph.body;
    if b.ts != [] {
      assert Coded(b.lens, b.dists, b.ts[0]);
    }
  }

  lemma BodyFits(b: Body)
    requires BodyOk(b)
    ensures Fits(b.lens) && Fits(b.dists)
  {
    hide AllCoded, Decodable;
    DecodableFits(b.lens);
    DecodableFits(b.dists);
  }

  /** Code lengths are missing exactly as long as there are operations left. */
  lemma LengthsLeft(h: Header, sofar: seq<nat>, ops: seq<Op>)
    requires HeaderOk(h) && DynOk(h, Lengths(sofar, ops))
    ensures |sofar| + (if ops == [] then 0 else 1) <= |h.lens| + |h.dists| <= MAX_LENGTHS
    ensures ops == [] ==> |sofar| == |h.lens| + |h.dists|
    ensures ops != [] ==> Used(h.packLens, ops[0].sym) && OpOk(ops[0]) && (ops[0].sym == 16 ==> sofar != [])
  {
    hide Decodable;
    UnpacksLength(ops, sofar, h.lens + h.dists);
  }

  lemma RunRoom(h: Header, dyn: Dyn)
    requires HeaderOk(h) && dyn.Run? && DynOk(h, dyn)
    ensures |dyn.sofar| < MAX_LENGTHS && OpOk(dyn.op) && dyn.op.sym >= 16 && (dyn.op.sym == 16 ==> dyn.sofar != [])
  {
    hide Decodable, OpsCoded;
    UnpacksLength(dyn.ops, Apply(dyn.op, dyn.sofar), h.lens + h.dists);
  }

  /** The point after the next symbol of the code length code. */
  ghost function AfterLength(v: View): View
    requires v.ph.InHeader? && v.ph.dyn.Lengths? && v.ph.dyn.ops != []
  {
    var dyn := v.ph.dyn;
    var op, ops := dyn.ops[0], dyn.ops[1..];
    v.(ph := v.ph.(dyn := if op.sym < 16 then Lengths(dyn.sofar + [op.sym], ops) else Run(dyn.sofar, op, ops)))
  }

  lemma ReadLength(v: View, g: Goal)
    requires ViewOk(v, g) && v.ph.InHeader? && v.ph.dyn.Lengths? && v.ph.dyn.ops != []
    ensures Used(v.ph.h.packLens, v.ph.dyn.ops[0].sym)
    ensures Moves(v, AfterLength(v), Code(v.ph.h.packLens, v.ph.dyn.ops[0].sym), g)
  {
    hide ViewOk, Moves, Used, Code;
    if v.ph.dyn.ops[0].sym < 16 {
      ReadPlain(v, g);
    } else {
      ReadRunSym(v, g);
    }
  }
}
