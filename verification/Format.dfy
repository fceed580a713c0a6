/** The DEFLATE stream (RFC 1951): what a sequence of blocks looks like as bits, and what it stands for. */
module Format {
  import opened Bits
  import opened Canonical
  import opened Symbols
  import opened RunLength

  // ---------- tokens

  datatype Token = Literal(lit: byte) | Match(len: nat, dist: nat)

  predicate TokenOk(t: Token)
  {
    t.Match? ==> MIN_MATCH <= t.len <= MAX_MATCH && 1 <= t.dist <= DICT_SIZE
  }

  /** len bytes, each the one that dist bytes before it: the copy may overlap itself. */
  function Copy(hist: seq<byte>, len: nat, dist: nat): (r: seq<byte>)
    requires 1 <= dist <= |hist|
    ensures |r| == |hist| + len && hist <= r
    decreases len
  {
    if len == 0 then hist else Copy(hist + [hist[|hist| - dist]], len - 1, dist)
  }

  predicate Reaches(t: Token, hist: seq<byte>)
  {
    TokenOk(t) && (t.Match? ==> t.dist <= |hist|)
  }

  function Step(t: Token, hist: seq<byte>): (r: seq<byte>)
    requires Reaches(t, hist)
    ensures hist <= r
  {
    match t
    case Literal(b) => hist + [b]
    case Match(len, dist) => Copy(hist, len, dist)
  }

  ghost predicate AllReach(ts: seq<Token>, hist: seq<byte>)
  {
    ts == [] || (Reaches(ts[0], hist) && AllReach(ts[1..], Step(ts[0], hist)))
  }

  /** The output after the tokens, given the output before them. */
  function Expand(ts: seq<Token>, hist: seq<byte>): (r: seq<byte>)
    requires AllReach(ts, hist)
    ensures hist <= r
  {
    if ts == [] then hist else Expand(ts[1..], Step(ts[0], hist))
  }

  lemma {:induction false} ExpandConcat(a: seq<Token>, b: seq<Token>, hist: seq<byte>)
    requires AllReach(a, hist) && AllReach(b, Expand(a, hist))
    ensures AllReach(a + b, hist) && Expand(a + b, hist) == Expand(b, Expand(a, hist))
  {
    hide Reaches, Step;
    if a == [] {
      assert a + b == b;
    } else {
      ExpandConcat(a[1..], b, Step(a[0], hist));
      assert (a + b)[1..] == a[1..] + b;
    }
  }

  // ---------- tokens as bits

  /** Every symbol that the token needs has a code. */
  predicate Coded(lens: seq<nat>, dists: seq<nat>, t: Token)
  {
    TokenOk(t) &&
    match t
    case Literal(b) => Used(lens, b)
    case Match(len, dist) => Used(lens, LenSym(len - MIN_MATCH)) && Used(dists, DistSym(dist - 1))
  }

  function LenExtraBits(len: nat): seq<bool>
    requires MIN_MATCH <= len <= MAX_MATCH
  {
    var m := len - MIN_MATCH;
    ToBits(Masked(m, LenExtra(m)), LenExtra(m))
  }

  function DistExtraBits(dist: nat): seq<bool>
    requires 1 <= dist <= DICT_SIZE
  {
    var m := dist - 1;
    ToBits(Masked(m, DistExtra(m)), DistExtra(m))
  }

  function DistBits(dists: seq<nat>, dist: nat): seq<bool>
    requires 1 <= dist <= DICT_SIZE && Used(dists, DistSym(dist - 1))
  {
    Code(dists, DistSym(dist - 1)) + DistExtraBits(dist)
  }

  function TokenBits(lens: seq<nat>, dists: seq<nat>, t: Token): (b: seq<bool>)
    requires Coded(lens, dists, t)
    ensures |b| > 0
  {
    match t
    case Literal(b) => Code(lens, b)
    case Match(len, dist) => Code(lens, LenSym(len - MIN_MATCH)) + (LenExtraBits(len) + DistBits(dists, dist))
  }

  ghost predicate AllCoded(lens: seq<nat>, dists: seq<nat>, ts: seq<Token>)
  {
    forall i :: 0 <= i < |ts| ==> Coded(lens, dists, ts[i])
  }

  function TokensBits(lens: seq<nat>, dists: seq<nat>, ts: seq<Token>): seq<bool>
    requires AllCoded(lens, dists, ts)
  {
    if ts == [] then [] else TokenBits(lens, dists, ts[0]) + TokensBits(lens, dists, ts[1..])
  }

  lemma TokensBitsHead(lens: seq<nat>, dists: seq<nat>, t: Token, ts: seq<Token>)
    requires Coded(lens, dists, t) && AllCoded(lens, dists, ts)
    ensures AllCoded(lens, dists, [t] + ts)
    ensures TokensBits(lens, dists, [t] + ts) == TokenBits(lens, dists, t) + TokensBits(lens, dists, ts)
  {
    hide Coded, TokenBits;
    assert ([t] + ts)[1..] == ts;
  }

  /** One more token, one more stretch of bits. */
  lemma {:induction false} TokensBitsSnoc(lens: seq<nat>, dists: seq<nat>, ts: seq<Token>, t: Token)
    requires AllCoded(lens, dists, ts) && Coded(lens, dists, t)
    ensures AllCoded(lens, dists, ts + [t])
    ensures TokensBits(lens, dists, ts + [t]) == TokensBits(lens, dists, ts) + TokenBits(lens, dists, t)
  {
    hide Coded, TokenBits;
    if ts == [] {
      TokensBitsHead(lens, dists, t, []);
      assert ts + [t] == [t] + [];
    } else {
      var u := ts[1..];
      TokensBitsSnoc(lens, dists, u, t);
      TokensBitsHead(lens, dists, ts[0], u + [t]);
      assert ts + [t] == [ts[0]] + (u + [t]);
    }
  }

  /** The tokens and the end-of-block symbol. */
  function BodyBits(lens: seq<nat>, dists: seq<nat>, ts: seq<Token>): (b: seq<bool>)
    requires AllCoded(lens, dists, ts) && Used(lens, END_OF_BLOCK)
  {
    TokensBits(lens, dists, ts) + Code(lens, END_OF_BLOCK)
  }

  // ---------- code tables

  /** The fixed codes of section 3.2.6 of RFC 1951. */
  function FixedLens(): (s: seq<nat>)
    ensures |s| == 288
  {
    Repeat(8, 144) + Repeat(9, 112) + Repeat(7, 24) + Repeat(8, 8)
  }

  function FixedDists(): (s: seq<nat>)
    ensures |s| == 32
  {
    Repeat(5, 32)
  }

  /** The order in which the lengths of the code length code are sent. */
  const SWIZZLE: seq<nat> := [16, 17, 18, 0, 8, 7, 9, 6, 10, 5, 11, 4, 12, 3, 13, 2, 14, 1, 15]

  function Swizzle(i: nat): (s: nat)
    requires i < PACK_SYMBOLS
    ensures s < PACK_SYMBOLS
  {
    SWIZZLE[i]
  }

  datatype Header = Header(lens: seq<nat>, dists: seq<nat>, packLens: seq<nat>, numPackLens: nat, ops: seq<Op>)

  ghost predicate HeaderOk(h: Header)
  {
    && 257 <= |h.lens| <= 288 && 1 <= |h.dists| <= 32
    && Decodable(h.lens) && Decodable(h.dists) && Decodable(h.packLens)
    && |h.packLens| == PACK_SYMBOLS && 4 <= h.numPackLens <= PACK_SYMBOLS
    && (forall i :: 0 <= i < PACK_SYMBOLS ==> h.packLens[Swizzle(i)] < 8)
    && (forall i :: h.numPackLens <= i < PACK_SYMBOLS ==> h.packLens[Swizzle(i)] == 0)
    && Unpacks(h.ops, [], h.lens + h.dists)
    && OpsCoded(h.packLens, h.ops)
  }

  ghost predicate OpsCoded(packLens: seq<nat>, ops: seq<Op>)
  {
    forall i :: 0 <= i < |ops| ==> Used(packLens, ops[i].sym)
  }

  function OpBits(packLens: seq<nat>, op: Op): (b: seq<bool>)
    requires Used(packLens, op.sym)
    ensures |b| > 0
  {
    Code(packLens, op.sym) + ToBits(op.extra, ExtraBits(op.sym))
  }

  function OpsBits(packLens: seq<nat>, ops: seq<Op>): seq<bool>
    requires OpsCoded(packLens, ops)
  {
    if ops == [] then [] else OpBits(packLens, ops[0]) + OpsBits(packLens, ops[1..])
  }

  /** The lengths of the code length code, from the i-th one sent. */
  function PackLensBits(packLens: seq<nat>, i: nat, n: nat): seq<bool>
    requires |packLens| == PACK_SYMBOLS && n <= PACK_SYMBOLS
    decreases n - i
  {
    if i >= n then [] else ToBits(packLens[Swizzle(i)], 3) + PackLensBits(packLens, i + 1, n)
  }

  function SizeBits(h: Header, i: nat): (b: seq<bool>)
    requires HeaderOk(h)
    ensures |b| == if i < 2 then 5 else 4
  {
    if i == 0 then ToBits(|h.lens| - 257, 5) else if i == 1 then ToBits(|h.dists| - 1, 5) else ToBits(h.numPackLens - 4, 4)
  }

  ghost function HeaderBits(h: Header): seq<bool>
    requires HeaderOk(h)
  {
    SizeBits(h, 0) + (SizeBits(h, 1) + (SizeBits(h, 2) + (PackLensBits(h.packLens, 0, h.numPackLens) + OpsBits(h.packLens, h.ops))))
  }

  // ---------- blocks

  datatype Tables = Fixed | Dynamic(header: Header)
  {
    function Lens(): seq<nat> { if Fixed? then FixedLens() else header.lens }
    function Dists(): seq<nat> { if Fixed? then FixedDists() else header.dists }
  }

  datatype Block = Stored(pad: seq<bool>, data: seq<byte>) | Compressed(tables: Tables, tokens: seq<Token>)

  ghost predicate TablesOk(tb: Tables)
  {
    tb.Dynamic? ==> HeaderOk(tb.header)
  }

  ghost predicate Shape(b: Block)
  {
    match b
    case Stored(pad, data) => |pad| < 8 && |data| < 0x10000
    case Compressed(tb, ts) => TablesOk(tb) && Used(tb.Lens(), END_OF_BLOCK) && AllCoded(tb.Lens(), tb.Dists(), ts)
  }

  /** Stored data begin on a byte boundary of the stream, when the block begins ofs bits into it. */
  predicate Aligned(b: Block, ofs: nat)
  {
    b.Stored? ==> (ofs + 3 + |b.pad|) % 8 == 0
  }

  /** No match reaches back before the start of the output. */
  ghost predicate Grounded(b: Block, hist: seq<byte>)
  {
    b.Compressed? ==> AllReach(b.tokens, hist)
  }

  function LengthField(n: nat): (b: seq<bool>)
    requires n < 0x10000
    ensures |b| == 32
  {
    ToBits(n, 16) + ToBits(0xFFFF - n, 16)
  }

  function TypeOf(b: Block): (t: nat)
    ensures t < 3
  {
    if b.Stored? then 0 else if b.tables.Fixed? then 1 else 2
  }

  /** What follows the three header bits of a block. */
  ghost function ContentBits(b: Block): seq<bool>
    requires Shape(b)
  {
    match b
    case Stored(pad, data) => pad + (LengthField(|data|) + BytesToBits(data))
    case Compressed(Fixed, ts) => BodyBits(FixedLens(), FixedDists(), ts)
    case Compressed(Dynamic(h), ts) => HeaderBits(h) + BodyBits(h.lens, h.dists, ts)
  }

  function HeaderThree(b: Block, final: bool): (r: seq<bool>)
    ensures |r| == 3
  {
    [final] + ToBits(TypeOf(b), 2)
  }

  ghost function BlockBits(b: Block, final: bool): (r: seq<bool>)
    requires Shape(b)
    ensures |r| >= 3
  {
    HeaderThree(b, final) + ContentBits(b)
  }

  function BlockData(b: Block, hist: seq<byte>): (r: seq<byte>)
    requires Grounded(b, hist)
    ensures hist <= r
  {
    match b
    case Stored(_, data) => hist + data
    case Compressed(_, ts) => Expand(ts, hist)
  }

  // ---------- streams

  ghost predicate AllShape(bs: seq<Block>)
  {
    forall i :: 0 <= i < |bs| ==> Shape(bs[i])
  }

  /** The bits of the blocks, the last of which is marked as final if the stream ends there. */
  ghost function StreamBits(bs: seq<Block>, ends: bool): seq<bool>
    requires AllShape(bs)
  {
    if bs == [] then [] else BlockBits(bs[0], ends && |bs| == 1) + StreamBits(bs[1..], ends)
  }

  ghost predicate StreamAligned(bs: seq<Block>, ofs: nat)
    requires AllShape(bs)
  {
    bs == [] || (Aligned(bs[0], ofs) && StreamAligned(bs[1..], ofs + |BlockBits(bs[0], false)|))
  }

  ghost predicate StreamGrounded(bs: seq<Block>, hist: seq<byte>)
  {
    bs == [] || (Grounded(bs[0], hist) && StreamGrounded(bs[1..], BlockData(bs[0], hist)))
  }

  ghost function StreamData(bs: seq<Block>, hist: seq<byte>): (r: seq<byte>)
    requires StreamGrounded(bs, hist)
    ensures hist <= r
  {
    if bs == [] then hist else StreamData(bs[1..], BlockData(bs[0], hist))
  }

  // ---------- the fixed codes are complete

  lemma {:induction false} CountInRepeat(x: nat, n: nat, hi: nat, l: nat)
    requires hi <= n
    ensures CountIn(Repeat(x, n), hi, l) == if x == l then hi else 0
  {
    if hi > 0 {
      CountInRepeat(x, n, hi - 1, l);
    }
  }

  lemma FixedCounts(l: nat)
    ensures Count(FixedLens(), l) == if l == 7 then 24 else if l == 8 then 152 else if l == 9 then 112 else 0
    ensures Count(FixedDists(), l) == if l == 5 then 32 else 0
  {
    var a, b, c, d := Repeat(8, 144), Repeat(9, 112), Repeat(7, 24), Repeat(8, 8);
    CountInRepeat(8, 144, 144, l);
    CountInRepeat(9, 112, 112, l);
    CountInRepeat(7, 24, 24, l);
    CountInRepeat(8, 8, 8, l);
    CountInRepeat(5, 32, 32, l);
    CountInConcat(a, b, |b|, l);
    CountInConcat(a + b, c, |c|, l);
    CountInConcat(a + b + c, d, |d|, l);
  }

  lemma {:induction false} FixedTotals(l: nat)
    ensures Total(FixedLens(), l) == if l < 7 then 0 else if l == 7 then 24 else if l == 8 then 200 else Pow2(l)
    ensures Total(FixedDists(), l) == if l < 5 then 0 else Pow2(l)
  {
    FixedCounts(l);
    hide FixedLens, FixedDists, Count;
    assert Pow2(5) == 32 && Pow2(9) == 512;
    if l > 0 {
      FixedTotals(l - 1);
    }
  }

  lemma FixedLimited()
    ensures Limited(FixedLens()) && Limited(FixedDists())
  {
  }

  lemma FromTotal(sizes: seq<nat>, l: nat)
    requires Limited(sizes) && l == MAX_CODE_SIZE && Total(sizes, l) == Pow2(l)
    ensures Complete(sizes)
  {
  }

  lemma FixedAt()
    ensures forall i :: 0 <= i < 288 ==> FixedLens()[i] == if i < 144 then 8 else if i < 256 then 9 else if i < 280 then 7 else 8
    ensures forall i :: 0 <= i < 32 ==> FixedDists()[i] == 5
  {
  }

  lemma FixedComplete()
    ensures Complete(FixedLens()) && Complete(FixedDists())
  {
    FixedLimited();
    hide FixedLens, FixedDists, Total, Count;
    var l := MAX_CODE_SIZE;
    FixedTotals(l);
    FromTotal(FixedLens(), l);
    FromTotal(FixedDists(), l);
  }
}
