/** The decompressor as a coroutine: it stops wherever it lacks input or room for output, keeps its
    registers, and goes on from there in the next call. */
module Inflators {
  import opened Bits
  import opened Canonical
  import opened Symbols
  import opened RunLength
  import opened Format
  import opened Progress
  import opened HuffTables
  import opened BitReaders
  import opened Windows

  datatype Status = Going | NeedsMoreInput | HasMoreOutput | Done

  /** The points of the coroutine, named after what it does next. */
  datatype Stage =
    | ReadBlock
    | SkipPadding
    | RawLength
    | RawFromBuffer
    | RawWait
    | RawCopy
    | TableSize
    | PackLength
    | LengthSymbol(filling: bool)
    | LengthRun
    | LitSymbol(filling: bool)
    | LitWait
    | LengthExtra
    | DistSymbol(filling: bool)
    | DistanceExtra
    | CopyOut(slow: bool)
    | Finished

  lemma SplitEqual(a: seq<bool>, b: seq<bool>, c: seq<bool>, d: seq<bool>)
    requires a + b == c + d && |a| == |c|
    ensures a == c && b == d
  {
    assert a == (a + b)[..|a|] && c == (c + d)[..|c|];
    assert b == (a + b)[|a|..] && d == (c + d)[|c|..];
  }

  lemma SplitPrefix(a: seq<bool>, b: seq<bool>, c: seq<bool>)
    ensures a <= a + b + c && |a| <= |a + b + c|
    ensures a + b + c == a + (b + c)
  {
  }

  /** A whole valid stream, in whole bytes with what follows it. */
  ghost predicate WholeStream(blocks: seq<Block>, tail: seq<bool>)
  {
    && AllShape(blocks) && StreamAligned(blocks, 0) && StreamGrounded(blocks, [])
    && |StreamBits(blocks, true) + tail| % 8 == 0
  }

  ghost function GoalOf(blocks: seq<Block>, tail: seq<bool>): Goal
    requires WholeStream(blocks, tail)
  {
    Goal(|StreamBits(blocks, true) + tail|, tail, StreamData(blocks, []))
  }

  lemma StartView(blocks: seq<Block>, tail: seq<bool>)
    requires blocks != [] && WholeStream(blocks, tail)
    ensures var v := View(AtBlock, blocks, []);
            ViewOk(v, GoalOf(blocks, tail)) && Pending(v) == StreamBits(blocks, true) && GoalOf(blocks, tail).tail == tail
  {
    hide Shape, StreamBits, StreamAligned, StreamGrounded, StreamData;
  }

  class Inflator {
    const r: BitReader
    const w: Window
    const lit: HuffTable
    const dst: HuffTable
    const pk: HuffTable
    const lenCodes: array<nat>
    const rawHeader: array<nat>
    const tableSizes: array<nat>
    var at: Stage
    var final: nat
    var dist: nat
    var counter: nat
    var numExtra: nat
    var distFrom: nat
    ghost var view: View
    ghost var goal: Goal
    ghost var laps: nat

    /** tinfl_init.  The ghost parameters are a stream, cut into blocks, and what may follow it. */
    constructor (buffer: array<byte>, ring: bool, ghost blocks: seq<Block>, ghost tail: seq<bool>)
      requires ring ==> DICT_SIZE <= buffer.Length
      requires blocks != [] && WholeStream(blocks, tail)
      ensures Valid()
      ensures fresh(r) && fresh(w) && w.out == buffer && w.wraps == ring
      ensures fresh(lenCodes) && fresh(rawHeader) && fresh(tableSizes)
      ensures fresh(lit.codeSize) && fresh(lit.lookUp) && fresh(lit.tree) && fresh(dst.codeSize) && fresh(dst.lookUp)
      ensures fresh(dst.tree) && fresh(pk.codeSize) && fresh(pk.lookUp) && fresh(pk.tree)
      ensures w.pos == 0 && w.hist == [] && r.pos == 0 && r.input == []
      ensures r.future == StreamBits(blocks, true) + tail && goal == GoalOf(blocks, tail)
    {
      hide Shape, StreamBits, StreamAligned, StreamGrounded, StreamData, GoalOf;
      r := new BitReader(StreamBits(blocks, true) + tail);
      w := new Window(buffer, ring);
      lit := new HuffTable();
      dst := new HuffTable();
      pk := new HuffTable();
      lenCodes := new nat[LEN_CODES_SIZE];
      rawHeader := new nat[4];
      tableSizes := new nat[3];
      at, final, dist, counter, numExtra, distFrom := ReadBlock, 0, 0, 0, 0, 0;
      view := View(AtBlock, blocks, []);
      goal := GoalOf(blocks, tail);
      laps := 0;
      new;
      assert Parts();
      hide Parts, Valid, Window.Valid, BitReader.Valid, HuffTable.Valid, BitReader.Bits, WholeStream, BitReader.Starved;
      Begin(blocks, tail);
    }

    /** At the start of a stream. */
    lemma Begin(blocks: seq<Block>, tail: seq<bool>)
      requires Parts() && r.Valid() && w.Valid() && at == ReadBlock && w.hist == []
      requires blocks != [] && WholeStream(blocks, tail)
      requires view == View(AtBlock, blocks, []) && goal == GoalOf(blocks, tail)
      requires r.Bits() == StreamBits(blocks, true) + tail
      ensures Valid()
    {
      hide Parts, ViewOk, Pending, WholeStream, BitReader.Bits, BitReader.Valid, Window.Valid, Shape, StreamBits, StreamAligned,
        StreamGrounded, StreamData, GoalOf;
      StartView(blocks, tail);
    }

    /** The parts are all there, and none is used twice. */
    ghost predicate Parts()
    {
      && lit.Valid() && dst.Valid() && pk.Valid()
      && lit.lookUp != dst.lookUp && lit.lookUp != dst.tree && lit.lookUp != pk.lookUp && lit.lookUp != pk.tree
      && lit.tree != dst.lookUp && lit.tree != dst.tree && lit.tree != pk.lookUp && lit.tree != pk.tree
      && dst.lookUp != pk.lookUp && dst.lookUp != pk.tree && dst.tree != pk.lookUp && dst.tree != pk.tree
      && lenCodes.Length == LEN_CODES_SIZE && rawHeader.Length == 4 && tableSizes.Length == 3
      && lenCodes != rawHeader && lenCodes != tableSizes && rawHeader != tableSizes
      && lit.codeSize != dst.codeSize && lit.codeSize != pk.codeSize && dst.codeSize != pk.codeSize
      && lenCodes !in {lit.codeSize, dst.codeSize, pk.codeSize}
      && rawHeader !in {lit.codeSize, dst.codeSize, pk.codeSize}
      && tableSizes !in {lit.codeSize, dst.codeSize, pk.codeSize}
      && (w.wraps ==> DICT_SIZE <= w.out.Length)
    }

    /** What has been read and written so far is on the way to the goal. */
    ghost predicate OnTrack()
      reads `view, `goal, r, w, w.out
    {
      && r.Valid() && w.Valid()
      && ViewOk(view, goal) && w.hist == view.hist
      && r.Bits() == Pending(view) + goal.tail
    }

    lemma Tracked()
      requires OnTrack()
      ensures ViewOk(view, goal) && w.hist == view.hist && r.Valid() && w.Valid() && r.Bits() == Pending(view) + goal.tail
    {
      hide ViewOk, Window.Valid, BitReader.Bits, BitReader.Valid, Pending;
    }

    /** There is no room for output, and there is output to come. */
    ghost predicate Stuck()
      reads `view, `goal, w`pos, w`end
    {
      w.pos == w.end && |view.hist| < |goal.data|
    }

    /** Reads n bits, which the stream says are bits, and moves on to v'. */
    method ReadField(n: nat, ghost bits: seq<bool>, ghost v': View) returns (ok: bool, v: nat)
      requires Parts() && OnTrack() && n <= 16 && |bits| == n && v'.hist == view.hist
      requires Moves(view, v', bits, goal)
      modifies this`view, r`pos, r`bitBuf, r`numBits
      ensures OnTrack()
      ensures if ok then view == v' && v < Pow2(n) && ToBits(v, n) == bits
              else view == old(view) && r.Starved()
    {
      hide ViewOk, Pending, Moves, Window.Valid, BitReader.Bits, ToBits;
      Moved(view, v', bits, goal);
      SplitPrefix(bits, Pending(v'), goal.tail);
      ok, v := r.GetBits(n);
      if ok {
        view := v';
        SplitEqual(ToBits(v, n), r.Bits(), bits, Pending(v') + goal.tail);
      }
    }

    /** Decodes the symbol k, which the stream says comes next, and moves on to v'. */
    method ReadSym(table: HuffTable, resume: bool, ghost sizes: seq<nat>, ghost k: nat, ghost v': View)
      returns (ok: bool, sym: nat)
      requires Parts() && OnTrack() && v'.hist == view.hist
      requires table.Valid() && table.Ready(sizes) && Fits(sizes) && Used(sizes, k)
      requires resume ==> r.numBits < sizes[k] && r.numBits < MAX_CODE_SIZE
      requires Moves(view, v', Code(sizes, k), goal)
      modifies this`view, r`pos, r`bitBuf, r`numBits
      ensures OnTrack()
      ensures if ok then view == v' && sym == k
              else view == old(view) && r.Starved() && r.numBits < sizes[k] && r.numBits < MAX_CODE_SIZE
    {
      hide ViewOk, Pending, Moves, Fits, Window.Valid, BitReader.Bits, BitReader.Valid, ToBits, Code, HuffTable.Ready;
      Moved(view, v', Code(sizes, k), goal);
      SplitPrefix(Code(sizes, k), Pending(v'), goal.tail);
      ok, sym := r.DecodeSym(table, resume, sizes, k);
      if ok {
        view := v';
        SplitEqual(Code(sizes, k), r.Bits(), Code(sizes, k), Pending(v') + goal.tail);
      }
    }

    /** A move that reads nothing. */
    ghost method Pass(v': View)
      requires Parts() && OnTrack() && Moves(view, v', [], goal) && v'.hist == view.hist
      modifies this`view
      ensures OnTrack() && view == v'
    {
      hide ViewOk, Pending, Moves, Window.Valid, BitReader.Bits;
      Moved(view, v', [], goal);
      assert [] + Pending(v') == Pending(v');
      view := v';
    }

    /** One byte, from the bit buffer if it holds any bits, and else straight from the input. */
    method ReadByte(ghost c: byte, ghost v': View) returns (ok: bool, x: nat)
      requires Parts() && OnTrack() && v'.hist == view.hist && r.numBits % 8 == 0
      requires Moves(view, v', ToBits(c, 8), goal)
      modifies this`view, r`pos, r`bitBuf, r`numBits
      ensures OnTrack() && r.numBits % 8 == 0
      ensures if ok then view == v' && x == c else view == old(view) && r.Starved()
    {
      hide Parts, ViewOk, Pending, Moves, Window.Valid, BitReader.Bits, BitReader.Valid, ToBits;
      assert Pow2(8) == 256;
      r.Parity();
      Moved(view, v', ToBits(c, 8), goal);
      if r.numBits > 0 {
        ok, x := ReadField(8, ToBits(c, 8), v');
        if ok {
          ToBitsInjective(x, c, 8);
        }
      } else {
        SplitPrefix(ToBits(c, 8), Pending(v'), goal.tail);
        ok, x := r.GetByte();
        if ok {
          view := v';
          SplitEqual(ToBits(x, 8), r.Bits(), ToBits(c, 8), Pending(v') + goal.tail);
          ToBitsInjective(x, c, 8);
        }
      }
      r.Parity();
    }

    // ---------- the registers at each stage

    ghost predicate RawRegs(raw: Raw)
      requires Parts() && RawOk(raw)
      reads `at, `counter, `dist, r`numBits, rawHeader
    {
      match raw
      case Align(pad, data) => at == SkipPadding && |pad| == r.numBits % 8
      case RawHeader(data, i) =>
        at == RawLength && counter == i && r.numBits % 8 == 0 &&
        forall j :: 0 <= j < i ==> rawHeader[j] == LengthByte(|data|, j)
      case RawBits(data) => at == RawFromBuffer && counter == |data| && r.numBits % 8 == 0
      case RawPut(b, data) => at == RawWait && dist == b && counter == |data| + 1 && r.numBits % 8 == 0
      case RawBytes(data) => at == RawCopy && counter == |data| && (data != [] ==> r.numBits == 0)
    }

    ghost predicate SizesKnown(h: Header, i: nat)
      requires Parts()
      reads tableSizes
    {
      && (i > 0 ==> tableSizes[0] == |h.lens|)
      && (i > 1 ==> tableSizes[1] == |h.dists|)
      && (i > 2 ==> tableSizes[2] == h.numPackLens)
    }

    /** Stopped while filling the bit buffer for a code of size bits. */
    ghost predicate Filling(filling: bool, size: nat)
      reads r`numBits
    {
      filling ==> r.numBits < size && r.numBits < MAX_CODE_SIZE
    }

    /** The first i lengths of the code length code are in place, the others are still zero. */
    ghost predicate PackKnown(h: Header, i: nat)
      requires Parts() && |h.packLens| == PACK_SYMBOLS && i <= PACK_SYMBOLS
      reads pk.codeSize
    {
      forall j :: 0 <= j < PACK_SYMBOLS ==> pk.codeSize[Swizzle(j)] == if j < i then h.packLens[Swizzle(j)] else 0
    }

    ghost predicate LengthsKnown(h: Header, sofar: seq<nat>)
      requires Parts()
      reads `counter, tableSizes, pk.lookUp, pk.tree, lenCodes
    {
      SizesKnown(h, 2) && pk.Ready(h.packLens) && counter == |sofar| <= LEN_CODES_SIZE && lenCodes[..counter] == sofar
    }

    ghost predicate HeaderRegs(h: Header, dyn: Dyn)
      requires Parts() && HeaderOk(h) && DynOk(h, dyn)
      reads `at, `counter, `dist, `numExtra, r`numBits, tableSizes, pk.codeSize, pk.lookUp, pk.tree, lenCodes
    {
      match dyn
      case Sizes(i) => at == TableSize && counter == i && SizesKnown(h, i)
      case PackLens(i) => at == PackLength && counter == i && SizesKnown(h, 3) && PackKnown(h, i)
      case Lengths(sofar, ops) =>
        at.LengthSymbol? && LengthsKnown(h, sofar) && (ops != [] ==> Filling(at.filling, SizeAt(h.packLens, ops[0].sym)))
      case Run(sofar, op, ops) =>
        at == LengthRun && LengthsKnown(h, sofar) && dist == op.sym && numExtra == ExtraBits(op.sym)
    }

    ghost predicate ItemRegs(item: Item, b: Body)
      requires Parts() && BodyOk(b) && ItemOk(item, b)
      reads `at, `counter, `dist, `numExtra, `distFrom, `laps, r`numBits, w`pos, w`hist
    {
      match item
      case Symbol => at.LitSymbol? && Filling(at.filling, SizeAt(b.lens, NextSym(InBody(item, b))))
      case PutLit(x) => at == LitWait && counter == x
      case LenTail(len, _) =>
        at == LengthExtra && numExtra == LenExtra(len - MIN_MATCH) && counter + Masked(len - MIN_MATCH, numExtra) == len
      case DistCode(len, d) => at.DistSymbol? && counter == len && Filling(at.filling, SizeAt(b.dists, DistSym(d - 1)))
      case DistTail(len, d) =>
        at == DistanceExtra && counter == len && numExtra == DistExtra(d - 1) && dist + Masked(d - 1, numExtra) == d
      case CopyRest(left, d) =>
        at.CopyOut? && counter == left && dist == d && w.Kept(d) && left > 0 && (!at.slow ==> left >= MIN_MATCH) &&
        distFrom == w.pos + laps * w.out.Length && (!w.wraps ==> laps == 0)
    }

    /** Once in a block, the decompressor knows whether it is the last. */
    ghost predicate Flagged()
      reads `view, `final
    {
      view.ph.AtBlock? || (final % 2 == 1 <==> view.after == [])
    }

    ghost predicate Registers()
      requires Parts() && PhaseOk(view.ph)
      reads this, r`numBits, w`pos, w`hist, rawHeader, tableSizes, lenCodes, pk.codeSize, pk.lookUp, pk.tree,
            lit.lookUp, lit.tree, dst.lookUp, dst.tree
    {
      && Flagged()
      && match view.ph
         case AtBlock => at == ReadBlock
         case AtEnd => at == Finished
         case InRaw(raw) => RawRegs(raw)
         case InHeader(h, dyn, _) => HeaderRegs(h, dyn)
         case InBody(item, b) => lit.Ready(b.lens) && dst.Ready(b.dists) && ItemRegs(item, b)
    }

    ghost predicate Valid()
      reads this, r, w, w.out, rawHeader, tableSizes, lenCodes, pk.codeSize, pk.lookUp, pk.tree,
            lit.lookUp, lit.tree, dst.lookUp, dst.tree
    {
      Parts() && OnTrack() && Registers()
    }

    /** The stage says where in the stream the decompressor is. */
    lemma AtStart()
      requires Valid() && (at == ReadBlock || at == Finished)
      ensures Parts() && OnTrack() && Flagged()
      ensures ViewOk(view, goal) && w.hist == view.hist && r.Valid() && w.Valid()
      ensures if at == ReadBlock then view.ph.AtBlock? && view.after != [] else view.ph.AtEnd?
    {
      hide AfterOk, HeaderOk, DynOk, BodyOk, ItemOk, Parts, Window.Valid, BitReader.Bits, BitReader.Valid, Pending,
        HuffTable.Ready, SizesKnown, LengthsKnown, PackKnown, Filling, BlockEnd, Reached;
    }

    lemma WhereRaw()
      requires Valid() && at in {SkipPadding, RawLength, RawFromBuffer, RawWait, RawCopy}
      ensures Parts() && OnTrack() && Flagged()
      ensures ViewOk(view, goal) && w.hist == view.hist && r.Valid() && w.Valid()
      ensures r.Bits() == Pending(view) + goal.tail
      ensures view.ph.InRaw? && RawOk(view.ph.raw) && RawRegs(view.ph.raw)
      ensures at == SkipPadding ==> view.ph.raw.Align?
      ensures at == RawLength ==> view.ph.raw.RawHeader?
      ensures at == RawFromBuffer ==> view.ph.raw.RawBits?
      ensures at == RawWait ==> view.ph.raw.RawPut?
      ensures at == RawCopy ==> view.ph.raw.RawBytes?
    {
      hide AfterOk, HeaderOk, DynOk, BodyOk, ItemOk, Parts, Window.Valid, BitReader.Bits, BitReader.Valid, Pending,
        HuffTable.Ready, SizesKnown, LengthsKnown, PackKnown, Filling, BlockEnd, Reached;
    }

    lemma WhereHeader()
      requires Valid() && (at == TableSize || at == PackLength || at.LengthSymbol? || at == LengthRun)
      ensures Parts() && OnTrack() && Flagged()
      ensures ViewOk(view, goal) && w.hist == view.hist && r.Valid() && w.Valid()
      ensures view.ph.InHeader?
      ensures HeaderOk(view.ph.h) && BodyOk(Body(view.ph.h.lens, view.ph.h.dists, view.ph.ts))
      ensures DynOk(view.ph.h, view.ph.dyn) && HeaderRegs(view.ph.h, view.ph.dyn)
      ensures at == TableSize ==> view.ph.dyn.Sizes?
      ensures at == PackLength ==> view.ph.dyn.PackLens?
      ensures at.LengthSymbol? ==> view.ph.dyn.Lengths?
      ensures at == LengthRun ==> view.ph.dyn.Run?
    {
      hide AfterOk, HeaderOk, DynOk, BodyOk, ItemOk, Parts, Window.Valid, BitReader.Bits, BitReader.Valid, Pending,
        HuffTable.Ready, SizesKnown, LengthsKnown, PackKnown, Filling, BlockEnd, Reached;
    }

    lemma WhereBody()
      requires Valid()
      requires at.LitSymbol? || at == LitWait || at == LengthExtra || at.DistSymbol? || at == DistanceExtra || at.CopyOut?
      ensures Parts() && OnTrack() && Flagged()
      ensures ViewOk(view, goal) && w.hist == view.hist && r.Valid() && w.Valid()
      ensures view.ph.InBody? && BodyOk(view.ph.body) && ItemOk(view.ph.item, view.ph.body)
      ensures lit.Ready(view.ph.body.lens) && dst.Ready(view.ph.body.dists) && ItemRegs(view.ph.item, view.ph.body)
      ensures at.LitSymbol? ==> view.ph.item.Symbol?
      ensures at == LitWait ==> view.ph.item.PutLit?
      ensures at == LengthExtra ==> view.ph.item.LenTail?
      ensures at.DistSymbol? ==> view.ph.item.DistCode?
      ensures at == DistanceExtra ==> view.ph.item.DistTail?
      ensures at.CopyOut? ==> view.ph.item.CopyRest?
    {
      hide AfterOk, HeaderOk, DynOk, BodyOk, ItemOk, Parts, Window.Valid, BitReader.Bits, BitReader.Valid, Pending,
        HuffTable.Ready, SizesKnown, LengthsKnown, PackKnown, Filling, BlockEnd, Reached;
    }

    /** What the stream says about the point reached. */
    lemma FormedNext()
      requires OnTrack()
      ensures view.ph.AtBlock? ==> view.after != []
      ensures view.ph.AtEnd? ==> view.after == []
    {
      hide AfterOk, Window.Valid, BitReader.Bits, BitReader.Valid, Pending, HeaderOk, DynOk, BodyOk, ItemOk, RawOk, BlockEnd, Reached;
    }

    lemma FormedRaw()
      requires OnTrack() && view.ph.InRaw?
      ensures RawOk(view.ph.raw)
    {
      hide AfterOk, Window.Valid, BitReader.Bits, BitReader.Valid, Pending, HeaderOk, DynOk, BodyOk, ItemOk, RawOk, BlockEnd, Reached;
    }

    lemma FormedHeader()
      requires OnTrack() && view.ph.InHeader?
      ensures HeaderOk(view.ph.h) && BodyOk(Body(view.ph.h.lens, view.ph.h.dists, view.ph.ts)) && DynOk(view.ph.h, view.ph.dyn)
    {
      hide AfterOk, Window.Valid, BitReader.Bits, BitReader.Valid, Pending, HeaderOk, DynOk, BodyOk, ItemOk, RawOk, BlockEnd, Reached;
    }

    lemma FormedBody()
      requires OnTrack() && view.ph.InBody?
      ensures BodyOk(view.ph.body) && ItemOk(view.ph.item, view.ph.body)
    {
      hide AfterOk, Window.Valid, BitReader.Bits, BitReader.Valid, Pending, HeaderOk, DynOk, BodyOk, ItemOk, RawOk, BlockEnd, Reached;
    }

    lemma AssembleNext()
      requires Parts() && OnTrack() && Flagged()
      requires if view.ph.AtBlock? then at == ReadBlock else view.ph.AtEnd? && at == Finished
      ensures Valid()
    {
      hide AfterOk, Parts, Window.Valid, BitReader.Bits, BitReader.Valid, Pending, Flagged, BlockEnd, Reached;
    }

    lemma AssembleRaw()
      requires Parts() && OnTrack() && Flagged()
      requires view.ph.InRaw? && RawOk(view.ph.raw) && RawRegs(view.ph.raw)
      ensures Valid()
    {
      hide AfterOk, Parts, Window.Valid, BitReader.Bits, BitReader.Valid, Pending, Flagged, RawOk, RawRegs, BlockEnd, Reached;
    }

    lemma AssembleHeader()
      requires Parts() && OnTrack() && Flagged()
      requires view.ph.InHeader? && HeaderOk(view.ph.h) && DynOk(view.ph.h, view.ph.dyn) && HeaderRegs(view.ph.h, view.ph.dyn)
      ensures Valid()
    {
      hide AfterOk, Parts, Window.Valid, BitReader.Bits, BitReader.Valid, Pending, Flagged, HeaderOk, DynOk, BodyOk, HeaderRegs,
        BlockEnd, Reached;
    }

    lemma AssembleBody()
      requires Parts() && OnTrack() && Flagged()
      requires view.ph.InBody? && BodyOk(view.ph.body) && ItemOk(view.ph.item, view.ph.body)
      requires lit.Ready(view.ph.body.lens) && dst.Ready(view.ph.body.dists) && ItemRegs(view.ph.item, view.ph.body)
      ensures Valid()
    {
      hide AfterOk, Parts, Window.Valid, BitReader.Bits, BitReader.Valid, Pending, HuffTable.Ready, Flagged, BodyOk, ItemOk,
        ItemRegs, BlockEnd, Reached;
    }

    // ---------- the steps

    /** Reads the three bits that start a block. */
    method StepBlock() returns (s: Status)
      requires Valid() && at == ReadBlock
      modifies this, r`pos, r`bitBuf, r`numBits, tableSizes, lit.codeSize, lit.lookUp, lit.tree, dst.codeSize, dst.lookUp, dst.tree
      ensures Valid() && goal == old(goal)
      ensures if s == Going then Less(view, old(view)) else s == NeedsMoreInput && r.Starved()
    {
      hide Valid, Registers, OnTrack, Parts, ViewOk, Window.Valid, BitReader.Bits, BitReader.Valid, Moves, Pending, HuffTable.Ready,
        RawRegs, HeaderRegs, ItemRegs, HeaderThree, Entered;
      AtStart();
      ghost var v, b := view, view.after[0];
      ghost var v' := View(Entered(b), v.after[1..], v.hist);
      StartBlock(v, goal);
      MovedLess(v, v', HeaderThree(b, |v.after| == 1), goal);
      var ok, x := ReadField(3, HeaderThree(b, |v.after| == 1), v');
      if !ok {
        AssembleNext();
        return NeedsMoreInput;
      }
      HeaderThreeValue(x, b, |v.after| == 1);
      EnterBody(x, v, b);
      s := Going;
    }

    /** Sets up for the block, according to its type. */
    method EnterBody(x: nat, ghost v: View, ghost b: Block)
      requires Parts() && OnTrack() && ViewOk(v, goal) && v.ph.AtBlock? && v.after != [] && b == v.after[0]
      requires view == View(Entered(b), v.after[1..], v.hist) && Moves(v, view, HeaderThree(b, |v.after| == 1), goal)
      requires (x % 2 == 1 <==> |v.after| == 1) && x / 2 == TypeOf(b)
      modifies this`final, this`at, this`counter, tableSizes
      modifies lit.codeSize, lit.lookUp, lit.tree, dst.codeSize, dst.lookUp, dst.tree
      ensures Valid()
    {
      hide Valid, Registers, OnTrack, Parts, ViewOk, Window.Valid, BitReader.Bits, BitReader.Valid, Moves, Pending, HuffTable.Ready,
        HeaderOk, BodyOk, DynOk;
      final := x;
      var kind := x / 2;
      if kind == 0 {
        at := SkipPadding;
        StartPad(v, goal);
        Moved(v, view, HeaderThree(b, |v.after| == 1), goal);
        Tracked();
        r.Parity();
        FormedRaw();
        AssembleRaw();
      } else if kind == 1 {
        BuildFixed();
        at := LitSymbol(false);
        FormedBody();
        AssembleBody();
      } else {
        counter := 0;
        at := TableSize;
        FormedHeader();
        AssembleHeader();
      }
    }

    /** The lengths of the fixed codes. */
    method FillFixed()
      requires Parts()
      modifies tableSizes, lit.codeSize, dst.codeSize
      ensures tableSizes[0] == 288 && tableSizes[1] == 32
      ensures lit.Sizes(288) == FixedLens() && dst.Sizes(32) == FixedDists()
    {
      tableSizes[0], tableSizes[1] := 288, 32;
      var p := lit.codeSize;
      forall i | 0 <= i < 32 { dst.codeSize[i] := 5; }
      forall i | 0 <= i <= 143 { p[i] := 8; }
      forall i | 144 <= i <= 255 { p[i] := 9; }
      forall i | 256 <= i <= 279 { p[i] := 7; }
      forall i | 280 <= i <= 287 { p[i] := 8; }
      FixedAt();
    }

    method BuildFixed()
      requires Parts()
      modifies tableSizes, lit.codeSize, lit.lookUp, lit.tree, dst.codeSize, dst.lookUp, dst.tree
      ensures lit.Ready(FixedLens()) && dst.Ready(FixedDists())
    {
      hide FixedLens, FixedDists, Limited, HuffTable.Ready, Decodable;
      FillFixed();
      FixedDecodable();
      var ok := dst.Build(tableSizes[1]);
      ok := lit.Build(tableSizes[0]);
    }

    // ---------- stored blocks

    /** Skips the padding, which moves on to v'. */
    method SkipBits(ghost pad: seq<bool>, ghost v': View) returns (ok: bool)
      requires Parts() && OnTrack() && |pad| == r.numBits % 8 && v'.hist == view.hist && Moves(view, v', pad, goal)
      modifies this`view, r`pos, r`bitBuf, r`numBits
      ensures OnTrack()
      ensures if ok then view == v' && r.numBits % 8 == 0
              else view == old(view) && r.Starved() && |pad| == r.numBits % 8
    {
      hide Parts, OnTrack, ViewOk, Moves, Pending, BitReader.Bits, BitReader.Valid, Window.Valid;
      Tracked();
      Moved(view, v', pad, goal);
      r.Parity();
      r.Bounds();
      ghost var before := |r.Bits()|;
      var x;
      ok, x := ReadField(r.numBits % 8, pad, v');
      Tracked();
      r.Parity();
      r.Bounds();
      if ok {
        PadDone(before, |r.Bits()|, |pad|);
      }
    }

    method StepPadding() returns (s: Status)
      requires Valid() && at == SkipPadding
      modifies this, r`pos, r`bitBuf, r`numBits
      ensures Valid() && goal == old(goal)
      ensures if s == Going then Less(view, old(view)) else s == NeedsMoreInput && r.Starved()
    {
      hide Valid, Registers, OnTrack, Parts, ViewOk, Window.Valid, BitReader.Bits, BitReader.Valid, Moves, Pending, HuffTable.Ready,
        HeaderRegs, ItemRegs, RawOk;
      WhereRaw();
      ghost var v, raw := view, view.ph.raw;
      ghost var v' := v.(ph := InRaw(RawHeader(raw.data, 0)));
      SkipPad(v, goal);
      MovedLess(v, v', raw.pad, goal);
      var ok := SkipBits(raw.pad, v');
      FormedRaw();
      s := NeedsMoreInput;
      if ok {
        counter := 0;
        at := RawLength;
        s := Going;
      }
      AssembleRaw();
    }

    method StepRawLength() returns (s: Status)
      requires Valid() && at == RawLength
      modifies this, r`pos, r`bitBuf, r`numBits, rawHeader
      ensures Valid() && goal == old(goal)
      ensures if s == Going then Less(view, old(view)) else s == NeedsMoreInput && r.Starved()
    {
      hide Valid, Registers, OnTrack, Parts, ViewOk, Window.Valid, BitReader.Bits, BitReader.Valid, Moves, Pending, HuffTable.Ready,
        HeaderRegs, ItemRegs, RawOk, LengthByte;
      WhereRaw();
      ArrayLengths();
      if counter >= 4 {
        CheckLength();
        return Going;
      }
      ghost var v, raw := view, view.ph.raw;
      ghost var v' := v.(ph := InRaw(RawHeader(raw.data, raw.i + 1)));
      ReadLengthByte(v, goal);
      ghost var c := LengthByte(|raw.data|, raw.i);
      MovedLess(v, v', ToBits(c, 8), goal);
      var ok, x := ReadByte(c, v');
      FormedRaw();
      s := NeedsMoreInput;
      if ok {
        rawHeader[counter] := x;
        counter := counter + 1;
        s := Going;
      }
      AssembleRaw();
    }

    /** The length field is complete: the second half has to be the complement of the first. */
    method CheckLength()
      requires Valid() && at == RawLength && counter >= 4
      modifies this`view, this`at, this`counter
      ensures Valid() && Less(view, old(view))
    {
      hide Valid, Registers, OnTrack, Parts, ViewOk, Window.Valid, BitReader.Bits, BitReader.Valid, Moves, Pending, HuffTable.Ready,
        HeaderRegs, ItemRegs, RawOk, LengthByte;
      WhereRaw();
      ArrayLengths();
      ghost var v, raw := view, view.ph.raw;
      StartRaw(v, goal);
      MovedLess(v, v.(ph := InRaw(RawBits(raw.data))), [], goal);
      LengthBytes(|raw.data|);
      counter := rawHeader[0] + 256 * rawHeader[1];
      if counter != 0xFFFF - (rawHeader[2] + 256 * rawHeader[3]) {
        assert false;  // not in a valid stream
      }
      Pass(v.(ph := InRaw(RawBits(raw.data))));
      at := RawFromBuffer;
      FormedRaw();
      AssembleRaw();
    }

    /** While whole bytes remain in the bit buffer, they come first. */
    method StepRawFromBuffer() returns (s: Status)
      requires Valid() && at == RawFromBuffer
      modifies this, r`pos, r`bitBuf, r`numBits
      ensures Valid() && goal == old(goal)
      ensures if s == Going then Less(view, old(view)) else s == NeedsMoreInput && r.Starved()
    {
      hide Valid, Registers, OnTrack, Parts, ViewOk, Window.Valid, BitReader.Bits, BitReader.Valid, Moves, Pending, HuffTable.Ready,
        HeaderRegs, ItemRegs, RawOk;
      WhereRaw();
      ghost var v, d := view, view.ph.raw.data;
      if counter > 0 && r.numBits > 0 {
        ghost var v' := v.(ph := InRaw(RawPut(d[0], d[1..])));
        ReadRawByte(v, goal);
        MovedLess(v, v', ToBits(d[0], 8), goal);
        var ok, x := ReadByte(d[0], v');
        FormedRaw();
        if !ok {
          AssembleRaw();
          return NeedsMoreInput;
        }
        dist := x;
        at := RawWait;
      } else {
        DrainBits(v, goal);
        MovedLess(v, v.(ph := InRaw(RawBytes(d))), [], goal);
        Pass(v.(ph := InRaw(RawBytes(d))));
        at := RawCopy;
        FormedRaw();
      }
      AssembleRaw();
      s := Going;
    }

    method StepRawWait() returns (s: Status)
      requires Valid() && at == RawWait
      modifies this, w`pos, w`hist, w.out
      ensures Valid() && goal == old(goal)
      ensures w.Before() == old(w.Before()) && old(w.hist) <= w.hist
      ensures if s == Going then Less(view, old(view)) else s == HasMoreOutput && Stuck()
    {
      hide Valid, Window.Before, Registers, OnTrack, Parts, ViewOk, Window.Valid, BitReader.Bits, BitReader.Valid, Moves, Pending, HuffTable.Ready,
        HeaderRegs, ItemRegs, RawOk;
      WhereRaw();
      w.Bounds();
      Unfinished(view, goal);
      if w.pos >= w.end {
        AssembleRaw();
        return HasMoreOutput;
      }
      ghost var v, raw := view, view.ph.raw;
      ghost var v' := View(InRaw(RawBits(raw.data)), v.after, v.hist + [raw.b]);
      PutRawByte(v, goal);
      MovedLess(v, v', [], goal);
      Write(dist, v');
      counter := counter - 1;
      at := RawFromBuffer;
      FormedRaw();
      AssembleRaw();
      s := Going;
    }

    /** Writes one byte, which moves on to v'. */
    method Write(b: byte, ghost v': View)
      requires Parts() && OnTrack() && w.pos < w.end
      requires v'.hist == view.hist + [b] && Moves(view, v', [], goal)
      modifies this`view, w`pos, w`hist, w.out
      ensures OnTrack() && view == v' && w.pos == old(w.pos) + 1
      ensures w.Before() == old(w.Before()) && old(w.hist) <= w.hist
    {
      hide Parts, ViewOk, Pending, Moves, Window.Valid, BitReader.Bits, BitReader.Valid;
      Moved(view, v', [], goal);
      assert [] + Pending(v') == Pending(v');
      w.Put(b);
      view := v';
    }

    /** n stored bytes, from the input to the output. */
    method CopyStored(n: nat)
      requires Valid() && at == RawCopy && 0 < n <= counter && w.pos + n <= w.end && r.pos + n <= |r.input|
      modifies this`view, this`counter, r`pos, w`pos, w`hist, w.out
      ensures Valid() && Less(view, old(view))
      ensures w.Before() == old(w.Before()) && old(w.hist) <= w.hist
    {
      hide Valid, Registers, Parts, ViewOk, Window.Valid, BitReader.Bits, BitReader.Valid, Moves, Pending, HuffTable.Ready,
        HeaderRegs, ItemRegs, RawOk, BytesToBits;
      WhereRaw();
      ghost var v, d := view, view.ph.raw.data;
      ghost var v' := View(InRaw(RawBytes(d[n..])), v.after, v.hist + d[..n]);
      CopyRaw(v, goal, n);
      MovedLess(v, v', BytesToBits(d[..n]), goal);
      Moved(v, v', BytesToBits(d[..n]), goal);
      SplitPrefix(BytesToBits(d[..n]), Pending(v'), goal.tail);
      var s := r.TakeBytes(n);
      SplitEqual(BytesToBits(s), r.Bits(), BytesToBits(d[..n]), Pending(v') + goal.tail);
      BytesToBitsInjective(s, d[..n]);
      w.PutAll(s);
      view := v';
      counter := counter - n;
      FormedRaw();
      AssembleRaw();
    }

    method StepRawCopy() returns (s: Status)
      requires Valid() && at == RawCopy
      modifies this, r`pos, w`pos, w`hist, w.out
      ensures Valid() && goal == old(goal)
      ensures w.Before() == old(w.Before()) && old(w.hist) <= w.hist
      ensures match s
              case Going => Less(view, old(view))
              case NeedsMoreInput => r.Starved()
              case HasMoreOutput => Stuck()
              case Done => false
    {
      hide Valid, Registers, OnTrack, Parts, ViewOk, Window.Valid, BitReader.Bits, BitReader.Valid, Moves, Pending, HuffTable.Ready,
        HeaderRegs, ItemRegs, RawOk;
      WhereRaw();
      w.Bounds();
      r.Bounds();
      if counter == 0 {
        EndStored(view, goal);
        MovedLess(view, view.(ph := Next(view.after)), [], goal);
        NextBlock();
        return Going;
      }
      Unfinished(view, goal);
      if w.pos >= w.end {
        return HasMoreOutput;
      }
      r.LastBits();
      if r.pos >= |r.input| {
        RawNotOver(view, goal);
        if r.more {
          return NeedsMoreInput;
        }
        assert false;  // a complete stream holds all the stored bytes
      }
      var n := Min3(w.end - w.pos, |r.input| - r.pos, counter);
      CopyStored(n);
      s := Going;
    }

    /** The end of a block: the stream is over if this was the last. */
    method NextBlock()
      requires Parts() && OnTrack() && Flagged() && !view.ph.AtBlock?
      requires Moves(view, view.(ph := Next(view.after)), [], goal)
      modifies this`view, this`at
      ensures Valid() && view == old(view.(ph := Next(view.after)))
    {
      hide Valid, Registers, OnTrack, Parts, ViewOk, Moves, Pending, RawRegs, HeaderRegs, ItemRegs;
      Pass(view.(ph := Next(view.after)));
      at := if final % 2 == 1 then Finished else ReadBlock;
      FormedNext();
      AssembleNext();
    }

    // ---------- the header of a block with dynamic codes

    lemma ArrayLengths()
      requires Parts()
      ensures lenCodes.Length == LEN_CODES_SIZE && tableSizes.Length == 3 && rawHeader.Length == 4
      ensures pk.codeSize.Length == lit.codeSize.Length == dst.codeSize.Length == 288
      ensures lit.Valid() && dst.Valid() && pk.Valid()
    {
    }

    method StepTableSize() returns (s: Status)
      requires Valid() && at == TableSize
      modifies this, r`pos, r`bitBuf, r`numBits, tableSizes, pk.codeSize
      ensures Valid() && goal == old(goal)
      ensures if s == Going then Less(view, old(view)) else s == NeedsMoreInput && r.Starved()
    {
      hide Valid, Registers, OnTrack, Parts, ViewOk, Window.Valid, BitReader.Bits, BitReader.Valid, Moves, Pending, HuffTable.Ready,
        RawRegs, ItemRegs, HeaderOk, BodyOk, DynOk, Decodable, SizeBits, SizesKnown;
      WhereHeader();
      ghost var v, h := view, view.ph.h;
      if counter >= 3 {
        ClearPack();
        return Going;
      }
      ghost var v' := v.(ph := v.ph.(dyn := Sizes(counter + 1)));
      ReadSize(v, goal);
      MovedLess(v, v', SizeBits(h, counter), goal);
      var n := if counter == 2 then 4 else 5;
      var ok, x := ReadField(n, SizeBits(h, counter), v');
      if ok {
        TakeTableSize(x, h);
        return Going;
      }
      AssembleHeader();
      s := NeedsMoreInput;
    }

    method TakeTableSize(x: nat, ghost h: Header)
      requires Parts() && OnTrack() && Flagged() && at == TableSize && counter < 3
      requires view.ph.InHeader? && view.ph.h == h && view.ph.dyn == Sizes(counter + 1) && HeaderOk(h) && SizesKnown(h, counter)
      requires x < Pow2(if counter == 2 then 4 else 5) && ToBits(x, if counter == 2 then 4 else 5) == SizeBits(h, counter)
      modifies this`counter, tableSizes
      ensures Valid()
    {
      hide Valid, Registers, OnTrack, Parts, ViewOk, Window.Valid, BitReader.Bits, BitReader.Valid, Moves, Pending, HuffTable.Ready,
        RawRegs, ItemRegs, HeaderOk, BodyOk, DynOk, Decodable, SizeBits, ToBits;
      ArrayLengths();
      FormedHeader();
      SizeValue(h, counter, x);
      tableSizes[counter] := x + MinSize(counter);
      counter := counter + 1;
      AssembleHeader();
    }

    method ClearPack()
      requires Valid() && at == TableSize && counter >= 3
      modifies this`view, this`at, this`counter, pk.codeSize
      ensures Valid() && Less(view, old(view))
    {
      hide Valid, Registers, OnTrack, Parts, ViewOk, Window.Valid, BitReader.Bits, BitReader.Valid, Moves, Pending, HuffTable.Ready,
        RawRegs, ItemRegs, HeaderOk, BodyOk, DynOk, Decodable, Swizzle, SizeBits;
      WhereHeader();
      ArrayLengths();
      ghost var v := view;
      StartPackLens(v, goal);
      HeaderParts(v.ph.h);
      MovedLess(v, v.(ph := v.ph.(dyn := PackLens(0))), [], goal);
      Pass(v.(ph := v.ph.(dyn := PackLens(0))));
      forall i | 0 <= i < pk.codeSize.Length { pk.codeSize[i] := 0; }
      counter := 0;
      at := PackLength;
      FormedHeader();
      AssembleHeader();
    }

    method StepPackLength() returns (s: Status)
      requires Valid() && at == PackLength
      modifies this, r`pos, r`bitBuf, r`numBits, tableSizes, pk.codeSize, pk.lookUp, pk.tree
      ensures Valid() && goal == old(goal)
      ensures if s == Going then Less(view, old(view)) else s == NeedsMoreInput && r.Starved()
    {
      hide Valid, Registers, OnTrack, Parts, ViewOk, Window.Valid, BitReader.Bits, BitReader.Valid, Moves, Pending, HuffTable.Ready,
        RawRegs, ItemRegs, HeaderOk, BodyOk, DynOk, Decodable, Swizzle;
      WhereHeader();
      ArrayLengths();
      ghost var v, h, i := view, view.ph.h, view.ph.dyn.i;
      HeaderParts(h);
      if counter >= tableSizes[2] {
        BuildPack();
        return Going;
      }
      ReadPackLen(v, goal);
      ghost var x0 := h.packLens[Swizzle(i)];
      ghost var v' := v.(ph := v.ph.(dyn := PackLens(i + 1)));
      MovedLess(v, v', ToBits(x0, 3), goal);
      var ok, x := ReadField(3, ToBits(x0, 3), v');
      FormedHeader();
      s := NeedsMoreInput;
      if ok {
        assert Pow2(3) == 8;
        ToBitsInjective(x, x0, 3);
        SwizzleInjective(counter);
        pk.codeSize[Swizzle(counter)] := x;
        counter := counter + 1;
        s := Going;
      }
      AssembleHeader();
    }

    method BuildPack()
      requires Valid() && at == PackLength && counter >= tableSizes[2]
      modifies this`view, this`at, this`counter, tableSizes, pk.lookUp, pk.tree
      ensures Valid() && Less(view, old(view))
    {
      hide Valid, Registers, OnTrack, Parts, ViewOk, Window.Valid, BitReader.Bits, BitReader.Valid, Moves, Pending, HuffTable.Ready,
        RawRegs, ItemRegs, HeaderOk, BodyOk, DynOk, Decodable, Swizzle;
      WhereHeader();
      ArrayLengths();
      ghost var v, h := view, view.ph.h;
      ghost var v' := v.(ph := v.ph.(dyn := Lengths([], h.ops)));
      HeaderParts(h);
      StartLengths(v, goal);
      MovedLess(v, v', [], goal);
      Pass(v');
      tableSizes[2] := PACK_SYMBOLS;
      PackComplete(h);
      var ok := pk.Build(tableSizes[2]);
      counter := 0;
      assert lenCodes[..0] == [];
      at := LengthSymbol(false);
      FormedHeader();
      AssembleHeader();
    }

    /** Decodes code lengths until there are enough of them for both codes. */
    method StepLengthSymbol() returns (s: Status)
      requires Valid() && at.LengthSymbol?
      modifies this, r`pos, r`bitBuf, r`numBits, lenCodes
      modifies lit.codeSize, lit.lookUp, lit.tree, dst.codeSize, dst.lookUp, dst.tree
      ensures Valid() && goal == old(goal)
      ensures if s == Going then Less(view, old(view)) else s == NeedsMoreInput && r.Starved()
    {
      hide Valid, Registers, OnTrack, Parts, ViewOk, Window.Valid, BitReader.Bits, BitReader.Valid, Moves, Pending, HuffTable.Ready,
        RawRegs, ItemRegs, HeaderOk, BodyOk, DynOk, Decodable;
      WhereHeader();
      ArrayLengths();
      ghost var v, h, dyn := view, view.ph.h, view.ph.dyn;
      HeaderParts(h);
      LengthsLeft(h, dyn.sofar, dyn.ops);
      if counter >= tableSizes[0] + tableSizes[1] {
        BuildDynamic();
        return Going;
      }
      ghost var k := dyn.ops[0].sym;
      ghost var v' := AfterLength(v);
      ReadLength(v, goal);
      DecodableFits(h.packLens);
      MovedLess(v, v', Code(h.packLens, k), goal);
      var ok, sym := ReadSym(pk, at.filling, h.packLens, k, v');
      if ok {
        TakeLength(sym, v);
        return Going;
      }
      FormedHeader();
      at := LengthSymbol(true);
      AssembleHeader();
      s := NeedsMoreInput;
    }

    /** A code length, or the symbol of a run of them. */
    method TakeLength(sym: nat, ghost v: View)
      requires Parts() && OnTrack() && Flagged() && v.ph.InHeader? && v.ph.dyn.Lengths? && v.ph.dyn.ops != []
      requires view == AfterLength(v) && sym == v.ph.dyn.ops[0].sym < PACK_SYMBOLS && LengthsKnown(v.ph.h, v.ph.dyn.sofar)
      requires counter < MAX_LENGTHS && (sym == 16 ==> v.ph.dyn.sofar != [])
      modifies this`at, this`counter, this`dist, this`numExtra, lenCodes
      ensures Valid()
    {
      hide Valid, Registers, OnTrack, Parts, ViewOk, Window.Valid, BitReader.Bits, BitReader.Valid, Moves, Pending, HuffTable.Ready,
        RawRegs, ItemRegs, HeaderOk, BodyOk, DynOk, Decodable;
      ArrayLengths();
      FormedHeader();
      if sym < 16 {
        lenCodes[counter] := sym;
        assert lenCodes[..counter + 1] == v.ph.dyn.sofar + [sym];
        counter := counter + 1;
        at := LengthSymbol(false);
      } else {
        if sym == 16 && counter == 0 {
          assert false;  // there is no length to repeat, so this is not a valid stream
        }
        dist := sym;
        numExtra := if sym == 16 then 2 else if sym == 17 then 3 else 7;
        at := LengthRun;
      }
      AssembleHeader();
    }

    /** What the stream says about a run. */
    lemma RunNext() returns (v': View)
      requires Valid() && at == LengthRun
      ensures Parts() && OnTrack() && Flagged() && view.ph.InHeader? && view.ph.dyn.Run? && HeaderOk(view.ph.h) && DynOk(view.ph.h, view.ph.dyn)
      ensures BodyOk(Body(view.ph.h.lens, view.ph.h.dists, view.ph.ts)) && HeaderRegs(view.ph.h, view.ph.dyn)
      ensures var dyn := view.ph.dyn;
              && |dyn.sofar| < MAX_LENGTHS && OpOk(dyn.op) && dyn.op.sym >= 16 && (dyn.op.sym == 16 ==> dyn.sofar != [])
              && LengthsKnown(view.ph.h, dyn.sofar) && dist == dyn.op.sym && numExtra == ExtraBits(dyn.op.sym) <= 7
              && v' == view.(ph := view.ph.(dyn := Lengths(Apply(dyn.op, dyn.sofar), dyn.ops)))
              && Moves(view, v', ToBits(dyn.op.extra, numExtra), goal) && Less(v', view)
    {
      hide Valid, Registers, OnTrack, Parts, ViewOk, Window.Valid, BitReader.Bits, BitReader.Valid, Moves, Pending, HuffTable.Ready,
        RawRegs, ItemRegs, HeaderOk, BodyOk, DynOk, Decodable, Apply, RunOf, LengthsKnown, Less;
      WhereHeader();
      var v, dyn := view, view.ph.dyn;
      ReadRun(v, goal);
      v' := v.(ph := v.ph.(dyn := Lengths(Apply(dyn.op, dyn.sofar), dyn.ops)));
      RunRoom(v.ph.h, dyn);
      MovedLess(v, v', ToBits(dyn.op.extra, ExtraBits(dyn.op.sym)), goal);
    }

    method StepLengthRun() returns (s: Status)
      requires Valid() && at == LengthRun
      modifies this, r`pos, r`bitBuf, r`numBits, lenCodes
      ensures Valid() && goal == old(goal)
      ensures if s == Going then Less(view, old(view)) else s == NeedsMoreInput && r.Starved()
    {
      hide Valid, Registers, OnTrack, Parts, ViewOk, Window.Valid, BitReader.Bits, BitReader.Valid, Moves, Pending, HuffTable.Ready,
        RawRegs, ItemRegs, HeaderOk, BodyOk, DynOk, Decodable, Apply, RunOf, LengthsKnown, Less, ToBits;
      ghost var v' := RunNext();
      ghost var v, dyn := view, view.ph.dyn;
      var ok, x := ReadField(numExtra, ToBits(dyn.op.extra, numExtra), v');
      if ok {
        TakeRun(x, v.ph.h, dyn);
        return Going;
      }
      AssembleHeader();
      s := NeedsMoreInput;
    }

    method TakeRun(x: nat, ghost h: Header, ghost dyn: Dyn)
      requires Parts() && OnTrack() && Flagged() && dyn.Run? && view.ph.InHeader? && view.ph.h == h
      requires |dyn.sofar| < MAX_LENGTHS && OpOk(dyn.op) && dyn.op.sym >= 16 && (dyn.op.sym == 16 ==> dyn.sofar != [])
      requires view.ph.dyn == Lengths(Apply(dyn.op, dyn.sofar), dyn.ops) && LengthsKnown(h, dyn.sofar)
      requires dist == dyn.op.sym && numExtra == ExtraBits(dyn.op.sym) && x < Pow2(numExtra)
      requires ToBits(x, numExtra) == ToBits(dyn.op.extra, numExtra)
      modifies this`counter, this`at, lenCodes
      ensures Valid()
    {
      hide Valid, Registers, OnTrack, Parts, ViewOk, Window.Valid, BitReader.Bits, BitReader.Valid, Moves, Pending, HuffTable.Ready,
        RawRegs, ItemRegs, HeaderOk, BodyOk, DynOk, Decodable, Apply, RunOf, ToBits;
      ArrayLengths();
      FormedHeader();
      ToBitsInjective(x, dyn.op.extra, numExtra);
      counter := ExpandRun(lenCodes, counter, Op(dist, x));
      at := LengthSymbol(false);
      AssembleHeader();
    }

    /** The lengths are complete: they are handed out to the two codes, whose tables are built. */
    method BuildDynamic()
      requires Valid() && at.LengthSymbol? && view.ph.InHeader? && view.ph.dyn.Lengths? && view.ph.dyn.ops == []
      modifies this`view, this`at
      modifies lit.codeSize, lit.lookUp, lit.tree, dst.codeSize, dst.lookUp, dst.tree
      ensures Valid() && Less(view, old(view))
    {
      hide Valid, Registers, OnTrack, Parts, ViewOk, Window.Valid, BitReader.Bits, BitReader.Valid, Moves, Pending, HuffTable.Ready,
        RawRegs, HeaderOk, BodyOk, DynOk, Decodable;
      WhereHeader();
      ArrayLengths();
      ghost var v, h := view, view.ph.h;
      ghost var v' := v.(ph := InBody(Symbol, Body(h.lens, h.dists, v.ph.ts)));
      HeaderParts(h);
      StartBody(v, goal);
      MovedLess(v, v', [], goal);
      Pass(v');
      HandOut(h);
      BuildTables(h);
      at := LitSymbol(false);
      FormedBody();
      AssembleBody();
    }

    method BuildTables(ghost h: Header)
      requires Parts() && tableSizes[0] == |h.lens| <= 288 && tableSizes[1] == |h.dists| <= 32
      requires Decodable(h.lens) && Decodable(h.dists) && Limited(h.lens) && Limited(h.dists)
      requires lit.Sizes(|h.lens|) == h.lens && dst.Sizes(|h.dists|) == h.dists
      modifies lit.lookUp, lit.tree, dst.lookUp, dst.tree
      ensures lit.Ready(h.lens) && dst.Ready(h.dists)
    {
      hide Decodable, Limited, HuffTable.Ready;
      var ok := dst.Build(tableSizes[1]);
      ok := lit.Build(tableSizes[0]);
    }

    method HandOut(ghost h: Header)
      requires Parts() && |h.lens| <= 288 && |h.dists| <= 32 && tableSizes[0] == |h.lens| && tableSizes[1] == |h.dists|
      requires counter <= LEN_CODES_SIZE && lenCodes[..counter] == h.lens + h.dists
      modifies lit.codeSize, dst.codeSize
      ensures lit.Sizes(|h.lens|) == h.lens && dst.Sizes(|h.dists|) == h.dists
    {
      var n := tableSizes[0];
      forall i | 0 <= i < n
        ensures lenCodes[i] == h.lens[i]
      {
        assert lenCodes[..counter][i] == lenCodes[i];
      }
      forall i | 0 <= i < tableSizes[1]
        ensures lenCodes[n + i] == h.dists[i]
      {
        assert lenCodes[..counter][n + i] == lenCodes[n + i];
      }
      forall i | 0 <= i < n { lit.codeSize[i] := lenCodes[i]; }
      forall i | 0 <= i < tableSizes[1] { dst.codeSize[i] := lenCodes[n + i]; }
    }

    // ---------- the body of a compressed block

    /** A symbol on its own: the way near the end of the input or of the room for output. */
    method StepSymbol() returns (s: Status)
      requires Valid() && at.LitSymbol?
      modifies this, r`pos, r`bitBuf, r`numBits
      ensures Valid() && goal == old(goal)
      ensures if s == Going then Less(view, old(view)) else s == NeedsMoreInput && r.Starved()
    {
      hide Valid, Registers, OnTrack, Parts, ViewOk, Window.Valid, BitReader.Bits, BitReader.Valid, Moves, Pending, HuffTable.Ready,
        RawRegs, HeaderRegs, BodyOk, ItemOk, Decodable, LenSym, DistSym, LenExtra, DistExtra, LengthBase, DistBase,
        LengthExtraBits, DistExtraCount;
      WhereBody();
      ArrayLengths();
      ghost var v, b := view, view.ph.body;
      ghost var k, v' := NextSym(v.ph), AfterSym(v);
      ReadSymbol(v, goal);
      BodyFits(b);
      MovedLess(v, v', Code(b.lens, k), goal);
      var ok, sym := ReadSym(lit, at.filling, b.lens, k, v');
      if !ok {
        at := LitSymbol(true);
        AssembleBody();
        return NeedsMoreInput;
      }
      TakeSymbol(sym, v);
      s := Going;
    }

    /** Goes on according to the symbol decoded. */
    method TakeSymbol(sym: nat, ghost v: View)
      requires Parts() && OnTrack() && ViewOk(v, goal) && v.ph.InBody? && v.ph.item.Symbol?
      requires view == AfterSym(v) && sym == NextSym(v.ph) && (final % 2 == 1 <==> v.after == [])
      requires lit.Ready(v.ph.body.lens) && dst.Ready(v.ph.body.dists)
      modifies this`counter, this`numExtra, this`at
      ensures Valid()
    {
      hide Valid, Registers, OnTrack, Parts, ViewOk, Window.Valid, BitReader.Bits, BitReader.Valid, Moves, Pending, HuffTable.Ready,
        RawRegs, HeaderRegs, BodyOk, ItemOk, Decodable, LenSym, DistSym, LenExtra, DistExtra, LengthBase, DistBase,
        LengthExtraBits, DistExtraCount;
      SymbolKinds(v, goal);
      if sym < END_OF_BLOCK {
        counter := sym;
        at := LitWait;
        FormedBody();
        AssembleBody();
      } else if sym == END_OF_BLOCK {
        at := if final % 2 == 1 then Finished else ReadBlock;
        FormedNext();
        AssembleNext();
      } else {
        LengthRoundTrip(view.ph.item.len - MIN_MATCH);
        numExtra := LengthExtraBits(sym);
        counter := LengthBase(sym);
        at := LengthExtra;
        FormedBody();
        AssembleBody();
      }
    }

    /** Decodes the symbol k, whose code is in the bit buffer, and moves on to v'.  The raw table entry
        is returned. */
    method FastSym(ghost sizes: seq<nat>, ghost k: nat, ghost v': View) returns (raw: nat)
      requires Parts() && OnTrack() && v'.hist == view.hist && lit.Valid() && lit.Ready(sizes)
      requires Used(sizes, k) && sizes[k] <= r.numBits && Moves(view, v', Code(sizes, k), goal)
      modifies this`view, r`bitBuf, r`numBits
      ensures OnTrack() && view == v' && raw % 512 == k && r.numBits == old(r.numBits) - sizes[k]
    {
      hide ViewOk, Pending, Moves, Parts, Window.Valid, BitReader.Bits, BitReader.Valid, Code, HuffTable.Ready, HuffTable.Valid;
      Moved(view, v', Code(sizes, k), goal);
      SplitPrefix(Code(sizes, k), Pending(v'), goal.tail);
      raw := r.TakeCode(lit, sizes, k);
      view := v';
      SplitEqual(Code(sizes, k), r.Bits(), Code(sizes, k), Pending(v') + goal.tail);
    }

    method Refill()
      requires OnTrack() && r.pos + 4 <= |r.input|
      modifies r`pos, r`bitBuf, r`numBits
      ensures OnTrack() && r.numBits >= 30
    {
      hide ViewOk, Pending, Window.Valid, BitReader.Bits, BitReader.Valid;
      if r.numBits < 30 {
        r.LoadFour();
      }
    }

    /** The symbols come fast while there are at least four bytes of input and room for two bytes of
        output: no more than one refill for two symbols. */
    method StepFast()
      requires Valid() && at == LitSymbol(false) && r.pos + 4 <= |r.input| && w.pos + 2 <= w.end
      modifies this, r`pos, r`bitBuf, r`numBits, w`pos, w`hist, w.out
      ensures Valid() && goal == old(goal) && Less(view, old(view))
      ensures w.Before() == old(w.Before()) && old(w.hist) <= w.hist
    {
      hide Valid, Window.Before, Registers, OnTrack, Parts, ViewOk, Window.Valid, BitReader.Bits, BitReader.Valid, Moves, Pending, HuffTable.Ready,
        RawRegs, HeaderRegs, BodyOk, ItemOk, Decodable, LenSym, DistSym, LenExtra, DistExtra, LengthBase, DistBase,
        LengthExtraBits, DistExtraCount, Code, Copy, Fits, ItemRegs, HuffTable.Valid, ToBits, Reached, BlockEnd;
      WhereBody();
      ArrayLengths();
      ghost var v, b, k := view, view.ph.body, NextSym(view.ph);
      ReadSymbol(v, goal);
      BodyFits(b);
      Moved(v, AfterSym(v), Code(b.lens, k), goal);
      Refill();
      CodeLimit(b.lens, k);
      var raw := FastSym(b.lens, k, AfterSym(v));
      FastFirst(raw, v);
    }

    method FastFirst(raw: nat, ghost v: View)
      requires Parts() && OnTrack() && ViewOk(v, goal) && v.ph.InBody? && v.ph.item.Symbol?
      requires view == AfterSym(v) && raw % 512 == NextSym(v.ph) && (final % 2 == 1 <==> v.after == [])
      requires lit.Ready(v.ph.body.lens) && dst.Ready(v.ph.body.dists)
      requires r.numBits >= MAX_CODE_SIZE && w.pos + 2 <= w.end
      modifies this, r`bitBuf, r`numBits, w`pos, w`hist, w.out
      ensures Valid() && goal == old(goal) && |Pending(view)| <= old(|Pending(view)|)
      ensures w.Before() == old(w.Before()) && old(w.hist) <= w.hist
    {
      hide Valid, Window.Before, Registers, OnTrack, Parts, ViewOk, Window.Valid, BitReader.Bits, BitReader.Valid, Moves, Pending, HuffTable.Ready,
        RawRegs, HeaderRegs, BodyOk, ItemOk, Decodable, LenSym, DistSym, Code, Copy, ItemRegs;
      HighBit(raw);
      if raw / 256 % 2 == 1 {
        TakeSymbol(raw % 512, v);
      } else {
        SymbolKinds(v, goal);
        FastSecond(raw % 256);
      }
    }

    /** The first of two symbols was a literal. */
    method FastSecond(x: byte)
      requires Parts() && OnTrack() && Flagged() && r.numBits >= MAX_CODE_SIZE && w.pos + 2 <= w.end
      requires view.ph.InBody? && view.ph.item == PutLit(x)
      requires lit.Ready(view.ph.body.lens) && dst.Ready(view.ph.body.dists)
      modifies this, r`bitBuf, r`numBits, w`pos, w`hist, w.out
      ensures Valid() && goal == old(goal) && |Pending(view)| <= old(|Pending(view)|)
      ensures w.Before() == old(w.Before()) && old(w.hist) <= w.hist
    {
      hide Valid, Registers, OnTrack, Parts, ViewOk, Window.Valid, BitReader.Bits, BitReader.Valid, Moves, Pending, HuffTable.Ready,
        RawRegs, HeaderRegs, BodyOk, ItemOk, Decodable, LenSym, DistSym, LenExtra, DistExtra, LengthBase, DistBase,
        LengthExtraBits, DistExtraCount, Code, Copy;
      ArrayLengths();
      PutNext(x);
      Tracked();
      FormedBody();
      ghost var v, b, k := view, view.ph.body, NextSym(view.ph);
      ReadSymbol(v, goal);
      Moved(v, AfterSym(v), Code(b.lens, k), goal);
      BodyFits(b);
      CodeLimit(b.lens, k);
      var raw := FastSym(b.lens, k, AfterSym(v));
      HighBit(raw);
      if raw / 256 % 2 == 1 {
        TakeSymbol(raw % 512, v);
      } else {
        SymbolKinds(v, goal);
        PutNext(raw % 256);
        at := LitSymbol(false);
        FormedBody();
        AssembleBody();
      }
    }

    /** Writes a literal for which there is room. */
    method PutNext(x: byte)
      requires Parts() && OnTrack() && view.ph.InBody? && view.ph.item == PutLit(x) && w.pos < w.end
      modifies this`view, w`pos, w`hist, w.out
      ensures OnTrack() && view.ph == InBody(Symbol, old(view.ph.body)) && view.after == old(view.after)
      ensures Pending(view) == old(Pending(view)) && w.pos == old(w.pos) + 1
      ensures w.Before() == old(w.Before()) && old(w.hist) <= w.hist
    {
      hide OnTrack, Parts, ViewOk, Window.Valid, BitReader.Bits, BitReader.Valid, Moves, Pending;
      Tracked();
      ghost var v := view;
      ghost var v' := View(InBody(Symbol, v.ph.body), v.after, v.hist + [x]);
      PutLiteral(v, goal);
      Moved(v, v', [], goal);
      assert [] + Pending(v') == Pending(v');
      Write(x, v');
    }

    method StepLitWait() returns (s: Status)
      requires Valid() && at == LitWait
      modifies this, w`pos, w`hist, w.out
      ensures Valid() && goal == old(goal)
      ensures w.Before() == old(w.Before()) && old(w.hist) <= w.hist
      ensures if s == Going then Less(view, old(view)) else s == HasMoreOutput && Stuck()
    {
      hide Valid, Window.Before, Registers, OnTrack, Parts, ViewOk, Window.Valid, BitReader.Bits, BitReader.Valid, Moves, Pending, HuffTable.Ready,
        RawRegs, HeaderRegs, BodyOk, ItemOk, Decodable, LenSym, DistSym, LenExtra, DistExtra, LengthBase, DistBase,
        LengthExtraBits, DistExtraCount;
      WhereBody();
      w.Bounds();
      Unfinished(view, goal);
      s := HasMoreOutput;
      if w.pos < w.end {
        ghost var v := view;
        ghost var v' := View(InBody(Symbol, v.ph.body), v.after, v.hist + [v.ph.item.lit]);
        PutLiteral(v, goal);
        MovedLess(v, v', [], goal);
        Write(counter, v');
        at := LitSymbol(false);
        FormedBody();
        s := Going;
      }
      AssembleBody();
    }

    /** What comes next where the extra bits of a length are due. */
    lemma LengthNext() returns (len: nat, d: nat)
      requires Valid() && at == LengthExtra
      ensures Parts() && OnTrack() && Flagged() && ViewOk(view, goal) && MIN_MATCH <= len <= MAX_MATCH
      ensures view.ph.InBody? && view.ph.item == LenTail(len, d) && lit.Ready(view.ph.body.lens) && dst.Ready(view.ph.body.dists)
      ensures numExtra == LenExtra(len - MIN_MATCH) && counter + Masked(len - MIN_MATCH, numExtra) == len
      ensures Moves(view, view.(ph := view.ph.(item := DistCode(len, d))), LenExtraBits(len), goal)
    {
      hide Valid, Registers, OnTrack, Parts, ViewOk, Window.Valid, BitReader.Bits, BitReader.Valid, Moves, Pending, HuffTable.Ready,
        RawRegs, HeaderRegs, BodyOk, ItemOk, Decodable, LenExtra, LenExtraBits, Masked;
      WhereBody();
      len, d := view.ph.item.len, view.ph.item.dist;
      ReadLenBits(view, goal);
    }

    method StepLengthExtra() returns (s: Status)
      requires Valid() && at == LengthExtra
      modifies this, r`pos, r`bitBuf, r`numBits
      ensures Valid() && goal == old(goal)
      ensures if s == Going then Less(view, old(view)) else s == NeedsMoreInput && r.Starved()
    {
      hide Valid, Registers, OnTrack, Parts, ViewOk, Window.Valid, BitReader.Bits, BitReader.Valid, Moves, Pending, HuffTable.Ready,
        BodyOk, ItemOk, LenExtra, Masked, ToBits, ItemRegs;
      ghost var len, d := LengthNext();
      ghost var v := view;
      ghost var v' := v.(ph := v.ph.(item := DistCode(len, d)));
      MovedLess(v, v', LenExtraBits(len), goal);
      var ok, x := ReadExtra(Masked(len - MIN_MATCH, numExtra), v');
      if ok {
        TakeLengthBits(x, len, d);
        return Going;
      }
      LengthWaits(len, d);
      s := NeedsMoreInput;
    }

    lemma LengthWaits(len: nat, d: nat)
      requires Parts() && OnTrack() && Flagged() && at == LengthExtra && MIN_MATCH <= len <= MAX_MATCH
      requires view.ph.InBody? && view.ph.item == LenTail(len, d) && lit.Ready(view.ph.body.lens) && dst.Ready(view.ph.body.dists)
      requires numExtra == LenExtra(len - MIN_MATCH) && counter + Masked(len - MIN_MATCH, numExtra) == len
      ensures Valid()
    {
      hide Valid, Registers, OnTrack, Parts, HuffTable.Ready, BodyOk, ItemOk, LenExtra, Masked;
      FormedBody();
      AssembleBody();
    }

    method TakeLengthBits(x: nat, ghost len: nat, ghost d: nat)
      requires Parts() && OnTrack() && Flagged() && view.ph.InBody? && view.ph.item == DistCode(len, d) && counter + x == len
      requires lit.Ready(view.ph.body.lens) && dst.Ready(view.ph.body.dists)
      modifies this`counter, this`at
      ensures Valid()
    {
      hide Valid, Registers, OnTrack, Parts, HuffTable.Ready, BodyOk, ItemOk;
      FormedBody();
      counter := counter + x;
      at := DistSymbol(false);
      AssembleBody();
    }

    /** The extra bits of a length or a distance, if it has any. */
    method ReadExtra(ghost x0: nat, ghost v': View) returns (ok: bool, x: nat)
      requires Parts() && OnTrack() && numExtra <= 13 && x0 < Pow2(numExtra) && v'.hist == view.hist
      requires Moves(view, v', ToBits(x0, numExtra), goal)
      modifies this`view, r`pos, r`bitBuf, r`numBits
      ensures OnTrack()
      ensures if ok then view == v' && x == x0 else view == old(view) && r.Starved()
    {
      hide OnTrack, Parts, ViewOk, Moves, Pending;
      if numExtra > 0 {
        ok, x := ReadField(numExtra, ToBits(x0, numExtra), v');
        if ok {
          ToBitsInjective(x, x0, numExtra);
        }
      } else {
        Pass(v');
        ok, x := true, 0;
      }
    }

    /** What comes next where a distance code is due. */
    lemma DistNext() returns (len: nat, d: nat)
      requires Valid() && at.DistSymbol?
      ensures Parts() && OnTrack() && Flagged() && ViewOk(view, goal) && dst.Valid()
      ensures view.ph.InBody? && view.ph.item == DistCode(len, d) && BodyOk(view.ph.body) && ItemOk(view.ph.item, view.ph.body)
      ensures lit.Ready(view.ph.body.lens) && dst.Ready(view.ph.body.dists) && ItemRegs(view.ph.item, view.ph.body)
      ensures 1 <= d <= DICT_SIZE && counter == len
      ensures var b, k := view.ph.body, DistSym(d - 1);
              Fits(b.dists) && Used(b.dists, k) && (at.filling ==> r.numBits < b.dists[k] && r.numBits < MAX_CODE_SIZE) &&
              Moves(view, view.(ph := view.ph.(item := DistTail(len, d))), Code(b.dists, k), goal)
    {
      hide Valid, Registers, OnTrack, Parts, ViewOk, Window.Valid, BitReader.Bits, BitReader.Valid, Moves, Pending, HuffTable.Ready,
        RawRegs, HeaderRegs, BodyOk, ItemOk, Decodable, DistSym, Code;
      WhereBody();
      ArrayLengths();
      len, d := view.ph.item.len, view.ph.item.dist;
      ReadDistCode(view, goal);
      BodyFits(view.ph.body);
    }

    method StepDistSymbol() returns (s: Status)
      requires Valid() && at.DistSymbol?
      modifies this, r`pos, r`bitBuf, r`numBits
      ensures Valid() && goal == old(goal)
      ensures if s == Going then Less(view, old(view)) else s == NeedsMoreInput && r.Starved()
    {
      hide Valid, Registers, OnTrack, Parts, ViewOk, Window.Valid, BitReader.Bits, BitReader.Valid, Moves, Pending, HuffTable.Ready,
        BodyOk, ItemOk, DistSym, Code, Fits, ItemRegs;
      ghost var len, d := DistNext();
      ghost var v, b, k := view, view.ph.body, DistSym(d - 1);
      ghost var v' := v.(ph := v.ph.(item := DistTail(len, d)));
      MovedLess(v, v', Code(b.dists, k), goal);
      var ok, sym := ReadSym(dst, at.filling, b.dists, k, v');
      if ok {
        TakeDist(sym, len, d);
        return Going;
      }
      WaitDist(len, d);
      s := NeedsMoreInput;
    }

    method WaitDist(ghost len: nat, ghost d: nat)
      requires Parts() && OnTrack() && Flagged()
      requires view.ph.InBody? && view.ph.item == DistCode(len, d) && BodyOk(view.ph.body) && ItemOk(view.ph.item, view.ph.body)
      requires lit.Ready(view.ph.body.lens) && dst.Ready(view.ph.body.dists) && counter == len
      requires 1 <= d <= DICT_SIZE && r.numBits < SizeAt(view.ph.body.dists, DistSym(d - 1)) && r.numBits < MAX_CODE_SIZE
      modifies this`at
      ensures Valid()
    {
      hide Valid, Registers, OnTrack, Parts, ViewOk, Window.Valid, BitReader.Bits, BitReader.Valid, Moves, Pending, HuffTable.Ready,
        RawRegs, HeaderRegs, BodyOk, ItemOk, Decodable, DistSym, Code, SizeAt;
      at := DistSymbol(true);
      AssembleBody();
    }

    method TakeDist(sym: nat, ghost len: nat, ghost d: nat)
      requires Parts() && OnTrack() && Flagged() && view.ph.InBody? && view.ph.item == DistTail(len, d)
      requires lit.Ready(view.ph.body.lens) && dst.Ready(view.ph.body.dists)
      requires counter == len && 1 <= d <= DICT_SIZE && sym == DistSym(d - 1)
      modifies this`at, this`dist, this`numExtra
      ensures Valid()
    {
      hide Valid, Registers, OnTrack, Parts, ViewOk, Window.Valid, BitReader.Bits, BitReader.Valid, Moves, Pending, HuffTable.Ready,
        RawRegs, HeaderRegs, BodyOk, ItemOk, Decodable, LenSym, DistSym, LenExtra, DistExtra, LengthBase, DistBase,
        LengthExtraBits, DistExtraCount;
      FormedBody();
      DistRoundTrip(d);
      numExtra := DistExtraCount(sym);
      dist := DistBase(sym);
      at := DistanceExtra;
      AssembleBody();
    }

    method StepDistanceExtra() returns (s: Status)
      requires Valid() && at == DistanceExtra
      modifies this, r`pos, r`bitBuf, r`numBits
      ensures Valid() && goal == old(goal)
      ensures if s == Going then Less(view, old(view)) else s == NeedsMoreInput && r.Starved()
    {
      hide Valid, Registers, OnTrack, Parts, ViewOk, Window.Valid, BitReader.Bits, BitReader.Valid, Moves, Pending, HuffTable.Ready,
        RawRegs, HeaderRegs, BodyOk, ItemOk, Decodable, LenSym, DistSym, LenExtra, DistExtra, LengthBase, DistBase,
        LengthExtraBits, DistExtraCount, Masked;
      WhereBody();
      ghost var v, len, d := view, view.ph.item.len, view.ph.item.dist;
      ghost var v' := v.(ph := v.ph.(item := CopyRest(len, d)));
      ReadDistBits(v, goal);
      MovedLess(v, v', DistExtraBits(d), goal);
      var ok, x := ReadExtra(Masked(d - 1, numExtra), v');
      FormedBody();
      s := NeedsMoreInput;
      if ok {
        StartCopy(x, len, d);
        s := Going;
      } else {
        AssembleBody();
      }
    }

    method StartCopy(x: nat, ghost len: nat, ghost d: nat)
      requires Parts() && OnTrack() && Flagged() && view.ph.InBody? && view.ph.item == CopyRest(len, d)
      requires lit.Ready(view.ph.body.lens) && dst.Ready(view.ph.body.dists)
      requires counter == len >= MIN_MATCH && dist + x == d
      modifies this`at, this`dist, this`distFrom, this`laps
      ensures Valid()
    {
      hide Valid, Registers, OnTrack, Parts, ViewOk, Window.Valid, BitReader.Bits, BitReader.Valid, Moves, Pending, HuffTable.Ready,
        RawRegs, HeaderRegs, BodyOk, ItemOk, Decodable, LenSym, DistSym, LenExtra, DistExtra, LengthBase, DistBase,
        LengthExtraBits, DistExtraCount;
      FormedBody();
      InReach(len, d);
      dist := dist + x;
      distFrom := w.pos;
      laps := 0;
      if dist > distFrom && !w.wraps {
        assert false;  // nothing is that far back, so this is not a valid stream
      }
      at := CopyOut(false);
      AssembleBody();
    }

    /** A match reaches back only into output that is still in the buffer. */
    lemma InReach(len: nat, d: nat)
      requires Parts() && OnTrack() && view.ph.InBody? && view.ph.item == CopyRest(len, d)
      ensures w.Kept(d) && (!w.wraps ==> d <= w.pos)
    {
      hide AfterOk, BodyOk, HuffTable.Valid, BitReader.Valid, BitReader.Bits, Pending, BlockEnd;
    }

    /** Copies a match: at once if it fits, and else byte by byte, as far as there is room. */
    method StepCopy() returns (s: Status)
      requires Valid() && at.CopyOut?
      modifies this, w`pos, w`hist, w.out
      ensures Valid() && goal == old(goal)
      ensures w.Before() == old(w.Before()) && old(w.hist) <= w.hist
      ensures if s == Going then Less(view, old(view)) else s == HasMoreOutput && Stuck()
    {
      hide Valid, Registers, OnTrack, Parts, ViewOk, Window.Valid, BitReader.Bits, BitReader.Valid, Moves, Pending, HuffTable.Ready,
        RawRegs, HeaderRegs, BodyOk, ItemOk, Decodable, LenSym, DistSym, LenExtra, DistExtra, LengthBase, DistBase,
        LengthExtraBits, DistExtraCount;
      WhereBody();
      w.Bounds();
      ghost var d := view.ph.item.dist;
      w.MaskIsBack(d, distFrom, laps);
      var src := w.Mask(distFrom - dist);
      if at.slow || (if w.pos > src then w.pos else src) + counter > w.end {
        s := CopyPart();
      } else {
        CopyWhole(src);
        s := Going;
      }
    }

    method CopyWhole(src: nat)
      requires Valid() && at.CopyOut? && counter >= MIN_MATCH && src == w.Back(dist)
      requires w.pos + counter <= w.end && src + counter <= w.end
      modifies this`view, this`at, w`pos, w`hist, w.out
      ensures Valid() && Less(view, old(view))
      ensures w.Before() == old(w.Before()) && old(w.hist) <= w.hist
    {
      hide Valid, Registers, Parts, ViewOk, Window.Valid, BitReader.Bits, BitReader.Valid, Moves, Pending, HuffTable.Ready,
        RawRegs, HeaderRegs, BodyOk, ItemOk, Decodable, LenSym, DistSym, LenExtra, DistExtra, LengthBase, DistBase,
        LengthExtraBits, DistExtraCount, Copy;
      WhereBody();
      ghost var v := view;
      ghost var d := v.ph.item.dist;
      ghost var v1 := View(v.ph.(item := CopyRest(0, d)), v.after, Copy(v.hist, counter, d));
      ghost var v' := v1.(ph := v1.ph.(item := Symbol));
      CopyMore(v, goal, v1.hist, 0);
      Moved(v, v1, [], goal);
      EndCopy(v1, goal);
      Moved(v1, v', [], goal);
      w.CopyFast(counter, dist, src);
      assert [] + Pending(v') == Pending(v') && [] + Pending(v1) == Pending(v1);
      view := v';
      at := LitSymbol(false);
      FormedBody();
      AssembleBody();
    }

    method CopyPart() returns (s: Status)
      requires Valid() && at.CopyOut?
      modifies this`view, this`at, this`counter, this`distFrom, w`pos, w`hist, w.out
      ensures Valid()
      ensures w.Before() == old(w.Before()) && old(w.hist) <= w.hist
      ensures if s == Going then Less(view, old(view)) else s == HasMoreOutput && Stuck()
    {
      hide Valid, Registers, Parts, OnTrack, ViewOk, Window.Valid, Window.Before, BitReader.Bits, BitReader.Valid, Moves, Pending,
        HuffTable.Ready, Flagged, BodyOk, ItemOk, Copy;
      var left := TakeCopy();
      if left > 0 {
        at := CopyOut(true);
        Tracked();
        Unfinished(view, goal);
        FormedBody();
        AssembleBody();
        return HasMoreOutput;
      }
      FinishCopy();
      s := Going;
    }

    /** Copies while there is room. */
    method TakeCopy() returns (left: nat)
      requires Valid() && at.CopyOut?
      modifies this`view, this`counter, this`distFrom, w`pos, w`hist, w.out
      ensures Parts() && OnTrack() && Flagged() && w.Before() == old(w.Before()) && old(w.hist) <= w.hist
      ensures old(view.ph).InBody? && old(view.ph).item.CopyRest?
      ensures view == View(old(view).ph.(item := CopyRest(left, dist)), old(view).after, w.hist)
      ensures Pending(view) == old(Pending(view))
      ensures lit.Ready(view.ph.body.lens) && dst.Ready(view.ph.body.dists)
      ensures w.Kept(dist) && counter == left && distFrom == w.pos + laps * w.out.Length && (!w.wraps ==> laps == 0)
      ensures left > 0 ==> w.pos == w.end
    {
      hide Valid, Registers, Parts, ViewOk, Window.Valid, BitReader.Bits, BitReader.Valid, Moves, Pending, HuffTable.Ready,
        RawRegs, HeaderRegs, BodyOk, ItemOk, Decodable, LenSym, DistSym, LenExtra, DistExtra, LengthBase, DistBase,
        LengthExtraBits, DistExtraCount, Copy;
      WhereBody();
      ghost var v := view;
      var from;
      left, from := w.CopySlow(counter, dist, distFrom, laps);
      counter, distFrom := left, from;
      ghost var v1 := View(v.ph.(item := CopyRest(left, dist)), v.after, w.hist);
      CopyMore(v, goal, w.hist, left);
      Moved(v, v1, [], goal);
      assert [] + Pending(v1) == Pending(v1);
      view := v1;
    }

    method FinishCopy()
      requires Parts() && OnTrack() && Flagged() && view.ph.InBody? && view.ph.item.CopyRest? && view.ph.item.left == 0
      requires lit.Ready(view.ph.body.lens) && dst.Ready(view.ph.body.dists)
      modifies this`view, this`at
      ensures Valid() && view == old(view.(ph := view.ph.(item := Symbol))) && Pending(view) == old(Pending(view))
    {
      hide Valid, Registers, OnTrack, Parts, ViewOk, Window.Valid, BitReader.Bits, BitReader.Valid, Moves, Pending, HuffTable.Ready,
        RawRegs, HeaderRegs, BodyOk, ItemOk, Decodable, LenSym, DistSym, LenExtra, DistExtra, LengthBase, DistBase,
        LengthExtraBits, DistExtraCount;
      Tracked();
      EndCopy(view, goal);
      ghost var v' := view.(ph := view.ph.(item := Symbol));
      Moved(view, v', [], goal);
      assert [] + Pending(v') == Pending(v');
      Pass(v');
      at := LitSymbol(false);
      FormedBody();
      AssembleBody();
    }

    // ---------- a call

    /** One move of the coroutine, whatever it is doing. */
    method Step() returns (s: Status)
      requires Valid()
      modifies this, r`pos, r`bitBuf, r`numBits, w`pos, w`hist, w.out, rawHeader, tableSizes, lenCodes
      modifies pk.codeSize, pk.lookUp, pk.tree, lit.codeSize, lit.lookUp, lit.tree, dst.codeSize, dst.lookUp, dst.tree
      ensures Valid() && goal == old(goal)
      ensures w.Before() == old(w.Before()) && old(w.hist) <= w.hist
      ensures match s
              case Going => Less(view, old(view))
              case NeedsMoreInput => r.Starved()
              case HasMoreOutput => Stuck()
              case Done => view.ph.AtEnd?
    {
      hide *;
      match at
      case ReadBlock => s := StepBlock();
      case SkipPadding => s := StepPadding();
      case RawLength => s := StepRawLength();
      case RawFromBuffer => s := StepRawFromBuffer();
      case RawWait => s := StepRawWait();
      case RawCopy => s := StepRawCopy();
      case TableSize => s := StepTableSize();
      case PackLength => s := StepPackLength();
      case LengthSymbol(_) => s := StepLengthSymbol();
      case LengthRun => s := StepLengthRun();
      case LitSymbol(filling) =>
        if filling || |r.input| - r.pos < 4 || w.end - w.pos < 2 {
          s := StepSymbol();
        } else {
          StepFast();
          s := Going;
        }
      case LitWait => s := StepLitWait();
      case LengthExtra => s := StepLengthExtra();
      case DistSymbol(_) => s := StepDistSymbol();
      case DistanceExtra => s := StepDistanceExtra();
      case CopyOut(_) => s := StepCopy();
      case Finished =>
        AtStart();
        s := Done;
    }

    /** The input of the next call. */
    method SupplyInput(chunk: seq<byte>, hasMore: bool, ghost rest: seq<bool>)
      requires Valid() && (!hasMore ==> rest == [])
      requires r.pos <= |r.input| && BytesToBits(chunk) + rest == r.Unread()
      modifies r`input, r`pos, r`more, r`future
      ensures Valid() && r.input == chunk && r.pos == 0 && r.more == hasMore && r.future == rest
    {
      hide Parts, Registers, ViewOk, Window.Valid, BitReader.Bits, BitReader.Valid, BitReader.Unread, Pending;
      r.Supply(chunk, hasMore, rest);
    }

    /** The room of the next call; a full ring starts over. */
    method SupplyRoom(limit: nat)
      requires Valid() && w.pos <= limit <= w.out.Length
      modifies this`laps, w`pos, w`end
      ensures Valid() && w.end == if w.wraps then w.out.Length else limit
      ensures w.pos == if w.wraps && old(w.pos) == w.out.Length then 0 else old(w.pos)
    {
      hide Parts, ViewOk, Window.Valid, BitReader.Bits, BitReader.Valid, Pending, HuffTable.Ready, RawRegs, HeaderRegs,
        HeaderOk, DynOk, RawOk, BodyOk, ItemOk, Flagged, AfterOk;
      if w.wraps && w.pos == w.out.Length {
        laps := laps + 1;
        assert laps * w.out.Length == (laps - 1) * w.out.Length + w.out.Length;
      }
      w.Resume(limit);
    }

    /** The buffers of the next call, which do not change what has been read and written. */
    method Supply(chunk: seq<byte>, hasMore: bool, limit: nat, ghost rest: seq<bool>)
      requires Valid() && (!hasMore ==> rest == [])
      requires r.pos <= |r.input| && BytesToBits(chunk) + rest == r.Unread()
      requires w.pos <= limit <= w.out.Length
      modifies this`laps, r`input, r`pos, r`more, r`future, w`pos, w`end
      ensures r.input == chunk && r.pos == 0 && r.more == hasMore && r.future == rest
      ensures w.end == if w.wraps then w.out.Length else limit
      ensures w.pos == if w.wraps && old(w.pos) == w.out.Length then 0 else old(w.pos)
      ensures Valid() && view == old(view)
    {
      hide Valid, BitReader.Unread;
      SupplyInput(chunk, hasMore, rest);
      SupplyRoom(limit);
    }

    /** What is known at the end of a call. */
    lemma Outcome()
      requires Valid()
      ensures r.pos <= |r.input| && w.pos <= w.end <= w.out.Length && w.hist == view.hist <= goal.data
      ensures view.ph.AtEnd? ==> w.hist == goal.data
      ensures w.pos <= |w.hist| && w.out[..w.pos] == w.hist[|w.hist| - w.pos..]
    {
      hide Parts, ViewOk, Window.Valid, BitReader.Bits, Registers, Pending;
      Prefix(view, goal);
      w.Bounds();
      w.Latest(w.pos);
    }

    /** Moves on until something is missing. */
    method Run() returns (s: Status)
      requires Valid()
      modifies this, r`pos, r`bitBuf, r`numBits, w`pos, w`hist, w.out, rawHeader, tableSizes, lenCodes
      modifies pk.codeSize, pk.lookUp, pk.tree, lit.codeSize, lit.lookUp, lit.tree, dst.codeSize, dst.lookUp, dst.tree
      ensures Valid() && goal == old(goal)
      ensures w.Before() == old(w.Before()) && old(w.hist) <= w.hist
      ensures match s
              case Going => false
              case NeedsMoreInput => r.Starved()
              case HasMoreOutput => Stuck()
              case Done => view.ph.AtEnd?
    {
      hide Valid, Registers, OnTrack, Parts, ViewOk, Window.Valid, Window.Before, BitReader.Bits, BitReader.Valid, Pending, Owed, Rank, Stuck;
      s := Step();
      while s == Going
        invariant Valid() && goal == old(goal) && w.Before() == old(w.Before()) && old(w.hist) <= w.hist
        invariant match s
                  case Going => true
                  case NeedsMoreInput => r.Starved()
                  case HasMoreOutput => Stuck()
                  case Done => view.ph.AtEnd?
        decreases s == Going, |Pending(view)|, Owed(view.ph), Rank(view.ph)
      {
        s := Step();
      }
    }

    /** tinfl_decompress: goes on with the stream until it is over or a buffer of this call is used up. */
    method Decompress(chunk: seq<byte>, hasMore: bool, limit: nat, ghost rest: seq<bool>) returns (s: Status)
      requires Valid() && (!hasMore ==> rest == [])
      requires r.pos <= |r.input| && BytesToBits(chunk) + rest == r.Unread()
      requires w.pos <= limit <= w.out.Length
      modifies this, r, w`pos, w`end, w`hist, w.out, rawHeader, tableSizes, lenCodes
      modifies pk.codeSize, pk.lookUp, pk.tree, lit.codeSize, lit.lookUp, lit.tree, dst.codeSize, dst.lookUp, dst.tree
      ensures Valid() && goal == old(goal)
      ensures r.input == chunk && r.pos <= |chunk| && r.more == hasMore && r.future == rest
      ensures w.end == if w.wraps then w.out.Length else limit
      ensures var start := if w.wraps && old(w.pos) == w.out.Length then 0 else old(w.pos);
              start <= w.pos <= w.end && w.hist == old(w.hist) + w.out[start..w.pos]
      ensures w.hist <= goal.data
      ensures match s
              case Going => false
              case NeedsMoreInput => hasMore && r.pos == |chunk|
              case HasMoreOutput => w.pos == w.end && |w.hist| < |goal.data|
              case Done => w.hist == goal.data
    {
      hide Valid, Registers, OnTrack, Parts, ViewOk, Window.Valid, BitReader.Bits, BitReader.Valid, BitReader.Unread;
      Supply(chunk, hasMore, limit, rest);
      ghost var start, before := w.pos, w.hist;
      s := Run();
      Outcome();
      WrittenSince(w.out[..w.pos], w.hist, before, start, w.pos);
      assert w.out[start..w.pos] == w.out[..w.pos][start..];
    }

    lemma PackComplete(h: Header)
      requires Parts() && HeaderOk(h) && PackKnown(h, h.numPackLens)
      ensures pk.Sizes(PACK_SYMBOLS) == h.packLens
    {
      ArrayLengths();
      hide Parts, HuffTable.Valid, Decodable, Unpacks, OpsCoded, Swizzle;
      forall k | 0 <= k < PACK_SYMBOLS
        ensures pk.codeSize[k] == h.packLens[k]
      {
        var j := SwizzleOnto(k);
        if j >= h.numPackLens {
          assert h.packLens[Swizzle(j)] == 0;
        }
      }
    }
  }

  /** The ninth bit of a table entry tells literals from other symbols. */
  lemma HighBit(raw: nat)
    ensures raw % 512 == raw % 256 + if raw / 256 % 2 == 1 then 256 else 0
  {
  }

  lemma CodeLimit(sizes: seq<nat>, k: nat)
    requires Fits(sizes) && Used(sizes, k)
    ensures sizes[k] <= MAX_CODE_SIZE
  {
  }

  /** The last n written are the buffer up to n, and the buffer up to start was there before. */
  lemma WrittenSince(buf: seq<byte>, hist: seq<byte>, before: seq<byte>, start: nat, n: nat)
    requires |buf| == n <= |hist| && buf == hist[|hist| - n..] && before <= hist
    requires |hist| - n == |before| - start && start <= |before|
    ensures start <= n && hist == before + buf[start..]
  {
    assert buf[start..] == hist[|before|..];
  }

  function MinSize(i: nat): nat
    requires i < 3
  {
    if i == 0 then 257 else if i == 1 then 1 else 4
  }

  lemma SizeValue(h: Header, i: nat, x: nat)
    requires HeaderOk(h) && i < 3
    requires var n := if i == 2 then 4 else 5; x < Pow2(n) && ToBits(x, n) == SizeBits(h, i)
    ensures x + MinSize(i) == if i == 0 then |h.lens| else if i == 1 then |h.dists| else h.numPackLens
  {
    hide Decodable, Unpacks, OpsCoded, ToBits;
    assert Pow2(4) == 16 && Pow2(5) == 32;
    ToBitsInjective(x, if i == 0 then |h.lens| - 257 else if i == 1 then |h.dists| - 1 else h.numPackLens - 4, if i == 2 then 4 else 5);
  }

  lemma HeaderParts(h: Header)
    requires HeaderOk(h)
    ensures |h.packLens| == PACK_SYMBOLS && 4 <= h.numPackLens <= PACK_SYMBOLS
    ensures |h.lens| <= 288 && |h.dists| <= 32
    ensures Decodable(h.lens) && Decodable(h.dists) && Decodable(h.packLens)
    ensures Limited(h.lens) && Limited(h.dists) && Limited(h.packLens)
    ensures forall i :: 0 <= i < PACK_SYMBOLS ==> h.packLens[Swizzle(i)] < 8
  {
    hide Unpacks, OpsCoded, Swizzle;
  }

  lemma SwizzleInjective(i: nat)
    requires i < PACK_SYMBOLS
    ensures forall j: nat :: j < PACK_SYMBOLS && Swizzle(j) == Swizzle(i) ==> j == i
  {
  }

  lemma SwizzleOnto(k: nat) returns (j: nat)
    requires k < PACK_SYMBOLS
    ensures j < PACK_SYMBOLS && Swizzle(j) == k
  {
    j := if k == 0 then 3 else if k < 8 then 19 - 2 * k else if k <= 15 then 2 * k - 12 else k - 16;
  }

  lemma PadDone(before: nat, after: nat, pad: nat)
    requires before == pad + after && pad == before % 8
    ensures after % 8 == 0
  {
  }

  function Min3(a: nat, b: nat, c: nat): (m: nat)
    ensures m <= a && m <= b && m <= c && (m == a || m == b || m == c)
  {
    if a <= b && a <= c then a else if b <= c then b else c
  }

  lemma LengthBytes(n: nat)
    requires n < 0x10000
    ensures LengthByte(n, 0) + 256 * LengthByte(n, 1) == n
    ensures LengthByte(n, 2) + 256 * LengthByte(n, 3) == 0xFFFF - n
  {
  }

  lemma FixedDecodable()
    ensures Limited(FixedLens()) && Limited(FixedDists()) && Decodable(FixedLens()) && Decodable(FixedDists())
  {
    hide FixedLens, FixedDists, Total;
    FixedComplete();
  }

  lemma HeaderThreeValue(x: nat, b: Block, last: bool)
    requires x < Pow2(3) && ToBits(x, 3) == HeaderThree(b, last)
    ensures (x % 2 == 1 <==> last) && x / 2 == TypeOf(b)
  {
    assert Pow2(3) == 8 && Pow2(2) == 4;
    var h := HeaderThree(b, last);
    assert ToBits(x, 3) == [x % 2 == 1] + ToBits(x / 2, 2);
    assert h[0] == last && h[1..] == ToBits(TypeOf(b), 2);
    assert ToBits(x, 3)[1..] == ToBits(x / 2, 2);
    ToBitsInjective(x / 2, TypeOf(b), 2);
  }
}
