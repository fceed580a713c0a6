/** How the compressor starts a block: the fixed codes, or codes made to measure and sent in the header. */
module HeaderWriters {
  import opened Bits
  import opened Canonical
  import opened Symbols
  import opened RunLength
  import opened Format
  import opened BitWriters
  import opened EncodeTables
  import opened SizeLists
  import opened HuffCodes
  import opened BlockWriters

  /** The literal/length symbol of a token. */
  function LitSym(t: Token): (s: nat)
    requires TokenOk(t)
    ensures s < 286 && s != END_OF_BLOCK
  {
    if t.Literal? then t.lit else LenSym(t.len - MIN_MATCH)
  }

  /** Every symbol that the tokens need has been counted. */
  ghost predicate Covers(lc: seq<nat>, dc: seq<nat>, ts: seq<Token>)
    requires |lc| == |dc| == MAX_HUFF_SYMBOLS
  {
    forall i :: 0 <= i < |ts| ==>
      TokenOk(ts[i]) && lc[LitSym(ts[i])] > 0 && (ts[i].Match? ==> dc[DistSym(ts[i].dist - 1)] > 0)
  }

  // ---------- static blocks

  lemma FixedFits()
    ensures Fits(FixedLens()) && Fits(FixedDists()) && Limited(FixedLens()) && Limited(FixedDists())
  {
    hide FixedLens, FixedDists, Total;
    FixedComplete();
  }

  method FixedSizes(lit: EncodeTable, dst: EncodeTable)
    requires lit.Valid() && dst.Valid() && lit.sizes != dst.sizes
    modifies lit.sizes, dst.sizes
    ensures lit.Sizes(288) == FixedLens() && dst.Sizes(32) == FixedDists()
  {
    var p := lit.sizes;
    forall i | 0 <= i <= 143 { p[i] := 8; }
    forall i | 144 <= i <= 255 { p[i] := 9; }
    forall i | 256 <= i <= 279 { p[i] := 7; }
    forall i | 280 <= i <= 287 { p[i] := 8; }
    forall i | 0 <= i < 32 { dst.sizes[i] := 5; }
    FixedAt();
  }

  /** tdefl_optimize_huffman_table for code lengths that are given. */
  method Assign(t: EncodeTable, n: nat)
    requires t.Valid() && n <= MAX_HUFF_SYMBOLS && Fits(t.Sizes(n)) && Limited(t.Sizes(n))
    modifies t.codes
    ensures t.Ready(t.Sizes(n))
  {
    hide Fits, Count, EncodeTable.Ready;
    var num := new nat[MAX_SUPPORTED_CODE_SIZE + 1];
    t.CountSizes(n, num);
    assert forall k :: 0 <= k < n ==> t.sizes[k] == t.Sizes(n)[k];
    t.AssignCodes(n, MAX_CODE_SIZE, num);
  }

  /** tdefl_start_static_block. */
  method StartStatic(w: BitWriter, lit: EncodeTable, dst: EncodeTable)
    requires w.Valid() && lit.Valid() && dst.Valid() && lit.sizes !in {dst.sizes, dst.codes} && lit.codes !in {dst.sizes, dst.codes}
    modifies w`pos, w`bitBuffer, w`bitsIn, w`bytes, w.out, lit.sizes, dst.sizes, lit.codes, dst.codes
    ensures w.Valid() && w.Put() == old(w.Put()) + ToBits(1, 2) && old(w.bytes) <= w.bytes
    ensures lit.Ready(FixedLens()) && dst.Ready(FixedDists())
  {
    hide FixedLens, FixedDists, Fits, Limited, EncodeTable.Ready;
    FixedSizes(lit, dst);
    FixedFits();
    Assign(lit, 288);
    Assign(dst, 32);
    Small();
    w.PutBits(1, 2);
  }

  lemma Small()
    ensures Pow2(2) == 4 && Pow2(3) == 8 && Pow2(4) == 16 && Pow2(5) == 32 && Pow2(7) == 128 && Pow2(15) == 32768
  {
  }

  // ---------- codes without the unused symbols at the end

  lemma TrimCounts(s: seq<nat>, n: nat, l: nat)
    requires n <= |s| && l > 0 && forall k :: n <= k < |s| ==> s[k] == 0
    ensures Count(s[..n], l) == Count(s, l)
  {
    assert s == s[..n] + s[n..];
    CountInConcat(s[..n], s[n..], |s| - n, l);
    CountZeros(s[n..], |s| - n, l);
  }

  lemma {:induction false} CountZeros(s: seq<nat>, hi: nat, l: nat)
    requires hi <= |s| && l > 0 && forall k :: 0 <= k < hi ==> s[k] == 0
    ensures CountIn(s, hi, l) == 0
  {
    if hi > 0 {
      CountZeros(s, hi - 1, l);
    }
  }

  lemma {:induction false} TrimTotal(s: seq<nat>, n: nat, l: nat)
    requires n <= |s| && forall k :: n <= k < |s| ==> s[k] == 0
    ensures Total(s[..n], l) == Total(s, l)
  {
    if l > 0 {
      TrimTotal(s, n, l - 1);
      TrimCounts(s, n, l);
    }
  }

  lemma TrimCode(s: seq<nat>, n: nat, k: nat)
    requires k < n <= |s| && s[k] > 0 && forall k :: n <= k < |s| ==> s[k] == 0
    ensures Code(s[..n], k) == Code(s, k)
  {
    TrimTotal(s, n, s[k] - 1);
    CountInPrefix(s[..n], s[n..], k, s[k]);
    assert s == s[..n] + s[n..];
  }

  lemma TrimDecodable(s: seq<nat>, n: nat)
    requires n <= |s| && Decodable(s) && forall k :: n <= k < |s| ==> s[k] == 0
    ensures Decodable(s[..n])
  {
    TrimTotal(s, n, MAX_CODE_SIZE);
    assert forall k: nat :: Used(s[..n], k) ==> Used(s, k);
  }

  lemma TrimReady(t: EncodeTable, s: seq<nat>, n: nat)
    requires t.Valid() && t.Ready(s) && n <= |s| && forall k :: n <= k < |s| ==> s[k] == 0
    ensures t.Ready(s[..n])
  {
    forall k: nat | Used(s[..n], k)
      ensures k < MAX_HUFF_SYMBOLS && t.Holds(s[..n], k)
    {
      t.HasCode(s, k);
      TrimCode(s, n, k);
    }
  }

  /** How many of the first hi code lengths are sent, at least lo: those up to the last that is used. */
  method Trim(t: EncodeTable, hi: nat, lo: nat) returns (n: nat)
    requires t.Valid() && lo <= hi <= MAX_HUFF_SYMBOLS
    ensures lo <= n <= hi && (forall k :: n <= k < hi ==> t.sizes[k] == 0) && (n == lo || t.sizes[n - 1] > 0)
  {
    n := hi;
    while n > lo
      invariant lo <= n <= hi && forall k :: n <= k < hi ==> t.sizes[k] == 0
    {
      if t.sizes[n - 1] > 0 {
        return;
      }
      n := n - 1;
    }
  }

  // ---------- dynamic blocks

  lemma {:induction false} SumChange(s: seq<nat>, k: nat, v: nat, n: nat)
    requires k < |s| && n <= |s|
    ensures SumTo(s[k := v], n) == SumTo(s, n) + if k < n then v - s[k] else 0
  {
    if n > 0 {
      SumChange(s, k, v, n - 1);
    }
  }

  /** What the counts must be for codes to be made from them. */
  ghost predicate Countable(lc: seq<nat>, dc: seq<nat>, ts: seq<Token>)
    requires |lc| == |dc| == MAX_HUFF_SYMBOLS
  {
    && Covers(lc, dc, ts) && SumTo(lc, 288) < 65535 && SumTo(dc, 32) < 65536
    && lc[END_OF_BLOCK] == 0 && lc[286] == lc[287] == 0 && (forall k :: 30 <= k < MAX_HUFF_SYMBOLS ==> dc[k] == 0)
  }

  /** The code of a symbol that is used is among those that are sent. */
  lemma CodesSent(sizes: seq<nat>, counts: seq<nat>, n: nat, top: nat)
    requires n <= top <= |sizes| == |counts| && forall k: nat :: k < top ==> (Used(sizes[..top], k) <==> counts[k] > 0)
    requires forall k :: n <= k < top ==> sizes[k] == 0
    ensures forall k: nat :: k < top && counts[k] > 0 ==> Used(sizes[..n], k)
  {
    forall k: nat | k < top && counts[k] > 0
      ensures Used(sizes[..n], k)
    {
      assert Used(sizes[..top], k);
      assert sizes[..top][k] == sizes[k];
    }
  }

  lemma TokensCoded(lens: seq<nat>, dists: seq<nat>, lc: seq<nat>, dc: seq<nat>, ts: seq<Token>)
    requires |lc| == |dc| == MAX_HUFF_SYMBOLS && Covers(lc, dc, ts)
    requires forall k: nat :: k < 288 && k != END_OF_BLOCK && lc[k] > 0 ==> Used(lens, k)
    requires forall k: nat :: k < 32 && dc[k] > 0 ==> Used(dists, k)
    ensures AllCoded(lens, dists, ts)
  {
    forall i | 0 <= i < |ts|
      ensures Coded(lens, dists, ts[i])
    {
      assert lc[LitSym(ts[i])] > 0;
    }
  }

  /** A table made to measure, and how much of it is sent. */
  method MakeTable(t: EncodeTable, top: nat, hi: nat, lo: nat) returns (n: nat)
    requires t.Valid() && lo <= hi <= top <= MAX_HUFF_SYMBOLS && SumTo(t.counts[..], top) < 65536
    requires forall k :: hi <= k < top ==> t.counts[k] == 0
    modifies t.codes, t.sizes
    ensures lo <= n <= hi && Decodable(t.Sizes(n)) && t.Ready(t.Sizes(n))
    ensures forall k :: 0 <= k < n ==> t.sizes[k] <= MAX_CODE_SIZE
    ensures forall k: nat :: k < top && t.counts[k] > 0 ==> Used(t.Sizes(n), k)
    ensures Economical(t.Counts(top), t.Sizes(top), MAX_CODE_SIZE) && forall k :: n <= k < top ==> t.sizes[k] == 0
    ensures (n == lo || t.sizes[n - 1] > 0) && forall k: nat :: k < top ==> (t.sizes[k] > 0 <==> t.counts[k] > 0)
  {
    hide SumTo, Decodable, EncodeTable.Ready, Economical, Ordered, Shortened;
    Small();
    ghost var natural := Optimize(t, top, MAX_CODE_SIZE);
    forall k | hi <= k < top
      ensures t.sizes[k] == 0
    {
      assert !Used(t.Sizes(top), k);
    }
    forall k: nat | k < top
      ensures t.sizes[k] > 0 <==> t.counts[k] > 0
    {
      assert Used(t.Sizes(top), k) <==> t.sizes[k] > 0;
    }
    n := Trim(t, hi, lo);
    assert t.Sizes(top)[..n] == t.Sizes(n);
    TrimDecodable(t.Sizes(top), n);
    TrimReady(t, t.Sizes(top), n);
    assert t.sizes[..][..top] == t.Sizes(top) && t.sizes[..][..n] == t.Sizes(n);
    CodesSent(t.sizes[..], t.counts[..], n, top);
  }

  /** How many operations have a symbol below n. */
  function OpsBelow(ops: seq<Op>, n: nat): (c: nat)
    ensures c <= |ops|
  {
    if ops == [] then 0 else OpsBelow(ops[..|ops| - 1], n) + if ops[|ops| - 1].sym < n then 1 else 0
  }

  lemma {:induction false} OpsBelowStep(ops: seq<Op>, n: nat)
    ensures OpsBelow(ops, n + 1) == OpsBelow(ops, n) + Occurs(ops, n) && (n == 0 ==> OpsBelow(ops, n) == 0)
  {
    if ops != [] {
      OpsBelowStep(ops[..|ops| - 1], n);
    }
  }

  lemma {:induction false} SumOccurs(ops: seq<Op>, counts: seq<nat>, n: nat)
    requires n <= |counts| && forall s: nat :: s < n ==> counts[s] == Occurs(ops, s)
    ensures SumTo(counts, n) == OpsBelow(ops, n)
  {
    if n > 0 {
      SumOccurs(ops, counts, n - 1);
      OpsBelowStep(ops, n - 1);
    } else {
      OpsBelowStep(ops, 0);
    }
  }

  lemma OpsHaveCodes(ops: seq<Op>, packLens: seq<nat>, counts: seq<nat>)
    requires |counts| >= PACK_SYMBOLS && forall s :: 0 <= s < PACK_SYMBOLS ==> counts[s] == Occurs(ops, s)
    requires forall k: nat :: k < PACK_SYMBOLS ==> (Used(packLens, k) <==> counts[k] > 0)
    requires forall i :: 0 <= i < |ops| ==> ops[i].sym < PACK_SYMBOLS
    ensures OpsCoded(packLens, ops)
  {
    forall i | 0 <= i < |ops|
      ensures Used(packLens, ops[i].sym)
    {
      OccursPositive(ops, i);
    }
  }

  lemma {:induction false} OpsInRange(ops: seq<Op>, sofar: seq<nat>, all: seq<nat>)
    requires Unpacks(ops, sofar, all)
    ensures forall i :: 0 <= i < |ops| ==> OpOk(ops[i])
  {
    if ops != [] {
      OpsInRange(ops[1..], Apply(ops[0], sofar), all);
      assert forall i :: 1 <= i < |ops| ==> ops[i] == ops[1..][i - 1];
    }
  }

  /** Packs the code lengths and makes the code for the packed form. */
  method MakePack(pk: EncodeTable, sizes: seq<nat>) returns (p: Packer)
    requires pk.Valid() && |sizes| <= MAX_LENGTHS && forall i :: 0 <= i < |sizes| ==> sizes[i] <= MAX_CODE_SIZE
    modifies pk.counts, pk.codes, pk.sizes
    ensures fresh(p) && p.packed.Length == MAX_LENGTHS && p.num <= p.packed.Length && p.packed[..p.num] == Flat(p.ops)
    ensures Unpacks(p.ops, [], sizes) && OpsCoded(pk.Sizes(PACK_SYMBOLS), p.ops) && p.ops == Runs(sizes, 0xFF)
    ensures pk.Ready(pk.Sizes(PACK_SYMBOLS)) && Decodable(pk.Sizes(PACK_SYMBOLS))
    ensures forall k :: 0 <= k < PACK_SYMBOLS ==> pk.sizes[k] < 8
    ensures Economical(pk.Counts(PACK_SYMBOLS), pk.Sizes(PACK_SYMBOLS), 7)
    ensures forall k :: 0 <= k < PACK_SYMBOLS ==> pk.counts[k] == Occurs(p.ops, k)
  {
    hide SumTo, Decodable, EncodeTable.Ready, Unpacks, Flat, Occurs, OpsCoded, Packer.Pending, Economical, Ordered, Shortened, Runs;
    p := new Packer(pk.counts);
    p.Pack(sizes);
    ghost var ops := p.ops;
    SumOccurs(ops, pk.counts[..], PACK_SYMBOLS);
    UnpacksLength(ops, [], sizes);
    Small();
    ghost var natural := Optimize(pk, PACK_SYMBOLS, 7);
    OpsInRange(ops, [], sizes);
    OpsHaveCodes(ops, pk.Sizes(PACK_SYMBOLS), pk.counts[..]);
  }

  /** How many lengths of the code length code are sent. */
  method CountPackLens(pk: EncodeTable) returns (n: nat)
    requires pk.Valid()
    ensures 4 <= n <= PACK_SYMBOLS && (forall i :: n <= i < PACK_SYMBOLS ==> pk.sizes[Swizzle(i)] == 0)
    ensures n == 4 || pk.sizes[Swizzle(n - 1)] > 0
  {
    var k: int := PACK_SYMBOLS - 1;
    while k >= 0
      invariant -1 <= k < PACK_SYMBOLS
      invariant forall i :: k < i < PACK_SYMBOLS ==> pk.sizes[Swizzle(i)] == 0
    {
      if pk.sizes[Swizzle(k)] > 0 {
        break;
      }
      k := k - 1;
    }
    n := if k + 1 > 4 then k + 1 else 4;
  }

  method PutPackLens(w: BitWriter, pk: EncodeTable, n: nat, ghost packLens: seq<nat>)
    requires w.Valid() && pk.Valid() && n <= PACK_SYMBOLS && packLens == pk.Sizes(PACK_SYMBOLS)
    requires forall k :: 0 <= k < PACK_SYMBOLS ==> pk.sizes[k] < 8
    modifies w`pos, w`bitBuffer, w`bitsIn, w`bytes, w.out
    ensures w.Valid() && w.Put() == old(w.Put()) + PackLensBits(packLens, 0, n) && old(w.bytes) <= w.bytes
  {
    hide Swizzle, ToBits;
    Small();
    ghost var goal := w.Put() + PackLensBits(packLens, 0, n);
    for i := 0 to n
      invariant w.Valid() && old(w.bytes) <= w.bytes
      invariant w.Put() + PackLensBits(packLens, i, n) == goal
    {
      assert packLens[Swizzle(i)] == pk.sizes[Swizzle(i)];
      SnocBits(w.Put(), ToBits(packLens[Swizzle(i)], 3), PackLensBits(packLens, i + 1, n));
      w.PutBits(pk.sizes[Swizzle(i)], 3);
    }
  }

  lemma FlatHead(ops: seq<Op>, s: seq<nat>, i: nat)
    requires i <= |s| && s[i..] == Flat(ops)
    ensures (i < |s| <==> ops != []) && (ops != [] ==> |OpBytes(ops[0])| == if ops[0].sym >= 16 then 2 else 1)
    ensures ops != [] ==> s[i] == ops[0].sym && i + |OpBytes(ops[0])| <= |s| && s[i + |OpBytes(ops[0])|..] == Flat(ops[1..])
    ensures ops != [] && ops[0].sym >= 16 ==> i + 1 < |s| && s[i + 1] == ops[0].extra
  {
    if ops != [] {
      var b := OpBytes(ops[0]);
      assert s[i..] == b + Flat(ops[1..]);
      assert s[i..][0] == s[i];
      assert |b| == 2 ==> s[i..][1] == s[i + 1];
      assert s[i + |b|..] == s[i..][|b|..];
    }
  }

  /** The packed code lengths, symbol by symbol. */
  method PutOps(w: BitWriter, pk: EncodeTable, packed: array<nat>, num: nat, ghost ops: seq<Op>, ghost packLens: seq<nat>)
    requires w.Valid() && pk.Valid() && pk.Ready(packLens) && num <= packed.Length && packed[..num] == Flat(ops)
    requires OpsCoded(packLens, ops) && forall i :: 0 <= i < |ops| ==> OpOk(ops[i])
    modifies w`pos, w`bitBuffer, w`bitsIn, w`bytes, w.out
    ensures w.Valid() && w.Put() == old(w.Put()) + OpsBits(packLens, ops) && old(w.bytes) <= w.bytes
  {
    hide EncodeTable.Ready, ToBits, Flat, OpBytes, BitWriter.Valid, BitWriter.Put, Code;
    ghost var goal, s := w.Put() + OpsBits(packLens, ops), packed[..num];
    ghost var rest := ops;
    var i: nat := 0;
    assert s[0..] == s;
    FlatHead(rest, s, i);
    while i < num
      invariant i <= num && s == packed[..num] && s[i..] == Flat(rest) && (i < num <==> rest != [])
      invariant OpsCoded(packLens, rest) && forall k :: 0 <= k < |rest| ==> OpOk(rest[k])
      invariant w.Valid() && old(w.bytes) <= w.bytes && w.Put() + OpsBits(packLens, rest) == goal
    {
      FlatHead(rest, s, i);
      ghost var op, later, before := rest[0], OpsBits(packLens, rest[1..]), w.Put();
      var code := packed[i];
      i := i + 1;
      PutSymbol(w, pk, code, packLens);
      if code >= 16 {
        w.PutBits(packed[i], if code == 16 then 2 else if code == 17 then 3 else 7);
        i := i + 1;
      }
      OneOp(before, packLens, op, later, w.Put());
      rest := rest[1..];
      FlatHead(rest, s, i);
    }
  }

  lemma OneOp(before: seq<bool>, packLens: seq<nat>, op: Op, later: seq<bool>, now: seq<bool>)
    requires Used(packLens, op.sym) && OpOk(op)
    requires now == if op.sym >= 16 then before + Code(packLens, op.sym) + ToBits(op.extra, ExtraBits(op.sym))
                    else before + Code(packLens, op.sym)
    ensures before + (OpBits(packLens, op) + later) == now + later
  {
    if op.sym < 16 {
      assert ToBits(op.extra, ExtraBits(op.sym)) == [];
    }
  }

  /** The codes made for a block's tokens, as they will be sent. */
  ghost predicate Made(lit: EncodeTable, dst: EncodeTable, numLit: nat, numDist: nat, ts: seq<Token>)
    requires lit.Valid() && dst.Valid()
    reads lit.codes, lit.sizes, dst.codes, dst.sizes
  {
    && 257 <= numLit <= 286 && 1 <= numDist <= 30
    && Decodable(lit.Sizes(numLit)) && lit.Ready(lit.Sizes(numLit))
    && Decodable(dst.Sizes(numDist)) && dst.Ready(dst.Sizes(numDist))
    && Used(lit.Sizes(numLit), END_OF_BLOCK) && AllCoded(lit.Sizes(numLit), dst.Sizes(numDist), ts)
  }

  method MakeTables(lit: EncodeTable, dst: EncodeTable, ghost ts: seq<Token>) returns (numLit: nat, numDist: nat)
    requires lit.Valid() && dst.Valid() && Countable(lit.counts[..], dst.counts[..], ts)
    requires {lit.counts, lit.codes, lit.sizes} !! {dst.counts, dst.codes, dst.sizes}
    modifies lit.counts, lit.codes, lit.sizes, dst.codes, dst.sizes
    ensures Made(lit, dst, numLit, numDist, ts)
    ensures forall k :: 0 <= k < numLit ==> lit.sizes[k] <= MAX_CODE_SIZE
    ensures forall k :: 0 <= k < numDist ==> dst.sizes[k] <= MAX_CODE_SIZE
    ensures var lc, dc := old(lit.counts[..])[END_OF_BLOCK := 1], old(dst.counts[..]);
            SparingTable(lc[..288], lit.Sizes(numLit), 257) && SparingTable(dc[..32], dst.Sizes(numDist), 1)
  {
    hide SumTo, Decodable, EncodeTable.Ready, Covers, Economical, SparingTable;
    ghost var lc, dc := lit.counts[..], dst.counts[..];
    SumChange(lc, END_OF_BLOCK, 1, 288);
    lit.counts[END_OF_BLOCK] := 1;
    assert lit.counts[..] == lc[END_OF_BLOCK := 1];
    numLit := MakeTable(lit, 288, 286, 257);
    Spared(lit, 288, numLit, 257);
    numDist := MakeTable(dst, 32, 30, 1);
    Spared(dst, 32, numDist, 1);
    TokensCoded(lit.Sizes(numLit), dst.Sizes(numDist), lc, dc, ts);
  }

  /** What is sent of a table's code lengths: up to the last that is not zero, but at least lo.  There is a code for
      just the symbols that occur, and no codes are cheaper for them, unless the limit is reached. */
  ghost predicate SparingTable(counts: seq<nat>, sent: seq<nat>, lo: nat)
  {
    lo <= |sent| <= |counts| &&
    var sizes := sent + Repeat(0, |counts| - |sent|);
    && (|sent| == lo || sent[|sent| - 1] > 0) && Economical(counts, sizes, MAX_CODE_SIZE)
    && forall k :: 0 <= k < |counts| ==> (sizes[k] > 0 <==> counts[k] > 0)
  }

  function OpCounts(ops: seq<Op>): (c: seq<nat>)
    ensures |c| == PACK_SYMBOLS
  {
    seq(PACK_SYMBOLS, k requires 0 <= k < PACK_SYMBOLS => Occurs(ops, k))
  }

  /** A header for symbols with these counts does not waste anything: neither in the codes, nor in the runs of code
      lengths, nor in the codes for those, nor in what it sends of each. */
  ghost predicate Sparing(h: Header, lc: seq<nat>, dc: seq<nat>)
  {
    && SparingTable(lc, h.lens, 257) && SparingTable(dc, h.dists, 1)
    && h.ops == Runs(h.lens + h.dists, 0xFF)
    && |h.packLens| == PACK_SYMBOLS && Economical(OpCounts(h.ops), h.packLens, 7)
    && 4 <= h.numPackLens <= PACK_SYMBOLS && (h.numPackLens == 4 || h.packLens[Swizzle(h.numPackLens - 1)] > 0)
  }

  lemma Spared(t: EncodeTable, top: nat, n: nat, lo: nat)
    requires t.Valid() && lo <= n <= top <= MAX_HUFF_SYMBOLS && (forall k :: n <= k < top ==> t.sizes[k] == 0)
    requires Economical(t.Counts(top), t.Sizes(top), MAX_CODE_SIZE) && (n == lo || t.sizes[n - 1] > 0)
    requires forall k: nat :: k < top ==> (t.sizes[k] > 0 <==> t.counts[k] > 0)
    ensures SparingTable(t.counts[..][..top], t.Sizes(n), lo)
  {
    hide Economical;
    assert t.Sizes(n) + Repeat(0, top - n) == t.Sizes(top) && t.counts[..][..top] == t.Counts(top);
  }

  ghost predicate Sendable(h: Header, lit: EncodeTable, dst: EncodeTable, ts: seq<Token>)
    requires lit.Valid() && dst.Valid()
    reads lit.codes, lit.sizes, dst.codes, dst.sizes
  {
    HeaderOk(h) && lit.Ready(h.lens) && dst.Ready(h.dists) && Used(h.lens, END_OF_BLOCK) && AllCoded(h.lens, h.dists, ts)
  }

  lemma PutTogether(p: seq<bool>, a: seq<bool>, b: seq<bool>, c: seq<bool>, d: seq<bool>, e: seq<bool>, f: seq<bool>)
    ensures p + a + b + c + d + e + f == p + (a + (b + (c + (d + (e + f)))))
  {
  }

  /** The codes that fit a block's tokens, and how they will be sent. */
  method MakeHeader(lit: EncodeTable, dst: EncodeTable, pk: EncodeTable, ghost ts: seq<Token>)
    returns (numLit: nat, numDist: nat, n: nat, p: Packer, ghost h: Header)
    requires lit.Valid() && dst.Valid() && pk.Valid() && Countable(lit.counts[..], dst.counts[..], ts)
    requires {lit.counts, lit.codes, lit.sizes} !! {dst.counts, dst.codes, dst.sizes}
    requires {pk.counts, pk.codes, pk.sizes} !! {lit.counts, lit.codes, lit.sizes, dst.counts, dst.codes, dst.sizes}
    modifies lit.counts, lit.codes, lit.sizes, dst.codes, dst.sizes, pk.counts, pk.codes, pk.sizes
    ensures Sendable(h, lit, dst, ts) && Described(h, pk, numLit, numDist, n, p)
    ensures Sparing(h, old(lit.counts[..])[END_OF_BLOCK := 1][..288], old(dst.counts[..])[..32])
  {
    hide SumTo, Decodable, EncodeTable.Ready, Unpacks, Flat, OpsCoded, Countable, Covers, AllCoded, Used, Code, HeaderOk, Sendable,
      Swizzle, Made, Economical, Occurs, SparingTable, Runs;
    numLit, numDist := MakeTables(lit, dst, ts);
    MadeSizes(lit, dst, numLit, numDist, ts);
    p := MakePack(pk, lit.sizes[..numLit] + dst.sizes[..numDist]);
    n := CountPackLens(pk);
    h := Header(lit.Sizes(numLit), dst.Sizes(numDist), pk.Sizes(PACK_SYMBOLS), n, p.ops);
    assert OpCounts(h.ops) == pk.Counts(PACK_SYMBOLS);
    MadeHeader(lit, dst, pk, numLit, numDist, ts, h);
  }

  /** The header as the compressor has it: three numbers, the table for the packed lengths, and the packed lengths. */
  ghost predicate Described(h: Header, pk: EncodeTable, numLit: nat, numDist: nat, n: nat, p: Packer)
    requires pk.Valid()
    reads pk.codes, pk.sizes, p, p.packed
  {
    && HeaderOk(h) && numLit == |h.lens| <= 286 && numDist == |h.dists| <= 30 && n == h.numPackLens
    && h.packLens == pk.Sizes(PACK_SYMBOLS) && pk.Ready(h.packLens)
    && (forall k :: 0 <= k < PACK_SYMBOLS ==> pk.sizes[k] < 8)
    && p.num <= p.packed.Length && p.packed[..p.num] == Flat(h.ops)
  }

  lemma HeaderLengths(h: Header)
    requires HeaderOk(h)
    ensures |h.lens| >= 257 && |h.dists| >= 1 && 4 <= h.numPackLens <= PACK_SYMBOLS == |h.packLens|
    ensures OpsCoded(h.packLens, h.ops) && forall i :: 0 <= i < |h.ops| ==> OpOk(h.ops[i])
  {
    hide Decodable, OpsCoded, Unpacks, Swizzle;
    OpsInRange(h.ops, [], h.lens + h.dists);
  }

  method PutHeader(w: BitWriter, pk: EncodeTable, numLit: nat, numDist: nat, n: nat, p: Packer, ghost h: Header)
    requires w.Valid() && pk.Valid() && Described(h, pk, numLit, numDist, n, p)
    modifies w`pos, w`bitBuffer, w`bitsIn, w`bytes, w.out
    ensures w.Valid() && w.Put() == old(w.Put()) + (ToBits(2, 2) + HeaderBits(h)) && old(w.bytes) <= w.bytes
  {
    hide EncodeTable.Ready, Flat, OpsCoded, BitWriter.Valid, BitWriter.Put, ToBits, HeaderBits, PackLensBits, OpsBits, HeaderOk;
    Small();
    HeaderLengths(h);
    ghost var before := w.Put();
    w.PutBits(2, 2);
    w.PutBits(numLit - 257, 5);
    w.PutBits(numDist - 1, 5);
    w.PutBits(n - 4, 4);
    PutPackLens(w, pk, n, h.packLens);
    PutOps(w, pk, p.packed, p.num, h.ops, h.packLens);
    HeaderPieces(before, h);
  }

  /** tdefl_start_dynamic_block: the type of the block, and the header for codes that fit its tokens. */
  method StartDynamic(w: BitWriter, lit: EncodeTable, dst: EncodeTable, pk: EncodeTable, ghost ts: seq<Token>)
    returns (ghost h: Header)
    requires w.Valid() && lit.Valid() && dst.Valid() && pk.Valid() && Countable(lit.counts[..], dst.counts[..], ts)
    requires {lit.counts, lit.codes, lit.sizes} !! {dst.counts, dst.codes, dst.sizes}
    requires {pk.counts, pk.codes, pk.sizes} !! {lit.counts, lit.codes, lit.sizes, dst.counts, dst.codes, dst.sizes}
    modifies w`pos, w`bitBuffer, w`bitsIn, w`bytes, w.out, lit.counts, lit.codes, lit.sizes, dst.codes, dst.sizes
    modifies pk.counts, pk.codes, pk.sizes
    ensures Sendable(h, lit, dst, ts) && Sparing(h, old(lit.counts[..])[END_OF_BLOCK := 1][..288], old(dst.counts[..])[..32])
    ensures HeaderOk(h) && w.Valid() && w.Put() == old(w.Put()) + (ToBits(2, 2) + HeaderBits(h)) && old(w.bytes) <= w.bytes
  {
    hide Countable, Sendable, HeaderOk, HeaderBits, ToBits, BitWriter.Valid, BitWriter.Put, Sparing;
    var numLit, numDist, n, p;
    numLit, numDist, n, p, h := MakeHeader(lit, dst, pk, ts);
    PutHeader(w, pk, numLit, numDist, n, p, h);
  }

  lemma MadeSizes(lit: EncodeTable, dst: EncodeTable, numLit: nat, numDist: nat, ts: seq<Token>)
    requires lit.Valid() && dst.Valid() && Made(lit, dst, numLit, numDist, ts)
    ensures 257 <= numLit <= 286 && 1 <= numDist <= 30 && lit.sizes.Length == dst.sizes.Length == MAX_HUFF_SYMBOLS
    ensures lit.sizes[..numLit] == lit.Sizes(numLit) && dst.sizes[..numDist] == dst.Sizes(numDist)
    ensures forall i :: 0 <= i < numLit ==> lit.Sizes(numLit)[i] == lit.sizes[i]
    ensures forall i :: 0 <= i < numDist ==> dst.Sizes(numDist)[i] == dst.sizes[i]
  {
  }

  lemma MadeHeader(lit: EncodeTable, dst: EncodeTable, pk: EncodeTable, numLit: nat, numDist: nat, ts: seq<Token>, h: Header)
    requires lit.Valid() && dst.Valid() && pk.Valid() && Made(lit, dst, numLit, numDist, ts)
    requires numLit <= MAX_HUFF_SYMBOLS && numDist <= MAX_HUFF_SYMBOLS
    requires h == Header(lit.Sizes(numLit), dst.Sizes(numDist), pk.Sizes(PACK_SYMBOLS), h.numPackLens, h.ops)
    requires 4 <= h.numPackLens <= PACK_SYMBOLS && Decodable(pk.Sizes(PACK_SYMBOLS))
    requires forall i :: h.numPackLens <= i < PACK_SYMBOLS ==> pk.sizes[Swizzle(i)] == 0
    requires forall k :: 0 <= k < PACK_SYMBOLS ==> pk.sizes[k] < 8
    requires Unpacks(h.ops, [], h.lens + h.dists) && OpsCoded(h.packLens, h.ops)
    ensures HeaderOk(h) && Sendable(h, lit, dst, ts)
  {
    hide Decodable, EncodeTable.Ready, Unpacks, OpsCoded, AllCoded, Used, Swizzle;
    assert forall k :: 0 <= k < PACK_SYMBOLS ==> h.packLens[k] == pk.sizes[k];
  }

  lemma HeaderPieces(p: seq<bool>, h: Header)
    requires HeaderOk(h)
    ensures p + ToBits(2, 2) + ToBits(|h.lens| - 257, 5) + ToBits(|h.dists| - 1, 5) + ToBits(h.numPackLens - 4, 4) +
              PackLensBits(h.packLens, 0, h.numPackLens) + OpsBits(h.packLens, h.ops) == p + (ToBits(2, 2) + HeaderBits(h))
  {
    hide Decodable, Unpacks, PackLensBits, OpsBits, ToBits;
    PutTogether(p, ToBits(2, 2), SizeBits(h, 0), SizeBits(h, 1), SizeBits(h, 2), PackLensBits(h.packLens, 0, h.numPackLens),
                OpsBits(h.packLens, h.ops));
  }
}
