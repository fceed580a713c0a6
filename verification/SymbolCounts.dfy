/** How often the tokens of a block use each symbol, and how much room they take. */
module SymbolCounts {
  import opened Bits
  import opened Canonical
  import opened Symbols
  import opened Format
  import opened EncodeTables
  import opened HuffCodes
  import opened LzCodes
  import opened HeaderWriters

  function LitCount(ts: seq<Token>, k: nat): (c: nat)
    requires AllOk(ts)
    ensures c <= |ts|
  {
    if ts == [] then 0
    else LitCount(ts[..|ts| - 1], k) + if LitSym(ts[|ts| - 1]) == k then 1 else 0
  }

  predicate HasDistSym(t: Token, k: nat)
    requires TokenOk(t)
  {
    t.Match? && DistSym(t.dist - 1) == k
  }

  function DistCount(ts: seq<Token>, k: nat): (c: nat)
    requires AllOk(ts)
    ensures c <= |ts|
  {
    if ts == [] then 0
    else DistCount(ts[..|ts| - 1], k) + if HasDistSym(ts[|ts| - 1], k) then 1 else 0
  }

  /** How often each symbol is needed for the tokens and for one end of the block. */
  function LitTotals(ts: seq<Token>): (c: seq<nat>)
    requires AllOk(ts)
    ensures |c| == 288
  {
    seq(288, k requires 0 <= k < 288 => if k == END_OF_BLOCK then 1 else LitCount(ts, k))
  }

  function DistTotals(ts: seq<Token>): (c: seq<nat>)
    requires AllOk(ts)
    ensures |c| == 32
  {
    seq(32, k requires 0 <= k < 32 => DistCount(ts, k))
  }

  /** If a block has its own codes, its header wastes nothing. */
  ghost predicate Thrifty(b: Block)
  {
    b.Compressed? && b.tables.Dynamic? ==>
      AllOk(b.tokens) && Sparing(b.tables.header, LitTotals(b.tokens), DistTotals(b.tokens))
  }

  lemma CountsSnoc(ts: seq<Token>, t: Token, k: nat)
    requires AllOk(ts) && TokenOk(t)
    ensures AllOk(ts + [t])
    ensures LitCount(ts + [t], k) == LitCount(ts, k) + if LitSym(t) == k then 1 else 0
    ensures DistCount(ts + [t], k) == DistCount(ts, k) + if HasDistSym(t, k) then 1 else 0
  {
    assert (ts + [t])[..|ts|] == ts;
  }

  lemma {:induction false} CountedSymbols(ts: seq<Token>, i: nat)
    requires AllOk(ts) && i < |ts|
    ensures LitCount(ts, LitSym(ts[i])) > 0
    ensures ts[i].Match? ==> DistCount(ts, DistSym(ts[i].dist - 1)) > 0
  {
    if i < |ts| - 1 {
      CountedSymbols(ts[..|ts| - 1], i);
    }
  }

  lemma {:induction false} UnusedSymbols(ts: seq<Token>, k: nat)
    requires AllOk(ts)
    ensures k == END_OF_BLOCK || k >= 286 ==> LitCount(ts, k) == 0
    ensures k >= 30 ==> DistCount(ts, k) == 0
  {
    if ts != [] {
      UnusedSymbols(ts[..|ts| - 1], k);
    }
  }

  /** How many tokens have a symbol below n. */
  function LitBelow(ts: seq<Token>, n: nat): (c: nat)
    requires AllOk(ts)
    ensures c <= |ts|
  {
    if ts == [] then 0 else LitBelow(ts[..|ts| - 1], n) + if LitSym(ts[|ts| - 1]) < n then 1 else 0
  }

  function DistBelow(ts: seq<Token>, n: nat): (c: nat)
    requires AllOk(ts)
    ensures c <= |ts|
  {
    if ts == [] then 0
    else
      var t := ts[|ts| - 1];
      DistBelow(ts[..|ts| - 1], n) + if t.Match? && DistSym(t.dist - 1) < n then 1 else 0
  }

  lemma {:induction false} BelowStep(ts: seq<Token>, n: nat)
    requires AllOk(ts)
    ensures LitBelow(ts, n + 1) == LitBelow(ts, n) + LitCount(ts, n)
    ensures DistBelow(ts, n + 1) == DistBelow(ts, n) + DistCount(ts, n)
    ensures n == 0 ==> LitBelow(ts, n) == DistBelow(ts, n) == 0
  {
    hide LitSym, DistSym;
    if ts != [] {
      BelowStep(ts[..|ts| - 1], n);
    }
  }

  lemma {:induction false} SumsAreBelow(ts: seq<Token>, lc: seq<nat>, dc: seq<nat>, n: nat)
    requires AllOk(ts) && n <= |lc| == |dc| && forall k :: 0 <= k < |lc| ==> lc[k] == LitCount(ts, k) && dc[k] == DistCount(ts, k)
    ensures SumTo(lc, n) == LitBelow(ts, n) && SumTo(dc, n) == DistBelow(ts, n)
  {
    if n > 0 {
      SumsAreBelow(ts, lc, dc, n - 1);
      BelowStep(ts, n - 1);
    } else {
      BelowStep(ts, 0);
    }
  }

  ghost predicate Counted(lc: seq<nat>, dc: seq<nat>, ts: seq<Token>)
    requires AllOk(ts)
  {
    && |lc| == |dc| == MAX_HUFF_SYMBOLS
    && (forall k :: 0 <= k < MAX_HUFF_SYMBOLS ==> lc[k] == LitCount(ts, k))
    && (forall k :: 0 <= k < MAX_HUFF_SYMBOLS ==> dc[k] == DistCount(ts, k))
  }

  /** The counts of a block's symbols are fit for codes to be made from them. */
  lemma CountsAreCountable(lc: seq<nat>, dc: seq<nat>, ts: seq<Token>)
    requires AllOk(ts) && Counted(lc, dc, ts) && |ts| < 65535
    ensures Countable(lc, dc, ts)
  {
    hide LitCount, DistCount, SumTo, LitBelow, DistBelow;
    forall i | 0 <= i < |ts|
      ensures TokenOk(ts[i]) && lc[LitSym(ts[i])] > 0 && (ts[i].Match? ==> dc[DistSym(ts[i].dist - 1)] > 0)
    {
      CountedSymbols(ts, i);
    }
    forall k: nat | k < MAX_HUFF_SYMBOLS
      ensures (k == END_OF_BLOCK || k >= 286 ==> lc[k] == 0) && (k >= 30 ==> dc[k] == 0)
    {
      UnusedSymbols(ts, k);
    }
    SumsAreBelow(ts, lc, dc, 288);
    SumsAreBelow(ts, lc, dc, 32);
  }

  // ---------- room

  /** The room that tokens take in the code buffer, in bits. */
  function Units(ts: seq<Token>): nat
  {
    if ts == [] then 0 else (if ts[0].Match? then 25 else 9) + Units(ts[1..])
  }

  lemma {:induction false} PayloadUnits(ts: seq<Token>)
    requires AllOk(ts)
    ensures 8 * |Payload(ts)| + |ts| == Units(ts) >= 9 * |ts|
  {
    if ts != [] {
      PayloadUnits(ts[1..]);
    }
  }

  lemma {:induction false} UnitsSplit(ts: seq<Token>, k: nat)
    requires k <= |ts|
    ensures Units(ts) == Units(ts[..k]) + Units(ts[k..])
  {
    if k == 0 {
      assert ts[0..] == ts;
    } else {
      UnitsSplit(ts[1..], k - 1);
      assert ts[1..][..k - 1] == ts[..k][1..];
      assert ts[1..][k - 1..] == ts[k..];
    }
  }

  /** The code buffer holds that room. */
  lemma {:induction false} PackedUnits(ts: seq<Token>)
    requires AllOk(ts)
    ensures 8 * |Packed(ts)| >= Units(ts) >= 9 * |ts|
    decreases |ts|
  {
    hide TokenOk;
    PayloadUnits(ts);
    if |ts| > 8 {
      PackedUnits(ts[8..]);
      PayloadUnits(ts[..8]);
      UnitsSplit(ts, 8);
    }
  }

  lemma FixedLengths(k: nat)
    ensures k < 288 ==> Used(FixedLens(), k) && FixedLens()[k] <= 9 && (k > END_OF_BLOCK ==> FixedLens()[k] <= 8)
    ensures k < 32 ==> Used(FixedDists(), k) && FixedDists()[k] == 5
    ensures FixedLens()[END_OF_BLOCK] == 7
  {
  }

  lemma FixedCoded(ts: seq<Token>)
    requires AllOk(ts)
    ensures AllCoded(FixedLens(), FixedDists(), ts) && Used(FixedLens(), END_OF_BLOCK)
  {
    hide FixedLens, FixedDists, Used;
    FixedLengths(END_OF_BLOCK);
    forall i | 0 <= i < |ts|
      ensures Coded(FixedLens(), FixedDists(), ts[i])
    {
      FixedLengths(LitSym(ts[i]));
      if ts[i].Match? {
        FixedLengths(DistSym(ts[i].dist - 1));
      }
    }
  }

  lemma FixedTokenSize(t: Token)
    requires Coded(FixedLens(), FixedDists(), t)
    ensures |TokenBits(FixedLens(), FixedDists(), t)| <= if t.Match? then 31 else 9
  {
    hide FixedLens, FixedDists, CodeNum, Msb;
    FixedLengths(LitSym(t));
    if t.Match? {
      FixedLengths(DistSym(t.dist - 1));
    }
  }

  /** With the fixed codes, tokens take no more than 1.24 times the bits they take in the code buffer. */
  lemma {:induction false} FixedSize(ts: seq<Token>)
    requires AllCoded(FixedLens(), FixedDists(), ts)
    ensures 100 * |TokensBits(FixedLens(), FixedDists(), ts)| <= 124 * Units(ts)
  {
    hide FixedLens, FixedDists, Coded, TokenBits;
    if ts != [] {
      FixedTokenSize(ts[0]);
      FixedSize(ts[1..]);
    }
  }

  /** A whole code buffer fits in the output buffer, with the fixed codes. */
  lemma FixedBlockFits(ts: seq<Token>)
    requires AllOk(ts) && |Packed(ts)| <= LZ_CODE_BUF_SIZE
    ensures AllCoded(FixedLens(), FixedDists(), ts) && Used(FixedLens(), END_OF_BLOCK)
    ensures |BodyBits(FixedLens(), FixedDists(), ts)| <= 650125
  {
    hide FixedLens, FixedDists, TokensBits, Packed, Units, Used, AllCoded;
    FixedCoded(ts);
    PackedUnits(ts);
    FixedSize(ts);
    FixedLengths(END_OF_BLOCK);
  }
}
