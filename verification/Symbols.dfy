/** Length and distance symbols (section 3.2.5 of RFC 1951).  The compressor looks a symbol up from
    the length or the distance; the decompressor goes back with a base and a number of extra bits. */
module Symbols {
  import opened Bits

  const MIN_MATCH := 3
  const MAX_MATCH := 258
  const DICT_SIZE := 32768
  const END_OF_BLOCK := 256

  // ---------- the compressor's tables, indexed by length - 3 and by distance - 1

  function LenSym(m: nat): (s: nat)
    requires m < 256
    ensures 257 <= s <= 285
  {
    if m < 8 then 257 + m
    else if m < 16 then 265 + (m - 8) / 2
    else if m < 32 then 269 + (m - 16) / 4
    else if m < 64 then 273 + (m - 32) / 8
    else if m < 128 then 277 + (m - 64) / 16
    else if m < 255 then 281 + (m - 128) / 32
    else 285
  }

  function LenExtra(m: nat): (e: nat)
    requires m < 256
    ensures e <= 5
  {
    if m < 8 then 0 else if m < 16 then 1 else if m < 32 then 2 else if m < 64 then 3
    else if m < 128 then 4 else if m < 255 then 5 else 0
  }

  function SmallDistSym(m: nat): nat
    requires m < 512
  {
    if m < 4 then m
    else if m < 8 then 4 + (m - 4) / 2
    else if m < 16 then 6 + (m - 8) / 4
    else if m < 32 then 8 + (m - 16) / 8
    else if m < 64 then 10 + (m - 32) / 16
    else if m < 128 then 12 + (m - 64) / 32
    else if m < 256 then 14 + (m - 128) / 64
    else 16 + (m - 256) / 128
  }

  function SmallDistExtra(m: nat): nat
    requires m < 512
  {
    if m < 4 then 0 else if m < 8 then 1 else if m < 16 then 2 else if m < 32 then 3
    else if m < 64 then 4 else if m < 128 then 5 else if m < 256 then 6 else 7
  }

  function LargeDistSym(h: nat): nat
    requires h < 128
  {
    if h < 2 then 0
    else if h < 4 then 18 + (h - 2)
    else if h < 8 then 20 + (h - 4) / 2
    else if h < 16 then 22 + (h - 8) / 4
    else if h < 32 then 24 + (h - 16) / 8
    else if h < 64 then 26 + (h - 32) / 16
    else 28 + (h - 64) / 32
  }

  function LargeDistExtra(h: nat): nat
    requires h < 128
  {
    if h < 2 then 0 else if h < 4 then 8 else if h < 8 then 9 else if h < 16 then 10
    else if h < 32 then 11 else if h < 64 then 12 else 13
  }

  function DistSym(m: nat): (s: nat)
    requires m < DICT_SIZE
    ensures s < 30
  {
    if m < 512 then SmallDistSym(m) else LargeDistSym(m / 256)
  }

  function DistExtra(m: nat): (e: nat)
    requires m < DICT_SIZE
    ensures e <= 13
  {
    if m < 512 then SmallDistExtra(m) else LargeDistExtra(m / 256)
  }

  /** The bits of m that the symbol leaves out: m masked to n bits. */
  function Masked(m: nat, n: nat): (r: nat)
    ensures r < Pow2(n)
  {
    m % Pow2(n)
  }

  // ---------- the decompressor's tables, indexed by symbol

  const LENGTH_BASE: seq<nat> := [
    3, 4, 5, 6, 7, 8, 9, 10, 11, 13, 15, 17, 19, 23, 27, 31,
    35, 43, 51, 59, 67, 83, 99, 115, 131, 163, 195, 227, 258, 0, 0]

  const LENGTH_EXTRA: seq<nat> := [
    0, 0, 0, 0, 0, 0, 0, 0, 1, 1, 1, 1, 2, 2, 2, 2, 3, 3, 3, 3, 4, 4, 4, 4, 5, 5, 5, 5, 0, 0, 0]

  const DIST_BASE: seq<nat> := [
    1, 2, 3, 4, 5, 7, 9, 13, 17, 25, 33, 49, 65, 97, 129, 193, 257, 385, 513, 769, 1025, 1537,
    2049, 3073, 4097, 6145, 8193, 12289, 16385, 24577, 0, 0]

  const DIST_EXTRA: seq<nat> := [
    0, 0, 0, 0, 1, 1, 2, 2, 3, 3, 4, 4, 5, 5, 6, 6, 7, 7, 8, 8, 9, 9, 10, 10, 11, 11, 12, 12, 13, 13, 0, 0]

  function LengthBase(sym: nat): nat
    requires 257 <= sym < 288
  {
    LENGTH_BASE[sym - 257]
  }

  function LengthExtraBits(sym: nat): nat
    requires 257 <= sym < 288
  {
    LENGTH_EXTRA[sym - 257]
  }

  function DistBase(sym: nat): nat
    requires sym < 32
  {
    DIST_BASE[sym]
  }

  function DistExtraCount(sym: nat): nat
    requires sym < 32
  {
    DIST_EXTRA[sym]
  }

  lemma Pow2Small()
    ensures Pow2(0) == 1 && Pow2(1) == 2 && Pow2(2) == 4 && Pow2(3) == 8 && Pow2(4) == 16 && Pow2(5) == 32
    ensures Pow2(6) == 64 && Pow2(7) == 128 && Pow2(8) == 256 && Pow2(9) == 512 && Pow2(10) == 1024
    ensures Pow2(11) == 2048 && Pow2(12) == 4096 && Pow2(13) == 8192
  {
  }

  ghost predicate LengthBack(m: nat)
    requires m < 256
  {
    LengthExtraBits(LenSym(m)) == LenExtra(m) && LengthBase(LenSym(m)) + Masked(m, LenExtra(m)) == m + MIN_MATCH
  }

  /** The decompressor's tables undo the compressor's, for every length. */
  lemma LengthRoundTrip(m: nat)
    requires m < 256
    ensures LengthBack(m)
  {
    if m < 16 {
      ShortestLength(m);
    } else if m < 32 {
      ShortLength(m);
    } else {
      LongLength(m);
    }
  }

  lemma ShortestLength(m: nat)
    requires m < 16
    ensures LengthBack(m)
  {
    assert Pow2(0) == 1 && Pow2(1) == 2;
  }

  lemma ShortLength(m: nat)
    requires 16 <= m < 32
    ensures LengthBack(m)
  {
    assert Pow2(2) == 4;
  }

  lemma LongLength(m: nat)
    requires 32 <= m < 256
    ensures LengthBack(m)
  {
    Pow2Small();
    assert 16 <= LenSym(m) - 257 < 29;
  }

  /** And for every distance. */
  lemma DistRoundTrip(dist: nat)
    requires 1 <= dist <= DICT_SIZE
    ensures var m := dist - 1;
            DistExtraCount(DistSym(m)) == DistExtra(m) && DistBase(DistSym(m)) + Masked(m, DistExtra(m)) == dist
  {
    if dist <= 512 {
      SmallDistRoundTrip(dist - 1);
    } else {
      LargeDistRoundTrip(dist - 1);
    }
  }

  lemma SmallDistRoundTrip(m: nat)
    requires m < 512
    ensures var i := SmallDistSym(m);
            i < 18 && DistExtraCount(i) == SmallDistExtra(m) && DistBase(i) + Masked(m, SmallDistExtra(m)) == m + 1
  {
    if m < 32 {
      SmallestDistRoundTrip(m);
    } else {
      assert Pow2(4) == 16 && Pow2(5) == 32 && Pow2(6) == 64 && Pow2(7) == 128;
    }
  }

  lemma SmallestDistRoundTrip(m: nat)
    requires m < 32
    ensures var i := SmallDistSym(m);
            i < 18 && DistExtraCount(i) == SmallDistExtra(m) && DistBase(i) + Masked(m, SmallDistExtra(m)) == m + 1
  {
    assert Pow2(0) == 1 && Pow2(1) == 2 && Pow2(2) == 4 && Pow2(3) == 8;
  }

  lemma LargeDistRoundTrip(m: nat)
    requires 512 <= m < DICT_SIZE
    ensures var i := LargeDistSym(m / 256);
            18 <= i < 30 && DistExtraCount(i) == LargeDistExtra(m / 256) && DistBase(i) + Masked(m, LargeDistExtra(m / 256)) == m + 1
  {
    Pow2Small();
  }
}
