/** The format against RFC 1951 itself: the fields of a header, the fixed codes, the bases of lengths and distances,
    and streams given by their bytes. */
module Published {
  import opened Bits
  import opened Canonical
  import opened Symbols
  import opened RunLength
  import opened Format

  // ---------- the header of a dynamic block

  /** The number in the n bits from bit at on. */
  function Field(b: seq<bool>, at: nat, n: nat): nat
    requires at + n <= |b|
  {
    ToNat(b[at..at + n])
  }

  lemma FieldAt(a: seq<bool>, v: nat, n: nat, b: seq<bool>)
    requires v < Pow2(n)
    ensures Field(a + (ToBits(v, n) + b), |a|, n) == v
  {
    assert (a + (ToBits(v, n) + b))[|a|..|a| + n] == ToBits(v, n);
    ToNatToBits(v, n);
  }

  /** The three numbers of section 3.2.7. */
  lemma HeaderNumbers(h: Header)
    requires HeaderOk(h)
    ensures var b := HeaderBits(h);
            && |b| >= 14 && Field(b, 0, 5) == |h.lens| - 257 && Field(b, 5, 5) == |h.dists| - 1
            && Field(b, 10, 4) == h.numPackLens - 4
  {
    hide Decodable, Unpacks, OpsCoded, PackLensBits, OpsBits, ToBits, Field;
    assert Pow2(5) == 32 && Pow2(4) == 16;
    var x, y, z := SizeBits(h, 0), SizeBits(h, 1), SizeBits(h, 2);
    var rest := PackLensBits(h.packLens, 0, h.numPackLens) + OpsBits(h.packLens, h.ops);
    var b := HeaderBits(h);
    FieldAt([], |h.lens| - 257, 5, y + (z + rest));
    assert b == [] + (x + (y + (z + rest)));
    FieldAt(x, |h.dists| - 1, 5, z + rest);
    FieldAt(x + y, h.numPackLens - 4, 4, rest);
    assert b == (x + y) + (z + rest);
  }

  lemma {:induction false} PackLensField(p: seq<nat>, i: nat, n: nat, k: nat)
    requires |p| == PACK_SYMBOLS && i <= k < n <= PACK_SYMBOLS && p[Swizzle(k)] < 8
    ensures |PackLensBits(p, i, n)| == 3 * (n - i) && Field(PackLensBits(p, i, n), 3 * (k - i), 3) == p[Swizzle(k)]
    decreases k - i
  {
    hide Swizzle, ToBits, Field;
    PackLensSize(p, i, n);
    assert Pow2(3) == 8;
    var head, rest := ToBits(p[Swizzle(i)], 3), PackLensBits(p, i + 1, n);
    if i == k {
      FieldAt([], p[Swizzle(i)], 3, rest);
      assert [] + (head + rest) == PackLensBits(p, i, n);
    } else {
      PackLensField(p, i + 1, n, k);
      FieldShift(head, rest, 3 * (k - i - 1), 3);
    }
  }

  lemma {:induction false} PackLensSize(p: seq<nat>, i: nat, n: nat)
    requires |p| == PACK_SYMBOLS && i <= n <= PACK_SYMBOLS
    ensures |PackLensBits(p, i, n)| == 3 * (n - i)
    decreases n - i
  {
    if i < n {
      PackLensSize(p, i + 1, n);
    }
  }

  lemma FieldShift(a: seq<bool>, b: seq<bool>, at: nat, n: nat)
    requires at + n <= |b|
    ensures Field(a + b, |a| + at, n) == Field(b, at, n)
  {
    assert (a + b)[|a| + at..|a| + at + n] == b[at..at + n];
  }

  /** The length of symbol sym of the code length code is the k-th that is sent, or it is zero. */
  ghost predicate SentAt(h: Header, k: nat, sym: nat)
    requires HeaderOk(h) && sym < PACK_SYMBOLS
  {
    var b := HeaderBits(h);
    if k < h.numPackLens then 17 + 3 * k <= |b| && Field(b, 14 + 3 * k, 3) == h.packLens[sym] else h.packLens[sym] == 0
  }

  lemma HeaderParts(h: Header) returns (first: seq<bool>, ops: seq<bool>)
    requires HeaderOk(h)
    ensures |h.packLens| == PACK_SYMBOLS && h.numPackLens <= PACK_SYMBOLS
    ensures forall i :: 0 <= i < PACK_SYMBOLS ==> h.packLens[Swizzle(i)] < 8
    ensures forall i :: h.numPackLens <= i < PACK_SYMBOLS ==> h.packLens[Swizzle(i)] == 0
    ensures |first| == 14 && HeaderBits(h) == first + (PackLensBits(h.packLens, 0, h.numPackLens) + ops)
  {
    hide Decodable, Unpacks, OpsCoded, OpsBits, PackLensBits, ToBits, Swizzle;
    first, ops := SizeBits(h, 0) + (SizeBits(h, 1) + SizeBits(h, 2)), OpsBits(h.packLens, h.ops);
  }

  lemma SentInOrder(h: Header, k: nat)
    requires HeaderOk(h) && k < PACK_SYMBOLS
    ensures SentAt(h, k, Swizzle(k))
  {
    hide HeaderOk, HeaderBits, Field, Swizzle, PackLensBits, Decodable, Unpacks, OpsCoded;
    var first, ops := HeaderParts(h);
    if k < h.numPackLens {
      PackLensField(h.packLens, 0, h.numPackLens, k);
      FieldBetween(first, PackLensBits(h.packLens, 0, h.numPackLens), ops, 3 * k, 3);
    }
  }

  lemma FieldBetween(a: seq<bool>, b: seq<bool>, c: seq<bool>, at: nat, n: nat)
    requires at + n <= |b|
    ensures |a| + at + n <= |a + (b + c)| && Field(a + (b + c), |a| + at, n) == Field(b, at, n)
  {
    FieldWithin(b, c, at, n);
    FieldShift(a, b + c, at, n);
  }

  lemma FieldWithin(a: seq<bool>, b: seq<bool>, at: nat, n: nat)
    requires at + n <= |a|
    ensures Field(a + b, at, n) == Field(a, at, n)
  {
    assert (a + b)[at..at + n] == a[at..at + n];
  }

  /** The order of section 3.2.7 in which the lengths of the code length code are sent. */
  lemma LengthsInOrder(h: Header)
    requires HeaderOk(h)
    ensures SentAt(h, 0, 16) && SentAt(h, 1, 17) && SentAt(h, 2, 18) && SentAt(h, 3, 0) && SentAt(h, 4, 8)
    ensures SentAt(h, 5, 7) && SentAt(h, 6, 9) && SentAt(h, 7, 6) && SentAt(h, 8, 10) && SentAt(h, 9, 5)
    ensures SentAt(h, 10, 11) && SentAt(h, 11, 4) && SentAt(h, 12, 12) && SentAt(h, 13, 3) && SentAt(h, 14, 13)
    ensures SentAt(h, 15, 2) && SentAt(h, 16, 14) && SentAt(h, 17, 1) && SentAt(h, 18, 15)
  {
    hide HeaderOk, SentAt;
    forall k | 0 <= k < PACK_SYMBOLS
      ensures SentAt(h, k, Swizzle(k))
    {
      SentInOrder(h, k);
    }
    assert Swizzle(0) == 16 && Swizzle(1) == 17 && Swizzle(2) == 18 && Swizzle(3) == 0 && Swizzle(4) == 8 && Swizzle(5) == 7;
    assert Swizzle(6) == 9 && Swizzle(7) == 6 && Swizzle(8) == 10 && Swizzle(9) == 5 && Swizzle(10) == 11 && Swizzle(11) == 4;
    assert Swizzle(12) == 12 && Swizzle(13) == 3 && Swizzle(14) == 13 && Swizzle(15) == 2 && Swizzle(16) == 14;
    assert Swizzle(17) == 1 && Swizzle(18) == 15;
  }

  // ---------- lengths and distances

  /** The lengths of section 3.2.5: from symbol 265 on, four symbols for each number of extra bits. */
  lemma LengthSymbols(sym: nat)
    requires 257 <= sym <= 285
    ensures sym < 265 ==> LengthBase(sym) == sym - 254 && LengthExtraBits(sym) == 0
    ensures 265 <= sym < 285 ==>
              var e := (sym - 261) / 4;
              LengthExtraBits(sym) == e && LengthBase(sym) == 3 + (4 + (sym - 261) % 4) * Pow2(e)
    ensures sym == 285 ==> LengthBase(sym) == 258 && LengthExtraBits(sym) == 0
  {
    hide Pow2;
    Pow2Small();
    if sym < 265 {
    } else if sym < 269 {
      assert (sym - 261) / 4 == 1;
    } else if sym < 273 {
      assert (sym - 261) / 4 == 2;
    } else if sym < 277 {
      assert (sym - 261) / 4 == 3;
    } else if sym < 281 {
      assert (sym - 261) / 4 == 4;
    } else if sym < 285 {
      assert (sym - 261) / 4 == 5;
    }
  }

  /** The distances of section 3.2.5: from symbol 4 on, two symbols for each number of extra bits. */
  lemma DistanceSymbols(sym: nat)
    requires sym < 30
    ensures sym < 4 ==> DistBase(sym) == sym + 1 && DistExtraCount(sym) == 0
    ensures sym >= 4 ==>
              var e := (sym - 2) / 2;
              e <= 13 && DistExtraCount(sym) == e && DistBase(sym) == 1 + (2 + sym % 2) * Pow2(e)
  {
    hide Pow2;
    Pow2Small();
  }

  // ---------- the fixed codes

  /** The codes of section 3.2.6, as numbers. */
  lemma FixedCodes(k: nat)
    requires k < 288
    ensures CodeNum(FixedLens(), k) ==
              if k < 144 then 0x30 + k else if k < 256 then 0x190 + (k - 144) else if k < 280 then k - 256 else 0xC0 + (k - 280)
    ensures FixedLens()[k] == if k < 144 then 8 else if k < 256 then 9 else if k < 280 then 7 else 8
  {
    FixedAt();
    var s := FixedLens();
    var l := s[k];
    FixedBefore(k, l);
    FixedTotals(l - 1);
    hide FixedLens, CountIn, Total, Count;
    Assigned(s, k);
  }

  lemma Assigned(s: seq<nat>, k: nat)
    requires k < |s| && s[k] > 0
    ensures CodeNum(s, k) == 2 * Total(s, s[k] - 1) + CountIn(s, k, s[k])
  {
  }

  lemma FixedBefore(k: nat, l: nat)
    requires k < 288 && l == FixedLens()[k]
    ensures CountIn(FixedLens(), k, l) == if k < 144 then k else if k < 256 then k - 144 else if k < 280 then k - 256 else 144 + (k - 280)
  {
    var a, b, c, d := Repeat(8, 144), Repeat(9, 112), Repeat(7, 24), Repeat(8, 8);
    if k < 144 {
      InRepeats([], 8, 144, b + c + d, k, l);
      assert [] + a + (b + c + d) == FixedLens();
      assert Count([], l) == 0;
    } else if k < 256 {
      InRepeats(a, 9, 112, c + d, k - 144, l);
      CountInRepeat(8, 144, 144, l);
      assert a + b + (c + d) == FixedLens();
    } else if k < 280 {
      InRepeats(a + b, 7, 24, d, k - 256, l);
      CountInConcat(a, b, |b|, l);
      CountInRepeat(8, 144, 144, l);
      CountInRepeat(9, 112, 112, l);
    } else {
      InRepeats(a + b + c, 8, 8, [], k - 280, l);
      CountInConcat(a, b, |b|, l);
      CountInConcat(a + b, c, |c|, l);
      CountInRepeat(8, 144, 144, l);
      CountInRepeat(9, 112, 112, l);
      CountInRepeat(7, 24, 24, l);
      assert a + b + c + d + [] == FixedLens();
    }
  }

  /** Counting up to a place among equal lengths. */
  lemma InRepeats(a: seq<nat>, x: nat, n: nat, rest: seq<nat>, i: nat, l: nat)
    requires i <= n
    ensures CountIn(a + Repeat(x, n) + rest, |a| + i, l) == Count(a, l) + if x == l then i else 0
  {
    CountInPrefix(a + Repeat(x, n), rest, |a| + i, l);
    CountInConcat(a, Repeat(x, n), i, l);
    CountInRepeat(x, n, i, l);
  }
}
