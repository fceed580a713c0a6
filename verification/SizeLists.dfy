/** Code lengths of symbols, and how they come from a list of the symbols in use: which symbols may have the
    longer codes, and which lengths are the cheapest. */
module SizeLists {
  import opened Bits
  import opened Canonical
  import opened RadixSort
  import opened MinRedundancy
  import opened LengthLimit

  // ---------- what the lengths of the symbols are to be

  /** The bits that all occurrences of the first n symbols take. */
  function SymCost(counts: seq<nat>, sizes: seq<nat>, n: nat): nat
    requires n <= |counts| && n <= |sizes|
  {
    if n == 0 then 0 else SymCost(counts, sizes, n - 1) + counts[n - 1] * sizes[n - 1]
  }

  /** Lengths within the Kraft inequality, such that every symbol that occurs has a code. */
  ghost predicate Usable(counts: seq<nat>, sizes: seq<nat>, top: nat)
    requires |counts| == |sizes|
  {
    && (forall k :: 0 <= k < |sizes| ==> sizes[k] <= top && (counts[k] > 0 ==> sizes[k] > 0))
    && Total(sizes, top) <= Pow2(top)
  }

  /** No code for the symbols takes fewer bits. */
  ghost predicate Shortest(counts: seq<nat>, sizes: seq<nat>)
    requires |counts| == |sizes|
  {
    forall other: seq<nat>, top: nat :: |other| == |counts| && Usable(counts, other, top) ==>
      SymCost(counts, sizes, |counts|) <= SymCost(counts, other, |counts|)
  }

  /** A symbol that occurs more often than another never has the longer code, and of two that occur equally often
      the later one has not. */
  ghost predicate Ordered(counts: seq<nat>, sizes: seq<nat>)
    requires |counts| == |sizes|
  {
    forall j, k :: 0 <= j < |counts| && 0 <= k < |counts| && Rarer(counts, j, k) ==> sizes[k] <= sizes[j]
  }

  /** Symbol j comes before symbol k in the order of the list. */
  predicate Rarer(counts: seq<nat>, j: nat, k: nat)
    requires j < |counts| && k < |counts|
  {
    0 < counts[j] && (counts[j] < counts[k] || (counts[j] == counts[k] && j < k))
  }

  // ---------- the list of the symbols in use

  /** The elements of s are the symbols below n that have a count, each with its count. */
  ghost predicate Collected(s: seq<SymFreq>, counts: seq<nat>, n: nat)
    requires n <= |counts|
  {
    && (forall i :: 0 <= i < |s| ==> s[i].sym < n && s[i].key == counts[s[i].sym] > 0)
    && (forall k: nat :: k < n && counts[k] > 0 ==> SymFreq(counts[k], k) in s)
  }

  /** The symbols of a sorted list are all different. */
  ghost predicate Distinct(s: seq<SymFreq>)
  {
    forall i, j :: 0 <= i < j < |s| ==> s[i].sym != s[j].sym
  }

  /** Symbol k is among the elements of r from index j on. */
  ghost predicate InTail(r: seq<SymFreq>, j: nat, k: nat)
  {
    exists i :: j <= i < |r| && r[i].sym == k
  }

  /** The lengths of n symbols, when those on the list from index lo on have the lengths beside them. */
  function SizesOf(r: seq<SymFreq>, lo: nat, n: nat): (s: seq<nat>)
    ensures |s| == n
    decreases |r| - lo
  {
    if lo >= |r| then seq(n, _ => 0)
    else
      var s := SizesOf(r, lo + 1, n);
      if r[lo].sym < n then s[r[lo].sym := r[lo].key] else s
  }

  lemma {:induction false} SizesAt(r: seq<SymFreq>, lo: nat, n: nat)
    requires Distinct(r) && lo <= |r| && forall i :: 0 <= i < |r| ==> r[i].sym < n
    ensures forall i :: lo <= i < |r| ==> SizesOf(r, lo, n)[r[i].sym] == r[i].key
    ensures forall k :: 0 <= k < n && !InTail(r, lo, k) ==> SizesOf(r, lo, n)[k] == 0
    decreases |r| - lo
  {
    if lo < |r| {
      SizesAt(r, lo + 1, n);
      forall k | 0 <= k < n && !InTail(r, lo, k)
        ensures SizesOf(r, lo, n)[k] == 0
      {
        assert r[lo].sym != k;
        assert !InTail(r, lo + 1, k);
      }
    }
  }

  lemma {:induction false} CountChange(s: seq<nat>, k: nat, v: nat, hi: nat, l: nat)
    requires k < |s| && hi <= |s|
    ensures CountIn(s[k := v], hi, l) ==
              CountIn(s, hi, l) + if k >= hi || s[k] == v then 0 else if v == l then 1 else if s[k] == l then -1 else 0
  {
    if hi > 0 {
      CountChange(s, k, v, hi - 1, l);
    }
  }

  lemma {:induction false} CostChange(counts: seq<nat>, s: seq<nat>, k: nat, v: nat, n: nat)
    requires k < |s| && n <= |s| && n <= |counts| && s[k] == 0
    ensures SymCost(counts, s[k := v], n) == SymCost(counts, s, n) + if k < n then counts[k] * v else 0
  {
    if n > 0 {
      CostChange(counts, s, k, v, n - 1);
    }
  }

  lemma {:induction false} NoCost(counts: seq<nat>, s: seq<nat>, n: nat)
    requires n <= |counts| && n <= |s| && forall k :: 0 <= k < n ==> s[k] == 0
    ensures SymCost(counts, s, n) == 0
  {
    if n > 0 {
      NoCost(counts, s, n - 1);
    }
  }

  lemma SizesNext(r: seq<SymFreq>, lo: nat, n: nat)
    requires Distinct(r) && lo < |r| && forall i :: 0 <= i < |r| ==> r[i].sym < n
    ensures SizesOf(r, lo + 1, n)[r[lo].sym] == 0
    ensures SizesOf(r, lo, n) == SizesOf(r, lo + 1, n)[r[lo].sym := r[lo].key]
  {
    SizesAt(r, lo + 1, n);
    assert !InTail(r, lo + 1, r[lo].sym);
  }

  lemma CountCons(x: nat, a: seq<nat>, l: nat)
    ensures Count([x] + a, l) == Count(a, l) + if x == l then 1 else 0
  {
    CountInConcat([x], a, |a|, l);
    assert CountIn([x], 1, l) == if x == l then 1 else 0;
  }

  /** The symbols from index lo of the list on have their lengths, and the others none. */
  lemma {:induction false} SizesCount(r: seq<SymFreq>, lo: nat, n: nat, l: nat)
    requires Distinct(r) && lo <= |r| && l > 0 && forall i :: 0 <= i < |r| ==> r[i].sym < n && r[i].key > 0
    ensures Count(SizesOf(r, lo, n), l) == Count(Lens(r)[lo..], l)
    decreases |r| - lo
  {
    hide SizesOf, Distinct;
    if lo < |r| {
      SizesCount(r, lo + 1, n, l);
      SizesNext(r, lo, n);
      CountChange(SizesOf(r, lo + 1, n), r[lo].sym, r[lo].key, n, l);
      assert Lens(r)[lo..] == [r[lo].key] + Lens(r)[lo + 1..];
      CountCons(r[lo].key, Lens(r)[lo + 1..], l);
    } else {
      NoSizes(r, lo, n);
      CountNone(SizesOf(r, lo, n), n, l);
    }
  }

  lemma NoSizes(r: seq<SymFreq>, lo: nat, n: nat)
    requires lo >= |r|
    ensures forall k :: 0 <= k < n ==> SizesOf(r, lo, n)[k] == 0
  {
  }

  /** What the codes of the listed symbols cost, by the list and by the symbols. */
  lemma {:induction false} SizesCost(s: seq<SymFreq>, r: seq<SymFreq>, lo: nat, counts: seq<nat>)
    requires SameSyms(r, s) && Distinct(r) && lo <= |r|
    requires forall i :: 0 <= i < |s| ==> s[i].sym < |counts| && s[i].key == counts[s[i].sym]
    ensures SymCost(counts, SizesOf(r, lo, |counts|), |counts|) == Cost(Lens(s), Lens(r), lo)
    decreases |r| - lo
  {
    hide SizesOf, Distinct;
    var n := |counts|;
    if lo < |r| {
      SizesCost(s, r, lo + 1, counts);
      SizesNext(r, lo, n);
      CostChange(counts, SizesOf(r, lo + 1, n), r[lo].sym, r[lo].key, n);
    } else {
      NoSizes(r, lo, n);
      NoCost(counts, SizesOf(r, lo, n), n);
    }
  }

  lemma {:induction false} SameTotal(a: seq<nat>, b: seq<nat>, l: nat)
    requires forall i: nat :: 0 < i <= l ==> Count(a, i) == Count(b, i)
    ensures Total(a, l) == Total(b, l)
  {
    if l > 0 {
      SameTotal(a, b, l - 1);
    }
  }

  /** The list of the symbols with lengths taken from elsewhere. */
  function Relabel(r: seq<SymFreq>, sizes: seq<nat>): (q: seq<SymFreq>)
    requires forall i :: 0 <= i < |r| ==> r[i].sym < |sizes|
    ensures SameSyms(q, r) && forall i :: 0 <= i < |q| ==> q[i].key == sizes[r[i].sym]
  {
    seq(|r|, i requires 0 <= i < |r| => SymFreq(sizes[r[i].sym], r[i].sym))
  }

  // ---------- the cheapest lengths

  /** No code lengths that satisfy the Kraft inequality have a smaller weighted total. */
  ghost predicate Best(f: seq<nat>, best: seq<nat>)
    requires |f| == |best|
  {
    forall l: seq<nat>, top: nat ::
      |l| == |f| && (forall j :: 0 <= j < |l| ==> 1 <= l[j] <= top) && Total(l, top) <= Pow2(top) ==>
        Cost(f, best, 0) <= Cost(f, l, 0)
  }

  lemma {:induction false} FewerCounted(a: seq<nat>, b: seq<nat>, hi: nat, l: nat)
    requires |a| == |b| && hi <= |a| && l > 0 && forall k :: 0 <= k < |a| ==> a[k] == b[k] || a[k] == 0
    ensures CountIn(a, hi, l) <= CountIn(b, hi, l)
  {
    if hi > 0 {
      FewerCounted(a, b, hi - 1, l);
    }
  }

  lemma {:induction false} FewerTotal(a: seq<nat>, b: seq<nat>, l: nat)
    requires |a| == |b| && forall k :: 0 <= k < |a| ==> a[k] == b[k] || a[k] == 0
    ensures Total(a, l) <= Total(b, l)
  {
    if l > 0 {
      FewerTotal(a, b, l - 1);
      FewerCounted(a, b, |a|, l);
    }
  }

  lemma {:induction false} SameCost(counts: seq<nat>, a: seq<nat>, b: seq<nat>, n: nat)
    requires |a| == |b| == |counts| && n <= |a| && forall k :: 0 <= k < |a| ==> a[k] == b[k] || counts[k] == 0
    ensures SymCost(counts, a, n) == SymCost(counts, b, n)
  {
    if n > 0 {
      SameCost(counts, a, b, n - 1);
      assert counts[n - 1] * a[n - 1] == counts[n - 1] * b[n - 1];
    }
  }

  lemma ListedOrNone(s: seq<SymFreq>, counts: seq<nat>, k: nat)
    requires Collected(s, counts, |counts|) && k < |counts|
    ensures InTail(s, 0, k) <==> counts[k] > 0
  {
    if counts[k] > 0 {
      var i :| 0 <= i < |s| && s[i] == SymFreq(counts[k], k);
      assert s[i].sym == k;
    }
  }

  /** Lengths for all symbols, and what is left of them when only the symbols in use keep theirs. */
  lemma OwnSizes(s: seq<SymFreq>, counts: seq<nat>, other: seq<nat>)
    requires Collected(s, counts, |counts|) && Distinct(s) && |other| == |counts|
    requires forall i :: 0 <= i < |s| ==> s[i].sym < |other|
    ensures forall k :: 0 <= k < |counts| ==>
              SizesOf(Relabel(s, other), 0, |counts|)[k] == if counts[k] > 0 then other[k] else 0
  {
    var n, q := |counts|, Relabel(s, other);
    SizesAt(q, 0, n);
    hide SizesOf;
    forall k | 0 <= k < n
      ensures SizesOf(q, 0, n)[k] == if counts[k] > 0 then other[k] else 0
    {
      ListedOrNone(s, counts, k);
      if counts[k] > 0 {
        var i :| 0 <= i < |s| && s[i].sym == k;
        assert q[i].sym == k;
      } else {
        assert !InTail(q, 0, k);
      }
    }
  }

  /** Any usable lengths, listed: they are worth as much, and take no more of the code space. */
  lemma Listed(s: seq<SymFreq>, counts: seq<nat>, other: seq<nat>, top: nat)
    requires Collected(s, counts, |counts|) && Distinct(s) && |other| == |counts| && Usable(counts, other, top)
    ensures forall i :: 0 <= i < |s| ==> s[i].sym < |other|
    ensures var l := Lens(Relabel(s, other));
            && (forall j :: 0 <= j < |l| ==> 1 <= l[j] <= top) && Total(l, top) <= Pow2(top)
            && Cost(Lens(s), l, 0) == SymCost(counts, other, |counts|)
  {
    hide Cost, SymCost, SizesOf, Distinct, Total;
    var n, q := |counts|, Relabel(s, other);
    var own := SizesOf(q, 0, n);
    OwnSizes(s, counts, other);
    DistinctToo(s, q);
    SizesCost(s, q, 0, counts);
    SameCost(counts, own, other, n);
    FewerTotal(own, other, top);
    forall l: nat | 0 < l <= top
      ensures Count(own, l) == Count(Lens(q), l)
    {
      SizesCount(q, 0, n, l);
      assert Lens(q)[0..] == Lens(q);
    }
    SameTotal(own, Lens(q), top);
  }

  lemma OwnCounts(s: seq<SymFreq>, counts: seq<nat>)
    requires Collected(s, counts, |counts|)
    ensures forall i :: 0 <= i < |s| ==> s[i].sym < |counts| && s[i].key == counts[s[i].sym]
  {
  }

  lemma DistinctToo(s: seq<SymFreq>, r: seq<SymFreq>)
    requires SameSyms(r, s) && Distinct(s)
    ensures Distinct(r)
  {
  }

  lemma NoneCheaper(s: seq<SymFreq>, best: seq<nat>, counts: seq<nat>, other: seq<nat>, top: nat)
    requires Collected(s, counts, |counts|) && Distinct(s) && |best| == |s| && Best(Lens(s), best)
    requires |other| == |counts| && Usable(counts, other, top)
    ensures Cost(Lens(s), best, 0) <= SymCost(counts, other, |counts|)
  {
    hide SymCost, Total, Lens, Usable, Cost, Collected, Distinct;
    Listed(s, counts, other, top);
  }

  /** The best lengths for the list are the best for the symbols. */
  lemma BestIsShortest(s: seq<SymFreq>, r: seq<SymFreq>, counts: seq<nat>)
    requires Collected(s, counts, |counts|) && Distinct(s) && SameSyms(r, s) && Best(Lens(s), Lens(r))
    ensures Shortest(counts, SizesOf(r, 0, |counts|))
  {
    var n := |counts|;
    OwnCounts(s, counts);
    DistinctToo(s, r);
    hide SymCost, SizesOf, Total, Lens, Usable, Cost, Collected, SameSyms, Distinct, Best;
    SizesCost(s, r, 0, counts);
    forall other: seq<nat>, top: nat | |other| == n && Usable(counts, other, top)
      ensures SymCost(counts, SizesOf(r, 0, n), n) <= SymCost(counts, other, n)
    {
      NoneCheaper(s, Lens(r), counts, other, top);
    }
  }

  // ---------- lengths by rank

  /** The code that has t codes behind it, when the shorter ones come last and c[i] of them have length i,
      has length l. */
  predicate Rank(c: seq<nat>, t: int, l: nat)
    requires |c| == MAX_SUPPORTED + 1
  {
    1 <= l <= MAX_SUPPORTED && Codes(c, 1, l - 1) <= t < Codes(c, 1, l)
  }

  lemma {:induction false} CodesMono(c: seq<nat>, l: nat, m: nat)
    requires l <= m < |c|
    ensures Codes(c, 1, l) <= Codes(c, 1, m)
    decreases m
  {
    if l < m {
      CodesMono(c, l, m - 1);
    }
  }

  /** Of two codes, the one with more codes behind it has no shorter length. */
  lemma RankMono(c: seq<nat>, t: int, l: nat, u: int, m: nat)
    requires |c| == MAX_SUPPORTED + 1 && Rank(c, t, l) && Rank(c, u, m) && t <= u
    ensures l <= m
  {
    if m < l {
      CodesMono(c, m, l - 1);
    }
  }

  /** The symbols from index j on have lengths that go by their rank. */
  ghost predicate Ranked(sizes: seq<nat>, r: seq<SymFreq>, j: nat, c: seq<nat>)
    requires |c| == MAX_SUPPORTED + 1
  {
    forall i :: j <= i < |r| ==> r[i].sym < |sizes| && Rank(c, |r| - 1 - i, sizes[r[i].sym])
  }

  /** What is ranked along a list in order has the order that is asked for. */
  lemma RankedOrdered(sizes: seq<nat>, s: seq<SymFreq>, r: seq<SymFreq>, counts: seq<nat>, c: seq<nat>)
    requires Sorted(s) && Collected(s, counts, |counts|) && SameSyms(r, s) && |sizes| == |counts|
    requires |c| == MAX_SUPPORTED + 1 && Ranked(sizes, r, 0, c)
    ensures Ordered(counts, sizes)
  {
    hide Rank;
    forall j, k | 0 <= j < |counts| && 0 <= k < |counts| && Rarer(counts, j, k)
      ensures sizes[k] <= sizes[j]
    {
      var x :| 0 <= x < |s| && s[x] == SymFreq(counts[j], j);
      var y :| 0 <= y < |s| && s[y] == SymFreq(counts[k], k);
      RankMono(c, |r| - 1 - y, sizes[k], |r| - 1 - x, sizes[j]);
    }
  }

  lemma {:induction false} UsedUpToConcat(a: seq<nat>, b: seq<nat>, l: nat)
    ensures UsedUpTo(a + b, l) == UsedUpTo(a, l) + UsedUpTo(b, l)
  {
    if l > 0 {
      UsedUpToConcat(a, b, l - 1);
      CountInConcat(a, b, |b|, l);
    }
  }

  lemma {:induction false} UsedUpToSome(s: seq<nat>, l: nat)
    ensures UsedUpTo(s, l) <= |s|
    ensures (forall i :: 0 <= i < |s| ==> 1 <= s[i] <= l) ==> UsedUpTo(s, l) == |s|
    ensures (forall i :: 0 <= i < |s| ==> l < s[i]) ==> UsedUpTo(s, l) == 0
  {
    if s == [] {
      UsedUpToNone(s, l);
    } else {
      var n := |s| - 1;
      assert s == s[..n] + [s[n]];
      UsedUpToSome(s[..n], l);
      UsedUpToConcat(s[..n], [s[n]], l);
      UsedUpToSingle(s[n], l);
    }
  }

  lemma {:induction false} UsedUpToSingle(x: nat, l: nat)
    ensures UsedUpTo([x], l) == if 1 <= x <= l then 1 else 0
  {
    if l > 0 {
      UsedUpToSingle(x, l - 1);
      assert CountIn([x], 1, l) == if x == l then 1 else 0;
    }
  }

  lemma {:induction false} CodesUsed(num: seq<nat>, s: seq<nat>, l: nat)
    requires l < |num| && forall i :: 1 <= i <= l ==> num[i] == Count(s, i)
    ensures Codes(num, 1, l) == UsedUpTo(s, l)
  {
    if l > 0 {
      CodesUsed(num, s, l - 1);
    }
  }

  /** Lengths that fall along the list go by rank. */
  lemma FallingRanked(b: seq<nat>, c: seq<nat>, i: nat)
    requires |c| == MAX_SUPPORTED + 1 && i < |b| && forall l :: 1 <= l <= MAX_SUPPORTED ==> c[l] == Count(b, l)
    requires (forall j :: 0 <= j < |b| ==> 1 <= b[j] <= MAX_SUPPORTED) && forall j, k :: 0 <= j < k < |b| ==> b[j] >= b[k]
    ensures Rank(c, |b| - 1 - i, b[i])
  {
    hide UsedUpTo, Codes, Count;
    var l := b[i];
    CodesUsed(c, b, l - 1);
    CodesUsed(c, b, l);
    assert b == b[..i] + b[i..] && b == b[..i + 1] + b[i + 1..];
    UsedUpToConcat(b[..i], b[i..], l);
    UsedUpToSome(b[i..], l);
    UsedUpToConcat(b[..i + 1], b[i + 1..], l - 1);
    UsedUpToSome(b[..i + 1], l - 1);
    UsedUpToSome(b[i + 1..], l - 1);
  }

  /** The length of a code is fixed by its rank. */
  lemma RankedAt(sizes: seq<nat>, r: seq<SymFreq>, c: seq<nat>, i: nat)
    requires |c| == MAX_SUPPORTED + 1 && Ranked(sizes, r, 0, c) && i < |r|
    requires forall l :: 1 <= l <= MAX_SUPPORTED ==> c[l] == Count(Lens(r), l)
    requires (forall j :: 0 <= j < |r| ==> 1 <= r[j].key <= MAX_SUPPORTED) && forall j, k :: 0 <= j < k < |r| ==> r[j].key >= r[k].key
    ensures r[i].sym < |sizes| && sizes[r[i].sym] == r[i].key
  {
    hide Count, Rank;
    FallingRanked(Lens(r), c, i);
    RankMono(c, |r| - 1 - i, sizes[r[i].sym], |r| - 1 - i, r[i].key);
    RankMono(c, |r| - 1 - i, r[i].key, |r| - 1 - i, sizes[r[i].sym]);
  }

  /** Lengths that go by rank, for as many codes of each length as a falling list has, are those of the list. */
  lemma RankedSame(sizes: seq<nat>, r: seq<SymFreq>, c: seq<nat>)
    requires |c| == MAX_SUPPORTED + 1 && Ranked(sizes, r, 0, c) && Distinct(r)
    requires forall l :: 1 <= l <= MAX_SUPPORTED ==> c[l] == Count(Lens(r), l)
    requires (forall j :: 0 <= j < |r| ==> 1 <= r[j].key <= MAX_SUPPORTED) && forall j, k :: 0 <= j < k < |r| ==> r[j].key >= r[k].key
    requires forall k :: 0 <= k < |sizes| && !InTail(r, 0, k) ==> sizes[k] == 0
    ensures sizes == SizesOf(r, 0, |sizes|)
  {
    hide Count, Rank, SizesOf;
    var n := |sizes|;
    forall i | 0 <= i < |r|
      ensures r[i].sym < n && sizes[r[i].sym] == r[i].key
    {
      RankedAt(sizes, r, c, i);
    }
    hide Ranked;
    SizesAt(r, 0, n);
    forall k | 0 <= k < n
      ensures sizes[k] == SizesOf(r, 0, n)[k]
    {
      if InTail(r, 0, k) {
        var i :| 0 <= i < |r| && r[i].sym == k;
      }
    }
  }
}
