/** The compressor's Huffman codes, from the frequencies of the symbols to the codes. */
module HuffCodes {
  import opened Bits
  import opened Canonical
  import opened RadixSort
  import opened MinRedundancy
  import opened LengthLimit
  import opened SizeLists
  import opened EncodeTables
  import Optimal

  lemma MergesAreBest(f: seq<nat>, m: Merges, best: seq<nat>)
    requires Finished(f, m) && Nondecreasing(f) && |best| == |f| && Cost(f, best, 0) == SumFrom(m.w, 0)
    ensures Best(f, best)
  {
    hide Finished, Nondecreasing, Cost, SumFrom, Total, Pow2;
    forall l: seq<nat>, top: nat
      | |l| == |f| && (forall j :: 0 <= j < |l| ==> 1 <= l[j] <= top) && Total(l, top) <= Pow2(top)
      ensures Cost(f, best, 0) <= Cost(f, l, 0)
    {
      Optimal.NoneShorter(f, m, best, l, top);
    }
  }

  /** tdefl_calculate_minimum_redundancy: sorted frequencies make way for code lengths, which fill the code
      space, are none longer than 22, fall along the array, and have the least weighted total that there is. */
  method CodeLengths(a: array<SymFreq>, n: nat, ghost f: seq<nat>)
    requires n <= a.Length && f == Lens(a[..n]) && (n >= 2 ==> Weights(f))
    modifies a
    ensures SameSyms(a[..n], old(a[..n])) && a[n..] == old(a[n..])
    ensures n == 1 ==> a[0].key == 1
    ensures n >= 2 ==> FullCode(Lens(a[..n]))
    ensures Best(f, Lens(a[..n]))
  {
    if n == 0 {
      NothingToCode(f, Lens(a[..n]));
      return;
    } else if n == 1 {
      a[0] := a[0].(key := 1);
      NothingToCode(f, Lens(a[..n]));
      return;
    }
    SameKeys(a[..n]);
    ghost var m := MakeMerges(a, n, f);
    AllMerged(f, m);
    TopWeight(f, m);
    FindDepths(a, n, m.p);
    ghost var d := SpreadLeaves(a, n, f, m);
    SameKeys(a[..n]);
    FullTo22(Lens(a[..n]), d);
    MergesAreBest(f, m, Lens(a[..n]));
  }

  /** One symbol cannot do with less than one bit. */
  lemma NothingToCode(f: seq<nat>, best: seq<nat>)
    requires |f| == |best| <= 1 && (|f| == 1 ==> best[0] == 1)
    ensures Best(f, best)
  {
    hide Total, Pow2;
    forall l: seq<nat>, top: nat
      | |l| == |f| && (forall j :: 0 <= j < |l| ==> 1 <= l[j] <= top) && Total(l, top) <= Pow2(top)
      ensures Cost(f, best, 0) <= Cost(f, l, 0)
    {
      if |f| == 1 {
        assert Cost(f, best, 1) == Cost(f, l, 1) == 0;
        assert f[0] * 1 <= f[0] * l[0];
      }
    }
  }

  // ---------- sums over the symbols

  /** The sum of the first i numbers. */
  function SumTo(s: seq<nat>, i: nat): nat
    requires i <= |s|
  {
    if i == 0 then 0 else SumTo(s, i - 1) + s[i - 1]
  }

  function KeySum(s: seq<SymFreq>): nat
  {
    if s == [] then 0 else KeySum(s[..|s| - 1]) + s[|s| - 1].key
  }

  lemma {:induction false} KeySumOut(s: seq<SymFreq>, i: nat)
    requires i < |s|
    ensures KeySum(s) == KeySum(s[..i] + s[i + 1..]) + s[i].key
  {
    var n := |s| - 1;
    if i == n {
      assert s[..i] + s[i + 1..] == s[..n];
    } else {
      KeySumOut(s[..n], i);
      var u := s[..i] + s[i + 1..];
      assert u[..n - 1] == s[..n][..i] + s[..n][i + 1..];
    }
  }

  lemma {:induction false} KeySumPermuted(s: seq<SymFreq>, t: seq<SymFreq>)
    requires multiset(s) == multiset(t)
    ensures KeySum(s) == KeySum(t)
  {
    assert |multiset(s)| == |s| && |multiset(t)| == |t|;
    if s != [] {
      var n := |s| - 1;
      assert s[n] in multiset(t);
      assert s[n] in t;
      var i :| 0 <= i < |t| && t[i] == s[n];
      KeySumOut(t, i);
      assert s == s[..n] + [t[i]] && t == t[..i] + [t[i]] + t[i + 1..];
      StillPermuted(s[..n], t[..i], t[i], t[i + 1..]);
      KeySumPermuted(s[..n], t[..i] + t[i + 1..]);
    }
  }

  lemma MiddleOut(a: seq<SymFreq>, x: SymFreq, b: seq<SymFreq>)
    ensures multiset(a + [x] + b) == multiset(a + b) + multiset{x}
  {
    assert multiset(a + [x] + b) == multiset(a + [x]) + multiset(b);
    assert multiset(a + [x]) == multiset(a) + multiset([x]);
    assert multiset([x]) == multiset{x};
    assert multiset(a + b) == multiset(a) + multiset(b);
  }

  lemma StillPermuted(c: seq<SymFreq>, a: seq<SymFreq>, x: SymFreq, b: seq<SymFreq>)
    requires multiset(c + [x]) == multiset(a + [x] + b)
    ensures multiset(c) == multiset(a + b)
  {
    MiddleOut(a, x, b);
    assert multiset(c + [x]) == multiset(c) + multiset([x]) && multiset([x]) == multiset{x};
    Cancel(multiset(c), multiset(a + b), x);
  }
  lemma Cancel(m: multiset<SymFreq>, n: multiset<SymFreq>, x: SymFreq)
    requires m + multiset{x} == n + multiset{x}
    ensures m == n
  {
    assert m == m + multiset{x} - multiset{x} && n == n + multiset{x} - multiset{x};
  }
  lemma {:induction false} KeySumIsSum(s: seq<SymFreq>)
    ensures SumFrom(Lens(s), 0) == KeySum(s)
  {
    if s != [] {
      var n := |s| - 1;
      KeySumIsSum(s[..n]);
      assert Lens(s) == Lens(s[..n]) + [s[n].key];
      SumSnoc(Lens(s[..n]), s[n].key, 0);
    }
  }

  // ---------- the symbols in use

  lemma CollectOne(s: seq<SymFreq>, c: seq<nat>, i: nat)
    requires i < |c| && Ascending(s) && Collected(s, c, i)
    ensures c[i] > 0 ==> Ascending(s + [SymFreq(c[i], i)]) && Collected(s + [SymFreq(c[i], i)], c, i + 1)
    ensures c[i] == 0 ==> Collected(s, c, i + 1)
    ensures KeySum(s + [SymFreq(c[i], i)]) == KeySum(s) + c[i]
  {
    var s' := s + [SymFreq(c[i], i)];
    assert s'[..|s|] == s;
    if c[i] > 0 {
      forall k: nat | k < i + 1 && c[k] > 0
        ensures SymFreq(c[k], k) in s'
      {
        if k == i {
          assert s'[|s|] == SymFreq(c[k], k);
        }
      }
    }
  }

  method Collect(t: EncodeTable, n: nat, syms: array<SymFreq>) returns (used: nat)
    requires t.Valid() && n <= MAX_HUFF_SYMBOLS <= syms.Length
    modifies syms
    ensures used <= n && Ascending(syms[..used]) && Collected(syms[..used], t.counts[..], n)
    ensures KeySum(syms[..used]) == SumTo(t.counts[..], n)
  {
    hide Ascending, Collected, KeySum;
    used := 0;
    ghost var c := t.counts[..];
    NoneCollected(c);
    for i := 0 to n
      invariant used <= i && Ascending(syms[..used]) && Collected(syms[..used], c, i)
      invariant KeySum(syms[..used]) == SumTo(c, i)
    {
      ghost var s := syms[..used];
      CollectOne(s, c, i);
      assert c[i] == t.counts[i];
      if t.counts[i] > 0 {
        syms[used] := SymFreq(t.counts[i], i);
        used := used + 1;
        assert syms[..used] == s + [SymFreq(c[i], i)];
      }
    }
  }

  lemma NoneCollected(c: seq<nat>)
    ensures Ascending([]) && Collected([], c, 0) && KeySum([]) == 0
  {
  }

  /** Sorting keeps what has been collected. */
  lemma StillCollected(s: seq<SymFreq>, r: seq<SymFreq>, counts: seq<nat>, n: nat)
    requires n <= |counts| && Collected(s, counts, n) && multiset(s) == multiset(r)
    ensures Collected(r, counts, n)
  {
    forall i | 0 <= i < |r|
      ensures r[i].sym < n && r[i].key == counts[r[i].sym] > 0
    {
      assert r[i] in multiset(r);
      assert r[i] in s;
    }
    forall k: nat | k < n && counts[k] > 0
      ensures SymFreq(counts[k], k) in r
    {
      assert SymFreq(counts[k], k) in multiset(s);
    }
  }

  lemma SortedDistinct(r: seq<SymFreq>, counts: seq<nat>, n: nat)
    requires n <= |counts| && Sorted(r) && Collected(r, counts, n)
    ensures Distinct(r)
  {
  }

  // ---------- from code lengths to the symbols

  /** How many of the lengths there are of each, up to 32. */
  method CountLens(a: array<SymFreq>, n: nat, num: array<nat>)
    requires n <= a.Length && num.Length == MAX_SUPPORTED + 1 && forall i :: 0 <= i < n ==> a[i].key <= MAX_SUPPORTED
    modifies num
    ensures forall l :: 0 <= l <= MAX_SUPPORTED ==> num[l] == Count(Lens(a[..n]), l)
  {
    forall l | 0 <= l < num.Length { num[l] := 0; }
    ghost var s := Lens(a[..n]);
    for i := 0 to n
      invariant s == Lens(a[..n])
      invariant forall l :: 0 <= l <= MAX_SUPPORTED ==> num[l] == CountIn(s, i, l)
    {
      assert s[i] == a[i].key;
      num[a[i].key] := num[a[i].key] + 1;
    }
  }

  lemma {:induction false} TakenIsTotal(num: seq<nat>, s: seq<nat>, l: nat)
    requires l < |num| && forall i :: 1 <= i <= l ==> num[i] == Count(s, i)
    ensures Taken(num, l) == Total(s, l)
  {
    if l > 0 {
      TakenIsTotal(num, s, l - 1);
    }
  }

  lemma FullEverywhere(s: seq<nat>, l: nat)
    requires FullCode(s) && l >= 23
    ensures Total(s, l) == Pow2(l)
  {
    CountNone(s, |s|, 23);
    assert Total(s, 23) == 2 * Total(s, 22) + Count(s, 23);
    assert Pow2(23) == 2 * Pow2(22);
    StaysFull(s, 23, l);
  }

  /** The elements of r from index j on have their code lengths, none longer than max, and no other symbol has. */
  ghost predicate Given(sizes: seq<nat>, r: seq<SymFreq>, j: nat, max: nat)
  {
    && (forall k :: 0 <= k < |sizes| ==> (sizes[k] > 0 <==> InTail(r, j, k)))
    && (forall k :: 0 <= k < |sizes| ==> sizes[k] <= max)
  }

  lemma GiveOne(sizes: seq<nat>, r: seq<SymFreq>, j: nat, n: nat, size: nat, c: seq<nat>)
    requires 0 < j <= |r| && Distinct(r) && r[j - 1].sym < n <= |sizes| && size > 0 && |c| == MAX_SUPPORTED + 1
    requires Given(sizes, r, j, size) && Ranked(sizes, r, j, c) && Rank(c, |r| - j, size)
    ensures Ranked(sizes[r[j - 1].sym := size], r, j - 1, c)
    ensures Given(sizes[r[j - 1].sym := size], r, j - 1, size)
    ensures forall l: nat :: l > 0 ==>
              Count(sizes[r[j - 1].sym := size][..n], l) == Count(sizes[..n], l) + if l == size then 1 else 0
  {
    var k := r[j - 1].sym;
    var sizes' := sizes[k := size];
    assert !InTail(r, j, k);
    forall k' | 0 <= k' < |sizes'|
      ensures sizes'[k'] > 0 <==> InTail(r, j - 1, k')
    {
      if k' != k {
        assert InTail(r, j - 1, k') <==> InTail(r, j, k');
      }
    }
    assert sizes'[..n] == sizes[..n][k := size];
    forall l: nat | l > 0
      ensures Count(sizes'[..n], l) == Count(sizes[..n], l) + if l == size then 1 else 0
    {
      CountChange(sizes[..n], k, size, n, l);
    }
  }

  lemma GivenMore(sizes: seq<nat>, r: seq<SymFreq>, j: nat, max: nat)
    requires Given(sizes, r, j, max)
    ensures Given(sizes, r, j, max + 1)
  {
  }

  lemma NoneGiven(sizes: seq<nat>, r: seq<SymFreq>, n: nat)
    requires n <= |sizes| && forall k :: 0 <= k < |sizes| ==> sizes[k] == 0
    ensures Given(sizes, r, |r|, 0) && (forall l: nat :: l > 0 ==> Count(sizes[..n], l) == 0)
    ensures forall c: seq<nat> :: |c| == MAX_SUPPORTED + 1 ==> Ranked(sizes, r, |r|, c)
  {
    forall l: nat | l > 0
      ensures Count(sizes[..n], l) == 0
    {
      CountNone(sizes[..n], n, l);
    }
  }

  /** The shortest codes to the last symbols: num[i] of them get length i. */
  method GiveSizes(t: EncodeTable, n: nat, limit: nat, r: array<SymFreq>, m: nat, num: array<nat>)
    requires t.Valid() && n <= MAX_HUFF_SYMBOLS && m <= r.Length && num.Length == MAX_SUPPORTED + 1 && limit <= MAX_SUPPORTED
    requires num != t.sizes && Distinct(r[..m]) && forall j :: 0 <= j < m ==> r[j].sym < n
    requires Codes(num[..], 1, limit) == m
    modifies t.sizes
    ensures Given(t.sizes[..], r[..m], 0, limit) && Ranked(t.sizes[..], r[..m], 0, num[..])
    ensures forall l :: 1 <= l <= limit ==> Count(t.Sizes(n), l) == num[l]
  {
    hide Given, Distinct, Count, Ranked;
    ghost var s, c := r[..m], num[..];
    forall k | 0 <= k < t.sizes.Length { t.sizes[k] := 0; }
    NoneGiven(t.sizes[..], s, n);
    SizesAre(t, n);
    var j: nat, i: nat := m, 1;
    while i <= limit
      invariant 1 <= i <= limit + 1 && j <= m && j + Codes(c, 1, i - 1) == m && num[..] == c && r[..m] == s
      invariant Given(t.sizes[..], s, j, i - 1) && Ranked(t.sizes[..], s, j, c)
      invariant forall l: nat :: l > 0 ==> Count(t.sizes[..][..n], l) == if l < i then c[l] else 0
    {
      CodesSplit(c, 1, i, limit);
      GivenMore(t.sizes[..], s, j, i - 1);
      j := GiveEqual(t, n, i, num[i], r, m, j, c);
      i := i + 1;
    }
    SizesAre(t, n);
  }

  /** The next l symbols from the end get the length i. */
  method GiveEqual(t: EncodeTable, n: nat, i: nat, count: nat, r: array<SymFreq>, m: nat, j: nat, ghost c: seq<nat>) returns (j': nat)
    requires t.Valid() && n <= MAX_HUFF_SYMBOLS && count <= j <= m <= r.Length && i > 0
    requires Distinct(r[..m]) && forall j :: 0 <= j < m ==> r[j].sym < n
    requires Given(t.sizes[..], r[..m], j, i) && |c| == MAX_SUPPORTED + 1 && Ranked(t.sizes[..], r[..m], j, c)
    requires i <= MAX_SUPPORTED && Codes(c, 1, i - 1) == m - j && c[i] == count
    modifies t.sizes
    ensures j' == j - count && Given(t.sizes[..], r[..m], j', i) && Ranked(t.sizes[..], r[..m], j', c)
    ensures forall k: nat :: k > 0 ==>
              Count(t.sizes[..][..n], k) == old(Count(t.sizes[..][..n], k)) + if k == i then count else 0
  {
    hide Given, Distinct, Count, Ranked;
    j' := j;
    var l := count;
    ghost var s := r[..m];
    while l > 0
      invariant 0 <= l <= count && j' == j - (count - l) && Given(t.sizes[..], s, j', i)
      invariant Ranked(t.sizes[..], s, j', c)
      invariant forall k: nat :: k > 0 ==>
                  Count(t.sizes[..][..n], k) == old(Count(t.sizes[..][..n], k)) + if k == i then count - l else 0
    {
      j' := j' - 1;
      assert s[j'] == r[j'];
      ghost var sizes := t.sizes[..];
      GiveOne(sizes, s, j' + 1, n, i, c);
      t.sizes[r[j'].sym] := i;
      assert t.sizes[..] == sizes[r[j'].sym := i];
      l := l - 1;
    }
  }

  lemma SizesAre(t: EncodeTable, n: nat)
    requires t.Valid() && n <= MAX_HUFF_SYMBOLS
    ensures t.Sizes(n) == t.sizes[..][..n]
  {
  }

  // ---------- the symbols that have codes

  lemma SameTail(r: seq<SymFreq>, s: seq<SymFreq>, j: nat, k: nat)
    requires SameSyms(r, s)
    ensures InTail(r, j, k) <==> InTail(s, j, k)
  {
  }

  /** The symbols that get a code are those that occur. */
  lemma GivenUsed(sizes: seq<nat>, r: seq<SymFreq>, s: seq<SymFreq>, counts: seq<nat>, n: nat, limit: nat)
    requires n <= |sizes| && n <= |counts| && SameSyms(r, s) && Collected(s, counts, n) && Given(sizes, r, 0, limit)
    ensures forall k: nat :: k < n ==> (Used(sizes[..n], k) <==> counts[k] > 0)
    ensures forall k: nat :: n <= k < |sizes| ==> sizes[k] == 0
  {
    forall k: nat | k < |sizes|
      ensures sizes[k] > 0 <==> k < n && counts[k] > 0
    {
      SameTail(r, s, 0, k);
      if k < n && counts[k] > 0 {
        var i :| 0 <= i < |s| && s[i] == SymFreq(counts[k], k);
        assert s[i].sym == k;
      }
    }
  }

  lemma GivenOne(sizes: seq<nat>, r: seq<SymFreq>, n: nat, limit: nat)
    requires n <= |sizes| && |r| <= 1 && limit <= MAX_CODE_SIZE && Given(sizes, r, 0, limit)
    ensures AtMostOne(sizes[..n])
  {
    forall j: nat, k: nat | Used(sizes[..n], j) && Used(sizes[..n], k)
      ensures j == k
    {
      assert InTail(r, 0, j) && InTail(r, 0, k);
    }
  }

  lemma GivenFull(s: seq<nat>, num: seq<nat>, limit: nat)
    requires limit <= MAX_CODE_SIZE && limit < |num| && Taken(num, limit) == Pow2(limit)
    requires (forall k :: 0 <= k < |s| ==> s[k] <= limit) && forall l :: 1 <= l <= limit ==> Count(s, l) == num[l]
    ensures Complete(s)
  {
    TakenIsTotal(num, s, limit);
    if limit < MAX_CODE_SIZE {
      CountNone(s, |s|, limit + 1);
      StaysFull(s, limit + 1, MAX_CODE_SIZE);
    }
  }

  lemma SortedWeights(s: seq<SymFreq>, counts: seq<nat>, n: nat)
    requires n <= |counts| && |s| >= 2 && Sorted(s) && Collected(s, counts, n) && KeySum(s) < 65536
    ensures Weights(Lens(s))
  {
    KeySumIsSum(s);
    var f := Lens(s);
    forall i, j | 0 <= i < j < |f|
      ensures f[i] <= f[j]
    {
      assert s[i].key <= s[j].key;
    }
  }

  lemma {:induction false} KeysBelow(s: seq<SymFreq>, i: nat)
    requires i < |s|
    ensures s[i].key <= KeySum(s)
  {
    if i < |s| - 1 {
      KeysBelow(s[..|s| - 1], i);
    }
  }

  /** The symbols in use, sorted by how often they occur. */
  method SortUsed(t: EncodeTable, n: nat) returns (r: array<SymFreq>, m: nat)
    requires t.Valid() && n <= MAX_HUFF_SYMBOLS && SumTo(t.counts[..], n) < 65536
    ensures fresh(r) && m <= n && m <= r.Length && Sorted(r[..m]) && Collected(r[..m], t.counts[..], n)
    ensures Distinct(r[..m]) && KeySum(r[..m]) < 65536
  {
    hide Sorted, Distinct, Collected, Ascending, KeySum, SumTo;
    var syms0 := new SymFreq[MAX_HUFF_SYMBOLS];
    var syms1 := new SymFreq[MAX_HUFF_SYMBOLS];
    m := Collect(t, n, syms0);
    ghost var s, c := syms0[..m], t.counts[..];
    SmallEnough(s);
    r := Sort(m, syms0, syms1);
    StillCollected(s, r[..m], c, n);
    SortedDistinct(r[..m], c, n);
    KeySumPermuted(s, r[..m]);
  }

  lemma SmallEnough(s: seq<SymFreq>)
    requires KeySum(s) < 65536
    ensures forall i :: 0 <= i < |s| ==> s[i].key < 65536
  {
    forall i | 0 <= i < |s|
      ensures s[i].key < 65536
    {
      KeysBelow(s, i);
    }
  }

  // ---------- how many codes there are of each length

  function Tally(sizes: seq<nat>): (c: seq<nat>)
    ensures |c| == MAX_SUPPORTED + 1 && c[0] == 0 && forall l :: 1 <= l <= MAX_SUPPORTED ==> c[l] == Count(sizes, l)
  {
    seq(MAX_SUPPORTED + 1, l requires 0 <= l <= MAX_SUPPORTED => if l == 0 then 0 else Count(sizes, l))
  }

  lemma {:induction false} NoneLong(s: seq<nat>, c: seq<nat>, l: nat, hi: nat)
    requires l <= hi < |c| && (forall i :: 1 <= i < |c| ==> c[i] == Count(s, i))
    ensures (forall i :: 0 <= i < |s| ==> s[i] <= l) ==> Codes(c, l + 1, hi) == 0
    ensures (exists i :: 0 <= i < |s| && l < s[i] <= hi) ==> Codes(c, l + 1, hi) > 0
    decreases hi
  {
    if l < hi {
      NoneLong(s, c, l, hi - 1);
      if forall i :: 0 <= i < |s| ==> s[i] <= l {
        CountNone(s, |s|, hi);
      } else if i :| 0 <= i < |s| && l < s[i] <= hi && s[i] == hi {
        CountInStrict(s, i, |s|);
      }
    }
  }

  lemma {:induction false} CountZero(s: seq<nat>, hi: nat)
    requires hi <= |s| && forall i :: 0 <= i < |s| ==> s[i] > 0
    ensures CountIn(s, hi, 0) == 0
  {
    if hi > 0 {
      CountZero(s, hi - 1);
    }
  }

  /** How many codes there are of each length, once no code is longer than the limit. */
  method LimitedCounts(r: array<SymFreq>, m: nat, limit: nat) returns (num: array<nat>)
    requires m <= r.Length && 1 <= limit <= MAX_SUPPORTED && m <= Pow2(limit)
    requires m == 1 ==> r[0].key == 1
    requires m >= 2 ==> FullCode(Lens(r[..m]))
    ensures fresh(num) && num.Length == MAX_SUPPORTED + 1 && Codes(num[..], 1, limit) == m
    ensures m >= 2 ==> Taken(num[..], limit) == Pow2(limit)
    ensures num[..] == WithinMax(Tally(Lens(r[..m])), m, limit)
    ensures (forall i :: 0 <= i < m ==> r[i].key <= limit) ==> num[..] == Tally(Lens(r[..m]))
    ensures (exists i :: 0 <= i < m && r[i].key > limit) ==> num[limit] > 0
  {
    hide Taken, Codes, Pow2, FullCode, WithinMax;
    num := new nat[MAX_SUPPORTED + 1];
    ghost var s := Lens(r[..m]);
    SameKeys(r[..m]);
    if m >= 2 {
      FullPositive(s);
    }
    CountLens(r, m, num);
    CountZero(s, m);
    assert num[..] == Tally(s);
    hide Tally, Count;
    Tallied(s, limit);
    EnforceMax(num, m, limit);
  }

  lemma FullPositive(s: seq<nat>)
    requires FullCode(s)
    ensures forall i :: 0 <= i < |s| ==> 1 <= s[i] <= MAX_SUPPORTED
  {
  }

  /** What the counts of the best lengths are like. */
  lemma Tallied(s: seq<nat>, limit: nat)
    requires 1 <= limit <= MAX_SUPPORTED && (|s| >= 2 ==> FullCode(s)) && (|s| == 1 ==> s[0] == 1)
    ensures var c := Tally(s);
            && (|s| >= 2 ==> Taken(c, MAX_SUPPORTED) == Pow2(MAX_SUPPORTED))
            && Codes(c, 1, MAX_SUPPORTED) == |s| && (|s| <= 1 ==> Codes(c, 1, limit) == |s|)
            && ((forall i :: 0 <= i < |s| ==> s[i] <= limit) ==> Codes(c, limit + 1, MAX_SUPPORTED) == 0)
            && ((exists i :: 0 <= i < |s| && s[i] > limit) ==> Codes(c, limit + 1, MAX_SUPPORTED) > 0)
  {
    hide Taken, Codes, Pow2, Count;
    var c := Tally(s);
    NoneLong(s, c, limit, MAX_SUPPORTED);
    CodesUsed(c, s, MAX_SUPPORTED);
    UsedUpToSome(s, MAX_SUPPORTED);
    if |s| >= 2 {
      FullEverywhere(s, MAX_SUPPORTED);
      TakenIsTotal(c, s, MAX_SUPPORTED);
    } else {
      CodesUsed(c, s, limit);
      UsedUpToSome(s, limit);
    }
  }

  // ---------- the whole table

  /** The code lengths of a table keep to the limit, go by the counts, and are the cheapest that there are,
      unless the limit is reached. */
  ghost predicate Economical(counts: seq<nat>, sizes: seq<nat>, limit: nat)
    requires |counts| == |sizes|
  {
    && Ordered(counts, sizes)
    && ((forall k :: 0 <= k < |sizes| ==> sizes[k] < limit) ==> Shortest(counts, sizes))
  }

  /** The code lengths come from the cheapest by shortening those that are longer than the limit. */
  ghost predicate Shortened(counts: seq<nat>, natural: seq<nat>, sizes: seq<nat>, limit: nat)
    requires |counts| == |natural| == |sizes| && 1 <= limit <= MAX_SUPPORTED
  {
    && Shortest(counts, natural)
    && (forall k: nat :: k < |counts| ==> (Used(natural, k) <==> counts[k] > 0))
    && ((forall k :: 0 <= k < |natural| ==> natural[k] <= limit) ==> sizes == natural)
    && forall l :: 1 <= l <= limit ==>
         Count(sizes, l) == WithinMax(Tally(natural), Codes(Tally(natural), 1, MAX_SUPPORTED), limit)[l]
  }

  /** tdefl_optimize_huffman_table for codes made to measure: every symbol that occurs gets a code, and no
      other does; no code is longer than the limit, and the decoder accepts the code lengths.  A symbol that
      occurs more often has no longer code, and no code takes fewer bits if none had to be shortened. */
  method Optimize(t: EncodeTable, n: nat, limit: nat) returns (ghost natural: seq<nat>)
    requires t.Valid() && n <= MAX_HUFF_SYMBOLS && SumTo(t.counts[..], n) < 65536
    requires 1 <= limit <= MAX_CODE_SIZE && n <= Pow2(limit)
    modifies t.codes, t.sizes
    ensures t.Ready(t.Sizes(n)) && Decodable(t.Sizes(n))
    ensures forall k: nat :: k < n ==> t.sizes[k] <= limit && (Used(t.Sizes(n), k) <==> t.counts[k] > 0)
    ensures forall k :: n <= k < MAX_HUFF_SYMBOLS ==> t.sizes[k] == 0
    ensures Economical(t.Counts(n), t.Sizes(n), limit)
    ensures |natural| == n && Ordered(t.Counts(n), natural) && Shortened(t.Counts(n), natural, t.Sizes(n), limit)
  {
    hide Sorted, Distinct, Collected, KeySum, SumTo, Weights, FullCode, Best, Given, Decodable, Complete, AtMostOne, Fits,
      EncodeTable.Ready, Count, Total, Taken, Codes, Pow2, WithinMax, Economical, Shortened, Ordered, Ranked, SizesOf, Lens, Tally;
    var r, m := SortUsed(t, n);
    ghost var s, c := r[..m], t.counts[..];
    if m >= 2 {
      SortedWeights(s, c, n);
    }
    CodeLengths(r, m, Lens(s));
    var num := LimitedCounts(r, m, limit);
    SymbolsBelow(s, r[..m], c, n);
    GiveSizes(t, n, limit, r, m, num);
    GivenUsed(t.sizes[..], r[..m], s, c, n, limit);
    SizesAre(t, n);
    SizesBelow(t.sizes[..], r[..m], limit);
    if m >= 2 {
      GivenFull(t.Sizes(n), num[..], limit);
    } else {
      GivenOne(t.sizes[..], r[..m], n, limit);
    }
    EitherDecodable(t.Sizes(n));
    natural := SizesOf(r[..m], 0, n);
    ListedBest(c, n, s, r[..m]);
    FirstSizes(t.sizes[..], r[..m], num[..], n, limit);
    CheapSizes(t.Counts(n), t.Sizes(n), s, r[..m], num[..], limit);
    t.AssignCodes(n, limit, num);
  }

  /** The list of the symbols in use, with the lengths that are best for them. */
  ghost predicate BestList(counts: seq<nat>, s: seq<SymFreq>, r: seq<SymFreq>)
  {
    && Sorted(s) && Collected(s, counts, |counts|) && Distinct(s) && SameSyms(r, s) && Best(Lens(s), Lens(r))
    && (forall j :: 0 <= j < |r| ==> 1 <= r[j].key <= MAX_SUPPORTED)
    && (forall j, k :: 0 <= j < k < |r| ==> r[j].key >= r[k].key)
  }

  lemma ListedBest(counts: seq<nat>, n: nat, s: seq<SymFreq>, r: seq<SymFreq>)
    requires n <= |counts| && Sorted(s) && Collected(s, counts, n) && Distinct(s) && SameSyms(r, s) && Best(Lens(s), Lens(r))
    requires (|r| >= 2 ==> FullCode(Lens(r))) && (|r| == 1 ==> r[0].key == 1)
    ensures BestList(counts[..n], s, r)
  {
    hide Sorted, Distinct, Best;
    SameKeys(r);
    assert forall k: nat :: k < n ==> counts[..n][k] == counts[k];
  }

  lemma NaturalTally(counts: seq<nat>, s: seq<SymFreq>, r: seq<SymFreq>)
    requires BestList(counts, s, r)
    ensures Tally(SizesOf(r, 0, |counts|)) == Tally(Lens(r)) && Codes(Tally(Lens(r)), 1, MAX_SUPPORTED) == |r|
  {
    hide Sorted, Best, Count, Codes, SizesOf;
    OwnCounts(s, counts);
    DistinctToo(s, r);
    hide Collected;
    var natural := SizesOf(r, 0, |counts|);
    forall l | 1 <= l <= MAX_SUPPORTED
      ensures Count(natural, l) == Count(Lens(r), l)
    {
      SizesCount(r, 0, |counts|, l);
      assert Lens(r)[0..] == Lens(r);
    }
    CodesUsed(Tally(Lens(r)), Lens(r), MAX_SUPPORTED);
    UsedUpToSome(Lens(r), MAX_SUPPORTED);
  }

  lemma NaturalOrdered(counts: seq<nat>, s: seq<SymFreq>, r: seq<SymFreq>)
    requires BestList(counts, s, r)
    ensures Ordered(counts, SizesOf(r, 0, |counts|))
  {
    hide Sorted, Best, Count, Rank, Ordered, SizesOf, Tally;
    OwnCounts(s, counts);
    DistinctToo(s, r);
    var natural, c := SizesOf(r, 0, |counts|), Tally(Lens(r));
    SizesAt(r, 0, |counts|);
    forall i | 0 <= i < |r|
      ensures r[i].sym < |natural| && Rank(c, |r| - 1 - i, natural[r[i].sym])
    {
      FallingRanked(Lens(r), c, i);
    }
    RankedOrdered(natural, s, r, counts, c);
  }

  lemma NaturalUsed(counts: seq<nat>, s: seq<SymFreq>, r: seq<SymFreq>)
    requires BestList(counts, s, r)
    ensures forall k: nat :: k < |counts| ==> (Used(SizesOf(r, 0, |counts|), k) <==> counts[k] > 0)
    ensures forall i :: 0 <= i < |r| ==> r[i].sym < |counts| && SizesOf(r, 0, |counts|)[r[i].sym] == r[i].key
  {
    hide Sorted, Best, SizesOf;
    OwnCounts(s, counts);
    DistinctToo(s, r);
    SizesAt(r, 0, |counts|);
    forall k: nat | k < |counts|
      ensures Used(SizesOf(r, 0, |counts|), k) <==> counts[k] > 0
    {
      ListedOrNone(s, counts, k);
      SameTail(r, s, 0, k);
    }
  }

  /** Lengths below the limit have not been shortened. */
  lemma NoneShortened(counts: seq<nat>, sizes: seq<nat>, s: seq<SymFreq>, r: seq<SymFreq>, c: seq<nat>, limit: nat)
    requires BestList(counts, s, r) && 1 <= limit <= MAX_SUPPORTED && |sizes| == |counts| && |c| == MAX_SUPPORTED + 1
    requires Count(sizes, limit) == c[limit]
    requires (exists i :: 0 <= i < |r| && r[i].key > limit) ==> c[limit] > 0
    ensures (forall k :: 0 <= k < |sizes| ==> sizes[k] < limit) ==> forall i :: 0 <= i < |r| ==> r[i].key <= limit
  {
    if exists i :: 0 <= i < |r| && r[i].key > limit {
      var k := NthOfLength(sizes, |sizes|, limit, 0);
    }
  }

  lemma NaturalSame(counts: seq<nat>, sizes: seq<nat>, s: seq<SymFreq>, r: seq<SymFreq>, c: seq<nat>)
    requires BestList(counts, s, r) && |sizes| == |counts| && c == Tally(Lens(r)) && Ranked(sizes, r, 0, c)
    requires forall k :: 0 <= k < |sizes| && !InTail(r, 0, k) ==> sizes[k] == 0
    ensures sizes == SizesOf(r, 0, |counts|)
  {
    hide Sorted, Best, SizesOf, Ranked, Collected, Count, Tally;
    DistinctToo(s, r);
    TallyAt(Lens(r));
    RankedSame(sizes, r, c);
  }

  lemma TallyAt(l: seq<nat>)
    ensures forall i :: 1 <= i <= MAX_SUPPORTED ==> Tally(l)[i] == Count(l, i)
  {
  }

  /** What the list of the symbols in use and its lengths make of the lengths of all symbols. */
  lemma CheapSizes(counts: seq<nat>, sizes: seq<nat>, s: seq<SymFreq>, r: seq<SymFreq>, c: seq<nat>, limit: nat)
    requires BestList(counts, s, r) && |sizes| == |counts| && 1 <= limit <= MAX_SUPPORTED
    requires c == WithinMax(Tally(Lens(r)), |r|, limit) && Ranked(sizes, r, 0, c)
    requires forall k :: 0 <= k < |sizes| && !InTail(r, 0, k) ==> sizes[k] == 0
    requires forall l :: 1 <= l <= limit ==> Count(sizes, l) == c[l]
    requires (forall i :: 0 <= i < |r| ==> r[i].key <= limit) ==> c == Tally(Lens(r))
    requires (exists i :: 0 <= i < |r| && r[i].key > limit) ==> c[limit] > 0
    ensures var natural := SizesOf(r, 0, |counts|);
            && Economical(counts, sizes, limit)
            && Ordered(counts, natural) && Shortened(counts, natural, sizes, limit)
  {
    hide Sorted, Collected, Distinct, Best, Count, Codes, WithinMax, Tally, Lens, Ranked, Ordered, Shortest, SizesOf, InTail, SameSyms;
    var n := |counts|;
    var natural := SizesOf(r, 0, n);
    RankedOrdered(sizes, s, r, counts, c);
    NaturalOrdered(counts, s, r);
    BestIsShortest(s, r, counts);
    NaturalTally(counts, s, r);
    NaturalUsed(counts, s, r);
    NoneShortened(counts, sizes, s, r, c, limit);
    if forall i :: 0 <= i < |r| ==> r[i].key <= limit {
      NaturalSame(counts, sizes, s, r, c);
    }
  }

  /** The parts of the lengths that belong to the first n symbols. */
  lemma FirstSizes(sizes: seq<nat>, r: seq<SymFreq>, c: seq<nat>, n: nat, limit: nat)
    requires n <= |sizes| && |c| == MAX_SUPPORTED + 1 && Ranked(sizes, r, 0, c) && Given(sizes, r, 0, limit)
    requires forall i :: 0 <= i < |r| ==> r[i].sym < n
    ensures Ranked(sizes[..n], r, 0, c)
    ensures forall k :: 0 <= k < n && !InTail(r, 0, k) ==> sizes[..n][k] == 0
  {
    hide Rank;
  }

  lemma EitherDecodable(s: seq<nat>)
    requires Complete(s) || AtMostOne(s)
    ensures Decodable(s) && Fits(s)
  {
    DecodableFits(s);
  }

  lemma SizesBelow(sizes: seq<nat>, r: seq<SymFreq>, limit: nat)
    requires Given(sizes, r, 0, limit)
    ensures forall k :: 0 <= k < |sizes| ==> sizes[k] <= limit
  {
  }

  lemma SymbolsBelow(s: seq<SymFreq>, r: seq<SymFreq>, c: seq<nat>, n: nat)
    requires n <= |c| && Collected(s, c, n) && Distinct(s) && SameSyms(r, s)
    ensures Distinct(r) && forall j :: 0 <= j < |r| ==> r[j].sym < n
  {
  }
}
