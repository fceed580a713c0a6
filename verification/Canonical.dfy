/** Canonical Huffman codes (section 3.2.2 of RFC 1951): the code lengths alone fix the codes.
    A length of zero means that the symbol has no code. */
module Canonical {
  import opened Bits

  const MAX_CODE_SIZE := 15

  /** How many of the first hi symbols have a code of length l. */
  function CountIn(sizes: seq<nat>, hi: nat, l: nat): (c: nat)
    requires hi <= |sizes|
    ensures c <= hi
  {
    if hi == 0 then 0 else CountIn(sizes, hi - 1, l) + if sizes[hi - 1] == l then 1 else 0
  }

  function Count(sizes: seq<nat>, l: nat): (c: nat)
    ensures c <= |sizes|
  {
    CountIn(sizes, |sizes|, l)
  }

  /** The code space that lengths 1..l take, in units of 2^-l. */
  function Total(sizes: seq<nat>, l: nat): nat
  {
    if l == 0 then 0 else 2 * Total(sizes, l - 1) + Count(sizes, l)
  }

  function FirstCode(sizes: seq<nat>, l: nat): nat
  {
    if l == 0 then 0 else 2 * Total(sizes, l - 1)
  }

  function CodeNum(sizes: seq<nat>, k: nat): nat
    requires k < |sizes|
  {
    FirstCode(sizes, sizes[k]) + CountIn(sizes, k, sizes[k])
  }

  /** The code of symbol k, in the order its bits are sent. */
  function Code(sizes: seq<nat>, k: nat): (c: seq<bool>)
    requires k < |sizes|
    ensures |c| == sizes[k]
  {
    Msb(CodeNum(sizes, k), sizes[k])
  }

  predicate Used(sizes: seq<nat>, k: nat)
  {
    k < |sizes| && sizes[k] > 0
  }

  ghost predicate Limited(sizes: seq<nat>)
  {
    forall k :: 0 <= k < |sizes| ==> sizes[k] <= MAX_CODE_SIZE
  }

  /** No more code space is taken than there is: the Kraft inequality. */
  ghost predicate Fits(sizes: seq<nat>)
  {
    Limited(sizes) && Total(sizes, MAX_CODE_SIZE) <= Pow2(MAX_CODE_SIZE)
  }

  ghost predicate Complete(sizes: seq<nat>)
  {
    Limited(sizes) && Total(sizes, MAX_CODE_SIZE) == Pow2(MAX_CODE_SIZE)
  }

  ghost predicate AtMostOne(sizes: seq<nat>)
  {
    Limited(sizes) && forall j: nat, k: nat :: Used(sizes, j) && Used(sizes, k) ==> j == k
  }

  /** The length assignments that the decoder's table builder accepts. */
  ghost predicate Decodable(sizes: seq<nat>)
  {
    Complete(sizes) || AtMostOne(sizes)
  }

  // ---------- counting

  lemma {:induction false} CountInMono(sizes: seq<nat>, lo: nat, hi: nat, l: nat)
    requires lo <= hi <= |sizes|
    ensures CountIn(sizes, lo, l) <= CountIn(sizes, hi, l)
    decreases hi - lo
  {
    if lo < hi {
      CountInMono(sizes, lo, hi - 1, l);
    }
  }

  lemma {:induction false} CountInStrict(sizes: seq<nat>, k: nat, hi: nat)
    requires k < hi <= |sizes|
    ensures CountIn(sizes, k, sizes[k]) < CountIn(sizes, hi, sizes[k])
  {
    CountInMono(sizes, k + 1, hi, sizes[k]);
  }

  /** The n-th symbol of length l. */
  lemma {:induction false} NthOfLength(sizes: seq<nat>, hi: nat, l: nat, n: nat) returns (k: nat)
    requires hi <= |sizes| && n < CountIn(sizes, hi, l)
    ensures k < hi && sizes[k] == l && CountIn(sizes, k, l) == n
    ensures l > 0 ==> Used(sizes, k)
  {
    if n == CountIn(sizes, hi - 1, l) {
      k := hi - 1;
    } else {
      k := NthOfLength(sizes, hi - 1, l, n);
    }
  }

  lemma {:induction false} CountInConcat(a: seq<nat>, b: seq<nat>, hi: nat, l: nat)
    requires hi <= |b|
    ensures CountIn(a + b, |a| + hi, l) == Count(a, l) + CountIn(b, hi, l)
  {
    if hi == 0 {
      CountInPrefix(a, b, |a|, l);
    } else {
      CountInConcat(a, b, hi - 1, l);
    }
  }

  lemma {:induction false} CountInPrefix(a: seq<nat>, b: seq<nat>, hi: nat, l: nat)
    requires hi <= |a|
    ensures CountIn(a + b, hi, l) == CountIn(a, hi, l)
  {
    if hi > 0 {
      CountInPrefix(a, b, hi - 1, l);
    }
  }

  // ---------- code space

  lemma {:induction false} TotalShift(sizes: seq<nat>, l: nat, m: nat)
    requires l <= m
    ensures Shl(Total(sizes, l), m - l) <= Total(sizes, m)
    decreases m - l
  {
    if l < m {
      TotalShift(sizes, l, m - 1);
    }
  }

  lemma TotalFits(sizes: seq<nat>, l: nat)
    requires Fits(sizes) && l <= MAX_CODE_SIZE
    ensures Total(sizes, l) <= Pow2(l)
  {
    TotalShift(sizes, l, MAX_CODE_SIZE);
    ShlPow2(l, MAX_CODE_SIZE - l);
    if Total(sizes, l) > Pow2(l) {
      ShlMono(Pow2(l), Total(sizes, l), MAX_CODE_SIZE - l);
    }
  }

  lemma CodeNumBelowTotal(sizes: seq<nat>, k: nat)
    requires Used(sizes, k)
    ensures FirstCode(sizes, sizes[k]) <= CodeNum(sizes, k) < Total(sizes, sizes[k])
  {
    CountInStrict(sizes, k, |sizes|);
  }

  lemma CodeNumBound(sizes: seq<nat>, k: nat)
    requires Fits(sizes) && Used(sizes, k)
    ensures CodeNum(sizes, k) < Pow2(sizes[k])
  {
    CodeNumBelowTotal(sizes, k);
    TotalFits(sizes, sizes[k]);
  }

  /** A longer code, cut to the length of a shorter one, is a different number. */
  lemma LongerCodeDiffers(sizes: seq<nat>, j: nat, k: nat)
    requires Used(sizes, j) && Used(sizes, k) && sizes[j] < sizes[k]
    ensures CodeNum(sizes, j) < Shr(CodeNum(sizes, k), sizes[k] - sizes[j])
  {
    var lj, lk := sizes[j], sizes[k];
    var d := lk - lj;
    CodeNumBelowTotal(sizes, j);
    CodeNumBelowTotal(sizes, k);
    TotalShift(sizes, lj, lk - 1);
    ShrAtLeast(CodeNum(sizes, k), d, Total(sizes, lj));
  }

  // ---------- the two properties that decoding rests on

  /** No code is a prefix of another. */
  lemma PrefixFree(sizes: seq<nat>, j: nat, k: nat)
    requires Fits(sizes) && Used(sizes, j) && Used(sizes, k) && Code(sizes, j) <= Code(sizes, k)
    ensures j == k
  {
    var lj, lk := sizes[j], sizes[k];
    CodeNumBound(sizes, j);
    CodeNumBound(sizes, k);
    MsbPrefix(CodeNum(sizes, k), lj, lk - lj);
    if lj == lk {
      MsbInjective(CodeNum(sizes, j), CodeNum(sizes, k), lj);
      if j < k {
        CountInStrict(sizes, j, k);
      } else if k < j {
        CountInStrict(sizes, k, j);
      }
    } else {
      LongerCodeDiffers(sizes, j, k);
      var w := Shr(CodeNum(sizes, k), lk - lj);
      ShlPow2(lj, lk - lj);
      ShrBelow(CodeNum(sizes, k), lk - lj, Pow2(lj));
      MsbInjective(CodeNum(sizes, j), w, lj);
    }
  }

  lemma {:induction false} ShortestCovering(sizes: seq<nat>, w: nat, l: nat) returns (m: nat)
    requires l <= MAX_CODE_SIZE && Shr(w, MAX_CODE_SIZE - l) < Total(sizes, l)
    ensures 0 < m <= l && FirstCode(sizes, m) <= Shr(w, MAX_CODE_SIZE - m) < Total(sizes, m)
  {
    if Shr(w, MAX_CODE_SIZE - l) < FirstCode(sizes, l) {
      ShrStep(w, MAX_CODE_SIZE - l);
      m := ShortestCovering(sizes, w, l - 1);
    } else {
      m := l;
    }
  }

  /** The symbol whose code a number of 15 bits starts with. */
  lemma CoveringSymbol(sizes: seq<nat>, w: nat) returns (k: nat)
    requires Limited(sizes) && w < Total(sizes, MAX_CODE_SIZE)
    ensures Used(sizes, k) && sizes[k] <= MAX_CODE_SIZE && CodeNum(sizes, k) == Shr(w, MAX_CODE_SIZE - sizes[k])
  {
    var m := ShortestCovering(sizes, w, MAX_CODE_SIZE);
    k := NthOfLength(sizes, |sizes|, m, Shr(w, MAX_CODE_SIZE - m) - FirstCode(sizes, m));
  }

  /** When all the code space is taken, every 15 bits start with a code. */
  lemma Exhaustive(sizes: seq<nat>, b: seq<bool>) returns (k: nat)
    requires Complete(sizes) && |b| == MAX_CODE_SIZE
    ensures Used(sizes, k) && Code(sizes, k) <= b
  {
    var w := MsbSurjective(b);
    k := CoveringSymbol(sizes, w);
    MsbPrefix(w, sizes[k], MAX_CODE_SIZE - sizes[k]);
  }

  lemma {:induction false} TotalOfNone(sizes: seq<nat>, l: nat)
    requires forall k: nat :: !Used(sizes, k)
    ensures Total(sizes, l) == 0
  {
    if l > 0 {
      TotalOfNone(sizes, l - 1);
      if Count(sizes, l) > 0 {
        var k := NthOfLength(sizes, |sizes|, l, 0);
      }
    }
  }

  lemma {:induction false} TotalOfOne(sizes: seq<nat>, j: nat, l: nat)
    requires AtMostOne(sizes) && Used(sizes, j)
    ensures l < sizes[j] ==> Total(sizes, l) == 0
    ensures Total(sizes, l) <= Pow2(l)
    ensures l >= sizes[j] ==> Total(sizes, l) <= Pow2(l - sizes[j])
  {
    if l > 0 {
      TotalOfOne(sizes, j, l - 1);
      CountOfOne(sizes, j, l);
    }
  }

  lemma CountOfOne(sizes: seq<nat>, j: nat, l: nat)
    requires AtMostOne(sizes) && Used(sizes, j) && l > 0
    ensures Count(sizes, l) <= if l == sizes[j] then 1 else 0
  {
    if Count(sizes, l) > 0 {
      var k := NthOfLength(sizes, |sizes|, l, 0);
      if Count(sizes, l) > 1 {
        var k' := NthOfLength(sizes, |sizes|, l, 1);
      }
    }
  }

  lemma DecodableFits(sizes: seq<nat>)
    requires Decodable(sizes)
    ensures Fits(sizes)
  {
    if !Complete(sizes) {
      if exists j: nat :: Used(sizes, j) {
        var j: nat :| Used(sizes, j);
        TotalOfOne(sizes, j, MAX_CODE_SIZE);
      } else {
        TotalOfNone(sizes, MAX_CODE_SIZE);
      }
    }
  }

  /** How many symbols have codes of length 1..l. */
  function UsedUpTo(sizes: seq<nat>, l: nat): nat
  {
    if l == 0 then 0 else UsedUpTo(sizes, l - 1) + Count(sizes, l)
  }

  lemma {:induction false} UsedUpToCounts(sizes: seq<nat>, l: nat, j: nat)
    requires Used(sizes, j) && sizes[j] <= l
    ensures UsedUpTo(sizes, l) >= Count(sizes, sizes[j]) >= 1
  {
    CountInStrict(sizes, j, |sizes|);
    if sizes[j] < l {
      UsedUpToCounts(sizes, l - 1, j);
    }
  }

  lemma {:induction false} UsedUpToTwo(sizes: seq<nat>, l: nat, j: nat, k: nat)
    requires Used(sizes, j) && Used(sizes, k) && sizes[j] < sizes[k] <= l
    ensures UsedUpTo(sizes, l) >= 2
  {
    if sizes[k] == l {
      UsedUpToCounts(sizes, l - 1, j);
      CountInStrict(sizes, k, |sizes|);
    } else {
      UsedUpToTwo(sizes, l - 1, j, k);
    }
  }

  lemma {:induction false} UsedUpToOne(sizes: seq<nat>, l: nat, j: nat)
    requires AtMostOne(sizes) && Used(sizes, j)
    ensures UsedUpTo(sizes, l) <= if l < sizes[j] then 0 else 1
  {
    if l > 0 {
      UsedUpToOne(sizes, l - 1, j);
      CountOfOne(sizes, j, l);
    }
  }

  lemma {:induction false} UsedUpToNone(sizes: seq<nat>, l: nat)
    requires forall k: nat :: !Used(sizes, k)
    ensures UsedUpTo(sizes, l) == 0
  {
    if l > 0 {
      UsedUpToNone(sizes, l - 1);
      if Count(sizes, l) > 0 {
        var k := NthOfLength(sizes, |sizes|, l, 0);
      }
    }
  }

  /** The decoder's test on its totals accepts exactly the decodable length assignments. */
  lemma AcceptedIsDecodable(sizes: seq<nat>)
    requires Limited(sizes)
    ensures Decodable(sizes) <==> 2 * Total(sizes, MAX_CODE_SIZE) == 65536 || UsedUpTo(sizes, MAX_CODE_SIZE) <= 1
  {
    assert Pow2(MAX_CODE_SIZE) == 32768;
    if AtMostOne(sizes) {
      if exists j: nat :: Used(sizes, j) {
        var j: nat :| Used(sizes, j);
        UsedUpToOne(sizes, MAX_CODE_SIZE, j);
      } else {
        UsedUpToNone(sizes, MAX_CODE_SIZE);
      }
    } else {
      var j: nat, k: nat :| Used(sizes, j) && Used(sizes, k) && j != k;
      if sizes[j] < sizes[k] {
        UsedUpToTwo(sizes, MAX_CODE_SIZE, j, k);
      } else if sizes[k] < sizes[j] {
        UsedUpToTwo(sizes, MAX_CODE_SIZE, k, j);
      } else {
        UsedUpToCounts(sizes, MAX_CODE_SIZE, j);
        var a, b := if j < k then j else k, if j < k then k else j;
        CountInStrict(sizes, a, b);
        CountInStrict(sizes, b, |sizes|);
      }
    }
  }
}
