/** The compressor's sort of symbols by frequency: a least-significant-digit radix sort of 16-bit keys
    in at most two passes between two arrays. */
module RadixSort {

  datatype SymFreq = SymFreq(key: nat, sym: nat)

  function Digit(x: SymFreq, unit: nat): (d: nat)
    requires unit > 0
    ensures d < 256
  {
    x.key / unit % 256
  }

  /** The elements with digit d, in order. */
  function Bucket(s: seq<SymFreq>, unit: nat, d: nat): (b: seq<SymFreq>)
    requires unit > 0
    ensures |b| <= |s|
  {
    if s == [] then []
    else
      var n := |s| - 1;
      Bucket(s[..n], unit, d) + if Digit(s[n], unit) == d then [s[n]] else []
  }

  /** The buckets of the digits below hi, one after the other. */
  function Buckets(s: seq<SymFreq>, unit: nat, hi: nat): seq<SymFreq>
    requires unit > 0
  {
    if hi == 0 then [] else Buckets(s, unit, hi - 1) + Bucket(s, unit, hi - 1)
  }


  /** Sorted by key, and elements with the same key in the order of their symbols. */
  ghost predicate Sorted(s: seq<SymFreq>)
  {
    forall i, j :: 0 <= i < j < |s| ==> s[i].key < s[j].key || (s[i].key == s[j].key && s[i].sym < s[j].sym)
  }

  ghost predicate Ascending(s: seq<SymFreq>)
  {
    forall i, j :: 0 <= i < j < |s| ==> s[i].sym < s[j].sym
  }

  // ---------- what a pass does to the elements

  lemma {:induction false} BucketCounts(s: seq<SymFreq>, unit: nat, d: nat, x: SymFreq)
    requires unit > 0
    ensures multiset(Bucket(s, unit, d))[x] == if Digit(x, unit) == d then multiset(s)[x] else 0
  {
    if s != [] {
      var n := |s| - 1;
      BucketCounts(s[..n], unit, d, x);
      assert s == s[..n] + [s[n]];
    }
  }

  lemma {:induction false} BucketsCounts(s: seq<SymFreq>, unit: nat, hi: nat, x: SymFreq)
    requires unit > 0
    ensures multiset(Buckets(s, unit, hi))[x] == if Digit(x, unit) < hi then multiset(s)[x] else 0
  {
    hide Digit, Bucket;
    if hi > 0 {
      BucketsCounts(s, unit, hi - 1, x);
      BucketCounts(s, unit, hi - 1, x);
    }
  }

  /** A pass loses nothing and adds nothing. */
  lemma PassPermutes(s: seq<SymFreq>, unit: nat)
    requires unit > 0
    ensures multiset(Buckets(s, unit, 256)) == multiset(s) && |Buckets(s, unit, 256)| == |s|
  {
    forall x
      ensures multiset(Buckets(s, unit, 256))[x] == multiset(s)[x]
    {
      BucketsCounts(s, unit, 256, x);
    }
    assert multiset(Buckets(s, unit, 256)) == multiset(s);
    assert |multiset(Buckets(s, unit, 256))| == |multiset(s)|;
  }

  /** x comes before y in s. */
  ghost predicate Before(s: seq<SymFreq>, x: SymFreq, y: SymFreq)
  {
    exists i, j :: 0 <= i < j < |s| && s[i] == x && s[j] == y
  }

  lemma {:induction false} BucketOrder(s: seq<SymFreq>, unit: nat, d: nat)
    requires unit > 0
    ensures forall i :: 0 <= i < |Bucket(s, unit, d)| ==> Bucket(s, unit, d)[i] in s && Digit(Bucket(s, unit, d)[i], unit) == d
    ensures forall i, j :: 0 <= i < j < |Bucket(s, unit, d)| ==> Before(s, Bucket(s, unit, d)[i], Bucket(s, unit, d)[j])
  {
    if s != [] {
      var n := |s| - 1;
      var b, c := Bucket(s[..n], unit, d), Bucket(s, unit, d);
      BucketOrder(s[..n], unit, d);
      forall i, j | 0 <= i < j < |c|
        ensures Before(s, c[i], c[j])
      {
        if j < |b| {
          var i', j' :| 0 <= i' < j' < n && s[..n][i'] == c[i] && s[..n][j'] == c[j];
          assert s[i'] == c[i] && s[j'] == c[j];
        } else {
          var i' :| 0 <= i' < n && s[i'] == c[i];
          assert s[n] == c[j];
        }
      }
    }
  }

  /** y may come after x in the result of a pass. */
  ghost predicate InOrder(s: seq<SymFreq>, unit: nat, x: SymFreq, y: SymFreq)
    requires unit > 0
  {
    Digit(x, unit) < Digit(y, unit) || (Digit(x, unit) == Digit(y, unit) && Before(s, x, y))
  }

  /** After a pass, the elements are in the order of the digit, and within a digit in the order they were in. */
  lemma {:induction false} BucketsOrder(s: seq<SymFreq>, unit: nat, hi: nat)
    requires unit > 0
    ensures forall i :: 0 <= i < |Buckets(s, unit, hi)| ==> Digit(Buckets(s, unit, hi)[i], unit) < hi
    ensures forall i, j :: 0 <= i < j < |Buckets(s, unit, hi)| ==>
              InOrder(s, unit, Buckets(s, unit, hi)[i], Buckets(s, unit, hi)[j])
  {
    hide Digit, Bucket, Before;
    if hi > 0 {
      BucketsOrder(s, unit, hi - 1);
      BucketOrder(s, unit, hi - 1);
      var a, c, b := Buckets(s, unit, hi - 1), Bucket(s, unit, hi - 1), Buckets(s, unit, hi);
      assert b == a + c;
      forall i | 0 <= i < |b|
        ensures Digit(b[i], unit) < hi
        ensures i < |a| ==> b[i] == a[i] && Digit(b[i], unit) < hi - 1
        ensures i >= |a| ==> b[i] == c[i - |a|] && Digit(b[i], unit) == hi - 1
      {
      }
      forall i, j | 0 <= i < j < |b|
        ensures InOrder(s, unit, b[i], b[j])
      {
        if j < |a| {
          assert InOrder(s, unit, a[i], a[j]);
        } else if i >= |a| {
          assert Before(s, c[i - |a|], c[j - |a|]);
        }
      }
    }
  }

  /** The first pass sorts by the low digit, and keeps the symbols in order. */
  lemma FirstPass(s: seq<SymFreq>)
    requires Ascending(s)
    ensures LowSorted(Buckets(s, 1, 256))
  {
    BucketsOrder(s, 1, 256);
    var b := Buckets(s, 1, 256);
    forall i, j | 0 <= i < j < |b|
      ensures b[i].key % 256 < b[j].key % 256 || (b[i].key % 256 == b[j].key % 256 && b[i].sym < b[j].sym)
    {
      assert InOrder(s, 1, b[i], b[j]);
    }
  }

  ghost predicate LowSorted(s: seq<SymFreq>)
  {
    forall i, j :: 0 <= i < j < |s| ==>
      s[i].key % 256 < s[j].key % 256 || (s[i].key % 256 == s[j].key % 256 && s[i].sym < s[j].sym)
  }

  lemma ByBothDigits(s: seq<SymFreq>, x: SymFreq, y: SymFreq)
    requires LowSorted(s) && x.key < 65536 && y.key < 65536
    requires InOrder(s, 256, x, y)
    ensures x.key < y.key || (x.key == y.key && x.sym < y.sym)
  {
    assert x.key / 256 < 256 && y.key / 256 < 256;
  }

  /** The second pass sorts by the high digit, and keeps the order of the low one. */
  lemma SecondPass(s: seq<SymFreq>)
    requires LowSorted(s) && forall i :: 0 <= i < |s| ==> s[i].key < 65536
    ensures Sorted(Buckets(s, 256, 256))
  {
    hide LowSorted, Digit, Before, Buckets, InOrder;
    var b := Buckets(s, 256, 256);
    BucketsOrder(s, 256, 256);
    PassPermutes(s, 256);
    forall i, j | 0 <= i < j < |b|
      ensures b[i].key < b[j].key || (b[i].key == b[j].key && b[i].sym < b[j].sym)
    {
      assert b[i] in multiset(b) && b[j] in multiset(b);
      assert b[i] in s && b[j] in s;
      ByBothDigits(s, b[i], b[j]);
    }
  }

  // ---------- the passes in place

  lemma {:induction false} BucketsMono(s: seq<SymFreq>, unit: nat, lo: nat, hi: nat)
    requires unit > 0 && lo <= hi
    ensures Buckets(s, unit, lo) <= Buckets(s, unit, hi)
    decreases hi - lo
  {
    if lo < hi {
      BucketsMono(s, unit, lo, hi - 1);
    }
  }

  lemma {:induction false} BucketPrefix(s: seq<SymFreq>, i: nat, unit: nat, d: nat)
    requires unit > 0 && i <= |s|
    ensures Bucket(s[..i], unit, d) <= Bucket(s, unit, d)
    decreases |s| - i
  {
    if i < |s| {
      BucketPrefix(s, i + 1, unit, d);
      assert s[..i + 1][..i] == s[..i];
    } else {
      assert s[..i] == s;
    }
  }

  /** Where bucket d starts. */
  function Start(s: seq<SymFreq>, unit: nat, d: nat): nat
    requires unit > 0
  {
    |Buckets(s, unit, d)|
  }

  /** The next free place of bucket d, when the first i elements have been moved. */
  function Free(s: seq<SymFreq>, i: nat, unit: nat, d: nat): nat
    requires unit > 0 && i <= |s|
  {
    Start(s, unit, d) + |Bucket(s[..i], unit, d)|
  }

  /** The elements with digit d moved so far are where they belong. */
  ghost predicate InPlace(s: seq<SymFreq>, i: nat, unit: nat, r: seq<SymFreq>, d: nat)
    requires unit > 0 && i <= |s|
  {
    Free(s, i, unit, d) <= |r| && r[Start(s, unit, d)..Free(s, i, unit, d)] == Bucket(s[..i], unit, d)
  }

  ghost predicate Placed(s: seq<SymFreq>, i: nat, unit: nat, r: seq<SymFreq>)
    requires unit > 0 && i <= |s|
  {
    forall d :: 0 <= d < 256 ==> InPlace(s, i, unit, r, d)
  }

  lemma FreeBound(s: seq<SymFreq>, i: nat, unit: nat, d: nat)
    requires unit > 0 && i <= |s| && d < 256
    ensures Start(s, unit, d) <= Free(s, i, unit, d) <= Start(s, unit, d + 1) <= |s|
    ensures i < |s| && Digit(s[i], unit) == d ==> Free(s, i, unit, d) < Start(s, unit, d + 1)
  {
    BucketPrefix(s, i, unit, d);
    BucketsMono(s, unit, d + 1, 256);
    PassPermutes(s, unit);
    if i < |s| {
      BucketPrefix(s, i + 1, unit, d);
      assert s[..i + 1][..i] == s[..i];
    }
  }

  lemma StartMono(s: seq<SymFreq>, unit: nat, d: nat, e: nat)
    requires unit > 0 && d <= e
    ensures Start(s, unit, d) <= Start(s, unit, e)
  {
    BucketsMono(s, unit, d, e);
  }

  lemma NonePlaced(s: seq<SymFreq>, unit: nat, r: seq<SymFreq>)
    requires unit > 0 && |r| == |s|
    ensures Placed(s, 0, unit, r)
  {
    forall d | 0 <= d < 256
      ensures InPlace(s, 0, unit, r, d)
    {
      FreeBound(s, 0, unit, d);
    }
  }

  /** Moving one more element to its place. */
  lemma PlaceOne(s: seq<SymFreq>, i: nat, unit: nat, r: seq<SymFreq>, r': seq<SymFreq>)
    requires unit > 0 && i < |s| == |r| && Placed(s, i, unit, r)
    requires Free(s, i, unit, Digit(s[i], unit)) < |s| && r' == r[Free(s, i, unit, Digit(s[i], unit)) := s[i]]
    ensures Placed(s, i + 1, unit, r')
    ensures forall d :: 0 <= d < 256 ==>
              Free(s, i + 1, unit, d) == Free(s, i, unit, d) + if d == Digit(s[i], unit) then 1 else 0
  {
    hide Digit, Buckets;
    assert s[..i + 1][..i] == s[..i];
    var e, n := Digit(s[i], unit), i + 1;
    forall d | 0 <= d < 256
      ensures InPlace(s, n, unit, r', d)
    {
      assert InPlace(s, i, unit, r, d);
      FreeBound(s, i, unit, d);
      FreeBound(s, i, unit, e);
      if d < e {
        StartMono(s, unit, d + 1, e);
      } else if e < d {
        StartMono(s, unit, e + 1, d);
      }
    }
  }

  /** When all elements have been moved, the places hold the buckets in order. */
  lemma {:induction false} AllPlaced(s: seq<SymFreq>, unit: nat, r: seq<SymFreq>, hi: nat)
    requires unit > 0 && |r| == |s| && Placed(s, |s|, unit, r) && hi <= 256
    ensures Start(s, unit, hi) <= |s| && r[..Start(s, unit, hi)] == Buckets(s, unit, hi)
  {
    if hi > 0 {
      AllPlaced(s, unit, r, hi - 1);
      FreeBound(s, |s|, unit, hi - 1);
      assert s[..|s|] == s;
      var a, b := Buckets(s, unit, hi - 1), Bucket(s, unit, hi - 1);
      assert InPlace(s, |s|, unit, r, hi - 1);
      assert r[..|a| + |b|] == r[..|a|] + r[|a|..|a| + |b|];
    }
  }

  lemma {:induction false} AllInBucket(s: seq<SymFreq>, unit: nat, d: nat, i: nat)
    requires unit > 0 && |Bucket(s, unit, d)| == |s| && i < |s|
    ensures Digit(s[i], unit) == d
  {
    var n := |s| - 1;
    if i < n {
      AllInBucket(s[..n], unit, d, i);
    }
  }

  /** The first pass alone sorts keys below 256. */
  lemma OnePassEnough(s: seq<SymFreq>)
    requires Ascending(s) && |Bucket(s, 256, 0)| == |s| && forall i :: 0 <= i < |s| ==> s[i].key < 65536
    ensures Sorted(Buckets(s, 1, 256))
  {
    hide Buckets, Bucket;
    FirstPass(s);
    var b := Buckets(s, 1, 256);
    PassPermutes(s, 1);
    forall i | 0 <= i < |b|
      ensures b[i].key < 256
    {
      assert b[i] in multiset(b);
      assert b[i] in s;
      var k :| 0 <= k < |s| && s[k] == b[i];
      AllInBucket(s, 256, 0, k);
    }
  }

  /** How often each digit occurs, low digits first. */
  method Histogram(syms: array<SymFreq>, n: nat) returns (hist: array<nat>)
    requires n <= syms.Length
    ensures hist.Length == 512 && fresh(hist)
    ensures forall d :: 0 <= d < 256 ==> hist[d] == |Bucket(syms[..n], 1, d)| && hist[256 + d] == |Bucket(syms[..n], 256, d)|
  {
    hist := new nat[512](_ => 0);
    ghost var s := syms[..n];
    for i := 0 to n
      invariant syms[..n] == s
      invariant forall d :: 0 <= d < 256 ==> hist[d] == |Bucket(s[..i], 1, d)| && hist[256 + d] == |Bucket(s[..i], 256, d)|
    {
      assert s[..i + 1][..i] == s[..i] && s[i] == syms[i];
      var lo, hi := Digit(syms[i], 1), Digit(syms[i], 256);
      hist[lo] := hist[lo] + 1;
      hist[256 + hi] := hist[256 + hi] + 1;
    }
    assert s[..n] == s;
  }

  method Offsets(hist: array<nat>, first: nat, unit: nat, ghost s: seq<SymFreq>) returns (offsets: array<nat>)
    requires unit > 0 && first + 256 <= hist.Length
    requires forall d :: 0 <= d < 256 ==> hist[first + d] == |Bucket(s, unit, d)|
    ensures offsets.Length == 256 && fresh(offsets)
    ensures forall d :: 0 <= d < 256 ==> offsets[d] == Start(s, unit, d)
  {
    offsets := new nat[256];
    var cur := 0;
    for i := 0 to 256
      invariant cur == Start(s, unit, i)
      invariant forall d :: 0 <= d < i ==> offsets[d] == Start(s, unit, d)
    {
      offsets[i] := cur;
      cur := cur + hist[first + i];
    }
  }

  /** Moves the first n elements to the places their digit asks for. */
  method Pass(cur: array<SymFreq>, next: array<SymFreq>, n: nat, hist: array<nat>, first: nat, unit: nat)
    requires unit > 0 && n <= cur.Length && n <= next.Length && cur != next && first + 256 <= hist.Length
    requires forall d :: 0 <= d < 256 ==> hist[first + d] == |Bucket(cur[..n], unit, d)|
    modifies next
    ensures next[..n] == Buckets(old(cur[..n]), unit, 256)
  {
    ghost var s := cur[..n];
    var offsets := Offsets(hist, first, unit, s);
    NonePlaced(s, unit, next[..n]);
    for i := 0 to n
      invariant cur[..n] == s && Placed(s, i, unit, next[..n])
      invariant forall d :: 0 <= d < 256 ==> offsets[d] == Free(s, i, unit, d)
    {
      hide Digit, Placed, Free, Bucket, Buckets;
      assert s[i] == cur[i];
      var d := Digit(cur[i], unit);
      ghost var r := next[..n];
      FreeBound(s, i, unit, d);
      next[offsets[d]] := cur[i];
      PlaceOne(s, i, unit, r, next[..n]);
      offsets[d] := offsets[d] + 1;
    }
    AllPlaced(s, unit, next[..n], 256);
    PassPermutes(s, unit);
    assert next[..n][..n] == next[..n];
  }

  /** tdefl_radix_sort_syms: the result is one of the two arrays. */
  method Sort(n: nat, syms0: array<SymFreq>, syms1: array<SymFreq>) returns (r: array<SymFreq>)
    requires n <= syms0.Length && n <= syms1.Length && syms0 != syms1
    requires Ascending(syms0[..n]) && forall i :: 0 <= i < n ==> syms0[i].key < 65536
    modifies syms0, syms1
    ensures r == syms0 || r == syms1
    ensures Sorted(r[..n]) && multiset(r[..n]) == old(multiset(syms0[..n]))
  {
    ghost var s := syms0[..n];
    var hist := Histogram(syms0, n);
    Pass(syms0, syms1, n, hist, 0, 1);
    PassPermutes(s, 1);
    if n == hist[256] {
      OnePassEnough(s);
      return syms1;
    }
    FirstPass(s);
    ghost var t := syms1[..n];
    SameBuckets(s, t, 256);
    Pass(syms1, syms0, n, hist, 256, 256);
    PassPermutes(t, 256);
    SmallKeys(s, t);
    SecondPass(t);
    r := syms0;
  }

  /** The sizes of the buckets do not depend on the order of the elements. */
  lemma SameBuckets(s: seq<SymFreq>, t: seq<SymFreq>, unit: nat)
    requires unit > 0 && multiset(s) == multiset(t)
    ensures forall d: nat :: |Bucket(s, unit, d)| == |Bucket(t, unit, d)|
  {
    hide Bucket, Digit;
    forall d: nat
      ensures |Bucket(s, unit, d)| == |Bucket(t, unit, d)|
    {
      var a, b := Bucket(s, unit, d), Bucket(t, unit, d);
      forall x
        ensures multiset(a)[x] == multiset(b)[x]
      {
        BucketCounts(s, unit, d, x);
        BucketCounts(t, unit, d, x);
      }
      assert multiset(a) == multiset(b);
      assert |multiset(a)| == |a| && |multiset(b)| == |b|;
    }
  }

  lemma SmallKeys(s: seq<SymFreq>, t: seq<SymFreq>)
    requires multiset(s) == multiset(t) && forall i :: 0 <= i < |s| ==> s[i].key < 65536
    ensures forall i :: 0 <= i < |t| ==> t[i].key < 65536
  {
    forall i | 0 <= i < |t|
      ensures t[i].key < 65536
    {
      assert t[i] in multiset(t);
      assert t[i] in s;
    }
  }
}
