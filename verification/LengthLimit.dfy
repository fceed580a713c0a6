/** Limiting the lengths of a full code, by the numbers of codes of each length alone. */
module LengthLimit {
  import opened Bits

  const MAX_SUPPORTED := 32

  /** The code space that codes of lengths 1..l take, in units of 2^-l, when c[i] codes have length i. */
  function Taken(c: seq<nat>, l: nat): nat
    requires l < |c|
  {
    if l == 0 then 0 else 2 * Taken(c, l - 1) + c[l]
  }

  /** How many codes there are of lengths lo..hi. */
  function Codes(c: seq<nat>, lo: nat, hi: nat): nat
    requires hi < |c|
    decreases hi
  {
    if hi < lo || hi == 0 then 0 else Codes(c, lo, hi - 1) + c[hi]
  }

  lemma {:induction false} TakenSame(c: seq<nat>, d: seq<nat>, l: nat)
    requires l < |c| && l < |d| && forall i :: 0 < i <= l ==> c[i] == d[i]
    ensures Taken(c, l) == Taken(d, l)
  {
    if l > 0 {
      TakenSame(c, d, l - 1);
    }
  }

  lemma {:induction false} CodesSame(c: seq<nat>, d: seq<nat>, lo: nat, hi: nat)
    requires hi < |c| && hi < |d| && forall i :: 0 < i <= hi ==> c[i] == d[i]
    ensures Codes(c, lo, hi) == Codes(d, lo, hi)
  {
    if hi > 0 && hi >= lo {
      CodesSame(c, d, lo, hi - 1);
    }
  }

  lemma {:induction false} CodesSplit(c: seq<nat>, lo: nat, mid: nat, hi: nat)
    requires 0 < lo <= mid + 1 && mid <= hi < |c|
    ensures Codes(c, lo, hi) == Codes(c, lo, mid) + Codes(c, mid + 1, hi)
  {
    if mid < hi {
      CodesSplit(c, lo, mid, hi - 1);
    }
  }

  // ---------- the limit as a function

  /** The longest code of length i or less gives way to two that are one longer. */
  function Split(c: seq<nat>, i: nat): (d: seq<nat>)
    requires i + 1 < |c|
    ensures |d| == |c|
  {
    if i == 0 then c
    else if c[i] > 0 then c[i := c[i] - 1][i + 1 := c[i + 1] + 2]
    else Split(c, i - 1)
  }

  /** One code of length max moves in beside a shorter one, as often as there is space too much. */
  function Shrunk(c: seq<nat>, max: nat, excess: nat): (d: seq<nat>)
    requires 1 <= max < |c|
    ensures |d| == |c|
    decreases excess
  {
    if excess == 0 || c[max] == 0 then c
    else Shrunk(Split(c[max := c[max] - 1], max - 1), max, excess - 1)
  }

  /** The codes longer than max count as codes of length max, which are then too many. */
  function WithinMax(c: seq<nat>, n: nat, max: nat): (d: seq<nat>)
    requires |c| == MAX_SUPPORTED + 1 && 1 <= max <= MAX_SUPPORTED
    ensures |d| == |c|
  {
    if n <= 1 then c
    else
      var d := c[max := Codes(c, max, MAX_SUPPORTED)];
      Shrunk(d, max, if Taken(d, max) > Pow2(max) then Taken(d, max) - Pow2(max) else 0)
  }

  // ---------- full codes

  /** The codes longer than l are at least as many as the places that are left for them, twice over at the
      next level, and there are none if no place is left. */
  lemma {:induction false} RoomLeft(c: seq<nat>, l: nat, hi: nat)
    requires l <= hi < |c| && Taken(c, hi) == Pow2(hi)
    ensures Taken(c, l) <= Pow2(l) <= Taken(c, l) + Codes(c, l + 1, hi)
    ensures Codes(c, l + 1, hi) > 0 ==> Taken(c, l) < Pow2(l)
    decreases hi - l
  {
    if l < hi {
      RoomLeft(c, l + 1, hi);
      CodesSplit(c, l + 1, l + 1, hi);
    }
  }

  // ---------- moving codes

  /** Replacing one code of length i by two of length i + 1 takes the same space. */
  lemma {:induction false} SplitOne(c: seq<nat>, i: nat, l: nat)
    requires 1 <= i < l < |c| && c[i] > 0
    ensures var d := c[i := c[i] - 1][i + 1 := c[i + 1] + 2];
            Taken(d, l) == Taken(c, l) && Codes(d, 1, l) == Codes(c, 1, l) + 1
  {
    var d := c[i := c[i] - 1][i + 1 := c[i + 1] + 2];
    if l == i + 1 {
      TakenSame(c, d, i - 1);
      CodesSame(c, d, 1, i - 1);
      assert Taken(c, i) == 2 * Taken(c, i - 1) + c[i] && Taken(d, i) == 2 * Taken(d, i - 1) + d[i];
      assert Codes(c, 1, i) == Codes(c, 1, i - 1) + c[i] && Codes(d, 1, i) == Codes(d, 1, i - 1) + d[i];
    } else {
      SplitOne(c, i, l - 1);
    }
  }

  /** One code of length l less. */
  lemma DropOne(c: seq<nat>, l: nat)
    requires 1 <= l < |c| && c[l] > 0
    ensures var d := c[l := c[l] - 1]; Taken(d, l) == Taken(c, l) - 1 && Codes(d, 1, l) == Codes(c, 1, l) - 1
  {
    var d := c[l := c[l] - 1];
    TakenSame(c, d, l - 1);
    CodesSame(c, d, 1, l - 1);
  }

  lemma {:induction false} NoneBelow(c: seq<nat>, l: nat)
    requires l < |c| && forall i :: 0 < i <= l ==> c[i] == 0
    ensures Taken(c, l) == 0 && Codes(c, 1, l) == 0
  {
    if l > 0 {
      NoneBelow(c, l - 1);
    }
  }

  /** Counts codes longer than max as codes of length max. */
  method FoldLong(num: array<nat>, max: nat)
    requires num.Length == MAX_SUPPORTED + 1 && 1 <= max <= MAX_SUPPORTED
    modifies num
    ensures num[..] == old(num[..])[max := num[max]]
    ensures num[max] == old(Codes(num[..], max, MAX_SUPPORTED))
  {
    ghost var c := num[..];
    assert Codes(c, max, max) == Codes(c, max, max - 1) + c[max];
    var i := max + 1;
    while i <= MAX_SUPPORTED
      invariant max + 1 <= i <= MAX_SUPPORTED + 1
      invariant num[..] == c[max := num[max]] && num[max] == Codes(c, max, i - 1)
    {
      assert num[i] == c[i];
      num[max] := num[max] + num[i];
      i := i + 1;
    }
  }

  method SpaceTaken(num: array<nat>, max: nat) returns (total: nat)
    requires num.Length == MAX_SUPPORTED + 1 && 1 <= max <= MAX_SUPPORTED
    ensures total == Taken(num[..], max)
  {
    total := 0;
    ghost var c := num[..];
    var i := max;
    while i > 0
      invariant i <= max && total + Shl(Taken(c, i), max - i) == Taken(c, max)
    {
      ShlAdd(2 * Taken(c, i - 1), c[i], max - i);
      ShlHalf(Taken(c, i - 1), max - i);
      total := total + Shl(num[i], max - i);
      i := i - 1;
    }
    ShlZero(max);
  }

  /** A shorter code than max gives way to two that are one longer. */
  method Lengthen(num: array<nat>, max: nat)
    requires num.Length == MAX_SUPPORTED + 1 && 1 <= max <= MAX_SUPPORTED
    requires exists i :: 0 < i < max && num[i] > 0
    modifies num
    ensures num[..] == Split(old(num[..]), max - 1)
    ensures Taken(num[..], max) == old(Taken(num[..], max)) && Codes(num[..], 1, max) == old(Codes(num[..], 1, max)) + 1
    ensures num[max] >= old(num[max])
  {
    ghost var c := num[..];
    var i := max - 1;
    while i > 0
      invariant 0 <= i < max && num[..] == c
      invariant exists k :: 0 < k <= i && c[k] > 0
      invariant Split(c, i) == Split(c, max - 1)
    {
      if num[i] > 0 {
        SplitOne(c, i, max);
        num[i] := num[i] - 1;
        num[i + 1] := num[i + 1] + 2;
        assert num[..] == c[i := c[i] - 1][i + 1 := c[i + 1] + 2];
        return;
      }
      i := i - 1;
    }
  }

  /** tdefl_huffman_enforce_max_code_size: a full code of n symbols stays full, keeps its n codes, and has no
      code longer than max. */
  method EnforceMax(num: array<nat>, n: nat, max: nat)
    requires num.Length == MAX_SUPPORTED + 1 && 1 <= max <= MAX_SUPPORTED
    requires n >= 2 ==> n <= Pow2(max) && Taken(num[..], MAX_SUPPORTED) == Pow2(MAX_SUPPORTED)
    requires n >= 2 ==> Codes(num[..], 1, MAX_SUPPORTED) == n
    modifies num
    ensures num[..] == WithinMax(old(num[..]), n, max)
    ensures n < 2 ==> num[..] == old(num[..])
    ensures n >= 2 && old(Codes(num[..], max + 1, MAX_SUPPORTED)) == 0 ==> num[..] == old(num[..])
    ensures n >= 2 && old(Codes(num[..], max + 1, MAX_SUPPORTED)) > 0 ==> num[max] > 0
    ensures n >= 2 ==> Taken(num[..], max) == Pow2(max) && Codes(num[..], 1, max) == n
  {
    hide Taken, Codes, Pow2, Shrunk;
    if n <= 1 {
      return;
    }
    ghost var c := num[..];
    FoldLong(num, max);
    Folded(c, num[..], max);
    ghost var goal, long := WithinMax(c, n, max), Codes(c, max + 1, MAX_SUPPORTED);
    NoExcess(num[..], max);
    var total := SpaceTaken(num, max);
    ShlPow2(0, max);
    One();
    while total != Shl(1, max)
      invariant total == Taken(num[..], max) >= Pow2(max) && Codes(num[..], 1, max) == n
      invariant total > Pow2(max) ==> num[max] > total - Pow2(max)
      invariant Shrunk(num[..], max, total - Pow2(max)) == goal
      invariant if long == 0 then num[..] == c && total == Pow2(max) else num[max] > 0
      decreases total - Pow2(max)
    {
      TakeBack(num, n, max, total - Pow2(max));
      total := total - 1;
    }
    NoExcess(num[..], max);
  }

  lemma NoExcess(c: seq<nat>, max: nat)
    requires 1 <= max < |c|
    ensures Shrunk(c, max, 0) == c
  {
  }

  lemma One()
    ensures Pow2(0) == 1
  {
  }

  /** One code of length max less, and a shorter one gives way to two. */
  method TakeBack(num: array<nat>, n: nat, max: nat, ghost excess: nat)
    requires num.Length == MAX_SUPPORTED + 1 && 1 <= max <= MAX_SUPPORTED
    requires Codes(num[..], 1, max) == n <= Pow2(max) < Taken(num[..], max) && num[max] > 0
    modifies num
    ensures Taken(num[..], max) == old(Taken(num[..], max)) - 1 && Codes(num[..], 1, max) == n
    ensures num[max] >= old(num[max]) - 1
    ensures excess > 0 ==> Shrunk(num[..], max, excess - 1) == Shrunk(old(num[..]), max, excess)
  {
    hide Taken, Codes, Pow2, Split;
    ghost var d := num[..];
    DropOne(d, max);
    ghost var i := Shorter(d, max, n);
    num[max] := num[max] - 1;
    assert num[..] == d[max := d[max] - 1];
    assert num[i] > 0;
    Lengthen(num, max);
  }

  lemma Folded(c: seq<nat>, d: seq<nat>, max: nat)
    requires |c| == |d| == MAX_SUPPORTED + 1 && 1 <= max <= MAX_SUPPORTED && Taken(c, MAX_SUPPORTED) == Pow2(MAX_SUPPORTED)
    requires d == c[max := Codes(c, max, MAX_SUPPORTED)]
    ensures Codes(d, 1, max) == Codes(c, 1, MAX_SUPPORTED)
    ensures Pow2(max) <= Taken(d, max)
    ensures if Codes(c, max + 1, MAX_SUPPORTED) == 0 then d == c && Taken(d, max) == Pow2(max) else d[max] > 0
    ensures Taken(d, max) > Pow2(max) ==> d[max] > Taken(d, max) - Pow2(max)
  {
    var all, low := MAX_SUPPORTED, max - 1;
    TakenSame(c, d, low);
    CodesSame(c, d, 1, low);
    CodesSplit(c, 1, low, all);
    CodesSplit(c, max, max, all);
    assert Codes(c, max, max) == c[max] + Codes(c, max, low) && Codes(c, max, low) == 0;
    assert Taken(d, max) == 2 * Taken(d, low) + d[max] && Codes(d, 1, max) == Codes(d, 1, low) + d[max];
    assert Taken(c, max) == 2 * Taken(c, low) + c[max] && Pow2(max) == 2 * Pow2(low);
    hide Taken, Codes, Pow2;
    RoomLeft(c, low, all);
    RoomLeft(c, max, all);
  }

  /** An overfull code of no more symbols than there are places has a code shorter than max. */
  lemma Shorter(c: seq<nat>, max: nat, n: nat) returns (i: nat)
    requires 1 <= max < |c| && Taken(c, max) > Pow2(max) && Codes(c, 1, max) == n <= Pow2(max)
    ensures 0 < i < max && c[i] > 0
  {
    if forall i :: 0 < i < max ==> c[i] == 0 {
      NoneBelow(c, max - 1);
      assert false;
    } else {
      i :| 0 < i < max && c[i] > 0;
    }
  }
}
