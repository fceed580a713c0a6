/** Run-length packing of code lengths (section 3.2.7 of RFC 1951): symbol 16 repeats the previous
    length, 17 and 18 stand for runs of zeros. */
module RunLength {
  import opened Bits
  import opened Canonical

  const PACK_SYMBOLS := 19
  const MAX_LENGTHS := 320
  const LEN_CODES_SIZE := 457

  datatype Op = Op(sym: nat, extra: nat)

  function ExtraBits(sym: nat): (n: nat)
    ensures n <= 7
  {
    if sym == 16 then 2 else if sym == 17 then 3 else if sym == 18 then 7 else 0
  }

  predicate OpOk(op: Op)
  {
    op.sym < PACK_SYMBOLS && op.extra < Pow2(ExtraBits(op.sym))
  }

  function Repeat(x: nat, n: nat): (s: seq<nat>)
    ensures |s| == n
  {
    seq(n, i => x)
  }

  /** How many lengths an operation stands for. */
  function RunOf(op: Op): nat
  {
    if op.sym < 16 then 1 else if op.sym == 18 then 11 + op.extra else 3 + op.extra
  }

  /** The lengths read so far, after one more operation. */
  function Apply(op: Op, sofar: seq<nat>): (r: seq<nat>)
    requires op.sym == 16 ==> sofar != []
    ensures |r| == |sofar| + RunOf(op)
  {
    if op.sym < 16 then sofar + [op.sym]
    else if op.sym == 16 then sofar + Repeat(sofar[|sofar| - 1], RunOf(op))
    else sofar + Repeat(0, RunOf(op))
  }

  /** ops turn the lengths sofar into the lengths all. */
  ghost predicate Unpacks(ops: seq<Op>, sofar: seq<nat>, all: seq<nat>)
  {
    if ops == [] then sofar == all
    else OpOk(ops[0]) && (ops[0].sym == 16 ==> sofar != []) && Unpacks(ops[1..], Apply(ops[0], sofar), all)
  }

  lemma {:induction false} UnpacksConcat(a: seq<Op>, b: seq<Op>, x: seq<nat>, y: seq<nat>, z: seq<nat>)
    requires Unpacks(a, x, y) && Unpacks(b, y, z)
    ensures Unpacks(a + b, x, z)
  {
    if a == [] {
      assert a + b == b;
    } else {
      UnpacksConcat(a[1..], b, Apply(a[0], x), y, z);
      assert (a + b)[1..] == a[1..] + b;
    }
  }

  /** Each operation makes the list longer, so the operations fit in the space of the lengths. */
  lemma {:induction false} UnpacksLength(ops: seq<Op>, sofar: seq<nat>, all: seq<nat>)
    requires Unpacks(ops, sofar, all)
    ensures |sofar| + |ops| <= |all| && sofar <= all
    ensures ops != [] ==> |sofar| + RunOf(ops[0]) <= |all|
  {
    if ops != [] {
      UnpacksLength(ops[1..], Apply(ops[0], sofar), all);
    }
  }

  /** An operation as the compressor stores it: its symbol, and one byte for a run. */
  function OpBytes(op: Op): (b: seq<nat>)
    ensures 1 <= |b| <= 2
  {
    if op.sym < 16 then [op.sym] else [op.sym, op.extra]
  }

  function Flat(ops: seq<Op>): seq<nat>
  {
    if ops == [] then [] else OpBytes(ops[0]) + Flat(ops[1..])
  }

  lemma {:induction false} FlatConcat(a: seq<Op>, b: seq<Op>)
    ensures Flat(a + b) == Flat(a) + Flat(b)
  {
    hide OpBytes;
    if a == [] {
      assert a + b == b;
    } else {
      FlatConcat(a[1..], b);
      assert (a + b)[1..] == a[1..] + b;
    }
  }

  function Occurs(ops: seq<Op>, sym: nat): nat
  {
    if ops == [] then 0 else Occurs(ops[..|ops| - 1], sym) + if ops[|ops| - 1].sym == sym then 1 else 0
  }

  lemma {:induction false} OccursPositive(ops: seq<Op>, i: nat)
    requires i < |ops|
    ensures Occurs(ops, ops[i].sym) > 0
  {
    if i < |ops| - 1 {
      OccursPositive(ops[..|ops| - 1], i);
    }
  }

  // ---------- runs

  /** How many elements from the start on are x, up to max. */
  function Leading(s: seq<nat>, x: nat, max: nat): (n: nat)
    ensures n <= |s| && n <= max && forall i :: 0 <= i < n ==> s[i] == x
    ensures n < |s| && n < max ==> s[n] != x
    decreases max
  {
    if s == [] || max == 0 || s[0] != x then 0 else 1 + Leading(s[1..], x, max - 1)
  }

  function Singles(x: nat, n: nat): (s: seq<Op>)
    ensures |s| == n
  {
    seq(n, _ => Op(x, 0))
  }

  /** A run of zeros: one by one if there are less than three. */
  function ZeroOps(n: nat): seq<Op>
  {
    if n < 3 then Singles(0, n) else if n <= 10 then [Op(17, n - 3)] else [Op(18, n - 11)]
  }

  /** A run of a length that came before: one by one if there are less than three. */
  function RepeatOps(x: nat, n: nat): seq<Op>
  {
    if n < 3 then Singles(x, n) else [Op(16, n - 3)]
  }

  /** The lengths as runs, as long as there are any: of up to 138 zeros, and of up to 6 times the length before. */
  function Runs(s: seq<nat>, prev: nat): seq<Op>
    decreases |s|
  {
    if s == [] then []
    else if s[0] == 0 then
      var n := 1 + Leading(s[1..], 0, 137);
      ZeroOps(n) + Runs(s[n..], 0)
    else if s[0] == prev then
      var n := 1 + Leading(s[1..], prev, 5);
      RepeatOps(prev, n) + Runs(s[n..], prev)
    else [Op(s[0], 0)] + Runs(s[1..], s[0])
  }

  lemma {:induction false} LeadingRun(s: seq<nat>, x: nat, n: nat, rest: seq<nat>, max: nat)
    requires s == Repeat(x, n) + rest && n <= max && (n == max || rest == [] || rest[0] != x)
    ensures Leading(s, x, max) == n
    decreases n
  {
    if n > 0 {
      assert s[1..] == Repeat(x, n - 1) + rest;
      LeadingRun(s[1..], x, n - 1, rest, max - 1);
    }
  }

  /** A run that cannot go on comes first. */
  lemma ZerosFirst(n: nat, rest: seq<nat>, prev: nat)
    requires n <= 138 && (n == 138 || rest == [] || rest[0] != 0) && (n == 0 ==> prev == 0)
    ensures Runs(Repeat(0, n) + rest, prev) == ZeroOps(n) + Runs(rest, 0)
  {
    var s := Repeat(0, n) + rest;
    if n > 0 {
      assert s[1..] == Repeat(0, n - 1) + rest && s[n..] == rest;
      LeadingRun(s[1..], 0, n - 1, rest, 137);
    } else {
      assert s == rest;
    }
  }

  lemma RepeatsFirst(x: nat, n: nat, rest: seq<nat>)
    requires n <= 6 && x > 0 && (n == 6 || rest == [] || rest[0] != x)
    ensures Runs(Repeat(x, n) + rest, x) == RepeatOps(x, n) + Runs(rest, x)
  {
    var s := Repeat(x, n) + rest;
    if n > 0 {
      assert s[1..] == Repeat(x, n - 1) + rest && s[n..] == rest;
      LeadingRun(s[1..], x, n - 1, rest, 5);
    } else {
      assert s == rest;
    }
  }

  /** What all the operations will be, when there are some runs still open and the rest comes. */
  function OpsWith(ops: seq<Op>, zeros: nat, repeats: nat, prev: nat, rest: seq<nat>): seq<Op>
  {
    ops + Runs(Repeat(0, zeros) + Repeat(prev, repeats) + rest, prev)
  }

  lemma CloseRepeats(ops: seq<Op>, repeats: nat, prev: nat, rest: seq<nat>)
    requires repeats <= 6 && (prev > 0 || repeats == 0) && (repeats == 6 || rest == [] || rest[0] != prev)
    ensures OpsWith(ops, 0, repeats, prev, rest) == OpsWith(ops + RepeatOps(prev, repeats), 0, 0, prev, rest)
  {
    hide Runs;
    var r := Repeat(prev, repeats);
    assert Repeat(0, 0) + r + rest == r + rest && Repeat(0, 0) + Repeat(prev, 0) + rest == rest;
    if repeats > 0 {
      RepeatsFirst(prev, repeats, rest);
    } else {
      assert r + rest == rest && ops + RepeatOps(prev, repeats) == ops;
    }
  }

  lemma CloseZeroRun(ops: seq<Op>, zeros: nat, prev: nat, rest: seq<nat>)
    requires zeros <= 138 && (zeros > 0 ==> prev == 0) && (zeros == 138 || rest == [] || rest[0] != 0)
    ensures OpsWith(ops, zeros, 0, prev, rest) == OpsWith(ops + ZeroOps(zeros), 0, 0, prev, rest)
  {
    hide Runs;
    var z := Repeat(0, zeros);
    assert z + Repeat(prev, 0) + rest == z + rest && Repeat(0, 0) + Repeat(prev, 0) + rest == rest;
    if zeros > 0 {
      ZerosFirst(zeros, rest, 0);
    } else {
      assert z + rest == rest && ops + ZeroOps(zeros) == ops;
    }
  }

  lemma OneMoreZero(ops: seq<Op>, zeros: nat, prev: nat, rest: seq<nat>)
    ensures OpsWith(ops, zeros, 0, prev, [0] + rest) == OpsWith(ops, zeros + 1, 0, 0, rest)
  {
    var s := Repeat(0, zeros + 1) + Repeat(0, 0) + rest;
    assert Repeat(0, zeros) + Repeat(prev, 0) + ([0] + rest) == s;
    AnyPrev(s, prev);
  }

  lemma OneMoreRepeat(ops: seq<Op>, repeats: nat, prev: nat, rest: seq<nat>)
    ensures OpsWith(ops, 0, repeats, prev, [prev] + rest) == OpsWith(ops, 0, repeats + 1, prev, rest)
  {
    assert Repeat(0, 0) + Repeat(prev, repeats) + ([prev] + rest) == Repeat(0, 0) + Repeat(prev, repeats + 1) + rest;
  }

  lemma OtherLength(ops: seq<Op>, prev: nat, size: nat, rest: seq<nat>)
    requires size != 0 && size != prev
    ensures OpsWith(ops, 0, 0, prev, [size] + rest) == OpsWith(ops + [Op(size, 0)], 0, 0, size, rest)
  {
    assert Repeat(0, 0) + Repeat(prev, 0) + ([size] + rest) == [size] + rest;
    assert Repeat(0, 0) + Repeat(size, 0) + rest == rest;
    assert ([size] + rest)[1..] == rest;
  }

  /** A run of zeros does not depend on what came before. */
  lemma AnyPrev(s: seq<nat>, prev: nat)
    requires s != [] && s[0] == 0
    ensures Runs(s, prev) == Runs(s, 0)
  {
  }

  // ---------- the compressor's packer

  /** The packer's working state: the packed bytes, the symbol counts, and the run still open. */
  class Packer {
    const packed: array<nat>
    const counts: array<nat>
    var num: nat
    var zeros: nat
    var repeats: nat
    var prev: nat
    ghost var ops: seq<Op>
    ghost var done: seq<nat>

    constructor (symCounts: array<nat>)
      requires symCounts.Length >= PACK_SYMBOLS
      modifies symCounts
      ensures Valid() && Pending() == [] && ops == [] && done == [] && prev == 0xFF
      ensures fresh(packed) && counts == symCounts
    {
      packed := new nat[MAX_LENGTHS];
      counts := symCounts;
      num, zeros, repeats, prev := 0, 0, 0, 0xFF;
      ops, done := [], [];
      new;
      forall i | 0 <= i < PACK_SYMBOLS { counts[i] := 0; }
    }

    ghost predicate Valid()
      reads this, packed, counts
    {
      && packed.Length == MAX_LENGTHS && counts.Length >= PACK_SYMBOLS && packed != counts
      && num <= MAX_LENGTHS && packed[..num] == Flat(ops) && num <= |done|
      && Unpacks(ops, [], done)
      && (forall s :: 0 <= s < PACK_SYMBOLS ==> counts[s] == Occurs(ops, s))
      && (zeros == 0 || repeats == 0) && zeros <= 138 && repeats <= 6
      && (repeats > 0 ==> done != [] && done[|done| - 1] == prev && 0 < prev < 16)
    }

    /** The lengths taken in but not yet written. */
    ghost function Pending(): seq<nat>
      reads this
    {
      Repeat(0, zeros) + Repeat(prev, repeats)
    }

    method Put(op: Op, n: nat)
      requires Valid() && OpOk(op) && (op.sym == 16 ==> done != []) && n == RunOf(op)
      requires |done| + n <= MAX_LENGTHS
      requires |OpBytes(op)| <= n
      modifies this`num, this`ops, this`done, packed, counts
      ensures num <= MAX_LENGTHS && num <= |done| && packed[..num] == Flat(ops)
      ensures ops == old(ops) + [op] && done == Apply(op, old(done)) && Unpacks(ops, [], done)
      ensures forall s :: 0 <= s < PACK_SYMBOLS ==> counts[s] == Occurs(ops, s)
    {
      hide Apply;
      counts[op.sym] := counts[op.sym] + 1;
      packed[num] := op.sym;
      num := num + 1;
      if op.sym >= 16 {
        packed[num] := op.extra;
        num := num + 1;
      }
      ops := ops + [op];
      done := Apply(op, done);
      FlatConcat(old(ops), [op]);
      assert Flat([op]) == OpBytes(op);
      assert packed[..num] == old(packed[..num]) + OpBytes(op);
      UnpacksConcat(old(ops), [op], [], old(done), done);
      assert ops[..|ops| - 1] == old(ops);
    }

    /** Writes out the open run of repeated lengths, if there is one. */
    method FlushRepeats()
      requires Valid() && |done| + repeats <= MAX_LENGTHS
      modifies this`num, this`ops, this`done, this`repeats, packed, counts
      ensures Valid() && repeats == 0 && done == old(done) + Repeat(prev, old(repeats))
      ensures ops == old(ops) + RepeatOps(prev, old(repeats))
    {
      ghost var goal := done + Repeat(prev, repeats);
      ghost var o, r := ops, repeats;
      if repeats > 0 {
        if repeats < 3 {
          while repeats > 0
            invariant Valid() && repeats <= r && done + Repeat(prev, repeats) == goal
            invariant ops == o + Singles(prev, r - repeats)
            invariant |goal| <= MAX_LENGTHS
          {
            Put(Op(prev, 0), 1);
            repeats := repeats - 1;
            assert [prev] + Repeat(prev, repeats) == Repeat(prev, repeats + 1);
          }
        } else {
          assert Pow2(2) == 4;
          Put(Op(16, repeats - 3), repeats);
          repeats := 0;
        }
      }
    }

    /** Writes out the open run of zeros, if there is one. */
    method FlushZeros()
      requires Valid() && |done| + zeros <= MAX_LENGTHS
      modifies this`num, this`ops, this`done, this`zeros, packed, counts
      ensures Valid() && zeros == 0 && done == old(done) + Repeat(0, old(zeros))
      ensures ops == old(ops) + ZeroOps(old(zeros))
    {
      ghost var goal := done + Repeat(0, zeros);
      ghost var o, z := ops, zeros;
      if zeros > 0 {
        if zeros < 3 {
          while zeros > 0
            invariant Valid() && repeats == 0 && zeros <= z && done + Repeat(0, zeros) == goal
            invariant ops == o + Singles(0, z - zeros)
            invariant |goal| <= MAX_LENGTHS
          {
            Put(Op(0, 0), 1);
            zeros := zeros - 1;
            assert [0] + Repeat(0, zeros) == Repeat(0, zeros + 1);
          }
        } else if zeros <= 10 {
          assert Pow2(3) == 8;
          Put(Op(17, zeros - 3), zeros);
          zeros := 0;
        } else {
          assert Pow2(7) == 128;
          Put(Op(18, zeros - 11), zeros);
          zeros := 0;
        }
      }
    }

    /** What the operations will be when the rest has been taken in. */
    ghost function Goal(rest: seq<nat>): seq<Op>
      reads this
    {
      OpsWith(ops, zeros, repeats, prev, rest)
    }

    /** Between two lengths: no run is full, and a repeat may start only from the last length written. */
    ghost predicate Ready()
      reads this, packed, counts
    {
      && Valid() && zeros < 138 && repeats < 6
      && (repeats == 0 && zeros == 0 && prev != 0 && prev != 0xFF ==> done != [] && done[|done| - 1] == prev)
      && (zeros > 0 ==> prev == 0)
    }

    method TakeZero(ghost rest: seq<nat>)
      requires Ready() && |done| + |Pending()| < MAX_LENGTHS
      modifies this, packed, counts
      ensures Ready() && prev == 0 && done + Pending() == old(done + Pending()) + [0]
      ensures Goal(rest) == old(Goal([0] + rest))
    {
      hide Flat, Occurs, Unpacks, OpsWith, ZeroOps, RepeatOps;
      ghost var o, r := ops, repeats;
      FlushRepeats();
      if r > 0 {
        CloseRepeats(o, r, prev, [0] + rest);
      } else {
        NoOps(o, prev);
      }
      OneMoreZero(ops, zeros, prev, rest);
      zeros := zeros + 1;
      prev := 0;
      assert Repeat(0, zeros) == Repeat(0, zeros - 1) + [0];
      if zeros == 138 {
        CloseZeroRun(ops, zeros, prev, rest);
        FlushZeros();
      }
    }

    method TakeNew(size: nat, ghost rest: seq<nat>)
      requires Ready() && zeros == 0 && 0 < size <= MAX_CODE_SIZE && size != prev && |done| + |Pending()| < MAX_LENGTHS
      modifies this, packed, counts
      ensures Ready() && prev == size && done + Pending() == old(done + Pending()) + [size]
      ensures Goal(rest) == old(Goal([size] + rest))
    {
      hide Flat, Occurs, Unpacks, OpsWith, RepeatOps;
      CloseRepeats(ops, repeats, prev, [size] + rest);
      FlushRepeats();
      OtherLength(ops, prev, size, rest);
      Put(Op(size, 0), 1);
      prev := size;
    }

    method TakeSame(ghost rest: seq<nat>)
      requires Ready() && zeros == 0 && 0 < prev <= MAX_CODE_SIZE && |done| + |Pending()| < MAX_LENGTHS
      modifies this, packed, counts
      ensures Ready() && prev == old(prev) && done + Pending() == old(done + Pending()) + [prev]
      ensures Goal(rest) == old(Goal([prev] + rest))
    {
      hide Flat, Occurs, Unpacks, OpsWith, RepeatOps;
      OneMoreRepeat(ops, repeats, prev, rest);
      repeats := repeats + 1;
      assert Repeat(prev, repeats) == Repeat(prev, repeats - 1) + [prev];
      if repeats == 6 {
        CloseRepeats(ops, repeats, prev, rest);
        FlushRepeats();
      }
    }

    method CloseZeros(ghost rest: seq<nat>)
      requires Ready() && |done| + |Pending()| <= MAX_LENGTHS && (rest == [] || rest[0] != 0)
      modifies this`num, this`ops, this`done, this`zeros, packed, counts
      ensures Ready() && zeros == 0 && done + Pending() == old(done + Pending())
      ensures Goal(rest) == old(Goal(rest))
    {
      hide Flat, Occurs, Unpacks, OpsWith, ZeroOps;
      ghost var d, p, z := done, prev, zeros;
      PendingLength();
      if repeats == 0 {
        CloseZeroRun(ops, zeros, prev, rest);
      } else {
        NoZeros(ops);
      }
      FlushZeros();
      assert done == d + Repeat(0, z);
      assert z > 0 ==> p == 0;
      assert z == 0 ==> done == d;
    }

    lemma PendingLength()
      ensures |Pending()| == zeros + repeats
      ensures zeros == 0 ==> Pending() == Repeat(prev, repeats)
      ensures repeats == 0 ==> Pending() == Repeat(0, zeros)
    {
    }

    method TakeSize(size: nat, ghost rest: seq<nat>)
      requires Ready() && 0 < size <= MAX_CODE_SIZE && |done| + |Pending()| < MAX_LENGTHS
      modifies this, packed, counts
      ensures Ready() && prev == size && done + Pending() == old(done + Pending()) + [size]
      ensures Goal(rest) == old(Goal([size] + rest))
    {
      hide Goal;
      CloseZeros([size] + rest);
      if size != prev {
        TakeNew(size, rest);
      } else {
        TakeSame(rest);
      }
    }

    /** Packs a list of code lengths: what the packed operations stand for is that list, in runs that are as long
        as can be. */
    method Pack(sizes: seq<nat>)
      requires Valid() && Pending() == [] && ops == [] && done == [] && prev == 0xFF
      requires |sizes| <= MAX_LENGTHS && forall i :: 0 <= i < |sizes| ==> sizes[i] <= MAX_CODE_SIZE
      modifies this, packed, counts
      ensures Valid() && Unpacks(ops, [], sizes) && ops == Runs(sizes, 0xFF)
      ensures num <= |sizes|
    {
      hide Unpacks, Runs, OpsWith, Flat, Occurs, RepeatOps;
      ghost var goal := Runs(sizes, 0xFF);
      AllRuns(sizes);
      assert sizes[0..] == sizes;
      PendingLength();
      for i := 0 to |sizes|
        invariant Ready() && done + Pending() == sizes[..i] && Goal(sizes[i..]) == goal
      {
        assert sizes[i..] == [sizes[i]] + sizes[i + 1..];
        if sizes[i] == 0 {
          TakeZero(sizes[i + 1..]);
        } else {
          TakeSize(sizes[i], sizes[i + 1..]);
        }
        assert sizes[..i + 1] == sizes[..i] + [sizes[i]];
      }
      assert sizes[..|sizes|] == sizes && sizes[|sizes|..] == [];
      PendingLength();
      if repeats > 0 {
        CloseRepeats(ops, repeats, prev, []);
        FlushRepeats();
      } else {
        CloseZeros([]);
      }
      NothingRuns(ops, prev);
      assert done == sizes;
    }
  }

  lemma NothingRuns(ops: seq<Op>, prev: nat)
    ensures OpsWith(ops, 0, 0, prev, []) == ops
  {
    assert Repeat(0, 0) + Repeat(prev, 0) + [] == [];
  }

  lemma AllRuns(sizes: seq<nat>)
    ensures OpsWith([], 0, 0, 0xFF, sizes) == Runs(sizes, 0xFF)
  {
    assert Repeat(0, 0) + Repeat(0xFF, 0) + sizes == sizes;
  }

  lemma NoOps(ops: seq<Op>, x: nat)
    ensures ops + RepeatOps(x, 0) == ops
  {
  }

  lemma NoZeros(ops: seq<Op>)
    ensures ops + ZeroOps(0) == ops
  {
  }

  // ---------- the decompressor's expansion

  /** Appends the run of one operation 16, 17 or 18 to the code lengths.  A list that still lacks some of
      its at most 320 lengths leaves room even for the longest run. */
  method ExpandRun(lenCodes: array<nat>, counter: nat, op: Op) returns (counter': nat)
    requires lenCodes.Length == LEN_CODES_SIZE && counter < MAX_LENGTHS
    requires OpOk(op) && op.sym >= 16 && (op.sym == 16 ==> counter > 0)
    modifies lenCodes
    ensures counter' <= LEN_CODES_SIZE && lenCodes[..counter'] == Apply(op, old(lenCodes[..counter]))
  {
    assert Pow2(2) == 4 && Pow2(3) == 8 && Pow2(7) == 128;
    var x := if op.sym == 16 then lenCodes[counter - 1] else 0;
    var s := (if op.sym == 18 then 11 else 3) + op.extra;
    for i := 0 to s
      invariant forall j :: counter <= j < counter + i ==> lenCodes[j] == x
      invariant lenCodes[..counter] == old(lenCodes[..counter])
    {
      lenCodes[counter + i] := x;
    }
    counter' := counter + s;
    assert lenCodes[..counter'] == lenCodes[..counter] + Repeat(x, s);
  }
}
