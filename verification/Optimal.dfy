/** No prefix code is shorter: whatever code lengths satisfy the Kraft inequality, their weighted total is at
    least that of the code lengths computed in place. */
module Optimal {
  import opened Bits
  import opened Canonical
  import opened MinRedundancy

  /** An item with its weight and the length of its code. */
  datatype Item = Item(w: nat, l: nat)

  function Share(a: Item, top: nat): nat
    requires a.l <= top
  {
    Pow2(top - a.l)
  }

  ghost predicate Within(s: seq<Item>, top: nat)
  {
    forall i :: 0 <= i < |s| ==> s[i].l <= top
  }

  /** The code space that the items take, in units of 2^-top. */
  function Space(s: seq<Item>, top: nat): nat
    requires Within(s, top)
  {
    if s == [] then 0 else Share(s[0], top) + Space(s[1..], top)
  }

  function Price(s: seq<Item>): nat
  {
    if s == [] then 0 else s[0].w * s[0].l + Price(s[1..])
  }

  function WeightsOf(s: seq<Item>): (r: seq<nat>)
    ensures |r| == |s|
  {
    seq(|s|, i requires 0 <= i < |s| => s[i].w)
  }

  lemma {:induction false} Replace(s: seq<Item>, i: nat, v: Item, top: nat)
    requires i < |s| && Within(s, top) && v.l <= top
    ensures Within(s[i := v], top)
    ensures Space(s[i := v], top) == Space(s, top) - Share(s[i], top) + Share(v, top)
    ensures Price(s[i := v]) == Price(s) - s[i].w * s[i].l + v.w * v.l
  {
    if i == 0 {
      assert s[0 := v][1..] == s[1..];
    } else {
      Replace(s[1..], i - 1, v, top);
      assert s[i := v][1..] == s[1..][i - 1 := v];
    }
  }

  lemma {:induction false} TakeOut(s: seq<Item>, i: nat, top: nat)
    requires i < |s| && Within(s, top)
    ensures Within(s[..i] + s[i + 1..], top)
    ensures Space(s, top) == Space(s[..i] + s[i + 1..], top) + Share(s[i], top)
    ensures Price(s) == Price(s[..i] + s[i + 1..]) + s[i].w * s[i].l
  {
    if i == 0 {
      assert s[..0] + s[1..] == s[1..];
    } else {
      var u := s[..i] + s[i + 1..];
      TakeOut(s[1..], i - 1, top);
      assert u[1..] == s[1..][..i - 1] + s[1..][i..];
    }
  }

  lemma {:induction false} PutLast(s: seq<Item>, a: Item, top: nat)
    requires Within(s, top) && a.l <= top
    ensures Within(s + [a], top)
    ensures Space(s + [a], top) == Space(s, top) + Share(a, top) && Price(s + [a]) == Price(s) + a.w * a.l
  {
    if s != [] {
      PutLast(s[1..], a, top);
      assert (s + [a])[1..] == s[1..] + [a];
    } else {
      assert (s + [a])[1..] == [];
    }
  }

  /** Giving the longer of two codes to the lighter of two items costs nothing. */
  lemma Exchange(w: nat, v: nat, l: nat, k: nat)
    requires w <= v && l <= k
    ensures w * k + v * l <= w * l + v * k
  {
    assert (v - w) * (k - l) >= 0;
    assert (v - w) * (k - l) == v * k - v * l - w * k + w * l;
  }

  /** The index of an item with the longest code. */
  lemma {:induction false} Longest(s: seq<Item>) returns (a: nat)
    requires s != []
    ensures a < |s| && forall i :: 0 <= i < |s| ==> s[i].l <= s[a].l
  {
    if |s| == 1 {
      a := 0;
    } else {
      a := Longest(s[..|s| - 1]);
      if s[a].l < s[|s| - 1].l {
        a := |s| - 1;
      }
    }
  }

  /** Lets an item that is no heavier than the rest have the longest code. */
  lemma Sink(a: Item, rest: seq<Item>, cap: nat, top: nat) returns (a': Item, rest': seq<Item>)
    requires a.l <= cap <= top && Within(rest, cap) && Within(rest, top) && forall i :: 0 <= i < |rest| ==> a.w <= rest[i].w
    ensures a'.w == a.w && a'.l <= cap && Within(rest', top) && WeightsOf(rest') == WeightsOf(rest)
    ensures forall i :: 0 <= i < |rest'| ==> rest'[i].l <= a'.l
    ensures Share(a', top) + Space(rest', top) == Share(a, top) + Space(rest, top)
    ensures a'.w * a'.l + Price(rest') <= a.w * a.l + Price(rest)
  {
    a', rest' := a, rest;
    if rest != [] {
      var b := Longest(rest);
      if rest[b].l > a.l {
        a' := Item(a.w, rest[b].l);
        rest' := rest[b := Item(rest[b].w, a.l)];
        Replace(rest, b, Item(rest[b].w, a.l), top);
        Exchange(a.w, rest[b].w, a.l, rest[b].l);
      }
    }
  }

  /** Code space in finer units. */
  lemma {:induction false} Finer(s: seq<Item>, c: nat, top: nat)
    requires Within(s, c) && c <= top
    ensures Within(s, top) && Space(s, top) == Shl(Space(s, c), top - c)
  {
    if s != [] {
      Finer(s[1..], c, top);
      ShlPow2(c - s[0].l, top - c);
      ShlAdd(Share(s[0], c), Space(s[1..], c), top - c);
    } else {
      ShlZero(top - c);
    }
  }

  /** If one item has the longest code, and another the next longest of length c, then there is room for two
      codes of length c. */
  lemma RoomForTwo(rest: seq<Item>, c: nat, l: nat, top: nat)
    requires Within(rest, c) && c <= l <= top && Within(rest, top)
    requires Pow2(top - l) + Pow2(top - c) + Space(rest, top) <= Pow2(top)
    ensures 2 + Space(rest, c) <= Pow2(c) && c >= 1
  {
    hide Space, Shl, Within;
    Finer(rest, c, top);
    var x, n := Space(rest, c), top - c;
    ShlPow2(0, n);
    ShlPow2(c, n);
    ShlAdd(x, 1, n);
    ShlAdd(x + 1, 1, n);
    ShlReflects(x + 1, Pow2(c), n);
    ShlReflects(x + 2, Pow2(c), n);
  }

  lemma {:induction false} ShlReflects(a: nat, b: nat, n: nat)
    ensures Shl(a, n) <= Shl(b, n) ==> a <= b
    ensures Shl(a, n) < Shl(b, n) ==> a < b
  {
    if n > 0 {
      ShlReflects(a, b, n - 1);
    }
  }

  lemma HeadOf(s: seq<Item>, top: nat)
    requires s != [] && Within(s, top)
    ensures Space(s, top) == Share(s[0], top) + Space(s[1..], top) && Price(s) == s[0].w * s[0].l + Price(s[1..])
  {
  }

  /** The merge of the two lightest items: the code for the merged item and the rest that this leaves is
      cheaper by at least the weight of both. */
  lemma MergeTwo(a: Item, b: Item, rest: seq<Item>, top: nat) returns (ab: Item, rest': seq<Item>, c: nat)
    requires a.l <= top && b.l <= top && Within(rest, top)
    requires a.w <= b.w && forall i :: 0 <= i < |rest| ==> b.w <= rest[i].w
    requires Share(a, top) + Share(b, top) + Space(rest, top) <= Pow2(top)
    ensures ab.w == a.w + b.w && ab.l <= c && Within(rest', c) && WeightsOf(rest') == WeightsOf(rest)
    ensures Share(ab, c) + Space(rest', c) <= Pow2(c)
    ensures ab.w * ab.l + Price(rest') + a.w + b.w <= a.w * a.l + b.w * b.l + Price(rest)
  {
    hide Space, WeightsOf, Price;
    var all := [b] + rest;
    assert all[1..] == rest;
    HeadOf(all, top);
    var a1, u := Sink(a, all, top, top);
    var b1, rest1 := u[0], u[1..];
    SameWeights(u, all);
    HeadOf(u, top);
    var b2;
    b2, rest' := Sink(b1, rest1, a1.l, top);
    c := b2.l;
    RoomForTwo(rest', c, a1.l, top);
    ab := Item(a.w + b.w, c - 1);
    assert Pow2(1) == 2;
    MergedPrice(a.w, b.w, c, a1.l);
  }

  lemma SameWeights(u: seq<Item>, v: seq<Item>)
    requires WeightsOf(u) == WeightsOf(v)
    ensures |u| == |v| && forall i :: 0 <= i < |u| ==> u[i].w == v[i].w
    ensures u != [] ==> WeightsOf(u[1..]) == WeightsOf(v[1..])
  {
    forall i | 0 <= i < |u|
      ensures u[i].w == v[i].w
    {
      assert WeightsOf(u)[i] == WeightsOf(v)[i];
    }
  }

  lemma MergedPrice(w: nat, v: nat, c: nat, l: nat)
    requires 1 <= c <= l
    ensures (w + v) * (c - 1) + w + v <= w * l + v * c
  {
    assert (w + v) * (c - 1) + w + v == w * c + v * c;
    assert w * c <= w * l;
  }

  // ---------- the items of the merges

  /** The weights that there are before merge t. */
  function Queue(f: seq<nat>, m: Merges, t: nat): seq<nat>
    requires t <= |m.w| == |m.steps| && RootAt(m, t) <= t && 2 * t - RootAt(m, t) <= |f|
  {
    m.w[RootAt(m, t)..t] + f[2 * t - RootAt(m, t)..]
  }

  /** Without the two that merge t takes. */
  function Others(f: seq<nat>, m: Merges, t: nat): seq<nat>
    requires t < |m.w| == |m.steps| && m.steps[t].root' <= t && m.steps[t].leaf' <= |f|
  {
    m.w[m.steps[t].root'..t] + f[m.steps[t].leaf'..]
  }

  lemma {:induction false} WeightsMono(f: seq<nat>, m: Merges, i: nat, j: nat)
    requires Built(f, m) && i <= j < |m.w|
    ensures m.w[i] <= m.w[j]
    decreases j - i
  {
    if i < j {
      WeightsMono(f, m, i, j - 1);
      WeightsGrow(f, m, j - 1);
    }
  }

  function Without(s: seq<nat>, i: nat, j: nat): seq<nat>
    requires i < j < |s|
  {
    s[..i] + s[i + 1..j] + s[j + 1..]
  }

  /** The weights of the items but two. */
  lemma WeightsWithout(s: seq<Item>, i: nat, j: nat)
    requires i < j < |s|
    ensures WeightsOf(s[..i] + s[i + 1..j] + s[j + 1..]) == Without(WeightsOf(s), i, j)
  {
    var a, b, c := s[..i], s[i + 1..j], s[j + 1..];
    assert WeightsOf(a) == WeightsOf(s)[..i] && WeightsOf(b) == WeightsOf(s)[i + 1..j] && WeightsOf(c) == WeightsOf(s)[j + 1..];
    WeightsPlus(a, b);
    WeightsPlus(a + b, c);
  }

  lemma WeightsPlus(a: seq<Item>, b: seq<Item>)
    ensures WeightsOf(a + b) == WeightsOf(a) + WeightsOf(b)
  {
  }

  lemma TakeTwo(s: seq<Item>, i: nat, j: nat, top: nat) returns (rest: seq<Item>)
    requires i < j < |s| && Within(s, top)
    ensures Within(rest, top) && WeightsOf(rest) == Without(WeightsOf(s), i, j)
    ensures Space(s, top) == Share(s[i], top) + Share(s[j], top) + Space(rest, top)
    ensures Price(s) == s[i].w * s[i].l + s[j].w * s[j].l + Price(rest)
  {
    hide Space, Price, Share, WeightsOf, Without;
    TakeOut(s, j, top);
    var u := s[..j] + s[j + 1..];
    TakeOut(u, i, top);
    rest := u[..i] + u[i + 1..];
    assert rest == s[..i] + s[i + 1..j] + s[j + 1..];
    WeightsWithout(s, i, j);
  }

  /** Where the two items of a merge are in the queue, the internal nodes of which come first. */
  function FirstOf(s: Step, t: nat): int
  {
    if s.root' == s.root then t - s.root else 0
  }

  function SecondOf(s: Step, t: nat): int
  {
    if s.root' == s.root then t - s.root + 1 else if s.root' == s.root + 2 then 1 else t - s.root
  }

  lemma TakenOut(f: seq<nat>, w: seq<nat>, s: Step, t: nat)
    requires Takes(f, w, s) && s.root <= s.root' <= t <= |w| && s.leaf' <= |f|
    ensures var q, i, j := w[s.root..t] + f[s.leaf..], FirstOf(s, t), SecondOf(s, t);
            0 <= i < j < |q| && ((q[i] == s.x && q[j] == s.y) || (q[i] == s.y && q[j] == s.x)) &&
            Without(q, i, j) == w[s.root'..t] + f[s.leaf'..]
  {
    var q, i, j := w[s.root..t] + f[s.leaf..], FirstOf(s, t), SecondOf(s, t);
    assert |q| == t - s.root + |f| - s.leaf;
    if s.root' == s.root {
      assert Without(q, i, j) == w[s.root..t] + f[s.leaf + 2..];
    } else if s.root' == s.root + 2 {
      assert Without(q, i, j) == w[s.root + 2..t] + f[s.leaf..];
    } else {
      assert Without(q, i, j) == w[s.root + 1..t] + f[s.leaf + 1..];
    }
  }

  lemma OthersHeavier(f: seq<nat>, m: Merges, t: nat)
    requires Built(f, m) && Nondecreasing(f) && t < |m.w|
    ensures m.steps[t].root' <= t && m.steps[t].leaf' <= |f|
    ensures forall i :: 0 <= i < |Others(f, m, t)| ==> m.steps[t].y <= Others(f, m, t)[i]
  {
    var s := m.steps[t];
    assert StepOk(f, m.w, m.steps, t);
    var o := Others(f, m, t);
    forall i | 0 <= i < |o|
      ensures s.y <= o[i]
    {
      if i < t - s.root' {
        assert o[i] == m.w[s.root' + i];
        WeightsMono(f, m, s.root', s.root' + i);
      } else {
        assert o[i] == f[s.leaf' + (i - (t - s.root'))];
      }
    }
  }

  /** The step at merge t, and the queue before it. */
  lemma QueueAt(f: seq<nat>, m: Merges, t: nat)
    requires Built(f, m) && t < |m.w|
    ensures |m.w| == |m.steps| && RootAt(m, t) == m.steps[t].root && 2 * t - RootAt(m, t) == m.steps[t].leaf
    ensures RootAt(m, t + 1) == m.steps[t].root' && 2 * t + 2 - RootAt(m, t + 1) == m.steps[t].leaf'
    ensures var s := m.steps[t];
            Takes(f, m.w, s) && s.root <= s.root' <= t && s.leaf <= s.leaf' <= |f| && m.w[t] == s.x + s.y && s.x <= s.y
  {
    assert StepOk(f, m.w, m.steps, t);
    RootAtStep(f, m, t);
  }

  lemma QueueNext(f: seq<nat>, m: Merges, t: nat)
    requires t < |m.w| == |m.steps| && m.steps[t].root' <= t && m.steps[t].leaf' <= |f|
    requires RootAt(m, t + 1) == m.steps[t].root' && 2 * t + 2 - RootAt(m, t + 1) == m.steps[t].leaf'
    ensures var k, o := t - m.steps[t].root', Others(f, m, t); Queue(f, m, t + 1) == o[..k] + [m.w[t]] + o[k..]
  {
    var s := m.steps[t];
    assert m.w[s.root'..t + 1] == m.w[s.root'..t] + [m.w[t]];
  }

  /** The items of the next queue, when the two least have been merged. */
  lemma PutIn(rest: seq<Item>, k: nat, ab: Item, top: nat)
    requires k <= |rest| && Within(rest, top) && ab.l <= top
    ensures var q := rest[..k] + [ab] + rest[k..];
            && Within(q, top) && Space(q, top) == Share(ab, top) + Space(rest, top)
            && Price(q) == ab.w * ab.l + Price(rest)
            && WeightsOf(q) == WeightsOf(rest)[..k] + [ab.w] + WeightsOf(rest)[k..]
  {
    hide Space, Price, Share;
    var q := rest[..k] + [ab] + rest[k..];
    assert q[..k] + q[k + 1..] == rest;
    TakeOut(q, k, top);
  }

  /** Any code for a queue, seen as codes for the two least items and for the others. */
  lemma SplitQueue(f: seq<nat>, m: Merges, t: nat, q: seq<Item>, top: nat) returns (a: Item, b: Item, rest: seq<Item>)
    requires Built(f, m) && t < |m.w| && m.steps[t].root' <= t && m.steps[t].leaf' <= |f|
    requires RootAt(m, t) <= t && 2 * t - RootAt(m, t) <= |f| && WeightsOf(q) == Queue(f, m, t) && Within(q, top)
    ensures a.w == m.steps[t].x && b.w == m.steps[t].y && a.l <= top && b.l <= top
    ensures Within(rest, top) && WeightsOf(rest) == Others(f, m, t)
    ensures Space(q, top) == Share(a, top) + Share(b, top) + Space(rest, top)
    ensures Price(q) == a.w * a.l + b.w * b.l + Price(rest)
  {
    var s := m.steps[t];
    QueueAt(f, m, t);
    TakenOut(f, m.w, s, t);
    hide Built, Takes, Space, Price, Share, Without, FirstOf, SecondOf, WeightsOf;
    var i, j := FirstOf(s, t), SecondOf(s, t);
    WeightsAt(q);
    rest := TakeTwo(q, i, j, top);
    if q[i].w == s.x && q[j].w == s.y {
      a, b := q[i], q[j];
    } else {
      a, b := q[j], q[i];
    }
  }

  /** The merge of the two least items of a queue, seen from any code for the queue. */
  lemma MergeQueue(f: seq<nat>, m: Merges, t: nat, q: seq<Item>, top: nat) returns (q': seq<Item>, c: nat)
    requires Built(f, m) && Nondecreasing(f) && t < |m.w|
    requires RootAt(m, t) <= t && 2 * t - RootAt(m, t) <= |f| && WeightsOf(q) == Queue(f, m, t)
    requires Within(q, top) && Space(q, top) <= Pow2(top)
    ensures RootAt(m, t + 1) <= t && 2 * t + 2 - RootAt(m, t + 1) <= |f| && WeightsOf(q') == Queue(f, m, t + 1)
    ensures Within(q', c) && Space(q', c) <= Pow2(c) && Price(q') + m.w[t] <= Price(q)
  {
    QueueAt(f, m, t);
    OthersHeavier(f, m, t);
    QueueNext(f, m, t);
    var s := m.steps[t];
    hide Built, Takes, Space, Price, Share, Within, WeightsOf, RootAt, Queue;
    var a, b, rest := SplitQueue(f, m, t, q, top);
    HeavierItems(rest, Others(f, m, t), s.y);
    hide Others;
    var ab, rest';
    ab, rest', c := MergeTwo(a, b, rest, top);
    WeightsAt(rest);
    WeightsAt(rest');
    PutIn(rest', t - s.root', ab, c);
    q' := rest'[..t - s.root'] + [ab] + rest'[t - s.root'..];
  }

  lemma WeightsAt(q: seq<Item>)
    ensures |WeightsOf(q)| == |q| && forall i :: 0 <= i < |q| ==> WeightsOf(q)[i] == q[i].w
  {
  }

  lemma HeavierItems(rest: seq<Item>, o: seq<nat>, y: nat)
    requires WeightsOf(rest) == o && forall i :: 0 <= i < |o| ==> y <= o[i]
    ensures forall i :: 0 <= i < |rest| ==> y <= rest[i].w
  {
    forall i | 0 <= i < |rest|
      ensures y <= rest[i].w
    {
      assert o[i] == rest[i].w;
    }
  }

  /** Any code for the items before merge t costs at least the merges from t on. */
  lemma {:induction false} AtLeastTheMerges(f: seq<nat>, m: Merges, t: nat, q: seq<Item>, top: nat)
    requires Built(f, m) && Nondecreasing(f) && t <= |m.w|
    requires RootAt(m, t) <= t && 2 * t - RootAt(m, t) <= |f| && WeightsOf(q) == Queue(f, m, t)
    requires Within(q, top) && Space(q, top) <= Pow2(top)
    ensures SumFrom(m.w, t) <= Price(q)
    decreases |m.w| - t
  {
    hide Built, WeightsOf, Queue, Within, Space, Price;
    if t < |m.w| {
      var q', c := MergeQueue(f, m, t, q, top);
      AtLeastTheMerges(f, m, t + 1, q', c);
    }
  }

  function Items(f: seq<nat>, l: seq<nat>, lo: nat): (s: seq<Item>)
    requires |f| == |l|
    ensures |s| == if lo <= |f| then |f| - lo else 0
    decreases |f| - lo
  {
    if lo >= |f| then [] else [Item(f[lo], l[lo])] + Items(f, l, lo + 1)
  }

  lemma {:induction false} ItemsAre(f: seq<nat>, l: seq<nat>, lo: nat, top: nat)
    requires |f| == |l| && lo <= |f| && forall j :: 0 <= j < |l| ==> 1 <= l[j] <= top
    ensures WeightsOf(Items(f, l, lo)) == f[lo..] && Price(Items(f, l, lo)) == Cost(f, l, lo)
    ensures Within(Items(f, l, lo), top) && Space(Items(f, l, lo), top) == Total(l[lo..], top)
    decreases |f| - lo
  {
    if lo < |f| {
      ItemsAre(f, l, lo + 1, top);
      var s := Items(f, l, lo);
      assert s[1..] == Items(f, l, lo + 1);
      assert f[lo..] == [f[lo]] + f[lo + 1..];
      assert l[lo..] == [l[lo]] + l[lo + 1..];
      TotalCons(l[lo], l[lo + 1..], top);
    } else {
      TotalOfNone(l[lo..], top);
    }
  }

  /** The code lengths found in place are the best: no code lengths that satisfy the Kraft inequality, and so
      no prefix code, have a smaller weighted total. */
  lemma NoneShorter(f: seq<nat>, m: Merges, best: seq<nat>, l: seq<nat>, top: nat)
    requires Finished(f, m) && Nondecreasing(f) && |best| == |l| == |f| && Cost(f, best, 0) == SumFrom(m.w, 0)
    requires (forall j :: 0 <= j < |l| ==> 1 <= l[j] <= top) && Total(l, top) <= Pow2(top)
    ensures Cost(f, best, 0) <= Cost(f, l, 0)
  {
    ItemsAre(f, l, 0, top);
    assert l[0..] == l && f[0..] == f;
    FirstRoot(f, m);
    assert m.w[0..0] + f[0..] == f;
    AtLeastTheMerges(f, m, 0, Items(f, l, 0), top);
  }
}
