/** Minimum-redundancy code lengths, computed in place: the merges of Huffman's algorithm with the parents
    of the nodes, the weights of the nodes and the frequencies of the leaves in one array. */
module MinRedundancy {
  import opened Bits
  import opened Canonical
  import opened RadixSort

  /** A merge of the two least items, of weights x <= y.  The internal nodes from root to root' and the leaves
      from leaf to leaf' are those that it uses up. */
  datatype Step = Step(x: nat, y: nat, root: nat, leaf: nat, root': nat, leaf': nat)

  /** The merges made so far: step k makes internal node k, of weight w[k].  p[i] is the parent of node i. */
  datatype Merges = Merges(w: seq<nat>, steps: seq<Step>, p: seq<nat>)

  /** The items used up weigh x and y. */
  predicate Takes(f: seq<nat>, w: seq<nat>, s: Step)
  {
    && s.root <= s.root' <= |w| && s.leaf <= s.leaf' <= |f| && s.root' + s.leaf' == s.root + s.leaf + 2
    && if s.root' == s.root then s.x == f[s.leaf] && s.y == f[s.leaf + 1]
       else if s.root' == s.root + 1 then
         (s.x == w[s.root] && s.y == f[s.leaf]) || (s.x == f[s.leaf] && s.y == w[s.root])
       else s.x == w[s.root] && s.y == w[s.root + 1]
  }

  ghost predicate StepOk(f: seq<nat>, w: seq<nat>, steps: seq<Step>, k: nat)
    requires k < |w| && k < |steps|
  {
    var s := steps[k];
    && Takes(f, w, s) && s.root' <= k && s.root + s.leaf == 2 * k
    && (k > 0 ==> s.root == steps[k - 1].root' && steps[k - 1].y <= s.x)
    && w[k] == s.x + s.y && 1 <= s.x <= s.y
    && s.y <= w[s.root'] && (s.leaf' < |f| ==> s.y <= f[s.leaf'])
  }

  /** Node i is one of the two items that its parent was made from. */
  ghost predicate Child(m: Merges, i: nat)
    requires i < |m.p| && |m.w| == |m.steps|
  {
    && i < m.p[i] < |m.w|
    && m.steps[m.p[i]].root <= i < m.steps[m.p[i]].root'
    && (m.w[i] == m.steps[m.p[i]].x || m.w[i] == m.steps[m.p[i]].y)
  }

  ghost predicate Built(f: seq<nat>, m: Merges)
  {
    && |m.w| == |m.steps| >= 1 && |m.w| < |f| && |m.p| == m.steps[|m.w| - 1].root'
    && (forall k :: 0 <= k < |m.w| ==> StepOk(f, m.w, m.steps, k))
    && (forall i :: 0 <= i < |m.p| ==> Child(m, i))
  }

  ghost predicate Nondecreasing(f: seq<nat>)
  {
    forall i, j :: 0 <= i < j < |f| ==> f[i] <= f[j]
  }

  /** The sum of s from index i on. */
  function SumFrom(s: seq<nat>, i: nat): nat
    decreases |s| - i
  {
    if i >= |s| then 0 else s[i] + SumFrom(s, i + 1)
  }

  /** The frequencies: sorted, and with a sum that fits in 16 bits. */
  ghost predicate Weights(f: seq<nat>)
  {
    |f| >= 2 && Nondecreasing(f) && f[0] >= 1 && SumFrom(f, 0) < 65536
  }

  // ---------- the first phase

  function More(m: Merges, s: Step): Merges
    requires |m.p| <= s.root'
  {
    Merges(m.w + [s.x + s.y], m.steps + [s], m.p + seq(s.root' - |m.p|, _ => |m.w|))
  }

  lemma StepKept(f: seq<nat>, m: Merges, m': Merges, k: nat)
    requires k < |m.w| == |m.steps| && |m'.w| == |m'.steps| && StepOk(f, m.w, m.steps, k)
    requires m.w <= m'.w && m.steps <= m'.steps
    ensures StepOk(f, m'.w, m'.steps, k)
  {
    assert k > 0 ==> m'.steps[k - 1] == m.steps[k - 1];
  }

  /** What a step has to find for the merges to go on as they should. */
  ghost predicate Least(f: seq<nat>, m: Merges, s: Step)
  {
    && Takes(f, m.w, s) && s.root == |m.p| && s.root + s.leaf == 2 * |m.w| && s.root' <= |m.w|
    && 1 <= s.x <= s.y && (m.steps != [] ==> m.steps[|m.steps| - 1].y <= s.x)
    && (s.root' < |m.w| ==> s.y <= m.w[s.root']) && (s.leaf' < |f| ==> s.y <= f[s.leaf'])
  }

  /** Where the merges have got to. */
  lemma LastStep(f: seq<nat>, m: Merges)
    requires Built(f, m)
    ensures |m.p| < |m.w| && |m.w| < 2 * |m.w| - |m.p| <= |f|
    ensures m.steps[|m.w| - 1].root' == |m.p| && 1 <= m.steps[|m.w| - 1].y <= m.w[|m.p|]
    ensures 2 * |m.w| - |m.p| < |f| ==> m.steps[|m.w| - 1].y <= f[2 * |m.w| - |m.p|]
  {
    hide Child;
    assert StepOk(f, m.w, m.steps, |m.w| - 1);
  }

  lemma WeightsGrow(f: seq<nat>, m: Merges, k: nat)
    requires Built(f, m) && k + 1 < |m.w|
    ensures m.w[k] <= m.w[k + 1]
  {
    hide Child;
    assert StepOk(f, m.w, m.steps, k) && StepOk(f, m.w, m.steps, k + 1);
  }

  lemma NewStep(f: seq<nat>, m: Merges, s: Step)
    requires Built(f, m) && Least(f, m, s)
    ensures var m' := More(m, s); StepOk(f, m'.w, m'.steps, |m.w|)
  {
    LastStep(f, m);
    hide Built;
    var n := |m.w|;
    var w', steps' := m.w + [s.x + s.y], m.steps + [s];
    assert Takes(f, w', s);
    assert steps'[n] == s && steps'[n - 1] == m.steps[n - 1];
    assert w'[s.root'] == if s.root' < n then m.w[s.root'] else s.x + s.y;
    hide Takes;
  }

  lemma MoreSteps(f: seq<nat>, m: Merges, s: Step)
    requires Built(f, m) && Least(f, m, s)
    ensures var m' := More(m, s);
            |m'.w| == |m'.steps| && forall k :: 0 <= k < |m'.w| ==> StepOk(f, m'.w, m'.steps, k)
  {
    var m' := More(m, s);
    NewStep(f, m, s);
    hide StepOk, Child, Least;
    forall k | 0 <= k < |m'.w|
      ensures StepOk(f, m'.w, m'.steps, k)
    {
      if k < |m.w| {
        StepKept(f, m, m', k);
      }
    }
  }

  /** A step that takes the two least items keeps everything in order. */
  lemma MoreBuilt(f: seq<nat>, m: Merges, s: Step)
    requires Built(f, m) && |m.w| + 1 < |f| && Least(f, m, s)
    ensures Built(f, More(m, s))
  {
    var m' := More(m, s);
    MoreSteps(f, m, s);
    hide StepOk;
    forall i | 0 <= i < |m'.p|
      ensures Child(m', i)
    {
      if i < |m.p| {
        assert Child(m, i);
      }
    }
  }

  // ---------- the sum of all weights

  lemma {:induction false} SumSnoc(s: seq<nat>, z: nat, i: nat)
    requires i <= |s|
    ensures SumFrom(s + [z], i) == SumFrom(s, i) + z
    decreases |s| - i
  {
    if i < |s| {
      SumSnoc(s, z, i + 1);
    }
  }

  /** The weight of all that is still to be merged. */
  function Left(f: seq<nat>, m: Merges): nat
    requires |m.p| <= 2 * |m.w|
  {
    SumFrom(m.w, |m.p|) + SumFrom(f, 2 * |m.w| - |m.p|)
  }

  /** A merge changes nothing about the sum. */
  lemma LeftKept(f: seq<nat>, m: Merges, s: Step)
    requires Built(f, m) && Least(f, m, s)
    ensures Left(f, More(m, s)) == Left(f, m) >= s.x + s.y
  {
    LastStep(f, m);
    hide Built;
    SumSnoc(m.w, s.x + s.y, s.root');
    if s.root' == s.root {
      assert SumFrom(f, s.leaf) == f[s.leaf] + SumFrom(f, s.leaf + 1);
    } else if s.root' == s.root + 2 {
      assert SumFrom(m.w, s.root) == m.w[s.root] + SumFrom(m.w, s.root + 1);
    }
  }

  // ---------- the first phase

  /** The array while the merges are made: parents, then weights of nodes, then leaves. */
  ghost predicate Layout(a: seq<SymFreq>, f: seq<nat>, m: Merges)
  {
    && |a| == |f| && |m.p| <= |m.w| <= |f| && |m.w| <= 2 * |m.w| - |m.p|
    && (forall i :: 0 <= i < |m.p| ==> a[i].key == m.p[i])
    && (forall i :: |m.p| <= i < |m.w| ==> a[i].key == m.w[i])
    && (forall i :: 2 * |m.w| - |m.p| <= i < |f| ==> a[i].key == f[i])
  }

  ghost predicate SameSyms(a: seq<SymFreq>, b: seq<SymFreq>)
  {
    |a| == |b| && forall i :: 0 <= i < |a| ==> a[i].sym == b[i].sym
  }

  lemma FirstStep(a: seq<SymFreq>, f: seq<nat>)
    requires |f| == |a| >= 2 && Nondecreasing(f) && f[0] >= 1 && a[0].key == f[0] + f[1]
    requires forall i :: 2 <= i < |f| ==> a[i].key == f[i]
    ensures var m := Merges([f[0] + f[1]], [Step(f[0], f[1], 0, 0, 0, 2)], []);
            Built(f, m) && Layout(a, f, m) && Left(f, m) == SumFrom(f, 0)
  {
    assert SumFrom(f, 0) == f[0] + SumFrom(f, 1);
    var w := [f[0] + f[1]];
    assert SumFrom(w, 0) == w[0] + SumFrom(w, 1);
  }

  /** The array after a step that found the weights x and y. */
  lemma StepLayout(a: seq<SymFreq>, b: seq<SymFreq>, f: seq<nat>, m: Merges, s: Step)
    requires Layout(a, f, m) && |b| == |a| && |m.w| + 1 < |f|
    requires s.root == |m.p| <= s.root' <= |m.w| && s.root + s.leaf == 2 * |m.w| && s.root' + s.leaf' == s.root + s.leaf + 2
    requires s.leaf <= s.leaf' <= |f| && b[|m.w|].key == s.x + s.y
    requires forall i :: s.root <= i < s.root' ==> b[i].key == |m.w|
    requires forall i :: 0 <= i < |a| && i != |m.w| && !(s.root <= i < s.root') ==> b[i].key == a[i].key
    ensures Layout(b, f, More(m, s))
  {
  }

  /** Takes the least item that there is, as the first of two. */
  method TakeFirst(a: array<SymFreq>, n: nat, next: nat, root: nat, leaf: nat, ghost f: seq<nat>, ghost m: Merges)
    returns (root': nat, leaf': nat)
    requires n <= a.Length && |f| == n && Built(f, m) && Layout(a[..n], f, m)
    requires next == |m.w| < n - 1 && root == |m.p| && root + leaf == 2 * next
    modifies a
    ensures a[..n] == old(a[..n])[next := a[next]][root := a[root]] && SameSyms(a[..n], old(a[..n])) && a[n..] == old(a[n..])
    ensures if root' == root + 1 then leaf' == leaf && a[root].key == next else root' == root && leaf' == leaf + 1 <= n
    ensures root' == root ==> a[root].key == old(a[root].key)
    ensures root' <= next && a[next].key == (if root' > root then m.w[root] else f[leaf])
    ensures root' == root && root < next ==> f[leaf] <= m.w[root]
    ensures root' > root && leaf < n ==> m.w[root] <= f[leaf]
  {
    LastStep(f, m);
    root', leaf' := root, leaf;
    if leaf >= n || a[root].key < a[leaf].key {
      a[next] := a[next].(key := a[root].key);
      a[root] := a[root].(key := next);
      root' := root + 1;
    } else {
      a[next] := a[next].(key := a[leaf].key);
      leaf' := leaf + 1;
    }
  }

  /** Takes the least item that is left, as the second of two, and writes the sum of both. */
  method TakeSecond(a: array<SymFreq>, n: nat, next: nat, root: nat, leaf: nat, ghost f: seq<nat>, ghost w: seq<nat>)
    returns (root': nat, leaf': nat)
    requires n <= a.Length && |f| == n && next == |w| < n - 1 && root <= next && leaf <= n && root + leaf == 2 * next + 1
    requires forall i :: root <= i < next ==> a[i].key == w[i]
    requires forall i :: leaf <= i < n ==> a[i].key == f[i]
    modifies a
    ensures a[..n] == old(a[..n])[next := a[next]][root := a[root]] && SameSyms(a[..n], old(a[..n])) && a[n..] == old(a[n..])
    ensures if root' == root + 1 then leaf' == leaf && a[root].key == next else root' == root && leaf' == leaf + 1 <= n
    ensures root' == root && root != next ==> a[root].key == old(a[root].key)
    ensures root' <= next && a[next].key == (old(a[next].key) + if root' > root then w[root] else f[leaf]) % 65536
    ensures root' == root && root < next ==> f[leaf] <= w[root]
    ensures root' > root && leaf < n ==> w[root] <= f[leaf]
  {
    root', leaf' := root, leaf;
    if leaf >= n || (root < next && a[root].key < a[leaf].key) {
      a[next] := a[next].(key := (a[next].key + a[root].key) % 65536);
      a[root] := a[root].(key := next);
      root' := root + 1;
    } else {
      a[next] := a[next].(key := (a[next].key + a[leaf].key) % 65536);
      leaf' := leaf + 1;
    }
  }

  /** Two picks, each of the least item left, are the two least items. */
  lemma TwoLeast(f: seq<nat>, m: Merges, r1: nat, l1: nat, r2: nat, l2: nat) returns (s: Step)
    requires Built(f, m) && Nondecreasing(f) && |m.w| + 1 < |f|
    requires var r, l := |m.p|, 2 * |m.w| - |m.p|;
             && (if r1 == r + 1 then l1 == l else r1 == r && l1 == l + 1 <= |f|)
             && r1 <= |m.w| && (r1 == r && r < |m.w| ==> f[l] <= m.w[r]) && (r1 > r && l < |f| ==> m.w[r] <= f[l])
    requires && (if r2 == r1 + 1 then l2 == l1 else r2 == r1 && l2 == l1 + 1 <= |f|)
             && r2 <= |m.w| && (r2 == r1 && r1 < |m.w| ==> f[l1] <= m.w[r1]) && (r2 > r1 && l1 < |f| ==> m.w[r1] <= f[l1])
    ensures var r, l := |m.p|, 2 * |m.w| - |m.p|;
            s == Step(if r1 > r then m.w[r] else f[l], if r2 > r1 then m.w[r1] else f[l1], r, l, r2, l2)
    ensures Least(f, m, s)
  {
    LastStep(f, m);
    var r, l, n := |m.p|, 2 * |m.w| - |m.p|, |m.w|;
    s := Step(if r1 > r then m.w[r] else f[l], if r2 > r1 then m.w[r1] else f[l1], r, l, r2, l2);
    if r + 1 < n {
      WeightsGrow(f, m, r);
    }
    if r1 + 1 < n {
      WeightsGrow(f, m, r1);
    }
    hide Built;
  }

  /** One merge. */
  method MergeTwo(a: array<SymFreq>, n: nat, next: nat, root: nat, leaf: nat, ghost f: seq<nat>, ghost m: Merges)
    returns (root': nat, leaf': nat, ghost m': Merges)
    requires n <= a.Length && |f| == n && Built(f, m) && Layout(a[..n], f, m) && Nondecreasing(f) && Left(f, m) < 65536
    requires next == |m.w| < n - 1 && root == |m.p| && root + leaf == 2 * next
    modifies a
    ensures Built(f, m') && Layout(a[..n], f, m') && Left(f, m') == Left(f, m) && |m'.w| == next + 1
    ensures root' == |m'.p| && root' + leaf' == 2 * next + 2
    ensures SameSyms(a[..n], old(a[..n])) && a[n..] == old(a[n..])
  {
    hide Built, Nondecreasing, Least, Left, Takes;
    LastStep(f, m);
    ghost var before := a[..n];
    var r1, l1 := TakeFirst(a, n, next, root, leaf, f, m);
    ghost var between := a[..n];
    root', leaf' := TakeSecond(a, n, next, r1, l1, f, m.w);
    ghost var s := TwoLeast(f, m, r1, l1, root', leaf');
    MoreBuilt(f, m, s);
    LeftKept(f, m, s);
    m' := More(m, s);
    StepLayout(before, a[..n], f, m, s);
  }

  method MakeMerges(a: array<SymFreq>, n: nat, ghost f: seq<nat>) returns (ghost m: Merges)
    requires 2 <= n <= a.Length && |f| == n && Weights(f) && forall i :: 0 <= i < n ==> a[i].key == f[i]
    modifies a
    ensures Built(f, m) && Layout(a[..n], f, m) && |m.w| == n - 1 && Left(f, m) == SumFrom(f, 0)
    ensures SameSyms(a[..n], old(a[..n])) && a[n..] == old(a[n..])
  {
    a[0] := a[0].(key := (a[0].key + a[1].key) % 65536);
    m := Merges([f[0] + f[1]], [Step(f[0], f[1], 0, 0, 0, 2)], []);
    FirstSum(f);
    FirstStep(a[..n], f);
    var root, leaf, next := 0, 2, 1;
    while next < n - 1
      invariant 1 <= next <= n - 1 && next == |m.w| && root == |m.p| && root + leaf == 2 * next
      invariant Built(f, m) && Layout(a[..n], f, m) && Left(f, m) == SumFrom(f, 0)
      invariant SameSyms(a[..n], old(a[..n])) && a[n..] == old(a[n..])
    {
      hide Built, Layout, Left, SumFrom;
      root, leaf, m := MergeTwo(a, n, next, root, leaf, f, m);
      next := next + 1;
    }
  }

  lemma FirstSum(f: seq<nat>)
    requires |f| >= 2
    ensures f[0] + f[1] <= SumFrom(f, 0)
  {
    assert SumFrom(f, 0) == f[0] + SumFrom(f, 1);
  }

  // ---------- the second phase

  /** Parents come after their children, in order, and none has more than two. */
  ghost predicate Links(p: seq<nat>)
  {
    && (forall i :: 0 <= i < |p| ==> i < p[i] <= |p|)
    && (forall i, j :: 0 <= i < j < |p| ==> p[i] <= p[j] && (i + 2 <= j ==> p[i] < p[j]))
  }

  lemma {:induction false} RootsGrow(f: seq<nat>, m: Merges, j: nat, k: nat)
    requires Built(f, m) && j < k < |m.w|
    ensures m.steps[j].root' <= m.steps[k].root
  {
    assert StepOk(f, m.w, m.steps, k);
    if j < k - 1 {
      RootsGrow(f, m, j, k - 1);
      assert StepOk(f, m.w, m.steps, k - 1);
    }
  }

  lemma ParentsGrow(f: seq<nat>, m: Merges, i: nat, j: nat)
    requires Built(f, m) && i < j < |m.p|
    ensures m.p[i] <= m.p[j] && (i + 2 <= j ==> m.p[i] < m.p[j])
  {
    assert Child(m, i) && Child(m, j);
    if m.p[j] < m.p[i] {
      RootsGrow(f, m, m.p[j], m.p[i]);
    } else if m.p[j] == m.p[i] {
      assert StepOk(f, m.w, m.steps, m.p[i]);
    }
  }

  /** When all has been merged, every node but the last has its parent. */
  lemma AllMerged(f: seq<nat>, m: Merges)
    requires Built(f, m) && |m.w| == |f| - 1
    ensures |m.p| == |f| - 2 && Links(m.p)
  {
    LastStep(f, m);
    forall i | 0 <= i < |m.p|
      ensures i < m.p[i] <= |m.p|
    {
      assert Child(m, i);
    }
    forall i, j | 0 <= i < j < |m.p|
      ensures m.p[i] <= m.p[j] && (i + 2 <= j ==> m.p[i] < m.p[j])
    {
      ParentsGrow(f, m, i, j);
    }
  }

  /** The depth of node i below the last node. */
  function Depth(p: seq<nat>, i: nat): nat
    decreases |p| - i
  {
    if i >= |p| || p[i] <= i then 0 else 1 + Depth(p, p[i])
  }

  /** Depths fall along the nodes, and by no more than one at a time. */
  lemma {:induction false} DepthFalls(p: seq<nat>, i: nat, j: nat)
    requires Links(p) && i <= j <= |p|
    ensures Depth(p, j) <= Depth(p, i)
    ensures j == i + 1 ==> Depth(p, i) <= Depth(p, j) + 1
    decreases |p| - i
  {
    if i < j {
      if j < |p| {
        DepthFalls(p, p[i], p[j]);
      }
      if j == i + 1 {
        DepthFalls(p, j, p[i]);
      }
    }
  }

  /** Turns parents into depths, from the last node down. */
  method FindDepths(a: array<SymFreq>, n: nat, ghost p: seq<nat>)
    requires 2 <= n <= a.Length && |p| == n - 2 && Links(p)
    requires forall i :: 0 <= i < n - 2 ==> a[i].key == p[i]
    modifies a
    ensures forall i :: 0 <= i <= n - 2 ==> a[i].key == Depth(p, i)
    ensures SameSyms(a[..n], old(a[..n])) && a[n..] == old(a[n..])
  {
    a[n - 2] := a[n - 2].(key := 0);
    var next: int := n - 3;
    while next >= 0
      invariant -1 <= next <= n - 3
      invariant forall i :: 0 <= i <= next ==> a[i].key == p[i]
      invariant forall i :: next < i <= n - 2 ==> a[i].key == Depth(p, i)
      invariant SameSyms(a[..n], old(a[..n])) && a[n..] == old(a[n..])
    {
      a[next] := a[next].(key := a[a[next].key].key + 1);
      next := next - 1;
    }
  }

  // ---------- how deep the tree may be

  /** The d-th number after a and b in the sequence where each number is the sum of the two before it. */
  function Fibonacci(a: nat, b: nat, d: nat): nat
    decreases d
  {
    if d == 0 then a else Fibonacci(b, a + b, d - 1)
  }

  lemma {:induction false} FibonacciGrows(a: nat, b: nat, a': nat, b': nat, d: nat, d': nat)
    requires a <= a' && b <= b' && a <= b && d <= d'
    ensures Fibonacci(a, b, d) <= Fibonacci(a', b', d')
    decreases d'
  {
    if d > 0 {
      FibonacciGrows(b, a + b, b', a' + b', d - 1, d' - 1);
    } else if d' > 0 {
      FibonacciGrows(a, b, b', a' + b', 0, d' - 1);
    }
  }

  /** A node outweighs its child, and its grandchild and that child together. */
  lemma Outweighs(f: seq<nat>, m: Merges, i: nat)
    requires Built(f, m) && i < |m.p|
    ensures i < m.p[i] < |m.w| && 2 <= m.w[i] < m.w[m.p[i]]
    ensures m.p[i] < |m.p| ==> m.p[m.p[i]] < |m.w| && m.w[m.p[m.p[i]]] >= m.w[i] + m.w[m.p[i]]
  {
    var k := m.p[i];
    assert Child(m, i) && StepOk(f, m.w, m.steps, i) && StepOk(f, m.w, m.steps, k);
    if k < |m.p| {
      assert Child(m, k) && StepOk(f, m.w, m.steps, m.p[k]);
      StepsGrow(f, m, k, m.p[k]);
    }
  }

  lemma {:induction false} StepsGrow(f: seq<nat>, m: Merges, j: nat, k: nat)
    requires Built(f, m) && j < k < |m.w|
    ensures m.steps[j].y <= m.steps[k].x
  {
    assert StepOk(f, m.w, m.steps, k);
    if j < k - 1 {
      StepsGrow(f, m, j, k - 1);
      assert StepOk(f, m.w, m.steps, k - 1);
    }
  }

  /** The weight of the last node grows with the depth of the tree as the Fibonacci numbers do. */
  lemma {:induction false} DeepIsHeavy(f: seq<nat>, m: Merges, i: nat)
    requires Built(f, m) && Links(m.p) && |m.p| == |m.w| - 1 && i < |m.p|
    ensures Depth(m.p, i) >= 1 && m.w[|m.p|] >= Fibonacci(m.w[i], m.w[m.p[i]], Depth(m.p, i))
    decreases |m.p| - i
  {
    var k := m.p[i];
    Outweighs(f, m, i);
    if k < |m.p| {
      DeepIsHeavy(f, m, k);
      FibonacciGrows(m.w[k], m.w[i] + m.w[k], m.w[k], m.w[m.p[k]], Depth(m.p, k), Depth(m.p, k));
    } else {
      assert Depth(m.p, k) == 0;
      assert Fibonacci(m.w[i], m.w[k], 1) == Fibonacci(m.w[k], m.w[i] + m.w[k], 0);
    }
  }

  lemma Fibonacci22()
    ensures Fibonacci(2, 3, 22) == 75025
  {
    assert Fibonacci(2, 3, 22) == Fibonacci(3, 5, 21) == Fibonacci(5, 8, 20) == Fibonacci(8, 13, 19) == Fibonacci(13, 21, 18);
    assert Fibonacci(13, 21, 18) == Fibonacci(21, 34, 17) == Fibonacci(34, 55, 16) == Fibonacci(55, 89, 15) == Fibonacci(89, 144, 14);
    assert Fibonacci(89, 144, 14) == Fibonacci(144, 233, 13) == Fibonacci(233, 377, 12) == Fibonacci(377, 610, 11) == Fibonacci(610, 987, 10);
    assert Fibonacci(610, 987, 10) == Fibonacci(987, 1597, 9) == Fibonacci(1597, 2584, 8) == Fibonacci(2584, 4181, 7) == Fibonacci(4181, 6765, 6);
    assert Fibonacci(4181, 6765, 6) == Fibonacci(6765, 10946, 5) == Fibonacci(10946, 17711, 4) == Fibonacci(17711, 28657, 3) == Fibonacci(28657, 46368, 2);
    assert Fibonacci(28657, 46368, 2) == Fibonacci(46368, 75025, 1) == Fibonacci(75025, 121393, 0);
  }

  /** With a sum of weights below 65536, no node is deeper than 21, and so no leaf deeper than 22. */
  lemma DepthBound(f: seq<nat>, m: Merges, i: nat)
    requires Built(f, m) && Links(m.p) && |m.p| == |m.w| - 1 && i < |m.w| && m.w[|m.p|] < 65536
    ensures Depth(m.p, i) <= 21
  {
    if i < |m.p| && Depth(m.p, i) > 21 {
      Outweighs(f, m, i);
      DeepIsHeavy(f, m, i);
      FibonacciGrows(2, 3, m.w[i], m.w[m.p[i]], 22, Depth(m.p, i));
      Fibonacci22();
    }
  }

  // ---------- the layers of the tree

  ghost predicate Finished(f: seq<nat>, m: Merges)
  {
    Built(f, m) && |m.w| == |f| - 1 && |m.p| == |f| - 2 && Links(m.p)
  }

  /** How many nodes are used up by the merges before t. */
  function RootAt(m: Merges, t: nat): nat
    requires t <= |m.w| == |m.steps|
  {
    if t < |m.w| then m.steps[t].root else |m.p|
  }

  lemma RootAtStep(f: seq<nat>, m: Merges, t: nat)
    requires Built(f, m) && t < |m.w|
    ensures RootAt(m, t) <= RootAt(m, t + 1) <= RootAt(m, t) + 2
    ensures t > 0 ==> RootAt(m, t) == m.steps[t - 1].root'
    ensures RootAt(m, t + 1) == m.steps[t].root'
  {
    assert StepOk(f, m.w, m.steps, t);
    assert t + 1 < |m.w| ==> StepOk(f, m.w, m.steps, t + 1);
  }

  lemma {:induction false} RootAtGrows(f: seq<nat>, m: Merges, s: nat, t: nat)
    requires Built(f, m) && s <= t <= |m.w|
    ensures RootAt(m, s) <= RootAt(m, t) <= RootAt(m, s) + 2 * (t - s)
    decreases t - s
  {
    if s < t {
      RootAtGrows(f, m, s, t - 1);
      RootAtStep(f, m, t - 1);
    }
  }

  /** A node is used up by a merge before t exactly if it is one of the first RootAt(t). */
  lemma UsedUp(f: seq<nat>, m: Merges, i: nat, t: nat)
    requires Built(f, m) && i < |m.p| && t <= |m.w|
    ensures m.p[i] < t <==> i < RootAt(m, t)
  {
    assert Child(m, i);
    RootAtStep(f, m, m.p[i]);
    if m.p[i] < t {
      RootAtGrows(f, m, m.p[i] + 1, t);
    } else {
      RootAtGrows(f, m, t, m.p[i]);
    }
  }

  /** The nodes after lo up to hi are those of depth d. */
  ghost predicate Layer(p: seq<nat>, lo: int, hi: int, d: nat)
  {
    && -1 <= lo <= hi <= |p|
    && (forall i :: lo < i <= hi ==> Depth(p, i) == d)
    && (lo >= 0 ==> Depth(p, lo) > d)
    && (hi < |p| ==> Depth(p, hi + 1) < d)
  }

  /** The children of the nodes of one layer are the nodes of the next. */
  lemma NextLayer(f: seq<nat>, m: Merges, lo: int, hi: int, d: nat)
    requires Finished(f, m) && Layer(m.p, lo, hi, d)
    ensures RootAt(m, hi + 1) == lo + 1
    ensures lo == hi ==> hi == -1
  {
    var p := m.p;
    hide Built;
    if hi < |p| {
      if hi >= 0 {
        DepthFalls(p, hi, hi + 1);
      }
      if lo >= 0 {
        DepthFalls(p, lo, lo + 1);
        UsedUp(f, m, lo, hi + 1);
        if p[lo] > hi {
          DepthFalls(p, hi + 1, p[lo]);
        }
      }
      if lo < hi {
        UsedUp(f, m, lo + 1, hi + 1);
        assert Depth(p, lo + 1) == d == 1 + Depth(p, p[lo + 1]);
        assert p[lo + 1] > hi;
      } else {
        FirstRoot(f, m);
      }
    } else {
      assert Depth(p, |p|) == 0;
      assert |p| > 0 ==> Depth(p, |p| - 1) > 0;
    }
  }

  lemma FirstRoot(f: seq<nat>, m: Merges)
    requires Built(f, m)
    ensures RootAt(m, 0) == 0
  {
    assert StepOk(f, m.w, m.steps, 0);
  }

  /** Before merge t, the items that there are weigh as much as all the leaves. */
  lemma {:induction false} Conserved(f: seq<nat>, m: Merges, t: nat)
    requires Built(f, m) && t <= |m.w|
    ensures RootAt(m, t) <= t && 2 * t - RootAt(m, t) <= |f|
    ensures SumFrom(m.w, RootAt(m, t)) - SumFrom(m.w, t) + SumFrom(f, 2 * t - RootAt(m, t)) == SumFrom(f, 0)
  {
    if t == 0 {
      FirstRoot(f, m);
    } else {
      Conserved(f, m, t - 1);
      RootAtStep(f, m, t - 1);
      ConservedStep(f, m, t - 1);
    }
  }

  lemma ConservedStep(f: seq<nat>, m: Merges, k: nat)
    requires Built(f, m) && k < |m.w|
    ensures var s := m.steps[k];
            s.leaf' <= |f| && s.root' <= k && s.root + s.leaf == 2 * k && s.root' + s.leaf' == 2 * k + 2 &&
            SumFrom(m.w, s.root) - SumFrom(m.w, s.root') + SumFrom(f, s.leaf) - SumFrom(f, s.leaf') == m.w[k]
  {
    assert StepOk(f, m.w, m.steps, k);
    hide Built;
    var s := m.steps[k];
    if s.root' == s.root {
      assert SumFrom(f, s.leaf) == f[s.leaf] + SumFrom(f, s.leaf + 1);
    } else if s.root' == s.root + 2 {
      assert SumFrom(m.w, s.root) == m.w[s.root] + SumFrom(m.w, s.root + 1);
    }
  }

  // ---------- the third phase

  function Lens(a: seq<SymFreq>): (l: seq<nat>)
    ensures |l| == |a|
  {
    seq(|a|, i requires 0 <= i < |a| => a[i].key)
  }

  /** The weighted total of the lengths l, from index lo on. */
  function Cost(f: seq<nat>, l: seq<nat>, lo: nat): nat
    requires |f| == |l|
    decreases |f| - lo
  {
    if lo >= |f| then 0 else f[lo] * l[lo] + Cost(f, l, lo + 1)
  }

  lemma {:induction false} TotalCons(x: nat, a: seq<nat>, l: nat)
    requires x >= 1
    ensures Total([x] + a, l) == Total(a, l) + if l < x then 0 else Pow2(l - x)
  {
    if l > 0 {
      TotalCons(x, a, l - 1);
      CountInConcat([x], a, |a|, l);
      assert CountIn([x], 1, l) == if x == l then 1 else 0;
    }
  }

  lemma {:induction false} CountNone(a: seq<nat>, hi: nat, l: nat)
    requires hi <= |a| && forall i :: 0 <= i < hi ==> a[i] < l
    ensures CountIn(a, hi, l) == 0
  {
    if hi > 0 {
      CountNone(a, hi - 1, l);
    }
  }

  /** A full code of lengths below d is full at every level from d - 1 on. */
  lemma {:induction false} StaysFull(a: seq<nat>, d: nat, l: nat)
    requires (forall i :: 0 <= i < |a| ==> a[i] < d) && Total(a, d) == Pow2(d) && l >= d
    ensures Total(a, l) == Pow2(l)
    decreases l
  {
    if l > d {
      StaysFull(a, d, l - 1);
      CountNone(a, |a|, l);
    }
  }

  /** Passes over the nodes of depth d. */
  method SkipNodes(a: array<SymFreq>, root: int, d: nat, ghost p: seq<nat>) returns (root': int, used: nat)
    requires -1 <= root <= |p| < a.Length && Links(p) && (root >= 0 ==> Depth(p, root) >= d)
    requires root < |p| ==> Depth(p, root + 1) < d
    requires forall i :: 0 <= i <= root ==> a[i].key == Depth(p, i)
    ensures Layer(p, root', root, d) && used == root - root'
  {
    root', used := root, 0;
    while root' >= 0 && a[root'].key == d
      invariant -1 <= root' <= root && used == root - root'
      invariant forall i :: root' < i <= root ==> Depth(p, i) == d
      invariant root' >= 0 ==> Depth(p, root') >= d
    {
      if root' > 0 {
        DepthFalls(p, root' - 1, root');
      }
      root', used := root' - 1, used + 1;
    }
  }

  lemma {:induction false} CostTail(f: seq<nat>, l: seq<nat>, l': seq<nat>, lo: nat)
    requires |f| == |l| == |l'| && forall j :: lo <= j < |f| ==> l[j] == l'[j]
    ensures Cost(f, l, lo) == Cost(f, l', lo)
    decreases |f| - lo
  {
    if lo < |f| {
      CostTail(f, l, l', lo + 1);
    }
  }

  /** The leaves from lo on have their lengths: less than d, none, and longer ones first. */
  ghost predicate Spread(l: seq<nat>, lo: nat, d: nat)
  {
    && lo <= |l|
    && (forall j :: lo <= j < |l| ==> 1 <= l[j] <= d)
    && (forall j, k :: lo <= j < k < |l| ==> l[j] >= l[k])
  }

  /** One more leaf of length d. */
  lemma OneLeaf(f: seq<nat>, l: seq<nat>, l': seq<nat>, lo: nat, d: nat)
    requires |f| == |l| && lo < |l| && d >= 1 && l' == l[lo := d] && Spread(l, lo + 1, d)
    ensures Spread(l', lo, d)
    ensures Total(l'[lo..], d) == Total(l[lo + 1..], d) + 1
    ensures Cost(f, l', lo) == Cost(f, l, lo + 1) + d * f[lo]
  {
    assert l'[lo..] == [d] + l[lo + 1..];
    TotalCons(d, l[lo + 1..], d);
    CostTail(f, l, l', lo + 1);
  }

  /** The leaves from lo on are those from hi on and some more, all of length d. */
  ghost predicate Added(f: seq<nat>, l: seq<nat>, lo: nat, l': seq<nat>, hi: nat, d: nat)
    requires |f| == |l| == |l'|
  {
    && lo <= hi <= |f| && Spread(l, lo, d)
    && Total(l[lo..], d) == Total(l'[hi..], d) + (hi - lo)
    && Cost(f, l, lo) == Cost(f, l', hi) + d * (SumFrom(f, lo) - SumFrom(f, hi))
    && l[..lo] == l'[..lo]
  }

  lemma AddOne(f: seq<nat>, l: seq<nat>, lo: nat, l': seq<nat>, hi: nat, d: nat)
    requires |f| == |l| == |l'| && 0 < lo && d >= 1 && Added(f, l, lo, l', hi, d)
    ensures Added(f, l[lo - 1 := d], lo - 1, l', hi, d)
  {
    hide Total, Spread;
    OneLeaf(f, l, l[lo - 1 := d], lo - 1, d);
    hide Cost;
    assert SumFrom(f, lo - 1) == f[lo - 1] + SumFrom(f, lo);
    var x, y := SumFrom(f, lo) - SumFrom(f, hi), f[lo - 1];
    assert d * x + d * y == d * (x + y);
  }

  /** Gives count leaves, from next down, the length d. */
  method FillLeaves(a: array<SymFreq>, n: nat, next: int, count: nat, d: nat, ghost f: seq<nat>) returns (next': int)
    requires |f| == n <= a.Length && count <= next + 1 <= n && (count > 0 ==> d >= 1) && Spread(Lens(a[..n]), next + 1, d)
    modifies a
    ensures next' == next - count && Added(f, Lens(a[..n]), next' + 1, old(Lens(a[..n])), next + 1, d)
    ensures SameSyms(a[..n], old(a[..n])) && a[n..] == old(a[n..])
  {
    next' := next;
    var c := count;
    ghost var l0 := Lens(a[..n]);
    while c > 0
      invariant 0 <= c <= count && -1 <= next' == next - (count - c)
      invariant Added(f, Lens(a[..n]), next' + 1, l0, next + 1, d)
      invariant SameSyms(a[..n], old(a[..n])) && a[n..] == old(a[n..])
    {
      hide Added, Spread, SumFrom;
      ghost var l := Lens(a[..n]);
      a[next'] := a[next'].(key := d);
      assert Lens(a[..n]) == l[next' := d];
      AddOne(f, l, next' + 1, l0, next + 1, d);
      next', c := next' - 1, c - 1;
    }
  }

  /** Where the third phase stands: the nodes up to root and the leaves up to next are at depth d or below,
      and avbl places at depth d are still free. */
  ghost predicate Descending(f: seq<nat>, m: Merges, l: seq<nat>, root: int, next: int, avbl: nat, d: nat)
    requires Finished(f, m)
  {
    && |l| == |f| && -1 <= root <= |m.p| && next == root + avbl < |l|
    && (forall i :: 0 <= i <= root ==> l[i] == Depth(m.p, i))
    && (root >= 0 ==> Depth(m.p, root) >= d) && (root < |m.p| ==> Depth(m.p, root + 1) < d)
    && (avbl == 0 ==> root == -1)
    && (forall j :: next < j < |l| ==> l[j] < d) && Spread(l, next + 1, d)
    && Total(l[next + 1..], d) + avbl == Pow2(d)
    && Cost(f, l, next + 1) + d * (SumFrom(f, 0) - SumFrom(f, next + 1)) == SumFrom(m.w, root + 1)
  }

  /** The nodes of the layer at depth d - 1 are those after root up to prev. */
  ghost predicate Parents(m: Merges, root: int, prev: int, avbl: nat, d: nat)
  {
    && -1 <= root <= prev < |m.w| == |m.steps|
    && (if d == 0 then root == |m.w| - 1 && avbl == 1 else avbl == 2 * (prev - root) && RootAt(m, prev + 1) == root + 1)
  }

  /** There are no more nodes at a depth than places. */
  lemma NodesFit(f: seq<nat>, m: Merges, root: int, root': int, prev: int, avbl: nat, d: nat)
    requires Finished(f, m) && Parents(m, root, prev, avbl, d) && Layer(m.p, root', root, d)
    ensures root - root' <= avbl && RootAt(m, root + 1) == root' + 1
    ensures root == root' ==> root == -1
  {
    NextLayer(f, m, root', root, d);
    hide Built;
    if d > 0 {
      RootAtGrows(f, m, root + 1, prev + 1);
    } else {
      assert |m.p| > 0 ==> Depth(m.p, |m.p| - 1) > 0;
    }
  }

  /** The nodes of a layer weigh as much as the leaves below them. */
  lemma LayerWeight(f: seq<nat>, m: Merges, root: int, root': int)
    requires Built(f, m) && -1 <= root' <= root < |m.w| && RootAt(m, root + 1) == root' + 1
    ensures 2 * root - root' + 1 <= |f|
    ensures SumFrom(m.w, root' + 1) - SumFrom(m.w, root + 1) == SumFrom(f, 0) - SumFrom(f, 2 * root - root' + 1)
  {
    Conserved(f, m, root + 1);
  }

  lemma Deeper(d: int, s: int, t: int, u: int)
    ensures d * (u - t) + d * (s - u) == d * (s - t)
    ensures (d + 1) * (s - u) == d * (s - u) + (s - u)
  {
  }

  /** One depth further down. */
  lemma Descend(f: seq<nat>, m: Merges, l: seq<nat>, l': seq<nat>, root: int, root': int, prev: int, next: int, next': int,
                avbl: nat, d: nat)
    requires Finished(f, m) && Descending(f, m, l, root, next, avbl, d) && Parents(m, root, prev, avbl, d)
    requires Layer(m.p, root', root, d) && root - root' <= avbl && next' == next - (avbl - (root - root'))
    requires |l'| == |f| && Added(f, l', next' + 1, l, next + 1, d)
    ensures Descending(f, m, l', root', next', 2 * (root - root'), d + 1)
    ensures Parents(m, root', root, 2 * (root - root'), d + 1)
  {
    NodesFit(f, m, root, root', prev, avbl, d);
    LayerWeight(f, m, root, root');
    hide Built, Links, Depth;
    CountNone(l'[next' + 1..], |l'| - next' - 1, d + 1);
    Deeper(d, SumFrom(f, 0), SumFrom(f, next + 1), SumFrom(f, next' + 1));
    forall i | 0 <= i <= root'
      ensures l'[i] == Depth(m.p, i)
    {
      assert l'[..next' + 1][i] == l[..next' + 1][i];
    }
  }

  lemma SameKeys(a: seq<SymFreq>)
    ensures forall i :: 0 <= i < |a| ==> Lens(a)[i] == a[i].key
  {
  }

  /** What the passes over a level need to know. */
  lemma AtDepth(f: seq<nat>, m: Merges, l: seq<nat>, root: int, next: int, avbl: nat, d: nat)
    requires Finished(f, m) && Descending(f, m, l, root, next, avbl, d)
    ensures -1 <= root <= |m.p| == |f| - 2 && Links(m.p) && next == root + avbl < |f| == |l|
    ensures (root >= 0 ==> Depth(m.p, root) >= d) && (root < |m.p| ==> Depth(m.p, root + 1) < d)
    ensures forall i :: 0 <= i <= root ==> l[i] == Depth(m.p, i)
    ensures Spread(l, next + 1, d)
  {
  }

  /** One level: its nodes are passed over, and its other places are given to leaves. */
  method NextDepth(a: array<SymFreq>, n: nat, root: int, next: int, avbl: nat, d: nat, ghost f: seq<nat>, ghost m: Merges,
                   ghost prev: int)
    returns (root': int, next': int, used: nat)
    requires n <= a.Length && |f| == n && Finished(f, m) && avbl > 0
    requires Descending(f, m, Lens(a[..n]), root, next, avbl, d) && Parents(m, root, prev, avbl, d)
    modifies a
    ensures -1 <= root' <= root < n && used == root - root'
    ensures used > 0 ==> Depth(m.p, root) == d
    ensures Descending(f, m, Lens(a[..n]), root', next', 2 * used, d + 1) && Parents(m, root', root, 2 * used, d + 1)
    ensures SameSyms(a[..n], old(a[..n])) && a[n..] == old(a[n..])
  {
    hide Built, Descending, Spread, Added, Links;
    ghost var l := Lens(a[..n]);
    AtDepth(f, m, l, root, next, avbl, d);
    SameKeys(a[..n]);
    root', used := SkipNodes(a, root, d, m.p);
    NodesFit(f, m, root, root', prev, avbl, d);
    assert d == 0 ==> used == avbl by {
      assert d == 0 ==> root == |m.p| && Depth(m.p, root) == 0;
      assert root' >= 0 && d == 0 ==> Depth(m.p, root') > 0;
    }
    next' := FillLeaves(a, n, next, avbl - used, d, f);
    Descend(f, m, l, Lens(a[..n]), root, root', prev, next, next', avbl, d);
  }

  /** Turns the depths of the nodes into the depths of the leaves, level by level. */
  method SpreadLeaves(a: array<SymFreq>, n: nat, ghost f: seq<nat>, ghost m: Merges) returns (ghost d: nat)
    requires 2 <= n <= a.Length && |f| == n && Finished(f, m) && m.w[|m.p|] < 65536
    requires forall i :: 0 <= i <= n - 2 ==> a[i].key == Depth(m.p, i)
    modifies a
    ensures Spread(Lens(a[..n]), 0, d) && d <= 23 && forall j :: 0 <= j < n ==> a[j].key < d
    ensures Total(Lens(a[..n]), d) == Pow2(d) && Cost(f, Lens(a[..n]), 0) == SumFrom(m.w, 0)
    ensures SameSyms(a[..n], old(a[..n])) && a[n..] == old(a[n..])
  {
    hide Built, Links, Descending, Spread, Parents, Depth, Total, Cost;
    var avbl: nat, dpth: nat, root: int, next: int := 1, 0, n - 2, n - 1;
    ghost var prev := root;
    SameKeys(a[..n]);
    StartDescent(f, m, Lens(a[..n]));
    while avbl > 0
      invariant Descending(f, m, Lens(a[..n]), root, next, avbl, dpth) && Parents(m, root, prev, avbl, dpth)
      invariant dpth <= if avbl > 0 then 22 else 23
      invariant SameSyms(a[..n], old(a[..n])) && a[n..] == old(a[n..])
      decreases root + 1, avbl
    {
      AtDepth(f, m, Lens(a[..n]), root, next, avbl, dpth);
      ghost var root0 := root;
      var used;
      root, next, used := NextDepth(a, n, root, next, avbl, dpth, f, m, prev);
      if used > 0 {
        DepthBound(f, m, root0);
      }
      prev := root0;
      avbl := 2 * used;
      dpth := dpth + 1;
    }
    d := dpth;
    EndDescent(f, m, Lens(a[..n]), root, next, d);
    SameKeys(a[..n]);
  }

  lemma EndDescent(f: seq<nat>, m: Merges, l: seq<nat>, root: int, next: int, d: nat)
    requires Finished(f, m) && Descending(f, m, l, root, next, 0, d)
    ensures Spread(l, 0, d) && (forall j :: 0 <= j < |l| ==> l[j] < d)
    ensures Total(l, d) == Pow2(d) && Cost(f, l, 0) == SumFrom(m.w, 0)
  {
    hide Built, Links;
    assert l[0..] == l;
  }

  lemma StartDescent(f: seq<nat>, m: Merges, l: seq<nat>)
    requires Finished(f, m) && |l| == |f| && forall i :: 0 <= i <= |m.p| ==> l[i] == Depth(m.p, i)
    ensures Descending(f, m, l, |f| - 2, |f| - 1, 1, 0) && Parents(m, |f| - 2, |f| - 2, 1, 0)
  {
    BuiltSizes(f, m);
    hide Built, Links;
    assert l[|f|..] == [];
  }

  lemma BuiltSizes(f: seq<nat>, m: Merges)
    requires Built(f, m)
    ensures |m.w| == |m.steps|
  {
  }

  // ---------- the code lengths as a whole

  /** Code lengths that leave no code space unused, longer codes for the less frequent. */
  ghost predicate FullCode(l: seq<nat>)
  {
    && (forall j :: 0 <= j < |l| ==> 1 <= l[j] <= 22)
    && (forall j, k :: 0 <= j < k < |l| ==> l[j] >= l[k])
    && Total(l, 22) == Pow2(22)
  }

  lemma TopWeight(f: seq<nat>, m: Merges)
    requires Built(f, m) && |m.w| == |f| - 1 && |m.p| == |f| - 2 && Left(f, m) == SumFrom(f, 0) < 65536
    ensures m.w[|m.p|] < 65536
  {
  }

  lemma FullTo22(l: seq<nat>, d: nat)
    requires Spread(l, 0, d) && d <= 23 && (forall j :: 0 <= j < |l| ==> l[j] < d) && Total(l, d) == Pow2(d)
    ensures FullCode(l)
  {
    if d == 23 {
      CountNone(l, |l|, 23);
      assert Pow2(23) == 2 * Pow2(22);
    } else {
      StaysFull(l, d, 22);
    }
  }
}
