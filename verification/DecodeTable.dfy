/** What the decoder's look-up table and overflow tree have to hold for a code, and why a walk
    through them finds the symbol whose code comes next.

    A code of at most FAST_BITS bits fills every look-up entry whose low bits spell it.  A longer
    code goes through tree nodes: node j owns the tree slots 2j and 2j+1, one for each next bit,
    and is referred to by the negative number Ref(j). */
module DecodeTable {
  import opened Bits
  import opened Canonical

  const FAST_BITS := 10
  const FAST_SIZE := 1024
  const TREE_SIZE := 576
  const MAX_SYMBOLS := 288

  function Ref(j: nat): int { -1 - 2 * j }

  function BitVal(b: bool): nat { if b then 1 else 0 }

  ghost predicate Leaf(sizes: seq<nat>, m: nat, k: nat)
  {
    k < m && Used(sizes, k)
  }

  /** The slot reached by the bits p, once the codes of symbols below m are in the table
      and the nodes stand for the bit strings in paths. */
  ghost predicate SlotOk(sizes: seq<nat>, paths: seq<seq<bool>>, m: nat, p: seq<bool>, v: int)
  {
    && (forall j :: 0 <= j < |paths| && paths[j] == p ==> v == Ref(j))
    && (forall k: nat :: Leaf(sizes, m, k) && Code(sizes, k) == p ==> v == k)
    && (p !in paths && (forall k: nat :: Leaf(sizes, m, k) ==> Code(sizes, k) != p) ==> v == 0)
  }

  ghost predicate Short(sizes: seq<nat>, m: nat, k: nat)
  {
    Leaf(sizes, m, k) && sizes[k] <= FAST_BITS
  }

  ghost predicate LookOk(sizes: seq<nat>, paths: seq<seq<bool>>, m: nat, p: seq<bool>, v: int)
  {
    && (forall j :: 0 <= j < |paths| && paths[j] == p ==> v == Ref(j))
    && (forall k: nat :: Short(sizes, m, k) && Code(sizes, k) <= p ==> v == sizes[k] * 512 + k)
    && (p !in paths && (forall k: nat :: Short(sizes, m, k) ==> !(Code(sizes, k) <= p)) ==> v == 0)
  }

  /** p is where some code branches off beyond the look-up bits. */
  ghost predicate Inner(sizes: seq<nat>, p: seq<bool>)
  {
    FAST_BITS <= |p| && exists k: nat :: Used(sizes, k) && p < Code(sizes, k)
  }

  ghost predicate Distinct<T>(s: seq<T>)
  {
    forall i, j :: 0 <= i < j < |s| ==> s[i] != s[j]
  }

  ghost predicate PathsOk(sizes: seq<nat>, paths: seq<seq<bool>>)
  {
    && Distinct(paths)
    && (forall j :: 0 <= j < |paths| ==> Inner(sizes, paths[j]))
    && (forall j :: 0 <= j < |paths| && |paths[j]| > FAST_BITS ==> paths[j][..|paths[j]| - 1] in paths)
  }

  /** The nodes that the long code of k goes through, down to depth hi, are there. */
  ghost predicate Threaded(sizes: seq<nat>, paths: seq<seq<bool>>, k: nat, hi: nat)
    requires k < |sizes| && hi <= sizes[k]
  {
    forall d :: FAST_BITS <= d < hi ==> Code(sizes, k)[..d] in paths
  }

  ghost predicate LookTableOk(sizes: seq<nat>, paths: seq<seq<bool>>, m: nat, look: seq<int>)
  {
    |look| == FAST_SIZE && forall x :: 0 <= x < FAST_SIZE ==> LookOk(sizes, paths, m, ToBits(x, FAST_BITS), look[x])
  }

  /** The bits that lead to tree slot s. */
  function SlotPath(paths: seq<seq<bool>>, s: nat): seq<bool>
    requires s < 2 * |paths|
  {
    paths[s / 2] + [s % 2 == 1]
  }

  ghost predicate TreeOk(sizes: seq<nat>, paths: seq<seq<bool>>, m: nat, tree: seq<int>)
  {
    && |tree| == TREE_SIZE
    && 2 * |paths| <= TREE_SIZE
    && (forall s :: 0 <= s < 2 * |paths| ==> SlotOk(sizes, paths, m, SlotPath(paths, s), tree[s]))
    && (forall i :: 2 * |paths| <= i < TREE_SIZE ==> tree[i] == 0)
  }

  ghost predicate TableInv(sizes: seq<nat>, paths: seq<seq<bool>>, m: nat, look: seq<int>, tree: seq<int>)
  {
    && Fits(sizes) && m <= |sizes| <= MAX_SYMBOLS
    && PathsOk(sizes, paths)
    && LookTableOk(sizes, paths, m, look)
    && TreeOk(sizes, paths, m, tree)
    && (forall k: nat :: Leaf(sizes, m, k) ==> Threaded(sizes, paths, k, sizes[k]))
  }

  /** The finished table of a code. */
  ghost predicate TableFor(sizes: seq<nat>, look: seq<int>, tree: seq<int>)
  {
    exists paths :: TableInv(sizes, paths, |sizes|, look, tree)
  }

  // ---------- building

  lemma NoCodeAbove(sizes: seq<nat>, p: seq<bool>, k: nat)
    requires Fits(sizes) && Inner(sizes, p) && Used(sizes, k)
    ensures !(Code(sizes, k) <= p)
  {
    var c: nat :| Used(sizes, c) && p < Code(sizes, c);
    if Code(sizes, k) <= p {
      PrefixFree(sizes, k, c);
    }
  }

  /** A new node keeps every slot of the old nodes, except the one that now leads to it. */
  lemma SlotKept(sizes: seq<nat>, paths: seq<seq<bool>>, m: nat, p: seq<bool>, q: seq<bool>, v: int)
    requires SlotOk(sizes, paths, m, p, v) && p != q
    ensures SlotOk(sizes, paths + [q], m, p, v)
  {
  }

  lemma LookKept(sizes: seq<nat>, paths: seq<seq<bool>>, m: nat, p: seq<bool>, q: seq<bool>, v: int)
    requires LookOk(sizes, paths, m, p, v) && p != q
    ensures LookOk(sizes, paths + [q], m, p, v)
  {
  }

  /** The two slots of a new node start out empty, and nothing is to be found there yet. */
  lemma FreshSlots(sizes: seq<nat>, paths: seq<seq<bool>>, m: nat, p: seq<bool>, b: bool)
    requires Fits(sizes) && PathsOk(sizes, paths) && FAST_BITS <= |p| && p !in paths
    requires forall k: nat :: Leaf(sizes, m, k) ==> Threaded(sizes, paths, k, sizes[k])
    ensures SlotOk(sizes, paths + [p], m, p + [b], 0)
  {
    var q := p + [b];
    assert q[..|q| - 1] == p;
    assert q !in paths;
    forall k: nat | Leaf(sizes, m, k)
      ensures Code(sizes, k) != q
    {
      assert |p| < sizes[k] ==> Code(sizes, k)[..|p|] in paths;
    }
    assert q !in paths + [p];
  }

  lemma PathsGrow(sizes: seq<nat>, paths: seq<seq<bool>>, p: seq<bool>)
    requires PathsOk(sizes, paths) && Inner(sizes, p) && p !in paths
    requires |p| > FAST_BITS ==> p[..|p| - 1] in paths
    ensures PathsOk(sizes, paths + [p])
  {
    hide Inner;
    var ps := paths + [p];
    forall j | 0 <= j < |ps| && |ps[j]| > FAST_BITS
      ensures ps[j][..|ps[j]| - 1] in ps
    {
      if j < |paths| {
        var q := paths[j][..|paths[j]| - 1];
        assert q in paths;
      }
    }
  }

  lemma ThreadedGrow(sizes: seq<nat>, paths: seq<seq<bool>>, p: seq<bool>, k: nat, hi: nat)
    requires k < |sizes| && hi <= sizes[k] && Threaded(sizes, paths, k, hi)
    ensures Threaded(sizes, paths + [p], k, hi)
  {
  }

  lemma AllThreadedGrow(sizes: seq<nat>, paths: seq<seq<bool>>, m: nat, p: seq<bool>)
    requires forall k: nat :: Leaf(sizes, m, k) ==> Threaded(sizes, paths, k, sizes[k])
    ensures forall k: nat :: Leaf(sizes, m, k) ==> Threaded(sizes, paths + [p], k, sizes[k])
  {
    forall k: nat | Leaf(sizes, m, k)
      ensures Threaded(sizes, paths + [p], k, sizes[k])
    {
      ThreadedGrow(sizes, paths, p, k, sizes[k]);
    }
  }

  lemma RefOk(sizes: seq<nat>, paths: seq<seq<bool>>, m: nat, p: seq<bool>)
    requires Fits(sizes) && Inner(sizes, p) && p !in paths
    ensures SlotOk(sizes, paths + [p], m, p, Ref(|paths|))
    ensures LookOk(sizes, paths + [p], m, p, Ref(|paths|))
  {
    forall k: nat | Leaf(sizes, m, k)
      ensures !(Code(sizes, k) <= p)
    {
      NoCodeAbove(sizes, p, k);
    }
    assert forall j :: 0 <= j < |paths| ==> (paths + [p])[j] == paths[j];
  }

  lemma AddLookNode(sizes: seq<nat>, paths: seq<seq<bool>>, m: nat, look: seq<int>, tree: seq<int>, x: nat)
    requires TableInv(sizes, paths, m, look, tree) && x < FAST_SIZE && 2 * |paths| + 2 <= TREE_SIZE
    requires Inner(sizes, ToBits(x, FAST_BITS)) && ToBits(x, FAST_BITS) !in paths
    ensures TableInv(sizes, paths + [ToBits(x, FAST_BITS)], m, look[x := Ref(|paths|)], tree)
  {
    var p := ToBits(x, FAST_BITS);
    PathsGrow(sizes, paths, p);
    AllThreadedGrow(sizes, paths, m, p);
    AddLookNodeLook(sizes, paths, m, look, x);
    AddNodeTree(sizes, paths, m, tree, p);
  }

  lemma AddLookNodeLook(sizes: seq<nat>, paths: seq<seq<bool>>, m: nat, look: seq<int>, x: nat)
    requires Fits(sizes) && LookTableOk(sizes, paths, m, look) && x < FAST_SIZE
    requires Inner(sizes, ToBits(x, FAST_BITS)) && ToBits(x, FAST_BITS) !in paths
    ensures LookTableOk(sizes, paths + [ToBits(x, FAST_BITS)], m, look[x := Ref(|paths|)])
  {
    var p := ToBits(x, FAST_BITS);
    var look' := look[x := Ref(|paths|)];
    forall y | 0 <= y < FAST_SIZE
      ensures LookOk(sizes, paths + [p], m, ToBits(y, FAST_BITS), look'[y])
    {
      if y == x {
        RefOk(sizes, paths, m, p);
      } else {
        assert Pow2(FAST_BITS) == FAST_SIZE;
        if ToBits(y, FAST_BITS) == p {
          ToBitsInjective(x, y, FAST_BITS);
        }
        LookKept(sizes, paths, m, ToBits(y, FAST_BITS), p, look[y]);
      }
    }
  }

  /** A node whose reference is stored outside the tree. */
  lemma AddNodeTree(sizes: seq<nat>, paths: seq<seq<bool>>, m: nat, tree: seq<int>, p: seq<bool>)
    requires Fits(sizes) && PathsOk(sizes, paths) && TreeOk(sizes, paths, m, tree) && 2 * |paths| + 2 <= TREE_SIZE
    requires |p| == FAST_BITS && p !in paths
    requires forall k: nat :: Leaf(sizes, m, k) ==> Threaded(sizes, paths, k, sizes[k])
    ensures TreeOk(sizes, paths + [p], m, tree)
  {
    var ps := paths + [p];
    forall s | 0 <= s < 2 * |ps|
      ensures SlotOk(sizes, ps, m, SlotPath(ps, s), tree[s])
    {
      if s < 2 * |paths| {
        assert SlotPath(ps, s) == SlotPath(paths, s);
        assert |paths[s / 2]| >= FAST_BITS;
        SlotKept(sizes, paths, m, SlotPath(paths, s), p, tree[s]);
      } else {
        FreshSlots(sizes, paths, m, p, s % 2 == 1);
      }
    }
  }

  lemma SlotDiffers(paths: seq<seq<bool>>, s: nat, t: nat)
    requires Distinct(paths) && s < 2 * |paths| && t < 2 * |paths| && s != t
    ensures SlotPath(paths, s) != SlotPath(paths, t)
  {
    var p, q := SlotPath(paths, s), SlotPath(paths, t);
    assert p[..|p| - 1] == paths[s / 2] && q[..|q| - 1] == paths[t / 2];
    assert p[|p| - 1] == (s % 2 == 1) && q[|q| - 1] == (t % 2 == 1);
    assert s / 2 != t / 2 || s % 2 != t % 2;
  }

  lemma AddTreeNode(sizes: seq<nat>, paths: seq<seq<bool>>, m: nat, look: seq<int>, tree: seq<int>, t: nat)
    requires TableInv(sizes, paths, m, look, tree) && t < 2 * |paths| && 2 * |paths| + 2 <= TREE_SIZE
    requires Inner(sizes, SlotPath(paths, t)) && tree[t] == 0
    ensures TableInv(sizes, paths + [SlotPath(paths, t)], m, look, tree[t := Ref(|paths|)])
  {
    var p := SlotPath(paths, t);
    assert SlotOk(sizes, paths, m, p, tree[t]);
    assert p !in paths;
    assert p[..|p| - 1] == paths[t / 2];
    PathsGrow(sizes, paths, p);
    AllThreadedGrow(sizes, paths, m, p);
    forall y | 0 <= y < FAST_SIZE
      ensures LookOk(sizes, paths + [p], m, ToBits(y, FAST_BITS), look[y])
    {
      LookKept(sizes, paths, m, ToBits(y, FAST_BITS), p, look[y]);
    }
    AddTreeNodeTree(sizes, paths, m, tree, t);
  }

  lemma AddTreeNodeTree(sizes: seq<nat>, paths: seq<seq<bool>>, m: nat, tree: seq<int>, t: nat)
    requires Fits(sizes) && PathsOk(sizes, paths) && TreeOk(sizes, paths, m, tree)
    requires t < 2 * |paths| && 2 * |paths| + 2 <= TREE_SIZE
    requires forall k: nat :: Leaf(sizes, m, k) ==> Threaded(sizes, paths, k, sizes[k])
    requires Inner(sizes, SlotPath(paths, t)) && SlotPath(paths, t) !in paths
    ensures TreeOk(sizes, paths + [SlotPath(paths, t)], m, tree[t := Ref(|paths|)])
  {
    var p := SlotPath(paths, t);
    var ps := paths + [p];
    var tree' := tree[t := Ref(|paths|)];
    forall s | 0 <= s < 2 * |ps|
      ensures SlotOk(sizes, ps, m, SlotPath(ps, s), tree'[s])
    {
      if s == t {
        RefOk(sizes, paths, m, p);
        assert SlotPath(ps, s) == p;
      } else if s < 2 * |paths| {
        SlotDiffers(paths, s, t);
        assert SlotPath(ps, s) == SlotPath(paths, s);
        SlotKept(sizes, paths, m, SlotPath(paths, s), p, tree[s]);
      } else {
        FreshSlots(sizes, paths, m, p, s % 2 == 1);
      }
    }
  }

  /** Adding symbol m leaves alone every slot that is not its code. */
  lemma SlotNext(sizes: seq<nat>, paths: seq<seq<bool>>, m: nat, p: seq<bool>, v: int)
    requires SlotOk(sizes, paths, m, p, v)
    requires Used(sizes, m) ==> Code(sizes, m) != p
    ensures SlotOk(sizes, paths, m + 1, p, v)
  {
    assert forall k: nat :: Leaf(sizes, m, k) ==> Leaf(sizes, m + 1, k);
  }

  lemma LookNext(sizes: seq<nat>, paths: seq<seq<bool>>, m: nat, p: seq<bool>, v: int)
    requires LookOk(sizes, paths, m, p, v)
    requires Short(sizes, m + 1, m) ==> !(Code(sizes, m) <= p)
    ensures LookOk(sizes, paths, m + 1, p, v)
  {
    assert forall k: nat :: Short(sizes, m, k) ==> Short(sizes, m + 1, k);
  }

  lemma TreeNext(sizes: seq<nat>, paths: seq<seq<bool>>, m: nat, tree: seq<int>)
    requires PathsOk(sizes, paths) && TreeOk(sizes, paths, m, tree)
    requires m < |sizes| && sizes[m] <= FAST_BITS
    ensures TreeOk(sizes, paths, m + 1, tree)
  {
    forall s | 0 <= s < 2 * |paths|
      ensures SlotOk(sizes, paths, m + 1, SlotPath(paths, s), tree[s])
    {
      assert |paths[s / 2]| >= FAST_BITS;
      SlotNext(sizes, paths, m, SlotPath(paths, s), tree[s]);
    }
  }

  lemma SkipUnused(sizes: seq<nat>, paths: seq<seq<bool>>, m: nat, look: seq<int>, tree: seq<int>)
    requires TableInv(sizes, paths, m, look, tree) && m < |sizes| && sizes[m] == 0
    ensures TableInv(sizes, paths, m + 1, look, tree)
  {
    TreeNext(sizes, paths, m, tree);
    forall y | 0 <= y < FAST_SIZE
      ensures LookOk(sizes, paths, m + 1, ToBits(y, FAST_BITS), look[y])
    {
      LookNext(sizes, paths, m, ToBits(y, FAST_BITS), look[y]);
    }
    assert forall k: nat :: Leaf(sizes, m + 1, k) ==> Leaf(sizes, m, k);
  }

  /** Two codes that both start p are the same code. */
  lemma OneStarts(sizes: seq<nat>, p: seq<bool>, j: nat, k: nat)
    requires Fits(sizes) && Used(sizes, j) && Used(sizes, k)
    requires Code(sizes, j) <= p && Code(sizes, k) <= p
    ensures j == k
  {
    var a, b := Code(sizes, j), Code(sizes, k);
    assert a == p[..|a|] && b == p[..|b|];
    if |a| <= |b| {
      assert a == b[..|a|];
      PrefixFree(sizes, j, k);
    } else {
      assert b == a[..|b|];
      PrefixFree(sizes, k, j);
    }
  }

  lemma AddShort(sizes: seq<nat>, paths: seq<seq<bool>>, m: nat, look: seq<int>, tree: seq<int>, look': seq<int>)
    requires TableInv(sizes, paths, m, look, tree) && Used(sizes, m) && sizes[m] <= FAST_BITS
    requires |look'| == FAST_SIZE
    requires forall x :: 0 <= x < FAST_SIZE ==>
                look'[x] == if Code(sizes, m) <= ToBits(x, FAST_BITS) then sizes[m] * 512 + m else look[x]
    ensures TableInv(sizes, paths, m + 1, look', tree)
  {
    TreeNext(sizes, paths, m, tree);
    forall y | 0 <= y < FAST_SIZE
      ensures LookOk(sizes, paths, m + 1, ToBits(y, FAST_BITS), look'[y])
    {
      var p := ToBits(y, FAST_BITS);
      if Code(sizes, m) <= p {
        AddShortEntry(sizes, paths, m, p);
      } else {
        LookNext(sizes, paths, m, p, look[y]);
      }
    }
    AllThreadedNext(sizes, paths, m);
  }

  lemma AddShortEntry(sizes: seq<nat>, paths: seq<seq<bool>>, m: nat, p: seq<bool>)
    requires Fits(sizes) && PathsOk(sizes, paths) && Used(sizes, m) && sizes[m] <= FAST_BITS
    requires Code(sizes, m) <= p
    ensures LookOk(sizes, paths, m + 1, p, sizes[m] * 512 + m)
  {
    forall j | 0 <= j < |paths|
      ensures paths[j] != p
    {
      NoCodeAbove(sizes, paths[j], m);
    }
    forall k: nat | Short(sizes, m + 1, k) && Code(sizes, k) <= p
      ensures k == m
    {
      OneStarts(sizes, p, k, m);
    }
    assert Short(sizes, m + 1, m);
  }

  lemma AllThreadedNext(sizes: seq<nat>, paths: seq<seq<bool>>, m: nat)
    requires forall k: nat :: Leaf(sizes, m, k) ==> Threaded(sizes, paths, k, sizes[k])
    requires m < |sizes| && Threaded(sizes, paths, m, sizes[m])
    ensures forall k: nat :: Leaf(sizes, m + 1, k) ==> Threaded(sizes, paths, k, sizes[k])
  {
    assert forall k: nat :: Leaf(sizes, m + 1, k) ==> Leaf(sizes, m, k) || k == m;
  }

  lemma AddLong(sizes: seq<nat>, paths: seq<seq<bool>>, m: nat, look: seq<int>, tree: seq<int>, t: nat)
    requires TableInv(sizes, paths, m, look, tree) && Used(sizes, m) && sizes[m] > FAST_BITS
    requires t < 2 * |paths| && SlotPath(paths, t) == Code(sizes, m)
    requires Threaded(sizes, paths, m, sizes[m])
    ensures TableInv(sizes, paths, m + 1, look, tree[t := m])
  {
    forall y | 0 <= y < FAST_SIZE
      ensures LookOk(sizes, paths, m + 1, ToBits(y, FAST_BITS), look[y])
    {
      LookNext(sizes, paths, m, ToBits(y, FAST_BITS), look[y]);
    }
    AllThreadedNext(sizes, paths, m);
    forall s | 0 <= s < 2 * |paths|
      ensures SlotOk(sizes, paths, m + 1, SlotPath(paths, s), tree[t := m][s])
    {
      if s == t {
        AddLongSlot(sizes, paths, m);
      } else {
        SlotDiffers(paths, s, t);
        SlotNext(sizes, paths, m, SlotPath(paths, s), tree[s]);
      }
    }
  }

  lemma AddLongSlot(sizes: seq<nat>, paths: seq<seq<bool>>, m: nat)
    requires Fits(sizes) && PathsOk(sizes, paths) && Used(sizes, m)
    ensures SlotOk(sizes, paths, m + 1, Code(sizes, m), m)
  {
    var p := Code(sizes, m);
    forall j | 0 <= j < |paths|
      ensures paths[j] != p
    {
      NoCodeAbove(sizes, paths[j], m);
    }
    forall k: nat | Leaf(sizes, m + 1, k) && Code(sizes, k) == p
      ensures k == m
    {
      PrefixFree(sizes, k, m);
    }
    assert Leaf(sizes, m + 1, m);
  }

  // ---------- the tree never overflows

  lemma {:induction false} Pigeonhole(s: seq<nat>, n: nat)
    requires Distinct(s) && forall i :: 0 <= i < |s| ==> s[i] < n
    ensures |s| <= n
  {
    if s == [] {
    } else if exists i :: 0 <= i < |s| && s[i] == n - 1 {
      var i :| 0 <= i < |s| && s[i] == n - 1;
      Pigeonhole(s[..i] + s[i + 1..], n - 1);
    } else {
      assert s[0] < n;
      Pigeonhole(s, n - 1);
    }
  }

  /** The bits p, then a one, then zeros, to the length of the longest code. */
  function Rightward(p: seq<bool>): (r: seq<bool>)
    requires |p| < MAX_CODE_SIZE
    ensures |r| == MAX_CODE_SIZE && p <= r && r[|p|]
    ensures forall i :: |p| < i < |r| ==> !r[i]
  {
    p + [true] + seq(MAX_CODE_SIZE - 1 - |p|, i => false)
  }

  /** In a complete code, the node p leads to a leaf of its own: right, then left all the way down. */
  lemma OwnLeaf(sizes: seq<nat>, p: seq<bool>) returns (k: nat)
    requires Complete(sizes) && Inner(sizes, p)
    ensures |p| < MAX_CODE_SIZE && Used(sizes, k) && Code(sizes, k) <= Rightward(p) && |p| < sizes[k]
  {
    k := Exhaustive(sizes, Rightward(p));
    var c := Code(sizes, k);
    assert c == Rightward(p)[..|c|];
    assert |c| <= |p| ==> c == p[..|c|];
    NoCodeAbove(sizes, p, k);
  }

  lemma OwnLeafDiffers(p: seq<bool>, q: seq<bool>, c: seq<bool>)
    requires |p| < MAX_CODE_SIZE && |q| < MAX_CODE_SIZE && |p| < |c| && |q| < |c|
    requires c <= Rightward(p) && c <= Rightward(q)
    ensures p == q
  {
    assert c[|p|] == Rightward(p)[|p|] && c[|q|] == Rightward(q)[|q|];
    assert c[|p|] == Rightward(q)[|p|] && c[|q|] == Rightward(p)[|q|];
    assert p == Rightward(p)[..|p|] == c[..|p|];
    assert q == Rightward(q)[..|q|] == c[..|q|];
  }

  lemma {:induction false} OwnLeaves(sizes: seq<nat>, paths: seq<seq<bool>>, n: nat) returns (ks: seq<nat>)
    requires Complete(sizes) && Distinct(paths) && n <= |paths|
    requires forall j :: 0 <= j < |paths| ==> Inner(sizes, paths[j])
    ensures |ks| == n && Distinct(ks)
    ensures forall j :: 0 <= j < n ==>
              |paths[j]| < MAX_CODE_SIZE && Used(sizes, ks[j]) && Code(sizes, ks[j]) <= Rightward(paths[j]) && |paths[j]| < sizes[ks[j]]
  {
    if n == 0 {
      ks := [];
    } else {
      ks := OwnLeaves(sizes, paths, n - 1);
      var k := OwnLeaf(sizes, paths[n - 1]);
      forall j | 0 <= j < n - 1
        ensures ks[j] != k
      {
        if ks[j] == k {
          OwnLeafDiffers(paths[j], paths[n - 1], Code(sizes, k));
        }
      }
      ks := ks + [k];
    }
  }

  /** Only one code: its nodes are its prefixes, one for each length. */
  lemma OnlyPrefixes(sizes: seq<nat>, p: seq<bool>, q: seq<bool>)
    requires AtMostOne(sizes) && Inner(sizes, p) && Inner(sizes, q) && |p| == |q|
    ensures p == q
  {
    var j: nat :| Used(sizes, j) && p < Code(sizes, j);
    var k: nat :| Used(sizes, k) && q < Code(sizes, k);
    assert j == k;
    assert p == Code(sizes, k)[..|p|] == q;
  }

  lemma NodeBound(sizes: seq<nat>, paths: seq<seq<bool>>)
    requires Decodable(sizes) && |sizes| <= MAX_SYMBOLS && Distinct(paths)
    requires forall j :: 0 <= j < |paths| ==> Inner(sizes, paths[j])
    ensures 2 * |paths| <= TREE_SIZE
  {
    if Complete(sizes) {
      var ks := OwnLeaves(sizes, paths, |paths|);
      assert forall j :: 0 <= j < |ks| ==> Used(sizes, ks[j]);
      Pigeonhole(ks, |sizes|);
    } else {
      var ls := seq(|paths|, j requires 0 <= j < |paths| => |paths[j]|);
      forall i, j | 0 <= i < j < |paths|
        ensures ls[i] != ls[j]
      {
        if |paths[i]| == |paths[j]| {
          OnlyPrefixes(sizes, paths[i], paths[j]);
        }
      }
      forall j | 0 <= j < |paths|
        ensures ls[j] < MAX_CODE_SIZE
      {
        assert Inner(sizes, paths[j]);
        var k: nat :| Used(sizes, k) && paths[j] < Code(sizes, k);
      }
      Pigeonhole(ls, MAX_CODE_SIZE);
    }
  }

  /** Room for one more node. */
  lemma RoomForNode(sizes: seq<nat>, paths: seq<seq<bool>>, p: seq<bool>)
    requires Decodable(sizes) && |sizes| <= MAX_SYMBOLS && PathsOk(sizes, paths)
    requires Inner(sizes, p) && p !in paths
    ensures 2 * |paths| + 2 <= TREE_SIZE
  {
    NodeBound(sizes, paths + [p]);
  }

  /** Where a code still has to branch, its slot is empty or refers to the node for those bits. */
  lemma InnerSlot(sizes: seq<nat>, paths: seq<seq<bool>>, m: nat, p: seq<bool>, v: int)
    requires Fits(sizes) && Inner(sizes, p)
    requires SlotOk(sizes, paths, m, p, v) || LookOk(sizes, paths, m, p, v)
    ensures if v == 0 then p !in paths else At(paths, v, p)
  {
    forall k: nat | Leaf(sizes, m, k)
      ensures !(Code(sizes, k) <= p)
    {
      NoCodeAbove(sizes, p, k);
    }
    if p in paths {
      var i :| 0 <= i < |paths| && paths[i] == p;
      assert v == Ref(i);
    }
  }

  /** The slot that a long code takes next after its first d bits, d short of its last bit. */
  lemma NextSlot(sizes: seq<nat>, paths: seq<seq<bool>>, m: nat, look: seq<int>, tree: seq<int>, d: nat, cur: int, bit: nat)
    requires Decodable(sizes) && TableInv(sizes, paths, m, look, tree)
    requires Used(sizes, m) && FAST_BITS <= d < sizes[m] && bit == BitVal(Code(sizes, m)[d])
    requires At(paths, cur, Code(sizes, m)[..d])
    ensures 0 <= -(cur - bit) - 1 < 2 * |paths| && SlotPath(paths, -(cur - bit) - 1) == Code(sizes, m)[..d + 1]
  {
    var i :| 0 <= i < |paths| && cur == Ref(i) && paths[i] == Code(sizes, m)[..d];
    BranchPath(Code(sizes, m), paths, d, i);
  }

  lemma NextNode(sizes: seq<nat>, paths: seq<seq<bool>>, m: nat, look: seq<int>, tree: seq<int>, d: nat, t: nat)
    requires Decodable(sizes) && TableInv(sizes, paths, m, look, tree)
    requires Used(sizes, m) && FAST_BITS <= d < sizes[m] - 1
    requires t < 2 * |paths| && SlotPath(paths, t) == Code(sizes, m)[..d + 1]
    ensures Inner(sizes, SlotPath(paths, t))
    ensures if tree[t] == 0 then SlotPath(paths, t) !in paths && 2 * |paths| + 2 <= TREE_SIZE
            else At(paths, tree[t], Code(sizes, m)[..d + 1])
  {
    var p := Code(sizes, m)[..d + 1];
    assert p < Code(sizes, m);
    assert SlotOk(sizes, paths, m, p, tree[t]);
    InnerSlot(sizes, paths, m, p, tree[t]);
    if tree[t] == 0 {
      RoomForNode(sizes, paths, p);
    }
  }

  lemma FirstNode(sizes: seq<nat>, paths: seq<seq<bool>>, m: nat, look: seq<int>, tree: seq<int>, x: nat)
    requires Decodable(sizes) && TableInv(sizes, paths, m, look, tree)
    requires Used(sizes, m) && FAST_BITS < sizes[m]
    requires x < FAST_SIZE && ToBits(x, FAST_BITS) == Code(sizes, m)[..FAST_BITS]
    ensures Inner(sizes, ToBits(x, FAST_BITS))
    ensures if look[x] == 0 then ToBits(x, FAST_BITS) !in paths && 2 * |paths| + 2 <= TREE_SIZE
            else At(paths, look[x], Code(sizes, m)[..FAST_BITS])
  {
    var p := Code(sizes, m)[..FAST_BITS];
    assert p < Code(sizes, m);
    assert LookOk(sizes, paths, m, ToBits(x, FAST_BITS), look[x]);
    InnerSlot(sizes, paths, m, p, look[x]);
    if look[x] == 0 {
      RoomForNode(sizes, paths, p);
    }
  }

  lemma AtNew(paths: seq<seq<bool>>, p: seq<bool>)
    ensures At(paths + [p], Ref(|paths|), p)
  {
    assert (paths + [p])[|paths|] == p;
  }

  lemma ThreadedMore(sizes: seq<nat>, paths: seq<seq<bool>>, m: nat, d: nat, v: int)
    requires m < |sizes| && d < sizes[m] && Threaded(sizes, paths, m, d) && At(paths, v, Code(sizes, m)[..d])
    ensures Threaded(sizes, paths, m, d + 1)
  {
  }

  // ---------- decoding

  lemma BranchPath(c: seq<bool>, paths: seq<seq<bool>>, d: nat, j: nat)
    requires d < |c| && j < |paths| && paths[j] == c[..d]
    ensures SlotPath(paths, 2 * j + BitVal(c[d])) == c[..d + 1]
  {
    var s := 2 * j + BitVal(c[d]);
    assert s / 2 == j && (s % 2 == 1) == c[d];
  }

  ghost predicate At(paths: seq<seq<bool>>, v: int, p: seq<bool>)
  {
    v < 0 && exists i :: 0 <= i < |paths| && v == Ref(i) && paths[i] == p
  }

  /** One step of the walk: from the node for the first d bits of a code to the next. */
  lemma WalkStep(sizes: seq<nat>, paths: seq<seq<bool>>, tree: seq<int>, k: nat, d: nat, v: int, bit: nat)
    requires TreeOk(sizes, paths, |sizes|, tree) && Used(sizes, k) && Threaded(sizes, paths, k, sizes[k])
    requires FAST_BITS <= d < sizes[k] && At(paths, v, Code(sizes, k)[..d]) && bit == BitVal(Code(sizes, k)[d])
    ensures var s := -v - 1 + bit;
            0 <= s < TREE_SIZE &&
            if d + 1 == sizes[k] then tree[s] == k else At(paths, tree[s], Code(sizes, k)[..d + 1])
  {
    var c := Code(sizes, k);
    var j :| 0 <= j < |paths| && v == Ref(j) && paths[j] == c[..d];
    var s := 2 * j + bit;
    BranchPath(c, paths, d, j);
    assert SlotOk(sizes, paths, |sizes|, c[..d + 1], tree[s]);
    assert Leaf(sizes, |sizes|, k);
    if d + 1 == sizes[k] {
      assert c[..d + 1] == c;
    } else {
      SlotAt(sizes, paths, |sizes|, k, d + 1, tree[s]);
    }
  }

  lemma SlotAt(sizes: seq<nat>, paths: seq<seq<bool>>, m: nat, k: nat, d: nat, v: int)
    requires Leaf(sizes, m, k) && FAST_BITS <= d < sizes[k] && Threaded(sizes, paths, k, sizes[k])
    requires SlotOk(sizes, paths, m, Code(sizes, k)[..d], v)
    ensures At(paths, v, Code(sizes, k)[..d])
  {
    var i :| 0 <= i < |paths| && paths[i] == Code(sizes, k)[..d];
    assert v == Ref(i);
  }

  /** The look-up entry for bits that start with a code, or with the first bits of a long one. */
  lemma LookStep(sizes: seq<nat>, look: seq<int>, tree: seq<int>, paths: seq<seq<bool>>, k: nat, x: nat)
    requires TableInv(sizes, paths, |sizes|, look, tree) && Used(sizes, k) && x < FAST_SIZE
    ensures sizes[k] <= FAST_BITS && Code(sizes, k) <= ToBits(x, FAST_BITS) ==> look[x] == sizes[k] * 512 + k
    ensures sizes[k] > FAST_BITS && ToBits(x, FAST_BITS) <= Code(sizes, k) ==>
              At(paths, look[x], Code(sizes, k)[..FAST_BITS])
  {
    assert LookOk(sizes, paths, |sizes|, ToBits(x, FAST_BITS), look[x]);
    assert Leaf(sizes, |sizes|, k);
    if sizes[k] > FAST_BITS {
      assert Threaded(sizes, paths, k, sizes[k]);
      var i :| 0 <= i < |paths| && paths[i] == Code(sizes, k)[..FAST_BITS];
    } else {
      assert Short(sizes, |sizes|, k);
    }
  }

  /** The ten bits that the look-up uses, against a code that starts the bits of the buffer. */
  lemma LookBits(c: seq<bool>, buf: nat, n: nat)
    requires c <= ToBits(buf, n)
    ensures var p := ToBits(buf % FAST_SIZE, FAST_BITS);
            if |c| <= FAST_BITS then c <= p else p == c[..FAST_BITS]
  {
    assert Pow2(FAST_BITS) == FAST_SIZE;
    LowMod(buf, FAST_BITS);
    ToBitsPrefix(buf, |c|, n);
    if |c| <= FAST_BITS {
      ToBitsPrefix(buf, |c|, FAST_BITS);
    } else {
      ToBitsPrefix(buf, FAST_BITS, |c|);
    }
  }

  /** A code that starts the bits of the buffer shows in its look-up entry. */
  lemma LookAt(sizes: seq<nat>, look: seq<int>, tree: seq<int>, paths: seq<seq<bool>>, k: nat, buf: nat, n: nat)
    requires TableInv(sizes, paths, |sizes|, look, tree) && Used(sizes, k) && Code(sizes, k) <= ToBits(buf, n)
    ensures var v := look[buf % FAST_SIZE];
            if sizes[k] <= FAST_BITS then v >= 0 && v % 512 == k && v / 512 == sizes[k]
            else At(paths, v, Code(sizes, k)[..FAST_BITS])
  {
    LookBits(Code(sizes, k), buf, n);
    LookStep(sizes, look, tree, paths, k, buf % FAST_SIZE);
    EntryParts(sizes[k], k);
  }

  lemma EntryParts(size: nat, k: nat)
    requires k < 512
    ensures (size * 512 + k) % 512 == k && (size * 512 + k) / 512 == size
  {
  }

  lemma StartDecoding(sizes: seq<nat>, look: seq<int>, tree: seq<int>, k: nat, buf: nat, n: nat) returns (paths: seq<seq<bool>>)
    requires TableFor(sizes, look, tree) && Used(sizes, k) && Code(sizes, k) <= ToBits(buf, n)
    ensures k < MAX_SYMBOLS && |look| == FAST_SIZE
    ensures var v := look[buf % FAST_SIZE];
            if sizes[k] <= FAST_BITS then v >= 0 && v % 512 == k && v / 512 == sizes[k]
            else At(paths, v, Code(sizes, k)[..FAST_BITS])
    ensures TreeOk(sizes, paths, |sizes|, tree) && Threaded(sizes, paths, k, sizes[k])
  {
    paths :| TableInv(sizes, paths, |sizes|, look, tree);
    LookAt(sizes, look, tree, paths, k, buf, n);
    assert Leaf(sizes, |sizes|, k);
  }

  /** The next bit of a code, read from a buffer that holds it. */
  lemma CodeBit(c: seq<bool>, buf: nat, n: nat, rest: seq<bool>, d: nat)
    requires d < n && d < |c| && c <= ToBits(buf, n) + rest
    ensures Shr(buf, d) % 2 == BitVal(c[d])
  {
    ToBitsAt(buf, n, d);
    assert c[d] == (ToBits(buf, n) + rest)[d];
  }

  /** The look-up when the buffer may hold only part of the code: the missing bits read as zeros. */
  lemma PartialLook(sizes: seq<nat>, look: seq<int>, tree: seq<int>, paths: seq<seq<bool>>, k: nat, buf: nat, n: nat, rest: seq<bool>)
    requires TableInv(sizes, paths, |sizes|, look, tree) && Used(sizes, k)
    requires Code(sizes, k) <= ToBits(buf, n) + rest
    ensures var v := look[buf % FAST_SIZE];
            if v >= 0 then (v / 512 > 0 && n >= v / 512) <==> sizes[k] <= n
            else if n <= FAST_BITS then sizes[k] > n
            else sizes[k] > FAST_BITS && At(paths, v, Code(sizes, k)[..FAST_BITS])
  {
    var c := Code(sizes, k);
    if sizes[k] <= n {
      assert c == (ToBits(buf, n) + rest)[..sizes[k]] == ToBits(buf, n)[..sizes[k]];
      LookAt(sizes, look, tree, paths, k, buf, n);
    } else if n > FAST_BITS {
      assert Pow2(FAST_BITS) == FAST_SIZE;
      LowMod(buf, FAST_BITS);
      ToBitsPrefix(buf, FAST_BITS, n);
      assert ToBits(buf, n)[..FAST_BITS] == (ToBits(buf, n) + rest)[..FAST_BITS] == c[..FAST_BITS];
      LookStep(sizes, look, tree, paths, k, buf % FAST_SIZE);
    } else {
      TooFewBits(sizes, look, paths, k, buf, n, rest);
    }
  }

  /** With no more than ten bits and not the whole code among them, no entry claims to be short enough. */
  lemma TooFewBits(sizes: seq<nat>, look: seq<int>, paths: seq<seq<bool>>, k: nat, buf: nat, n: nat, rest: seq<bool>)
    requires Fits(sizes) && |sizes| <= MAX_SYMBOLS && LookTableOk(sizes, paths, |sizes|, look) && Used(sizes, k)
    requires Code(sizes, k) <= ToBits(buf, n) + rest && n < sizes[k] && n <= FAST_BITS
    ensures var v := look[buf % FAST_SIZE]; v > 0 ==> v / 512 > n
    ensures look[buf % FAST_SIZE] == 0 ==> look[buf % FAST_SIZE] / 512 == 0
  {
    var x := buf % FAST_SIZE;
    var p := ToBits(x, FAST_BITS);
    var c := Code(sizes, k);
    assert Pow2(FAST_BITS) == FAST_SIZE;
    LowMod(buf, FAST_BITS);
    assert LookOk(sizes, paths, |sizes|, p, look[x]);
    if look[x] > 0 {
      PartialEntry(sizes, paths, p, look[x]);
      var h: nat :| Used(sizes, h) && Code(sizes, h) <= p && look[x] / 512 == sizes[h];
      ToBitsPrefix(buf, n, FAST_BITS);
      if sizes[h] <= n {
        SamePrefix(Code(sizes, h), p, n, c, rest);
        PrefixFree(sizes, h, k);
      }
    }
  }

  lemma SamePrefix(a: seq<bool>, p: seq<bool>, n: nat, c: seq<bool>, rest: seq<bool>)
    requires a <= p && |a| <= n <= |p| && n <= |c| && c <= p[..n] + rest
    ensures a <= c
  {
    assert c[..n] == (p[..n] + rest)[..n] == p[..n];
    assert a == p[..|a|] == p[..n][..|a|] == c[..n][..|a|];
  }

  /** A positive look-up entry is that of a short code. */
  lemma PartialEntry(sizes: seq<nat>, paths: seq<seq<bool>>, p: seq<bool>, v: int)
    requires |sizes| <= MAX_SYMBOLS && LookOk(sizes, paths, |sizes|, p, v) && v > 0
    ensures exists h: nat :: Used(sizes, h) && Code(sizes, h) <= p && v / 512 == sizes[h]
  {
    assert forall j :: 0 <= j < |paths| ==> paths[j] != p;
    var h: nat :| Short(sizes, |sizes|, h) && Code(sizes, h) <= p;
    assert v == sizes[h] * 512 + h;
  }

  lemma EmptyTable(sizes: seq<nat>, look: seq<int>, tree: seq<int>)
    requires Fits(sizes) && |sizes| <= MAX_SYMBOLS
    requires |look| == FAST_SIZE && forall i :: 0 <= i < FAST_SIZE ==> look[i] == 0
    requires |tree| == TREE_SIZE && forall i :: 0 <= i < TREE_SIZE ==> tree[i] == 0
    ensures TableInv(sizes, [], 0, look, tree)
  {
  }

  /** The low bits of a reversed code are the first bits of the code. */
  lemma LowBits(rev: nat, size: nat)
    requires size >= FAST_BITS
    ensures ToBits(rev % FAST_SIZE, FAST_BITS) == ToBits(rev, size)[..FAST_BITS]
  {
    ToBitsPrefix(rev, FAST_BITS, size);
    LowMod(rev, FAST_BITS);
    assert Pow2(FAST_BITS) == FAST_SIZE;
  }
}
