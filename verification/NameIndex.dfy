/** The index over the file names of an archive: a heap sort by lower-cased name and a binary search. */
module NameIndex {
  import opened Bits
  import opened Sequences

  type Name = n: seq<byte> | |n| <= 0xFFFF

  function Lower(c: byte): byte {
    if 65 <= c <= 90 then c + 32 else c
  }

  function LowerAll(s: seq<byte>): seq<byte> {
    seq(|s|, i requires 0 <= i < |s| => Lower(s[i]))
  }

  predicate SameName(a: seq<byte>, b: seq<byte>) {
    LowerAll(a) == LowerAll(b)
  }

  /** The order of dictionaries, upper case like lower case. */
  predicate Less(a: seq<byte>, b: seq<byte>) {
    if b == [] then false
    else if a == [] then true
    else if Lower(a[0]) != Lower(b[0]) then Lower(a[0]) < Lower(b[0])
    else Less(a[1..], b[1..])
  }

  // ---------- what they mean

  /** The same byte, or a letter from A to Z (65 to 90) and the small one, which is 32 above it. */
  predicate SameLetter(x: byte, y: byte) {
    x == y || (x + 32 == y && 65 <= x <= 90) || (y + 32 == x && 65 <= y <= 90)
  }

  /** Byte x comes before byte y when letters from A to Z count as small ones. */
  predicate Earlier(x: byte, y: byte) {
    !SameLetter(x, y) && (if 65 <= x <= 90 then x + 32 else x) < (if 65 <= y <= 90 then y + 32 else y)
  }

  /** Names are the same if they have the same bytes but for the case of the letters. */
  lemma {:induction false} SameNameMeans(a: seq<byte>, b: seq<byte>)
    ensures SameName(a, b) <==> |a| == |b| && forall i :: 0 <= i < |a| ==> SameLetter(a[i], b[i])
  {
    if SameName(a, b) {
      assert |LowerAll(a)| == |LowerAll(b)|;
      forall i | 0 <= i < |a|
        ensures SameLetter(a[i], b[i])
      {
        assert LowerAll(a)[i] == LowerAll(b)[i];
      }
    } else if |a| == |b| {
      var i :| 0 <= i < |a| && LowerAll(a)[i] != LowerAll(b)[i];
      assert !SameLetter(a[i], b[i]);
    }
  }

  /** Up to place k there is no difference, and there a ends before b does, or has the earlier byte. */
  predicate FirstAt(a: seq<byte>, b: seq<byte>, k: nat) {
    && k <= |a| && k < |b| && (forall i :: 0 <= i < k ==> SameLetter(a[i], b[i]))
    && (k < |a| ==> Earlier(a[k], b[k]))
  }

  /** The first difference decides, and what ends there comes first. */
  lemma {:induction false} LessMeans(a: seq<byte>, b: seq<byte>)
    ensures Less(a, b) <==> exists k: nat :: FirstAt(a, b, k)
    decreases |a|
  {
    if b != [] && a == [] {
      assert FirstAt(a, b, 0);
    } else if b != [] {
      var c, d := a[1..], b[1..];
      LessMeans(c, d);
      if k: nat :| FirstAt(a, b, k) && SameLetter(a[0], b[0]) {
        assert k > 0 && FirstAt(c, d, k - 1);
      }
      if k: nat :| FirstAt(c, d, k) && SameLetter(a[0], b[0]) {
        assert FirstAt(a, b, k + 1);
      }
      if Earlier(a[0], b[0]) {
        assert FirstAt(a, b, 0);
      }
    }
  }

  /** A name comes before those that go on from it. */
  lemma {:induction false} PrefixLess(a: seq<byte>, b: seq<byte>)
    requires b != []
    ensures Less(a, a + b)
  {
    if a != [] {
      assert (a + b)[1..] == a[1..] + b;
      PrefixLess(a[1..], b);
    }
  }

  // ---------- the order is one

  lemma {:induction false} LessAsymmetric(a: seq<byte>, b: seq<byte>)
    requires Less(a, b)
    ensures !Less(b, a)
    decreases |a|
  {
    if a != [] && Lower(a[0]) == Lower(b[0]) {
      LessAsymmetric(a[1..], b[1..]);
    }
  }

  lemma {:induction false} NotLessTransitive(a: seq<byte>, b: seq<byte>, c: seq<byte>)
    requires !Less(b, a) && !Less(c, b)
    ensures !Less(c, a)
    decreases |a|
  {
    if a != [] && b != [] && c != [] && Lower(a[0]) == Lower(b[0]) == Lower(c[0]) {
      NotLessTransitive(a[1..], b[1..], c[1..]);
    }
  }

  lemma {:induction false} LessTotal(a: seq<byte>, b: seq<byte>)
    ensures SameName(a, b) <==> !Less(a, b) && !Less(b, a)
    decreases |a|
  {
    if a == [] || b == [] {
      assert |LowerAll(a)| == |a| && |LowerAll(b)| == |b|;
    } else {
      LessTotal(a[1..], b[1..]);
      assert LowerAll(a) == [Lower(a[0])] + LowerAll(a[1..]);
      assert LowerAll(b) == [Lower(b[0])] + LowerAll(b[1..]);
      assert LowerAll(a)[1..] == LowerAll(a[1..]) && LowerAll(b)[1..] == LowerAll(b[1..]);
    }
  }

  lemma LessDrop(a: seq<byte>, b: seq<byte>, k: nat)
    requires k < |a| && k < |b|
    ensures Lower(a[k]) == Lower(b[k]) ==> Less(a[k..], b[k..]) == Less(a[k + 1..], b[k + 1..])
    ensures Lower(a[k]) != Lower(b[k]) ==> Less(a[k..], b[k..]) == (Lower(a[k]) < Lower(b[k]))
  {
    assert a[k..][1..] == a[k + 1..] && b[k..][1..] == b[k + 1..];
  }

  method FilenameLess(a: seq<byte>, b: seq<byte>) returns (less: bool)
    ensures less == Less(a, b)
  {
    hide Lower;
    var n := if |a| < |b| then |a| else |b|;
    var k := 0;
    while k < n && Lower(a[k]) == Lower(b[k])
      invariant 0 <= k <= n && Less(a, b) == Less(a[k..], b[k..])
    {
      LessDrop(a, b, k);
      k := k + 1;
    }
    if k < n { LessDrop(a, b, k); }
    less := if k == n then |a| < |b| else Lower(a[k]) < Lower(b[k]);
  }

  /** A 32-bit difference read as a signed number. */
  function Signed(v: int): int {
    var w := v % 0x1_0000_0000;
    if w < 0x8000_0000 then w else w - 0x1_0000_0000
  }

  method FilenameCompare(a: Name, b: seq<byte>) returns (comp: int)
    requires |b| < 0x1_0000_0000
    ensures comp == 0 <==> SameName(a, b)
    ensures |b| < 0x8000_0000 ==> (comp < 0 <==> Less(a, b))
  {
    hide Lower, SameName;
    var n := if |a| < |b| then |a| else |b|;
    var k := 0;
    while k < n && Lower(a[k]) == Lower(b[k])
      invariant 0 <= k <= n && Less(a, b) == Less(a[k..], b[k..]) && Less(b, a) == Less(b[k..], a[k..])
    {
      LessDrop(a, b, k);
      LessDrop(b, a, k);
      k := k + 1;
    }
    if k < n {
      LessDrop(a, b, k);
      LessDrop(b, a, k);
    }
    LessTotal(a, b);
    comp := if k == n then Signed(|a| - |b|) else Lower(a[k]) - Lower(b[k]);
  }

  // ---------- the sort

  predicate Indices(s: seq<nat>, n: nat) {
    |s| == n && (forall i :: 0 <= i < n ==> s[i] < n) && forall i, j :: 0 <= i < j < n ==> s[i] != s[j]
  }

  predicate InOrder(names: seq<Name>, a: nat, b: nat) {
    a < |names| && b < |names| && !Less(names[b], names[a])
  }

  predicate Child(i: int, j: int) {
    j == 2 * i + 1 || j == 2 * i + 2
  }

  /** No entry from lo on comes before one of its two children. */
  predicate Heap(names: seq<Name>, s: seq<nat>, lo: int, end: nat) {
    end <= |s| && forall i, j :: 0 <= i && lo <= i < j < end && Child(i, j) ==> InOrder(names, s[j], s[i])
  }

  /** The same but for the entry at root, whose children its parent does not precede either. */
  predicate HeapBut(names: seq<Name>, s: seq<nat>, lo: int, end: nat, root: nat) {
    && end <= |s|
    && (forall i, j :: 0 <= i && lo <= i < j < end && i != root && Child(i, j) ==> InOrder(names, s[j], s[i]))
    && forall i, j :: 0 <= i && lo <= i < root < j < end && Child(i, root) && Child(root, j) ==> InOrder(names, s[j], s[i])
  }

  predicate Sorted(names: seq<Name>, s: seq<nat>) {
    forall i, j :: 0 <= i < j < |s| ==> InOrder(names, s[i], s[j])
  }

  function Swapped(s: seq<nat>, i: nat, j: nat): seq<nat>
    requires i < |s| && j < |s|
  {
    s[i := s[j]][j := s[i]]
  }

  lemma OrderTransitive(names: seq<Name>, a: nat, b: nat, c: nat)
    requires InOrder(names, a, b) && InOrder(names, b, c)
    ensures InOrder(names, a, c)
  {
    NotLessTransitive(names[a], names[b], names[c]);
  }

  lemma OrderTotal(names: seq<Name>, a: nat, b: nat)
    requires a < |names| && b < |names|
    ensures Less(names[a], names[b]) ==> InOrder(names, a, b)
    ensures InOrder(names, a, a)
  {
    if Less(names[a], names[b]) { LessAsymmetric(names[a], names[b]); }
    if Less(names[a], names[a]) { LessAsymmetric(names[a], names[a]); }
  }

  /** One exchange on the way down. */
  lemma SiftStep(names: seq<Name>, s: seq<nat>, lo: int, end: nat, root: nat, child: nat)
    requires HeapBut(names, s, lo, end, root) && lo <= root < child < end && Child(root, child)
    requires InOrder(names, s[root], s[child])
    requires forall j :: root < j < end && Child(root, j) ==> InOrder(names, s[j], s[child])
    ensures HeapBut(names, Swapped(s, root, child), lo, end, child)
  {
    hide InOrder;
    var t := Swapped(s, root, child);
    forall i, j | 0 <= i && lo <= i < j < end && i != child && Child(i, j) ensures InOrder(names, t[j], t[i]) {
      if i == root {
        assert t[i] == s[child];
      } else if j == root {
        assert t[i] == s[i] && t[j] == s[child];
      } else {
        assert t[i] == s[i] && t[j] == s[j];
      }
    }
    forall i, j | 0 <= i && lo <= i < child < j < end && Child(i, child) && Child(child, j)
      ensures InOrder(names, t[j], t[i])
    {
      assert i == root && t[j] == s[j] && t[i] == s[child];
    }
  }

  /** The entry at root may stay. */
  lemma SiftEnd(names: seq<Name>, s: seq<nat>, lo: int, end: nat, root: nat)
    requires HeapBut(names, s, lo, end, root)
    requires forall j :: root < j < end && Child(root, j) ==> InOrder(names, s[j], s[root])
    ensures Heap(names, s, lo, end)
  {
  }

  /** The children of root do not come after the one that was chosen. */
  lemma LargerChild(names: seq<Name>, s: seq<nat>, root: nat, child: nat, end: nat)
    requires end <= |s| && Indices(s, |names|) && 2 * root + 1 < end
    requires child == if 2 * root + 2 < end && Less(names[s[2 * root + 1]], names[s[2 * root + 2]])
                      then 2 * root + 2 else 2 * root + 1
    ensures forall j :: root < j < end && Child(root, j) ==> InOrder(names, s[j], s[child])
  {
    hide Less;
    OrderTotal(names, s[2 * root + 1], s[child]);
    if 2 * root + 2 < end { OrderTotal(names, s[2 * root + 2], s[child]); }
  }

  lemma MayStay(names: seq<Name>, s: seq<nat>, root: nat, child: nat, end: nat)
    requires end <= |s| && Indices(s, |names|) && root < child < end
    requires !Less(names[s[root]], names[s[child]])
    requires forall j :: root < j < end && Child(root, j) ==> InOrder(names, s[j], s[child])
    ensures forall j :: root < j < end && Child(root, j) ==> InOrder(names, s[j], s[root])
  {
    hide Less, Child;
    assert InOrder(names, s[child], s[root]);
    forall j | root < j < end && Child(root, j) ensures InOrder(names, s[j], s[root]) {
      OrderTransitive(names, s[j], s[child], s[root]);
    }
  }

  predicate Within(a: seq<nat>, b: seq<nat>) {
    forall i :: 0 <= i < |a| ==> a[i] in b
  }

  lemma WithinTwice(a: seq<nat>, b: seq<nat>, c: seq<nat>)
    requires Within(a, b) && Within(b, c)
    ensures Within(a, c)
  {
  }

  lemma SwapKeeps(s: seq<nat>, i: nat, j: nat, end: nat, n: nat)
    requires i < end && j < end && end <= |s| && Indices(s, n)
    ensures Indices(Swapped(s, i, j), n) && Within(Swapped(s, i, j)[..end], s[..end])
    ensures forall k :: end <= k < |s| ==> Swapped(s, i, j)[k] == s[k]
  {
    var t := Swapped(s, i, j);
    forall k | 0 <= k < end ensures t[..end][k] in s[..end] {
      assert t[k] == s[..end][if k == i then j else if k == j then i else k];
    }
  }

  method SiftDown(names: seq<Name>, indices: array<nat>, start: nat, end: nat)
    requires start < end <= indices.Length && Indices(indices[..], |names|)
    requires HeapBut(names, indices[..], start, end, start)
    modifies indices
    ensures Heap(names, indices[..], start, end) && Indices(indices[..], |names|)
    ensures forall i :: end <= i < indices.Length ==> indices[i] == old(indices[i])
    ensures Within(indices[..end], old(indices[..end]))
  {
    hide InOrder, Heap, HeapBut, Less, Indices;
    var root := start;
    assert indices[..end] == old(indices[..end]);
    while 2 * root + 1 < end
      invariant start <= root < end && HeapBut(names, indices[..], start, end, root)
      invariant Indices(indices[..], |names|)
      invariant forall i :: end <= i < indices.Length ==> indices[i] == old(indices[i])
      invariant Within(indices[..end], old(indices[..end]))
      decreases end - root
    {
      ghost var s := indices[..];
      IndicesBounded(s, |names|);
      var child := 2 * root + 1;
      if child + 1 < end {
        var less := FilenameLess(names[indices[child]], names[indices[child + 1]]);
        if less { child := child + 1; }
      }
      LargerChild(names, s, root, child, end);
      var less := FilenameLess(names[indices[root]], names[indices[child]]);
      if !less {
        MayStay(names, s, root, child, end);
        SiftEnd(names, s, start, end, root);
        return;
      }
      OrderTotal(names, s[root], s[child]);
      SiftStep(names, s, start, end, root, child);
      SwapKeeps(s, root, child, end, |names|);
      indices[root], indices[child] := indices[child], indices[root];
      assert indices[..] == Swapped(s, root, child);
      WithinTwice(indices[..end], s[..end], old(indices[..end]));
      root := child;
    }
    SiftEnd(names, indices[..], start, end, root);
  }

  lemma IndicesBounded(s: seq<nat>, n: nat)
    requires Indices(s, n)
    ensures |s| == n && forall i :: 0 <= i < n ==> s[i] < n
  {
  }

  lemma HeapGrows(names: seq<Name>, s: seq<nat>, start: nat, end: nat)
    requires Heap(names, s, start + 1, end)
    ensures HeapBut(names, s, start, end, start)
  {
    hide InOrder;
  }

  /** The first entry of a heap comes last. */
  lemma {:induction false} TopIsLast(names: seq<Name>, s: seq<nat>, end: nat, i: nat)
    requires Heap(names, s, 0, end) && i < end && Indices(s, |names|)
    ensures InOrder(names, s[i], s[0])
  {
    hide InOrder;
    if i == 0 {
      OrderTotal(names, s[0], s[0]);
    } else {
      var p := (i - 1) / 2;
      TopIsLast(names, s, end, p);
      assert Child(p, i);
      OrderTransitive(names, s[i], s[p], s[0]);
    }
  }

  /** The entries from end on are in order and come after all before them. */
  predicate Tail(names: seq<Name>, s: seq<nat>, end: nat) {
    forall i, j :: 0 <= i < j < |s| && end <= j ==> InOrder(names, s[i], s[j])
  }

  lemma TakeTop(names: seq<Name>, s: seq<nat>, end: nat)
    requires Heap(names, s, 0, end + 1) && Tail(names, s, end + 1) && Indices(s, |names|)
    ensures Tail(names, Swapped(s, end, 0), end) && HeapBut(names, Swapped(s, end, 0), 0, end, 0)
  {
    hide InOrder;
    var t := Swapped(s, end, 0);
    forall i, j | 0 <= i < j < |t| && end <= j ensures InOrder(names, t[i], t[j]) {
      if j == end {
        TopIsLast(names, s, end + 1, if i == 0 then end else i);
      } else {
        assert t[j] == s[j] && t[i] == s[if i == 0 then end else if i == end then 0 else i];
      }
    }
    forall i, j | 0 <= i < j < end && i != 0 && Child(i, j) ensures InOrder(names, t[j], t[i]) {
      assert t[i] == s[i] && t[j] == s[j];
    }
  }

  lemma TailStays(names: seq<Name>, s: seq<nat>, t: seq<nat>, end: nat)
    requires Tail(names, s, end) && |s| == |t| && end <= |s| && Within(t[..end], s[..end])
    requires forall k :: end <= k < |s| ==> t[k] == s[k]
    ensures Tail(names, t, end)
  {
    hide InOrder;
    forall i, j | 0 <= i < j < |t| && end <= j ensures InOrder(names, t[i], t[j]) {
      if i < end {
        assert t[..end][i] in s[..end];
        var k :| 0 <= k < end && s[..end][k] == t[i];
        assert s[k] == t[i];
      }
    }
  }

  /** Heap sort in place. */
  method SortByFilename(names: seq<Name>, indices: array<nat>)
    requires Indices(indices[..], |names|)
    modifies indices
    ensures Indices(indices[..], |names|) && Sorted(names, indices[..])
  {
    hide InOrder, Heap, HeapBut, Indices, Tail, Sorted, Child;
    IndicesBounded(indices[..], |names|);
    var size := |names|;
    var start := (size - 2) / 2;
    NoParents(names, indices[..], start + 1, size);
    while start >= 0
      invariant -1 <= start < size || size == 0
      invariant Indices(indices[..], |names|) && Heap(names, indices[..], start + 1, size)
    {
      HeapGrows(names, indices[..], start, size);
      SiftDown(names, indices, start, size);
      start := start - 1;
    }
    TailNone(names, indices[..]);
    HeapFromZero(names, indices[..], start + 1, size);
    var end := size - 1;
    while end > 0
      invariant -1 <= end < size
      invariant Indices(indices[..], |names|) && Heap(names, indices[..], 0, end + 1) && Tail(names, indices[..], end + 1)
    {
      ghost var s := indices[..];
      TakeTop(names, s, end);
      SwapKeeps(s, end, 0, end + 1, size);
      indices[end], indices[0] := indices[0], indices[end];
      ghost var t := indices[..];
      assert t == Swapped(s, end, 0);
      SiftDown(names, indices, 0, end);
      TailStays(names, t, indices[..], end);
      end := end - 1;
    }
    AllTail(names, indices[..], end + 1);
  }

  lemma NoParents(names: seq<Name>, s: seq<nat>, lo: int, size: nat)
    requires size == |s| && lo == (size - 2) / 2 + 1
    ensures Heap(names, s, lo, size)
  {
  }

  lemma HeapFromZero(names: seq<Name>, s: seq<nat>, lo: int, end: nat)
    requires Heap(names, s, lo, end) && lo <= 0
    ensures Heap(names, s, 0, end)
  {
    hide InOrder;
  }

  lemma TailNone(names: seq<Name>, s: seq<nat>)
    ensures Tail(names, s, |s|)
  {
  }

  lemma AllTail(names: seq<Name>, s: seq<nat>, end: nat)
    requires Tail(names, s, end) && end <= 1
    ensures Sorted(names, s)
  {
  }

  // ---------- the search

  predicate Found(names: seq<Name>, q: seq<byte>) {
    exists i :: 0 <= i < |names| && SameName(names[i], q)
  }

  /** What the binary search compares with: strlen goes into 32 bits. */
  function Truncated(name: seq<byte>): seq<byte> {
    name[..|name| % 0x1_0000_0000]
  }

  /** An entry that differs from q lies on one side of q, and so do all beyond it. */
  lemma SideLow(names: seq<Name>, s: seq<nat>, m: nat, q: seq<byte>)
    requires Indices(s, |names|) && Sorted(names, s) && m < |s| && Less(names[s[m]], q)
    ensures forall i :: 0 <= i <= m ==> Less(names[s[i]], q)
  {
    hide Less;
    forall i | 0 <= i < m ensures Less(names[s[i]], q) {
      assert InOrder(names, s[i], s[m]);
      BelowLess(names[s[i]], names[s[m]], q);
    }
  }

  lemma SideHigh(names: seq<Name>, s: seq<nat>, m: nat, q: seq<byte>)
    requires Indices(s, |names|) && Sorted(names, s) && m < |s| && Less(q, names[s[m]])
    ensures forall i :: m <= i < |s| ==> Less(q, names[s[i]])
  {
    hide Less;
    forall i | m < i < |s| ensures Less(q, names[s[i]]) {
      assert InOrder(names, s[m], s[i]);
      LessAbove(q, names[s[m]], names[s[i]]);
    }
  }

  lemma BelowLess(a: seq<byte>, b: seq<byte>, q: seq<byte>)
    requires !Less(b, a) && Less(b, q)
    ensures Less(a, q)
  {
    hide Less;
    if !Less(a, q) { NotLessTransitive(q, a, b); }
  }

  lemma LessAbove(q: seq<byte>, a: seq<byte>, b: seq<byte>)
    requires Less(q, a) && !Less(b, a)
    ensures Less(q, b)
  {
    hide Less;
    if !Less(q, b) { NotLessTransitive(a, b, q); }
  }

  method LocateBinary(names: seq<Name>, indices: array<nat>, name: seq<byte>) returns (r: int)
    requires Indices(indices[..], |names|) && Sorted(names, indices[..])
    ensures r >= 0 <==> Found(names, Truncated(name))
    ensures r >= 0 ==> r < |names| && SameName(names[r], Truncated(name))
    ensures r >= -1
  {
    hide Less, SameName, Sorted, Found, Indices;
    ghost var s := indices[..];
    IndicesBounded(s, |names|);
    var q := Truncated(name);
    var l, h := 0, |names| - 1;
    while l <= h
      invariant 0 <= l <= h + 1 <= |names|
      invariant |q| < 0x8000_0000 ==> forall i :: 0 <= i < l ==> Less(names[s[i]], q)
      invariant |q| < 0x8000_0000 ==> forall i :: h < i < |names| ==> Less(q, names[s[i]])
    {
      var m := (l + h) / 2;
      var fileIndex := indices[m];
      var comp := FilenameCompare(names[fileIndex], q);
      LessTotal(names[fileIndex], q);
      if comp == 0 {
        FoundAt(names, q, fileIndex);
        return fileIndex;
      } else if comp < 0 {
        if |q| < 0x8000_0000 { SideLow(names, s, m, q); }
        l := m + 1;
      } else {
        if |q| < 0x8000_0000 { SideHigh(names, s, m, q); }
        h := m - 1;
      }
    }
    NotFound(names, s, l, q);
    r := -1;
  }

  lemma FoundAt(names: seq<Name>, q: seq<byte>, i: nat)
    requires i < |names| && SameName(names[i], q)
    ensures Found(names, q)
  {
  }

  lemma NotFound(names: seq<Name>, s: seq<nat>, l: nat, q: seq<byte>)
    requires Indices(s, |names|) && l <= |names|
    requires |q| < 0x8000_0000 ==> forall i :: 0 <= i < l ==> Less(names[s[i]], q)
    requires |q| < 0x8000_0000 ==> forall i :: l <= i < |names| ==> Less(q, names[s[i]])
    ensures !Found(names, q)
  {
    hide Less, SameName;
    forall i | 0 <= i < |names| ensures !SameName(names[i], q) {
      if |q| < 0x8000_0000 {
        Everywhere(s, |names|, i);
        LessTotal(names[i], q);
      } else {
        SameLength(names[i], q);
      }
    }
  }

  lemma SameLength(a: seq<byte>, b: seq<byte>)
    ensures SameName(a, b) ==> |a| == |b|
  {
    assert |LowerAll(a)| == |a| && |LowerAll(b)| == |b|;
  }

  function Below(n: nat): (r: set<nat>)
    ensures |r| == n && forall x: nat :: x in r <==> x < n
  {
    if n == 0 then {} else Below(n - 1) + {n - 1}
  }

  /** Every file is in the index. */
  lemma Everywhere(s: seq<nat>, n: nat, x: nat)
    requires Indices(s, n) && x < n
    ensures x in s
  {
    var used := set y: nat | y in s;
    DistinctSize(s);
    if x !in s {
      SubsetSize(used, Below(n) - {x});
    }
  }

  lemma {:induction false} SubsetSize(a: set<nat>, b: set<nat>)
    requires a <= b
    ensures |a| <= |b|
    decreases b
  {
    if b != {} {
      var x :| x in b;
      SubsetSize(a - {x}, b - {x});
    }
  }

  /** The scan, in the order of the files. */
  method LocateScan(names: seq<Name>, name: seq<byte>) returns (r: int)
    ensures r >= 0 <==> Found(names, name)
    ensures r >= 0 ==> r < |names| && SameName(names[r], name)
    ensures forall i :: 0 <= i < r ==> !SameName(names[i], name)
    ensures r >= -1
  {
    hide SameName;
    if |name| > 0xFFFF {
      forall i | 0 <= i < |names| ensures !SameName(names[i], name) { SameLength(names[i], name); }
      return -1;
    }
    for fileIndex := 0 to |names|
      invariant forall i :: 0 <= i < fileIndex ==> !SameName(names[i], name)
    {
      SameLength(names[fileIndex], name);
      if |names[fileIndex]| == |name| {
        var equal := StringEqual(name, names[fileIndex]);
        if equal {
          FoundAt(names, name, fileIndex);
          return fileIndex;
        }
      }
    }
    r := -1;
  }

  method StringEqual(a: seq<byte>, b: seq<byte>) returns (r: bool)
    requires |a| == |b|
    ensures r == SameName(b, a)
  {
    for i := 0 to |a|
      invariant forall k :: 0 <= k < i ==> Lower(a[k]) == Lower(b[k])
    {
      if Lower(a[i]) != Lower(b[i]) {
        assert LowerAll(a)[i] != LowerAll(b)[i];
        return false;
      }
    }
    r := true;
  }

  /** The index and the scan agree on a name, whatever the archive, exactly if 32 bits hold the length of the name
      or what they make of it is longer than any name of an archive. */
  lemma IndexAgrees(name: seq<byte>)
    ensures (forall names: seq<Name> :: Found(names, Truncated(name)) == Found(names, name)) <==>
            |name| < 0x1_0000_0000 || |Truncated(name)| > 0xFFFF
  {
    hide SameName, Found;
    if |name| < 0x1_0000_0000 {
      assert Truncated(name) == name;
    } else if |Truncated(name)| > 0xFFFF {
      forall names: seq<Name> ensures Found(names, Truncated(name)) == Found(names, name) {
        TooLong(names, Truncated(name));
        TooLong(names, name);
      }
    } else {
      Misled(name);
    }
  }

  lemma TooLong(names: seq<Name>, q: seq<byte>)
    requires |q| > 0xFFFF
    ensures !Found(names, q)
  {
    hide SameName;
    forall i | 0 <= i < |names| ensures !SameName(names[i], q) { SameLength(names[i], q); }
  }

  /** A name of 4 GiB or more is mistaken for the part of it that 32 bits count. */
  lemma Misled(name: seq<byte>)
    requires |name| >= 0x1_0000_0000 && |Truncated(name)| <= 0xFFFF
    ensures var names: seq<Name> := [Truncated(name)]; Found(names, Truncated(name)) && !Found(names, name)
  {
    var names: seq<Name> := [Truncated(name)];
    FoundAt(names, Truncated(name), 0);
    TooLong(names, name);
  }
}
