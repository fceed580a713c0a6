/** The decoder's Huffman table: building it from code lengths, and decoding with it. */
module HuffTables {
  import opened Bits
  import opened Canonical
  import opened DecodeTable

  class HuffTable {
    const codeSize: array<nat>
    const lookUp: array<int>
    const tree: array<int>

    constructor ()
      ensures Valid() && fresh(codeSize) && fresh(lookUp) && fresh(tree)
    {
      codeSize := new nat[MAX_SYMBOLS];
      lookUp := new int[FAST_SIZE];
      tree := new int[TREE_SIZE];
    }

    ghost predicate Valid()
    {
      codeSize.Length == MAX_SYMBOLS && lookUp.Length == FAST_SIZE && tree.Length == TREE_SIZE && lookUp != tree
    }

    ghost function Sizes(n: nat): seq<nat>
      requires Valid() && n <= MAX_SYMBOLS
      reads codeSize
    {
      codeSize[..n]
    }

    ghost predicate Ready(sizes: seq<nat>)
      requires Valid()
      reads lookUp, tree
    {
      TableFor(sizes, lookUp[..], tree[..])
    }

    /** Fills every look-up entry whose size low bits are those of rev. */
    method FillShort(rev: nat, size: nat, sym: nat)
      requires Valid() && 0 < size <= FAST_BITS && rev < Pow2(size)
      modifies lookUp
      ensures forall x :: 0 <= x < FAST_SIZE ==>
                lookUp[x] == if ToBits(x, size) == ToBits(rev, size) then size * 512 + sym else old(lookUp[x])
    {
      var k := size * 512 + sym;
      var r := rev;
      Pow2Monotone(size, FAST_BITS);
      assert forall x :: 0 <= x < r ==> ToBits(x, size) != ToBits(rev, size) by {
        forall x | 0 <= x < r ensures ToBits(x, size) != ToBits(rev, size) {
          SameLowBits(x, rev, size);
        }
      }
      while r < FAST_SIZE
        invariant ToBits(r, size) == ToBits(rev, size)
        invariant forall x :: 0 <= x < FAST_SIZE ==>
                    lookUp[x] == if x < r && ToBits(x, size) == ToBits(rev, size) then k else old(lookUp[x])
        decreases FAST_SIZE - r
      {
        forall x | r < x < r + Pow2(size)
          ensures ToBits(x, size) != ToBits(rev, size)
        {
          SameLowBits(r, x, size);
        }
        SameLowBits(r, r, size);
        lookUp[r] := k;
        r := r + Pow2(size);
      }
    }

    /** The node for the first FAST_BITS bits of a long code, which is made if it is not there yet. */
    method Enter(ghost sizes: seq<nat>, ghost paths: seq<seq<bool>>, ghost m: nat, rev: nat, ghost size: nat, treeNext: int)
      returns (cur: int, next: int, ghost paths': seq<seq<bool>>)
      requires Valid() && Decodable(sizes) && TableInv(sizes, paths, m, lookUp[..], tree[..])
      requires Used(sizes, m) && size == sizes[m] && size > FAST_BITS
      requires ToBits(rev, size) == Code(sizes, m) && treeNext == Ref(|paths|)
      modifies lookUp
      ensures TableInv(sizes, paths', m, lookUp[..], tree[..]) && next == Ref(|paths'|)
      ensures At(paths', cur, Code(sizes, m)[..FAST_BITS]) && Threaded(sizes, paths', m, FAST_BITS + 1)
    {
      ghost var p := Code(sizes, m)[..FAST_BITS];
      next, paths' := treeNext, paths;
      var x := rev % FAST_SIZE;
      LowBits(rev, size);
      FirstNode(sizes, paths, m, lookUp[..], tree[..], x);
      cur := lookUp[x];
      if cur == 0 {
        AddLookNode(sizes, paths, m, lookUp[..], tree[..], x);
        AtNew(paths, p);
        lookUp[x] := next;
        cur := next;
        next := next - 2;
        paths' := paths + [p];
      }
      ThreadedMore(sizes, paths', m, FAST_BITS, cur);
    }

    /** Threads the code of symbol m, longer than FAST_BITS, through the tree. */
    method InsertLong(ghost sizes: seq<nat>, ghost paths: seq<seq<bool>>, m: nat, rev: nat, size: nat, treeNext: int)
      returns (next: int, ghost paths': seq<seq<bool>>)
      requires Valid() && Decodable(sizes) && TableInv(sizes, paths, m, lookUp[..], tree[..])
      requires Used(sizes, m) && size == sizes[m] && size > FAST_BITS
      requires ToBits(rev, size) == Code(sizes, m) && treeNext == Ref(|paths|)
      modifies lookUp, tree
      ensures TableInv(sizes, paths', m + 1, lookUp[..], tree[..]) && next == Ref(|paths'|)
    {
      var cur;
      cur, next, paths' := Enter(sizes, paths, m, rev, size, treeNext);
      var r := Shr(rev, FAST_BITS - 1);
      var j := size;
      while j > FAST_BITS + 1
        invariant FAST_BITS + 1 <= j <= size
        invariant r == Shr(rev, size - j + FAST_BITS - 1)
        invariant TableInv(sizes, paths', m, lookUp[..], tree[..]) && next == Ref(|paths'|)
        invariant At(paths', cur, Code(sizes, m)[..size - j + FAST_BITS])
        invariant Threaded(sizes, paths', m, size - j + FAST_BITS + 1)
      {
        cur, next, r, paths' := Descend(sizes, paths', m, rev, size - j + FAST_BITS, cur, next, r);
        j := j - 1;
      }
      Attach(sizes, paths', m, rev, size, cur, r);
    }

    /** Stores symbol m in the slot for the last bit of its code. */
    method Attach(ghost sizes: seq<nat>, ghost paths: seq<seq<bool>>, m: nat, ghost rev: nat, ghost size: nat, cur: int, r: nat)
      requires Valid() && Decodable(sizes) && TableInv(sizes, paths, m, lookUp[..], tree[..])
      requires Used(sizes, m) && size == sizes[m] && size > FAST_BITS && ToBits(rev, size) == Code(sizes, m)
      requires r == Shr(rev, size - 2) && At(paths, cur, Code(sizes, m)[..size - 1]) && Threaded(sizes, paths, m, size)
      modifies tree
      ensures TableInv(sizes, paths, m + 1, lookUp[..], tree[..])
    {
      ShrStep(rev, size - 2);
      ToBitsAt(rev, size, size - 1);
      var r' := r / 2;
      NextSlot(sizes, paths, m, lookUp[..], tree[..], size - 1, cur, r' % 2);
      var slot := -(cur - r' % 2) - 1;
      assert Code(sizes, m)[..size] == Code(sizes, m);
      AddLong(sizes, paths, m, lookUp[..], tree[..], slot);
      tree[slot] := m;
    }

    /** From the node for the first d bits of the code of m to the node for one more bit,
        which is made if it is not there yet. */
    method Descend(ghost sizes: seq<nat>, ghost paths: seq<seq<bool>>, ghost m: nat, ghost rev: nat, ghost d: nat,
                   cur: int, treeNext: int, r: nat)
      returns (cur': int, next: int, r': nat, ghost paths': seq<seq<bool>>)
      requires Valid() && Decodable(sizes) && TableInv(sizes, paths, m, lookUp[..], tree[..])
      requires Used(sizes, m) && FAST_BITS <= d < sizes[m] - 1
      requires ToBits(rev, sizes[m]) == Code(sizes, m) && treeNext == Ref(|paths|)
      requires r == Shr(rev, d - 1) && At(paths, cur, Code(sizes, m)[..d]) && Threaded(sizes, paths, m, d + 1)
      modifies tree
      ensures TableInv(sizes, paths', m, lookUp[..], tree[..]) && next == Ref(|paths'|)
      ensures r' == Shr(rev, d) && At(paths', cur', Code(sizes, m)[..d + 1]) && Threaded(sizes, paths', m, d + 2)
    {
      ghost var p := Code(sizes, m)[..d + 1];
      next, paths' := treeNext, paths;
      ShrStep(rev, d - 1);
      ToBitsAt(rev, sizes[m], d);
      r' := r / 2;
      NextSlot(sizes, paths, m, lookUp[..], tree[..], d, cur, r' % 2);
      var slot := -(cur - r' % 2) - 1;
      NextNode(sizes, paths, m, lookUp[..], tree[..], d, slot);
      cur' := tree[slot];
      if cur' == 0 {
        AddTreeNode(sizes, paths, m, lookUp[..], tree[..], slot);
        AtNew(paths, p);
        ThreadedGrow(sizes, paths, p, m, d + 1);
        tree[slot] := next;
        cur' := next;
        next := next - 2;
        paths' := paths + [p];
      }
      ThreadedMore(sizes, paths', m, d + 1, cur');
    }

    /** How many symbols there are of each length. */
    method CountSizes(n: nat) returns (totals: array<nat>)
      requires Valid() && n <= MAX_SYMBOLS && Limited(Sizes(n))
      ensures fresh(totals) && totals.Length == MAX_CODE_SIZE + 1
      ensures forall l :: 0 <= l <= MAX_CODE_SIZE ==> totals[l] == Count(Sizes(n), l)
    {
      totals := new nat[MAX_CODE_SIZE + 1](l => 0);
      for i := 0 to n
        invariant forall l :: 0 <= l <= MAX_CODE_SIZE ==> totals[l] == CountIn(Sizes(n), i, l)
      {
        assert Sizes(n)[i] == codeSize[i];
        totals[codeSize[i]] := totals[codeSize[i]] + 1;
      }
    }

    /** Builds the table for the lengths of the first n symbols; fails when they leave code space
        unused or take too much of it, unless there is only one code. */
    method Build(n: nat) returns (ok: bool)
      requires Valid() && n <= MAX_SYMBOLS && Limited(Sizes(n))
      modifies lookUp, tree
      ensures ok <==> Decodable(Sizes(n))
      ensures ok ==> Ready(Sizes(n))
    {
      ghost var sizes := Sizes(n);
      var totals := CountSizes(n);
      forall i | 0 <= i < FAST_SIZE { lookUp[i] := 0; }
      forall i | 0 <= i < TREE_SIZE { tree[i] := 0; }
      var nextCode := new nat[MAX_CODE_SIZE + 2](l => 0);
      var usedSyms, total := 0, 0;
      for i := 1 to MAX_CODE_SIZE + 1
        invariant total == 2 * Total(sizes, i - 1) && usedSyms == UsedUpTo(sizes, i - 1)
        invariant forall l :: 1 <= l <= i ==> nextCode[l] == FirstCode(sizes, l)
        invariant forall l :: 0 <= l <= MAX_CODE_SIZE ==> totals[l] == Count(sizes, l)
        invariant sizes == Sizes(n) && lookUp[..] == seq(FAST_SIZE, i => 0) && tree[..] == seq(TREE_SIZE, i => 0)
      {
        usedSyms := usedSyms + totals[i];
        total := (total + totals[i]) * 2;
        nextCode[i + 1] := total;
      }
      AcceptedIsDecodable(sizes);
      if total != 65536 && usedSyms > 1 {
        return false;
      }
      DecodableFits(sizes);
      EmptyTable(sizes, lookUp[..], tree[..]);
      AddSymbols(n, nextCode);
      ok := true;
    }

    method AddSymbols(n: nat, nextCode: array<nat>)
      requires Valid() && n <= MAX_SYMBOLS && Limited(Sizes(n)) && Decodable(Sizes(n))
      requires TableInv(Sizes(n), [], 0, lookUp[..], tree[..])
      requires nextCode.Length == MAX_CODE_SIZE + 2 && nextCode != codeSize
      requires forall l :: 1 <= l <= MAX_CODE_SIZE ==> nextCode[l] == FirstCode(Sizes(n), l)
      modifies lookUp, tree, nextCode
      ensures Ready(Sizes(n))
    {
      hide Decodable, TableInv;
      ghost var sizes := Sizes(n);
      ghost var paths := [];
      var treeNext := -1;
      for sym := 0 to n
        invariant sizes == Sizes(n) && TableInv(sizes, paths, sym, lookUp[..], tree[..]) && treeNext == Ref(|paths|)
        invariant forall l :: 1 <= l <= MAX_CODE_SIZE ==> nextCode[l] == FirstCode(sizes, l) + CountIn(sizes, sym, l)
      {
        var size := codeSize[sym];
        assert size == sizes[sym];
        if size == 0 {
          SkipUnused(sizes, paths, sym, lookUp[..], tree[..]);
        } else {
          var code := nextCode[size];
          nextCode[size] := code + 1;
          treeNext, paths := AddSymbol(sizes, paths, sym, code, size, treeNext);
        }
      }
    }

    method AddSymbol(ghost sizes: seq<nat>, ghost paths: seq<seq<bool>>, sym: nat, code: nat, size: nat, treeNext: int)
      returns (next: int, ghost paths': seq<seq<bool>>)
      requires Valid() && Decodable(sizes) && TableInv(sizes, paths, sym, lookUp[..], tree[..])
      requires Used(sizes, sym) && size == sizes[sym] && code == CodeNum(sizes, sym) && treeNext == Ref(|paths|)
      modifies lookUp, tree
      ensures TableInv(sizes, paths', sym + 1, lookUp[..], tree[..]) && next == Ref(|paths'|)
    {
      var rev := ReverseBits(code, size);
      if size <= FAST_BITS {
        ghost var look := lookUp[..];
        FillShort(rev, size, sym);
        forall x | 0 <= x < FAST_SIZE
          ensures lookUp[..][x] == if Code(sizes, sym) <= ToBits(x, FAST_BITS) then size * 512 + sym else look[x]
        {
          ToBitsPrefix(x, size, FAST_BITS);
          assert Code(sizes, sym) <= ToBits(x, FAST_BITS) <==> Code(sizes, sym) == ToBits(x, size);
        }
        AddShort(sizes, paths, sym, look, tree[..], lookUp[..]);
        next, paths' := treeNext, paths;
      } else {
        next, paths' := InsertLong(sizes, paths, sym, rev, size, treeNext);
      }
    }

    /** Decodes the symbol whose code the low bits of buf spell.  The result is the raw table entry,
        whose nine low bits are the symbol, and the length of the code. */
    method Decode(buf: nat, ghost sizes: seq<nat>, ghost k: nat, ghost n: nat) returns (raw: nat, codeLen: nat)
      requires Valid() && Ready(sizes) && Used(sizes, k) && Code(sizes, k) <= ToBits(buf, n)
      ensures raw % 512 == k && codeLen == sizes[k]
    {
      ghost var paths := StartDecoding(sizes, lookUp[..], tree[..], k, buf, n);
      var temp := lookUp[buf % FAST_SIZE];
      assert temp == lookUp[..][buf % FAST_SIZE];
      if temp >= 0 {
        return temp, temp / 512;
      }
      raw, codeLen := Walk(temp, buf, sizes, paths, k, n);
    }

    /** Follows a long code through the tree, one bit at a time. */
    method Walk(first: int, buf: nat, ghost sizes: seq<nat>, ghost paths: seq<seq<bool>>, ghost k: nat, ghost n: nat)
      returns (raw: nat, codeLen: nat)
      requires Valid() && TreeOk(sizes, paths, |sizes|, tree[..])
      requires Used(sizes, k) && |sizes| <= MAX_SYMBOLS && Threaded(sizes, paths, k, sizes[k])
      requires FAST_BITS < sizes[k] && At(paths, first, Code(sizes, k)[..FAST_BITS]) && Code(sizes, k) <= ToBits(buf, n)
      ensures raw == k && codeLen == sizes[k]
    {
      var temp := first;
      codeLen := FAST_BITS;
      while temp < 0
        invariant FAST_BITS <= codeLen <= sizes[k]
        invariant if codeLen < sizes[k] then At(paths, temp, Code(sizes, k)[..codeLen]) else temp == k
        decreases sizes[k] - codeLen
      {
        CodeBit(Code(sizes, k), buf, n, [], codeLen);
        WalkStep(sizes, paths, tree[..], k, codeLen, temp, Shr(buf, codeLen) % 2);
        temp := tree[-temp - 1 + Shr(buf, codeLen) % 2];
        codeLen := codeLen + 1;
      }
      raw := temp;
    }

    /** Whether the numBits bits in the buffer already hold a whole code. */
    method HoldsCode(buf: nat, numBits: nat, ghost sizes: seq<nat>, ghost k: nat, ghost rest: seq<bool>) returns (holds: bool)
      requires Valid() && Ready(sizes) && Used(sizes, k)
      requires Code(sizes, k) <= ToBits(buf, numBits) + rest
      ensures holds <==> sizes[k] <= numBits
    {
      ghost var paths :| TableInv(sizes, paths, |sizes|, lookUp[..], tree[..]);
      var temp := lookUp[buf % FAST_SIZE];
      PartialLook(sizes, lookUp[..], tree[..], paths, k, buf, numBits, rest);
      if temp >= 0 {
        var codeLen := temp / 512;
        return codeLen > 0 && numBits >= codeLen;
      }
      if numBits <= FAST_BITS {
        return false;
      }
      assert Leaf(sizes, |sizes|, k);
      holds := WalkPartly(temp, buf, numBits, sizes, paths, k, rest);
    }

    /** Follows a long code for as many bits as there are; says whether they were enough. */
    method WalkPartly(first: int, buf: nat, numBits: nat, ghost sizes: seq<nat>, ghost paths: seq<seq<bool>>, ghost k: nat,
                      ghost rest: seq<bool>)
      returns (holds: bool)
      requires Valid() && TreeOk(sizes, paths, |sizes|, tree[..])
      requires Used(sizes, k) && Threaded(sizes, paths, k, sizes[k]) && FAST_BITS < numBits
      requires FAST_BITS < sizes[k] && At(paths, first, Code(sizes, k)[..FAST_BITS]) && Code(sizes, k) <= ToBits(buf, numBits) + rest
      ensures holds <==> sizes[k] <= numBits
    {
      var temp := first;
      var codeLen := FAST_BITS;
      while true
        invariant FAST_BITS <= codeLen < numBits && codeLen < sizes[k]
        invariant At(paths, temp, Code(sizes, k)[..codeLen])
        decreases numBits - codeLen
      {
        CodeBit(Code(sizes, k), buf, numBits, rest, codeLen);
        WalkStep(sizes, paths, tree[..], k, codeLen, temp, Shr(buf, codeLen) % 2);
        temp := tree[-temp - 1 + Shr(buf, codeLen) % 2];
        codeLen := codeLen + 1;
        if temp >= 0 || numBits < codeLen + 1 {
          return temp >= 0;
        }
      }
    }
  }
}
