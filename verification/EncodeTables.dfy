/** The compressor's code tables: symbol counts, code lengths, and the codes with their bits reversed. */
module EncodeTables {
  import opened Bits
  import opened Canonical

  const MAX_HUFF_SYMBOLS := 288
  const MAX_SUPPORTED_CODE_SIZE := 32

  class EncodeTable {
    const counts: array<nat>
    const codes: array<nat>
    const sizes: array<nat>

    constructor ()
      ensures Valid() && fresh(counts) && fresh(codes) && fresh(sizes)
      ensures forall k :: 0 <= k < MAX_HUFF_SYMBOLS ==> counts[k] == 0
    {
      counts := new nat[MAX_HUFF_SYMBOLS](_ => 0);
      codes := new nat[MAX_HUFF_SYMBOLS];
      sizes := new nat[MAX_HUFF_SYMBOLS];
    }

    ghost predicate Valid()
    {
      && counts.Length == codes.Length == sizes.Length == MAX_HUFF_SYMBOLS
      && counts != codes && counts != sizes && codes != sizes
    }

    ghost function Sizes(n: nat): (s: seq<nat>)
      requires Valid() && n <= MAX_HUFF_SYMBOLS
      reads sizes
      ensures |s| == n
    {
      sizes[..n]
    }

    ghost function Counts(n: nat): (s: seq<nat>)
      requires Valid() && n <= MAX_HUFF_SYMBOLS
      reads counts
      ensures |s| == n
    {
      counts[..n]
    }

    /** For every symbol that has a code in lens, the table holds it, in the order its bits are sent. */
    ghost predicate Ready(lens: seq<nat>)
      requires Valid()
      reads codes, sizes
    {
      forall k: nat :: Used(lens, k) ==> k < MAX_HUFF_SYMBOLS && Holds(lens, k)
    }

    ghost predicate Holds(lens: seq<nat>, k: nat)
      requires Valid() && k < MAX_HUFF_SYMBOLS && k < |lens|
      reads codes, sizes
    {
      sizes[k] == lens[k] <= MAX_CODE_SIZE && codes[k] < Pow2(lens[k]) && ToBits(codes[k], lens[k]) == Code(lens, k)
    }

    lemma HasCode(lens: seq<nat>, k: nat)
      requires Valid() && Ready(lens) && Used(lens, k)
      ensures k < MAX_HUFF_SYMBOLS && sizes[k] == lens[k] <= MAX_CODE_SIZE
      ensures codes[k] < Pow2(sizes[k]) && ToBits(codes[k], sizes[k]) == Code(lens, k)
    {
      assert Holds(lens, k);
    }

    /** How many of the first n symbols have each length. */
    method CountSizes(n: nat, numCodes: array<nat>)
      requires Valid() && n <= MAX_HUFF_SYMBOLS && numCodes.Length == MAX_SUPPORTED_CODE_SIZE + 1
      requires numCodes !in {counts, codes, sizes} && Limited(Sizes(n))
      modifies numCodes
      ensures forall l :: 0 <= l <= MAX_CODE_SIZE ==> numCodes[l] == Count(Sizes(n), l)
    {
      forall l | 0 <= l < numCodes.Length { numCodes[l] := 0; }
      ghost var s := Sizes(n);
      for i := 0 to n
        invariant s == Sizes(n)
        invariant forall l :: 0 <= l <= MAX_CODE_SIZE ==> numCodes[l] == CountIn(s, i, l)
      {
        assert s[i] == sizes[i];
        numCodes[sizes[i]] := numCodes[sizes[i]] + 1;
      }
    }

    /** The first code of each length. */
    method FirstCodes(limit: nat, numCodes: array<nat>, nextCode: array<nat>, ghost lens: seq<nat>)
      requires limit <= MAX_CODE_SIZE && numCodes.Length == nextCode.Length == MAX_SUPPORTED_CODE_SIZE + 1
      requires nextCode != numCodes && forall l :: 1 <= l <= limit ==> numCodes[l] == Count(lens, l)
      modifies nextCode
      ensures forall l :: 1 <= l <= limit ==> nextCode[l] == FirstCode(lens, l)
    {
      nextCode[1] := 0;
      var j, i := 0, 2;
      while i <= limit
        invariant 2 <= i <= if limit < 2 then 2 else limit + 1
        invariant j == FirstCode(lens, i - 1)
        invariant forall l :: 1 <= l < i ==> nextCode[l] == FirstCode(lens, l)
      {
        j := (j + numCodes[i - 1]) * 2;
        nextCode[i] := j;
        i := i + 1;
      }
    }

    /** Gives every symbol its canonical code. */
    method AssignCodes(n: nat, limit: nat, numCodes: array<nat>)
      requires Valid() && n <= MAX_HUFF_SYMBOLS && limit <= MAX_CODE_SIZE && numCodes.Length == MAX_SUPPORTED_CODE_SIZE + 1
      requires Fits(Sizes(n)) && forall k :: 0 <= k < n ==> sizes[k] <= limit
      requires forall l :: 1 <= l <= limit ==> numCodes[l] == Count(Sizes(n), l)
      modifies codes
      ensures Ready(Sizes(n))
    {
      hide Fits, FirstCode, Holds;
      ghost var s := Sizes(n);
      var nextCode := new nat[MAX_SUPPORTED_CODE_SIZE + 1];
      FirstCodes(limit, numCodes, nextCode, s);
      for i := 0 to n
        invariant s == Sizes(n)
        invariant forall l :: 1 <= l <= limit ==> nextCode[l] == FirstCode(s, l) + CountIn(s, i, l)
        invariant forall k: nat :: k < i && Used(s, k) ==> Holds(s, k)
      {
        var size := sizes[i];
        assert size == s[i];
        if size > 0 {
          var code := nextCode[size];
          nextCode[size] := code + 1;
          assert code == CodeNum(s, i);
          PutCode(i, code, s);
        }
      }
    }

    method PutCode(k: nat, code: nat, ghost s: seq<nat>)
      requires Valid() && k < |s| <= MAX_HUFF_SYMBOLS && s == Sizes(|s|) && s[k] <= MAX_CODE_SIZE && code == CodeNum(s, k)
      modifies codes
      ensures Holds(s, k)
      ensures forall j: nat :: j < |s| && j != k && old(Holds(s, j)) ==> Holds(s, j)
    {
      var rev := ReverseBits(code, sizes[k]);
      codes[k] := rev;
    }
  }
}
