/** Adler-32 (section 2.2 of RFC 1950) with the modulus put off for up to 5552 bytes. */
module Adler32 {
  import opened Bits

  const MODULUS: nat := 65521
  const BLOCK: nat := 5552
  const WORD: nat := 0x1_0000_0000

  datatype Sums = Sums(s1: nat, s2: nat)

  /** Both sums reduced after every byte. */
  function Reduced(s: Sums, data: seq<byte>): Sums
    decreases |data|
  {
    if data == [] then s
    else
      var m := |data| - 1;
      var t := Reduced(s, data[..m]);
      Sums((t.s1 + data[m]) % MODULUS, (t.s2 + t.s1 + data[m]) % MODULUS)
  }

  function Open(adler: nat): Sums {
    Sums(adler % 0x1_0000, adler / 0x1_0000)
  }

  function Close(s: Sums): nat {
    s.s2 * 0x1_0000 + s.s1
  }

  predicate Congruent(a: Sums, b: Sums) {
    a.s1 % MODULUS == b.s1 % MODULUS && a.s2 % MODULUS == b.s2 % MODULUS
  }

  /** The largest second sum after i bytes that were not reduced. */
  function Most(i: nat): nat {
    if i == 0 then 0xFFFF else Most(i - 1) + 0xFFFF + 255 * i
  }

  predicate Bounded(s: Sums, i: nat) {
    s.s1 <= 0xFFFF + 255 * i && s.s2 <= Most(i)
  }

  lemma {:induction false} MostIs(i: nat)
    ensures 2 * Most(i) == 2 * 0xFFFF * (i + 1) + 255 * i * (i + 1)
  {
    if i > 0 {
      MostIs(i - 1);
      assert 255 * i * (i + 1) == 255 * (i - 1) * i + 2 * (255 * i);
    }
  }

  lemma {:induction false} MostGrows(i: nat, j: nat)
    requires i <= j
    ensures Most(i) <= Most(j)
    decreases j
  {
    if i < j { MostGrows(i, j - 1); }
  }

  /** Within a block no sum leaves 32 bits, from whatever 16-bit halves it starts. */
  lemma NoOverflow(s: Sums, i: nat)
    requires i <= BLOCK && Bounded(s, i)
    ensures s.s1 < WORD && s.s2 < WORD
  {
    MostGrows(i, BLOCK);
    MostIs(BLOCK);
  }

  /** A 32-bit addition. */
  function Add(a: nat, b: nat): nat {
    (a + b) % WORD
  }

  lemma AddExact(a: nat, b: nat)
    requires a + b < WORD
    ensures Add(a, b) == a + b
  {
  }

  lemma AddMod(a: nat, b: nat, c: nat)
    requires a % MODULUS == b % MODULUS
    ensures (a + c) % MODULUS == (b + c) % MODULUS
  {
    assert a + c == MODULUS * (a / MODULUS) + (a % MODULUS + c);
    assert b + c == MODULUS * (b / MODULUS) + (b % MODULUS + c);
    var r := a % MODULUS + c;
    ModUnique(a + c, MODULUS, a / MODULUS + r / MODULUS, r % MODULUS);
    ModUnique(b + c, MODULUS, b / MODULUS + r / MODULUS, r % MODULUS);
  }

  lemma ByteNext(s: Sums, i: nat, start: Sums, data: seq<byte>, p: nat)
    requires i < BLOCK && Bounded(s, i) && p < |data| && Congruent(s, Reduced(start, data[..p]))
    ensures s.s1 + data[p] < WORD && s.s2 + s.s1 + data[p] < WORD
    ensures var t := Sums(s.s1 + data[p], s.s2 + s.s1 + data[p]);
            Bounded(t, i + 1) && Congruent(t, Reduced(start, data[..p + 1]))
  {
    hide Reduced;
    var r := Reduced(start, data[..p]);
    var b := data[p];
    ReducedNext(start, data, p);
    AddMod(s.s1, r.s1, b);
    AddMod(s.s2, r.s2, s.s1 + b);
    AddMod(s.s1 + b, r.s1 + b, r.s2);
    ModTwice(r.s1 + b);
    ModTwice(r.s2 + r.s1 + b);
    NoOverflow(Sums(s.s1 + b, s.s2 + s.s1 + b), i + 1);
  }

  lemma ModTwice(a: nat)
    ensures a % MODULUS % MODULUS == a % MODULUS
  {
  }

  lemma ReducedNext(s: Sums, data: seq<byte>, p: nat)
    requires p < |data|
    ensures var t := Reduced(s, data[..p]);
            Reduced(s, data[..p + 1]) == Sums((t.s1 + data[p]) % MODULUS, (t.s2 + t.s1 + data[p]) % MODULUS)
  {
    assert data[..p + 1][..p] == data[..p];
  }

  method AddByte(s: Sums, ghost i: nat, ghost start: Sums, data: seq<byte>, p: nat) returns (t: Sums)
    requires i < BLOCK && Bounded(s, i) && p < |data| && Congruent(s, Reduced(start, data[..p]))
    ensures Bounded(t, i + 1) && Congruent(t, Reduced(start, data[..p + 1]))
  {
    hide Reduced, Congruent, Bounded, Add;
    ByteNext(s, i, start, data, p);
    AddExact(s.s1, data[p]);
    AddExact(s.s2, s.s1 + data[p]);
    var s1 := Add(s.s1, data[p]);
    var s2 := Add(s.s2, s1);
    t := Sums(s1, s2);
  }

  /** One block: eight bytes a pass, then the odd ones, then the reduction. */
  method AddBlock(s: Sums, ghost start: Sums, data: seq<byte>, p: nat, blockLen: nat) returns (t: Sums)
    requires blockLen <= BLOCK && p + blockLen <= |data| && Bounded(s, 0)
    requires Congruent(s, Reduced(start, data[..p]))
    ensures t == Final(start, data[..p + blockLen])
  {
    hide Reduced, Congruent, Bounded;
    t := s;
    var i := 0;
    while i + 7 < blockLen
      invariant 0 <= i <= blockLen && Bounded(t, i) && Congruent(t, Reduced(start, data[..p + i]))
    {
      t := AddByte(t, i, start, data, p + i);
      t := AddByte(t, i + 1, start, data, p + i + 1);
      t := AddByte(t, i + 2, start, data, p + i + 2);
      t := AddByte(t, i + 3, start, data, p + i + 3);
      t := AddByte(t, i + 4, start, data, p + i + 4);
      t := AddByte(t, i + 5, start, data, p + i + 5);
      t := AddByte(t, i + 6, start, data, p + i + 6);
      t := AddByte(t, i + 7, start, data, p + i + 7);
      i := i + 8;
    }
    while i < blockLen
      invariant 0 <= i <= blockLen && Bounded(t, i) && Congruent(t, Reduced(start, data[..p + i]))
    {
      t := AddByte(t, i, start, data, p + i);
      i := i + 1;
    }
    ReduceSame(t, Reduced(start, data[..p + blockLen]));
    t := Sums(t.s1 % MODULUS, t.s2 % MODULUS);
  }

  /** The sums after the data, reduced also when there are no data. */
  function Final(start: Sums, data: seq<byte>): Sums {
    var r := Reduced(start, data);
    Sums(r.s1 % MODULUS, r.s2 % MODULUS)
  }

  lemma ReduceSame(a: Sums, b: Sums)
    requires Congruent(a, b)
    ensures a.s1 % MODULUS == b.s1 % MODULUS && a.s2 % MODULUS == b.s2 % MODULUS
  {
  }

  lemma ReducedIsReduced(start: Sums, data: seq<byte>)
    requires data != []
    ensures Final(start, data) == Reduced(start, data)
    ensures Reduced(start, data).s1 < MODULUS && Reduced(start, data).s2 < MODULUS
  {
  }

  lemma StillReduced(start: Sums, data: seq<byte>)
    ensures Bounded(Final(start, data), 0) && Congruent(Final(start, data), Reduced(start, data))
  {
    hide Reduced;
  }

  lemma OpenBounded(adler: nat)
    requires adler < WORD
    ensures Bounded(Open(adler), 0)
  {
  }

  lemma CloseBounded(s: Sums)
    requires Bounded(s, 0)
    ensures Close(s) < WORD && Open(Close(s)) == s
  {
    ModUnique(Close(s), 0x1_0000, s.s2, s.s1);
  }

  lemma ReducedNone(start: Sums)
    ensures Reduced(start, []) == start
  {
  }

  /** The checksum of the data behind data with the checksum adler. */
  method Adler(adler: nat, data: seq<byte>) returns (r: nat)
    requires adler < WORD
    ensures r == Close(Reduced(Open(adler), data)) && r < WORD
    ensures Open(r) == Reduced(Open(adler), data)
  {
    hide Reduced, Final, Congruent, Bounded, Close, Open;
    var s := Open(adler);
    ghost var start := s;
    OpenBounded(adler);
    var bufLen: nat, p: nat := |data|, 0;
    var blockLen := bufLen % BLOCK;
    assert data[..0] == [];
    ReducedNone(start);
    CongruentSelf(start);
    while bufLen > 0
      invariant p + bufLen == |data| && 0 <= blockLen <= BLOCK && (bufLen - blockLen) % BLOCK == 0
      invariant bufLen > 0 ==> blockLen <= bufLen
      invariant Bounded(s, 0) && Congruent(s, Reduced(start, data[..p]))
      invariant p > 0 ==> s == Final(start, data[..p])
      invariant data == [] ==> s == start
      decreases bufLen, BLOCK - blockLen
    {
      s := AddBlock(s, start, data, p, blockLen);
      p := p + blockLen;
      StillReduced(start, data[..p]);
      bufLen := bufLen - blockLen;
      blockLen := BLOCK;
    }
    assert data[..p] == data;
    if data != [] { ReducedIsReduced(start, data); }
    CloseBounded(s);
    r := Close(s);
  }

  lemma CongruentSelf(s: Sums)
    ensures Congruent(s, s)
  {
  }

  function Flatten(pieces: seq<seq<byte>>): seq<byte> {
    if pieces == [] then [] else Flatten(pieces[..|pieces| - 1]) + pieces[|pieces| - 1]
  }

  lemma {:induction false} ReducedConcat(s: Sums, a: seq<byte>, b: seq<byte>)
    ensures Reduced(s, a + b) == Reduced(Reduced(s, a), b)
    decreases |b|
  {
    if b == [] {
      assert a + b == a;
    } else {
      var m := |b| - 1;
      ReducedConcat(s, a, b[..m]);
      assert (a + b)[..|a + b| - 1] == a + b[..m];
      assert (a + b)[|a + b| - 1] == b[m];
    }
  }

  /** One run for each call of the decompressor gives what one run over its whole output gives. */
  method InPieces(adler: nat, pieces: seq<seq<byte>>) returns (r: nat)
    requires adler < WORD
    ensures r == Close(Reduced(Open(adler), Flatten(pieces))) && r < WORD
  {
    hide Reduced, Close, Open, Bounded;
    r := adler;
    OpenBounded(adler);
    ReducedNone(Open(adler));
    assert Flatten(pieces[..0]) == [];
    for k := 0 to |pieces|
      invariant r < WORD && Open(r) == Reduced(Open(adler), Flatten(pieces[..k]))
    {
      assert pieces[..k + 1][..k] == pieces[..k];
      ReducedConcat(Open(adler), Flatten(pieces[..k]), pieces[k]);
      r := Adler(r, pieces[k]);
    }
    assert pieces[..|pieces|] == pieces;
    CloseOpen(r);
  }

  lemma CloseOpen(adler: nat)
    ensures Close(Open(adler)) == adler
  {
  }

  function Total(data: seq<byte>): nat {
    if data == [] then 0 else Total(data[..|data| - 1]) + data[|data| - 1]
  }

  /** The values that the first sum takes, added up. */
  function TotalOfSums(data: seq<byte>): nat {
    if data == [] then 0 else TotalOfSums(data[..|data| - 1]) + 1 + Total(data)
  }

  /** From the initial value 1 the halves are the two sums, modulo 65521. */
  lemma {:induction false} Meaning(data: seq<byte>)
    ensures Reduced(Open(1), data) == Sums((1 + Total(data)) % 65521, TotalOfSums(data) % 65521)
    decreases |data|
  {
    if data != [] {
      var m := |data| - 1;
      var t := Reduced(Open(1), data[..m]);
      Meaning(data[..m]);
      ModTwice(1 + Total(data[..m]));
      ModTwice(TotalOfSums(data[..m]));
      AddMod(t.s1, 1 + Total(data[..m]), data[m]);
      AddMod(t.s2, TotalOfSums(data[..m]), t.s1 + data[m]);
      AddMod(t.s1 + data[m], 1 + Total(data), TotalOfSums(data[..m]));
    }
  }
}
