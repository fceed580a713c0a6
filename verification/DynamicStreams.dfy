/** A stream of one dynamic block, given by its bytes: what it stands for is laid down by RFC 1951 alone. */
module DynamicStreams {
  import opened Bits
  import opened Canonical
  import opened Symbols
  import opened RunLength
  import opened Format
  import opened Streams
  import opened Published
  import opened KnownStreams
  import opened Inflate

  /** The letters a to d have codes of three bits, the end of the block and the lengths 11 and 12 codes of two. */
  function LitLens(): (s: seq<nat>)
    ensures |s| == 266
  {
    seq(266, i => if 97 <= i <= 100 then 3 else if i == 256 || i == 265 then 2 else 0)
  }

  /** Only the distances 5 and 6 have a code. */
  function DistLens(): (s: seq<nat>)
    ensures |s| == 5
  {
    [0, 0, 0, 0, 1]
  }

  function PackLens(): (s: seq<nat>)
    ensures |s| == 19
  {
    [0, 4, 2, 4, 0, 0, 0, 0, 0, 0, 0, 0, 0, 0, 0, 0, 3, 2, 2]
  }

  function Ops(): seq<Op>
  {
    [Op(18, 86)] + ([Op(3, 0)] + ([Op(16, 0)] + ([Op(18, 127)] + ([Op(18, 6)] + MoreOps()))))
  }

  function MoreOps(): seq<Op>
  {
    [Op(2, 0)] + ([Op(17, 5)] + ([Op(2, 0)] + ([Op(17, 1)] + ([Op(1, 0)] + []))))
  }

  function TheHeader(): Header
  {
    Header(LitLens(), DistLens(), PackLens(), 18, Ops())
  }

  // ---------- how many codes there are

  lemma {:induction false} LitCount(hi: nat, l: nat)
    requires hi <= 266 && l > 0
    ensures CountIn(LitLens(), hi, l) ==
              if l == 3 then (if hi <= 97 then 0 else if hi <= 101 then hi - 97 else 4)
              else if l == 2 then (if hi > 256 then 1 else 0) + (if hi > 265 then 1 else 0) else 0
  {
    if hi > 0 {
      LitCount(hi - 1, l);
    }
  }

  lemma {:induction false} PackCount(hi: nat, l: nat)
    requires hi <= 19 && l > 0
    ensures CountIn(PackLens(), hi, l) ==
              if l == 2 then (if hi > 2 then 1 else 0) + (if hi > 17 then 1 else 0) + (if hi > 18 then 1 else 0)
              else if l == 3 then (if hi > 16 then 1 else 0)
              else if l == 4 then (if hi > 1 then 1 else 0) + (if hi > 3 then 1 else 0) else 0
  {
    if hi > 0 {
      PackCount(hi - 1, l);
    }
  }

  lemma {:induction false} DistCount(hi: nat, l: nat)
    requires hi <= 5 && l > 0
    ensures CountIn(DistLens(), hi, l) == if l == 1 && hi > 4 then 1 else 0
  {
    if hi > 0 {
      DistCount(hi - 1, l);
    }
  }

  lemma {:induction false} LitTotal(l: nat)
    ensures Total(LitLens(), l) == if l < 2 then 0 else if l == 2 then 2 else Pow2(l)
  {
    if l > 0 {
      LitTotal(l - 1);
      LitCount(266, l);
      assert Pow2(3) == 8;
    }
  }

  lemma {:induction false} PackTotal(l: nat)
    ensures Total(PackLens(), l) == if l < 2 then 0 else if l == 2 then 3 else if l == 3 then 7 else Pow2(l)
  {
    if l > 0 {
      PackTotal(l - 1);
      PackCount(19, l);
      assert Pow2(4) == 16;
    }
  }

  lemma TheTables()
    ensures Decodable(LitLens()) && Decodable(DistLens()) && Decodable(PackLens())
  {
    hide Total, Pow2, LitLens, PackLens, DistLens, Limited, AtMostOne;
    Small();
    LitTotal(MAX_CODE_SIZE);
    PackTotal(MAX_CODE_SIZE);
    FromTotal(LitLens(), MAX_CODE_SIZE);
    FromTotal(PackLens(), MAX_CODE_SIZE);
  }

  lemma Small()
    ensures Limited(LitLens()) && Limited(PackLens()) && AtMostOne(DistLens())
  {
  }

  // ---------- the codes

  lemma LitCode(k: nat)
    requires 97 <= k <= 100 || k == 256 || k == 265
    ensures Used(LitLens(), k)
    ensures Code(LitLens(), k) == if k == 256 then Msb(0, 2) else if k == 265 then Msb(1, 2) else Msb(k - 93, 3)
  {
    hide Total, CountIn, Msb, CodeNum;
    LitTotal(LitLens()[k] - 1);
    LitCount(k, LitLens()[k]);
    Assigned(LitLens(), k);
  }

  lemma PackCode(k: nat)
    requires k in {1, 2, 3, 16, 17, 18}
    ensures Used(PackLens(), k)
    ensures Code(PackLens(), k) ==
              if k == 2 then Msb(0, 2) else if k >= 17 then Msb(k - 16, 2) else if k == 16 then Msb(6, 3)
              else if k == 1 then Msb(14, 4) else Msb(15, 4)
  {
    hide Total, CountIn, Msb, CodeNum;
    PackTotal(PackLens()[k] - 1);
    PackCount(k, PackLens()[k]);
    Assigned(PackLens(), k);
  }

  lemma DistCode()
    ensures Used(DistLens(), 4) && Code(DistLens(), 4) == Msb(0, 1)
  {
    DistCount(4, 1);
    Assigned(DistLens(), 4);
    assert Total(DistLens(), 0) == 0;
  }

  /** The codes, least significant bit first. */
  lemma ShortCodes()
    ensures Msb(0, 1) == ToBits(0, 1) && Msb(0, 2) == ToBits(0, 2) && Msb(1, 2) == ToBits(2, 2) && Msb(2, 2) == ToBits(1, 2)
  {
  }

  lemma CodesOfThree()
    ensures Msb(4, 3) == ToBits(1, 3) && Msb(5, 3) == ToBits(5, 3) && Msb(6, 3) == ToBits(3, 3) && Msb(7, 3) == ToBits(7, 3)
  {
  }

  lemma CodesOfFour()
    ensures Msb(14, 4) == ToBits(7, 4) && Msb(15, 4) == ToBits(15, 4)
  {
  }

  // ---------- the packed lengths

  /** An operation that goes from the first n lengths to the first m. */
  lemma UnpackOne(op: Op, ops: seq<Op>, n: nat, m: nat, all: seq<nat>)
    requires OpOk(op) && n <= m <= |all| && m == n + RunOf(op) && (op.sym == 16 ==> n > 0)
    requires forall i :: n <= i < m ==> all[i] == if op.sym < 16 then op.sym else if op.sym == 16 then all[n - 1] else 0
    requires Unpacks(ops, all[..m], all)
    ensures Unpacks([op] + ops, all[..n], all)
  {
    assert Apply(op, all[..n]) == all[..m];
    assert ([op] + ops)[1..] == ops;
  }

  lemma AllOpsOk()
    ensures OpOk(Op(18, 86)) && OpOk(Op(3, 0)) && OpOk(Op(16, 0)) && OpOk(Op(18, 127)) && OpOk(Op(18, 6))
    ensures OpOk(Op(2, 0)) && OpOk(Op(17, 5)) && OpOk(Op(17, 1)) && OpOk(Op(1, 0))
  {
    Pow2Small();
  }

  lemma NothingMore(all: seq<nat>)
    requires |all| == 271
    ensures Unpacks([], all[..271], all)
  {
  }

  lemma LastOps()
    ensures var all := LitLens() + DistLens(); Unpacks(MoreOps(), all[..256], all)
  {
    hide OpOk, Unpacks, Apply;
    AllOpsOk();
    var all := LitLens() + DistLens();
    NothingMore(all);
    UnpackOne(Op(1, 0), [], 270, 271, all);
    UnpackOne(Op(17, 1), [Op(1, 0)] + [], 266, 270, all);
    UnpackOne(Op(2, 0), [Op(17, 1)] + ([Op(1, 0)] + []), 265, 266, all);
    UnpackOne(Op(17, 5), [Op(2, 0)] + ([Op(17, 1)] + ([Op(1, 0)] + [])), 257, 265, all);
    UnpackOne(Op(2, 0), [Op(17, 5)] + ([Op(2, 0)] + ([Op(17, 1)] + ([Op(1, 0)] + []))), 256, 257, all);
  }

  lemma Unpacked()
    ensures Unpacks(Ops(), [], LitLens() + DistLens())
  {
    hide OpOk, Unpacks, Apply, MoreOps;
    LastOps();
    AllOpsOk();
    var all := LitLens() + DistLens();
    UnpackOne(Op(18, 6), MoreOps(), 239, 256, all);
    UnpackOne(Op(18, 127), [Op(18, 6)] + MoreOps(), 101, 239, all);
    UnpackOne(Op(16, 0), [Op(18, 127)] + ([Op(18, 6)] + MoreOps()), 98, 101, all);
    UnpackOne(Op(3, 0), [Op(16, 0)] + ([Op(18, 127)] + ([Op(18, 6)] + MoreOps())), 97, 98, all);
    UnpackOne(Op(18, 86), [Op(3, 0)] + ([Op(16, 0)] + ([Op(18, 127)] + ([Op(18, 6)] + MoreOps()))), 0, 97, all);
    assert all[..0] == [];
  }

  lemma NoOps(p: seq<nat>, tail: seq<bool>)
    ensures OpsCoded(p, []) && OpsBits(p, []) + tail == tail
  {
  }

  /** An operation in front of others: its code and its extra bits. */
  lemma OneOp(op: Op, c: nat, n: nat, ops: seq<Op>, tail: seq<bool>, t: nat, m: nat)
    requires Used(PackLens(), op.sym) && Code(PackLens(), op.sym) == ToBits(c, n) && c < Pow2(n) && OpOk(op)
    requires OpsCoded(PackLens(), ops) && OpsBits(PackLens(), ops) + tail == ToBits(t, m)
    ensures OpsCoded(PackLens(), [op] + ops)
    ensures var e := ExtraBits(op.sym);
            OpsBits(PackLens(), [op] + ops) + tail == ToBits(Front(c, n, Front(op.extra, e, t)), n + (e + m))
  {
    hide Code, PackLens, ToBits, Pow2, Used, Front;
    var e := ExtraBits(op.sym);
    Joined(op.extra, e, t, m);
    Joined(c, n, Front(op.extra, e, t), e + m);
    assert ([op] + ops)[1..] == ops;
    InFront(ToBits(c, n), ToBits(op.extra, e), OpsBits(PackLens(), ops) + tail);
    InFront(ToBits(c, n) + ToBits(op.extra, e), OpsBits(PackLens(), ops), tail);
  }

  lemma LastOpsBits(tail: seq<bool>)
    requires tail == ToBits(0x5A9EE9, 27)
    ensures OpsCoded(PackLens(), MoreOps()) && OpsBits(PackLens(), MoreOps()) + tail == ToBits(0x16A7BA5CC58, 45)
  {
    hide Msb, Code, Used, PackLens, ToBits, OpsCoded, OpsBits, Pow2, OpOk;
    ShortCodes();
    CodesOfFour();
    Pow2Small();
    AllOpsOk();
    PackCode(1);
    PackCode(2);
    PackCode(17);
    NoOps(PackLens(), tail);
    OneOp(Op(1, 0), 7, 4, [], tail, 0x5A9EE9, 27);
    OneOp(Op(17, 1), 2, 2, [Op(1, 0)] + [], tail, 0x5A9EE97, 31);
    OneOp(Op(2, 0), 0, 2, [Op(17, 1)] + ([Op(1, 0)] + []), tail, 0xB53DD2E6, 36);
    OneOp(Op(17, 5), 2, 2, [Op(2, 0)] + ([Op(17, 1)] + ([Op(1, 0)] + [])), tail, 0x2D4F74B98, 38);
    OneOp(Op(2, 0), 0, 2, [Op(17, 5)] + ([Op(2, 0)] + ([Op(17, 1)] + ([Op(1, 0)] + []))), tail, 0x5A9EE97316, 43);
  }

  lemma AllOpsBits(tail: seq<bool>)
    requires tail == ToBits(0x5A9EE9, 27)
    ensures OpsCoded(PackLens(), Ops()) && OpsBits(PackLens(), Ops()) + tail == ToBits(0x16A7BA5CC580CFF47F59, 81)
  {
    hide Msb, Code, Used, PackLens, ToBits, OpsCoded, OpsBits, MoreOps, Pow2, OpOk;
    ShortCodes();
    CodesOfThree();
    CodesOfFour();
    Pow2Small();
    AllOpsOk();
    PackCode(3);
    PackCode(16);
    PackCode(18);
    LastOpsBits(tail);
    OneOp(Op(18, 6), 1, 2, MoreOps(), tail, 0x16A7BA5CC58, 45);
    OneOp(Op(18, 127), 1, 2, [Op(18, 6)] + MoreOps(), tail, 0x2D4F74B98B019, 54);
    OneOp(Op(16, 0), 3, 3, [Op(18, 127)] + ([Op(18, 6)] + MoreOps()), tail, 0x5A9EE97316033FD, 63);
    OneOp(Op(3, 0), 15, 4, [Op(16, 0)] + ([Op(18, 127)] + ([Op(18, 6)] + MoreOps())), tail, 0xB53DD2E62C067FA3, 68);
    OneOp(Op(18, 86), 1, 2, [Op(3, 0)] + ([Op(16, 0)] + ([Op(18, 127)] + ([Op(18, 6)] + MoreOps()))), tail,
          0xB53DD2E62C067FA3F, 72);
  }

  // ---------- the code length code

  /** One length in front of others. */
  lemma OneLength(i: nat, v: nat, tail: seq<bool>, t: nat, m: nat)
    requires i < 18 && PackLens()[Swizzle(i)] == v < 8 && PackLensBits(PackLens(), i + 1, 18) + tail == ToBits(t, m)
    ensures PackLensBits(PackLens(), i, 18) + tail == ToBits(v + 8 * t, 3 + m)
  {
    hide PackLens, ToBits, Swizzle;
    assert Pow2(3) == 8;
    Joined(v, 3, t, m);
    InFront(ToBits(v, 3), PackLensBits(PackLens(), i + 1, 18), tail);
  }

  lemma Swizzled()
    ensures forall i :: 0 <= i < 18 ==>
              PackLens()[Swizzle(i)] ==
                if i == 0 then 3 else if i == 1 || i == 2 || i == 15 then 2 else if i == 13 || i == 17 then 4 else 0
    ensures PackLens()[Swizzle(18)] == 0
  {
  }

  lemma LengthsBits(tail: seq<bool>)
    requires tail == ToBits(0x16A7BA5CC580CFF47F59, 81)
    ensures PackLensBits(PackLens(), 0, 18) + tail == ToBits(0x5A9EE97316033FD1FD660420000000093, 135)
  {
    hide PackLens, ToBits, Swizzle, PackLensBits;
    Swizzled();
    NoLengths(tail);
    OneLength(17, 4, tail, 0x16A7BA5CC580CFF47F59, 81);
    OneLength(16, 0, tail, 0xB53DD2E62C067FA3FACC, 84);
    OneLength(15, 2, tail, 0x5A9EE97316033FD1FD660, 87);
    OneLength(14, 0, tail, 0x2D4F74B98B019FE8FEB302, 90);
    OneLength(13, 4, tail, 0x16A7BA5CC580CFF47F59810, 93);
    OneLength(12, 0, tail, 0xB53DD2E62C067FA3FACC084, 96);
    OneLength(11, 0, tail, 0x5A9EE97316033FD1FD660420, 99);
    OneLength(10, 0, tail, 0x2D4F74B98B019FE8FEB302100, 102);
    OneLength(9, 0, tail, 0x16A7BA5CC580CFF47F59810800, 105);
    OneLength(8, 0, tail, 0xB53DD2E62C067FA3FACC084000, 108);
    OneLength(7, 0, tail, 0x5A9EE97316033FD1FD660420000, 111);
    OneLength(6, 0, tail, 0x2D4F74B98B019FE8FEB302100000, 114);
    OneLength(5, 0, tail, 0x16A7BA5CC580CFF47F59810800000, 117);
    OneLength(4, 0, tail, 0xB53DD2E62C067FA3FACC084000000, 120);
    OneLength(3, 0, tail, 0x5A9EE97316033FD1FD660420000000, 123);
    OneLength(2, 2, tail, 0x2D4F74B98B019FE8FEB302100000000, 126);
    OneLength(1, 2, tail, 0x16A7BA5CC580CFF47F59810800000002, 129);
    OneLength(0, 3, tail, 0xB53DD2E62C067FA3FACC084000000012, 132);
  }

  lemma NoLengths(tail: seq<bool>)
    ensures PackLensBits(PackLens(), 18, 18) + tail == tail
  {
  }

  // ---------- the tokens

  const LETTERS: seq<byte> := [97, 98, 99, 100, 97, 98]

  function Tokens(): seq<Token>
  {
    Literals(LETTERS) + [Match(12, 6)]
  }

  lemma MatchSymbols()
    ensures LenSym(9) == 265 && LenExtra(9) == 1 && DistSym(5) == 4 && DistExtra(5) == 1
    ensures LenExtraBits(12) == ToBits(1, 1) && DistExtraBits(6) == ToBits(1, 1)
  {
    assert Pow2(1) == 2;
  }

  /** The length 12 as the second of 11 and 12, and the distance 6 as the second of 5 and 6. */
  lemma TheMatch()
    ensures var m := Match(12, 6); Coded(LitLens(), DistLens(), m) && TokenBits(LitLens(), DistLens(), m) == ToBits(0x16, 5)
  {
    hide Code, Used, Msb, LitLens, DistLens, LenSym, LenExtraBits, DistSym, DistExtraBits, ToBits, Pow2;
    ShortCodes();
    MatchSymbols();
    LitCode(265);
    DistCode();
    Pow2Small();
    Joined(0, 1, 1, 1);
    Joined(1, 1, 2, 2);
    Joined(2, 2, 5, 3);
  }

  lemma LastToken(tail: seq<bool>)
    requires tail == ToBits(0, 4)
    ensures AllCoded(LitLens(), DistLens(), [Match(12, 6)])
    ensures TokensBits(LitLens(), DistLens(), [Match(12, 6)]) + tail == ToBits(0x16, 9)
  {
    hide Code, Used, LitLens, DistLens, Coded, TokenBits, TokensBits, ToBits;
    TheMatch();
    NoTokens(LitLens(), DistLens(), tail);
    TokensBitsHead(LitLens(), DistLens(), Match(12, 6), []);
    assert [Match(12, 6)] + [] == [Match(12, 6)];
    Pow2Small();
    Joined(0x16, 5, 0, 4);
    InFront(ToBits(0x16, 5), TokensBits(LitLens(), DistLens(), []), tail);
  }

  lemma TheTokens(tail: seq<bool>)
    requires tail == ToBits(0, 4)
    ensures AllCoded(LitLens(), DistLens(), Tokens())
    ensures TokensBits(LitLens(), DistLens(), Tokens()) + tail == ToBits(0x5A9EE9, 27)
  {
    hide Code, Used, Msb, LitLens, DistLens, AllCoded, TokensBits, ToBits, Pow2;
    CodesOfThree();
    LitCode(97);
    LitCode(98);
    LitCode(99);
    LitCode(100);
    Pow2Small();
    LastToken(tail);
    var lens, dists, ts := LitLens(), DistLens(), [Match(12, 6)];
    OneLiteral(lens, dists, 98, 5, 3, ts, tail, 0x16, 9);
    ts := [Literal(98)] + ts;
    OneLiteral(lens, dists, 97, 1, 3, ts, tail, 0xB5, 12);
    ts := [Literal(97)] + ts;
    OneLiteral(lens, dists, 100, 7, 3, ts, tail, 0x5A9, 15);
    ts := [Literal(100)] + ts;
    OneLiteral(lens, dists, 99, 3, 3, ts, tail, 0x2D4F, 18);
    ts := [Literal(99)] + ts;
    OneLiteral(lens, dists, 98, 5, 3, ts, tail, 0x16A7B, 21);
    ts := [Literal(98)] + ts;
    OneLiteral(lens, dists, 97, 1, 3, ts, tail, 0xB53DD, 24);
    ts := [Literal(97)] + ts;
    assert ts == Tokens();
  }

  // ---------- the block

  lemma TheHeaderOk()
    ensures HeaderOk(TheHeader())
  {
    hide Ops, LitLens, Decodable, Unpacks, OpsCoded, Code, OpsBits;
    TheTables();
    Unpacked();
    AllOpsBits(ToBits(0x5A9EE9, 27));
    Swizzled();
  }

  /** The header with what follows it. */
  lemma TheHeaderBits(tail: seq<bool>)
    requires tail == ToBits(0x5A9EE9, 27)
    ensures HeaderOk(TheHeader()) && HeaderBits(TheHeader()) + tail == ToBits(0x16A7BA5CC580CFF47F598108000000024F889, 149)
  {
    hide Ops, LitLens, PackLens, Decodable, Unpacks, OpsCoded, Code, OpsBits, PackLensBits, ToBits, HeaderOk, Swizzle, Pow2;
    TheHeaderOk();
    AllOpsBits(tail);
    LengthsBits(OpsBits(PackLens(), Ops()) + tail);
    Pow2Small();
    Joined(14, 4, 0x5A9EE97316033FD1FD660420000000093, 135);
    Joined(4, 5, 0x5A9EE97316033FD1FD660420000000093E, 139);
    Joined(9, 5, 0xB53DD2E62C067FA3FACC0840000000127C4, 144);
    var lens, ops := PackLensBits(PackLens(), 0, 18), OpsBits(PackLens(), Ops());
    Regroup(ToBits(9, 5), ToBits(4, 5), ToBits(14, 4), lens, ops, tail);
  }

  lemma Regroup(a: seq<bool>, b: seq<bool>, c: seq<bool>, d: seq<bool>, e: seq<bool>, tail: seq<bool>)
    ensures (a + (b + (c + (d + e)))) + tail == a + (b + (c + (d + (e + tail))))
  {
  }

  lemma FinalDynamic()
    ensures [true] + ToBits(2, 2) == ToBits(5, 3)
  {
  }

  lemma TheBlock()
    ensures var b := Compressed(Dynamic(TheHeader()), Tokens());
            Shape(b) && BlockBits(b, true) + ToBits(0, 2) == ToBits(0xB53DD2E62C067FA3FACC0840000000127C44D, 152)
  {
    hide Code, Used, Msb, LitLens, DistLens, PackLens, Ops, Tokens, AllCoded, TokensBits, HeaderOk, HeaderBits, ToBits, Pow2;
    ShortCodes();
    LitCode(256);
    Pow2Small();
    Joined(0, 2, 0, 2);
    var end := ToBits(0, 2) + ToBits(0, 2);
    TheTokens(end);
    var body := TokensBits(LitLens(), DistLens(), Tokens());
    TheHeaderBits(body + end);
    FinalDynamic();
    Joined(5, 3, 0x16A7BA5CC580CFF47F598108000000024F889, 149);
    var head := HeaderBits(TheHeader());
    assert ([true] + ToBits(2, 2)) + (head + (body + ToBits(0, 2))) + ToBits(0, 2) == ToBits(5, 3) + (head + (body + end));
  }

  /** The letters abcdab, and then twelve bytes again from six bytes before. */
  lemma TheData()
    ensures AllReach(Tokens(), []) && Expand(Tokens(), []) == LETTERS + LETTERS + LETTERS
  {
    LiteralsExpand(LETTERS, []);
    hide AllReach, Expand;
    AddToken(Literals(LETTERS), Match(12, 6), []);
    CopyPart(LETTERS, 12);
  }

  lemma {:induction false} CopyPart(h: seq<byte>, len: nat)
    requires 6 <= |h| && |h| + len <= 18 && forall i :: 6 <= i < |h| ==> h[i] == h[i - 6]
    ensures Copy(h, len, 6)[..|h|] == h && |Copy(h, len, 6)| == |h| + len
    ensures forall i :: 6 <= i < |h| + len ==> Copy(h, len, 6)[i] == Copy(h, len, 6)[i - 6]
    decreases len
  {
    if len > 0 {
      CopyPart(h + [h[|h| - 6]], len - 1);
    }
  }

  // ---------- the bytes

  lemma FirstBytes()
    ensures BytesToBits([0x4D, 0xC4, 0x27, 1, 0, 0, 0, 0x84, 0xC0, 0xAC]) == ToBits(0xACC0840000000127C44D, 80)
  {
    hide BytesToBits, ToBits;
    NoBytesYet();
    var s: seq<byte> := [];
    OneByte(0xAC, s, 0, 0);
    s := [0xAC] + s;
    OneByte(0xC0, s, 0xAC, 8);
    s := [0xC0] + s;
    OneByte(0x84, s, 0xACC0, 16);
    s := [0x84] + s;
    OneByte(0, s, 0xACC084, 24);
    s := [0] + s;
    OneByte(0, s, 0xACC08400, 32);
    s := [0] + s;
    OneByte(0, s, 0xACC0840000, 40);
    s := [0] + s;
    OneByte(1, s, 0xACC084000000, 48);
    s := [1] + s;
    OneByte(0x27, s, 0xACC08400000001, 56);
    s := [0x27] + s;
    OneByte(0xC4, s, 0xACC0840000000127, 64);
    s := [0xC4] + s;
    OneByte(0x4D, s, 0xACC0840000000127C4, 72);
    s := [0x4D] + s;
    assert s == [0x4D, 0xC4, 0x27, 1, 0, 0, 0, 0x84, 0xC0, 0xAC];
  }

  lemma LastBytes()
    ensures BytesToBits([0x3F, 0xFA, 0x67, 0xC0, 0x62, 0x2E, 0xDD, 0x53, 0xB]) == ToBits(0xB53DD2E62C067FA3F, 72)
  {
    hide BytesToBits, ToBits;
    NoBytesYet();
    var s: seq<byte> := [];
    OneByte(0xB, s, 0, 0);
    s := [0xB] + s;
    OneByte(0x53, s, 0xB, 8);
    s := [0x53] + s;
    OneByte(0xDD, s, 0xB53, 16);
    s := [0xDD] + s;
    OneByte(0x2E, s, 0xB53DD, 24);
    s := [0x2E] + s;
    OneByte(0x62, s, 0xB53DD2E, 32);
    s := [0x62] + s;
    OneByte(0xC0, s, 0xB53DD2E62, 40);
    s := [0xC0] + s;
    OneByte(0x67, s, 0xB53DD2E62C0, 48);
    s := [0x67] + s;
    OneByte(0xFA, s, 0xB53DD2E62C067, 56);
    s := [0xFA] + s;
    OneByte(0x3F, s, 0xB53DD2E62C067FA, 64);
    s := [0x3F] + s;
    assert s == [0x3F, 0xFA, 0x67, 0xC0, 0x62, 0x2E, 0xDD, 0x53, 0xB];
  }

  lemma TheBytes()
    ensures BytesToBits([0x4D, 0xC4, 0x27, 1, 0, 0, 0, 0x84, 0xC0, 0xAC] +
                        [0x3F, 0xFA, 0x67, 0xC0, 0x62, 0x2E, 0xDD, 0x53, 0xB]) ==
              ToBits(0xB53DD2E62C067FA3FACC0840000000127C44D, 152)
  {
    hide BytesToBits, ToBits;
    FirstBytes();
    LastBytes();
    Pow2Small();
    Pow2Add(10, 10);
    Pow2Add(20, 20);
    Pow2Add(40, 40);
    assert Pow2(80) == 0x1_0000_0000_0000_0000_0000;
    Joined(0xACC0840000000127C44D, 80, 0xB53DD2E62C067FA3F, 72);
    BytesToBitsConcat([0x4D, 0xC4, 0x27, 1, 0, 0, 0, 0x84, 0xC0, 0xAC], [0x3F, 0xFA, 0x67, 0xC0, 0x62, 0x2E, 0xDD, 0x53, 0xB]);
  }

  /** These nineteen bytes are a stream of one dynamic block, which stands for abcdababcdababcdab. */
  lemma DynamicStream()
    ensures var b := Compressed(Dynamic(TheHeader()), Tokens());
            && Holds([0x4D, 0xC4, 0x27, 1, 0, 0, 0, 0x84, 0xC0, 0xAC] +
                     [0x3F, 0xFA, 0x67, 0xC0, 0x62, 0x2E, 0xDD, 0x53, 0xB], [b], ToBits(0, 2))
            && StreamData([b], []) == LETTERS + LETTERS + LETTERS
  {
    hide LitLens, DistLens, PackLens, Ops, Tokens, BytesToBits, ToBits, LETTERS, TheHeader, Expand, AllReach, Shape, BlockBits;
    var b := Compressed(Dynamic(TheHeader()), Tokens());
    TheBlock();
    TheData();
    TheBytes();
    OneBlock([0x4D, 0xC4, 0x27, 1, 0, 0, 0, 0x84, 0xC0, 0xAC] +
             [0x3F, 0xFA, 0x67, 0xC0, 0x62, 0x2E, 0xDD, 0x53, 0xB], b, ToBits(0, 2));
  }
}
