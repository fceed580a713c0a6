/** Streams given by their bytes: what they stand for is laid down by RFC 1951 alone. */
module KnownStreams {
  import opened Bits
  import opened Canonical
  import opened Symbols
  import opened RunLength
  import opened Format
  import opened Published
  import opened Inflate

  // ---------- bits as numbers

  /** A number of m bits in front of another one. */
  function Front(a: nat, m: nat, b: nat): nat
  {
    a + Pow2(m) * b
  }

  lemma {:induction false} Joined(a: nat, m: nat, b: nat, n: nat)
    requires a < Pow2(m)
    ensures ToBits(a, m) + ToBits(b, n) == ToBits(Front(a, m, b), m + n)
  {
    if m > 0 {
      Joined(a / 2, m - 1, b, n);
      FrontHalf(a, m, b);
      InFront([a % 2 == 1], ToBits(a / 2, m - 1), ToBits(b, n));
      hide Front;
    }
  }

  lemma FrontHalf(a: nat, m: nat, b: nat)
    requires m > 0
    ensures Front(a, m, b) / 2 == Front(a / 2, m - 1, b) && Front(a, m, b) % 2 == a % 2
  {
    var x := Pow2(m - 1) * b;
    assert Pow2(m) * b == 2 * x;
    hide Pow2;
  }

  /** A byte in front of others. */
  lemma OneByte(v: byte, bytes: seq<byte>, t: nat, m: nat)
    requires BytesToBits(bytes) == ToBits(t, m)
    ensures BytesToBits([v] + bytes) == ToBits(v + 256 * t, 8 + m)
  {
    hide ToBits;
    Pow2Small();
    Joined(v, 8, t, m);
    assert ([v] + bytes)[1..] == bytes;
  }

  lemma NoBytesYet()
    ensures BytesToBits([]) == ToBits(0, 0)
  {
  }

  /** A stream of one block, and what fills up its last byte. */
  lemma OneBlock(bytes: seq<byte>, b: Block, pad: seq<bool>)
    requires Shape(b) && Aligned(b, 0) && Grounded(b, []) && BytesToBits(bytes) == BlockBits(b, true) + pad
    ensures Holds(bytes, [b], pad) && StreamData([b], []) == BlockData(b, [])
  {
    hide Shape, BlockBits, Grounded, BlockData, BytesToBits;
    assert [b][1..] == [];
    assert StreamBits([b], true) == BlockBits(b, true) + StreamBits([], true);
    assert StreamAligned([], |BlockBits(b, false)|);
    assert StreamGrounded([], BlockData(b, [])) && StreamData([], BlockData(b, [])) == BlockData(b, []);
  }

  // ---------- a stored block

  /** The final bit, two zeros for the type, the padding to a byte, the length and its complement, the bytes. */
  lemma StoredStream()
    ensures var b := Stored([false, false, false, false, false], [97, 98, 99]);
            Holds([1, 3, 0, 0xFC, 0xFF, 97, 98, 99], [b], []) && StreamData([b], []) == [97, 98, 99]
  {
    hide ToBits, BytesToBits, LengthField;
    var b := Stored([false, false, false, false, false], [97, 98, 99]);
    FirstByte();
    LengthBytes();
    BytesToBitsConcat([1], [3, 0, 0xFC, 0xFF]);
    BytesToBitsConcat([1] + [3, 0, 0xFC, 0xFF], b.data);
    assert [1] + [3, 0, 0xFC, 0xFF] + b.data == [1, 3, 0, 0xFC, 0xFF, 97, 98, 99];
    OneBlock([1, 3, 0, 0xFC, 0xFF, 97, 98, 99], b, []);
  }

  lemma FirstByte()
    ensures BytesToBits([1]) == [true] + ToBits(0, 2) + [false, false, false, false, false]
  {
    assert [1][1..] == [];
  }

  lemma LengthBytes()
    ensures BytesToBits([3, 0, 0xFC, 0xFF]) == LengthField(3)
  {
    hide ToBits, BytesToBits;
    NoBytesYet();
    OneByte(0xFF, [], 0, 0);
    OneByte(0xFC, [0xFF] + [], 0xFF, 8);
    OneByte(0, [], 0, 0);
    OneByte(3, [0] + [], 0, 8);
    BytesToBitsConcat([3] + ([0] + []), [0xFC] + ([0xFF] + []));
    assert [3] + ([0] + []) + ([0xFC] + ([0xFF] + [])) == [3, 0, 0xFC, 0xFF];
  }

  // ---------- tokens

  lemma NoTokens(lens: seq<nat>, dists: seq<nat>, tail: seq<bool>)
    ensures AllCoded(lens, dists, []) && TokensBits(lens, dists, []) + tail == tail
  {
  }

  /** A literal in front of other tokens. */
  lemma OneLiteral(lens: seq<nat>, dists: seq<nat>, b: byte, c: nat, n: nat, ts: seq<Token>, tail: seq<bool>, t: nat, m: nat)
    requires Used(lens, b) && Code(lens, b) == ToBits(c, n) && c < Pow2(n)
    requires AllCoded(lens, dists, ts) && TokensBits(lens, dists, ts) + tail == ToBits(t, m)
    ensures AllCoded(lens, dists, [Literal(b)] + ts)
    ensures TokensBits(lens, dists, [Literal(b)] + ts) + tail == ToBits(Front(c, n, t), n + m)
  {
    hide Code, ToBits, Pow2, Used;
    TokensBitsHead(lens, dists, Literal(b), ts);
    Joined(c, n, t, m);
    InFront(ToBits(c, n), TokensBits(lens, dists, ts), tail);
  }

  lemma InFront(a: seq<bool>, b: seq<bool>, tail: seq<bool>)
    ensures (a + b) + tail == a + (b + tail)
  {
  }

  function Literals(s: seq<byte>): seq<Token>
  {
    seq(|s|, i requires 0 <= i < |s| => Literal(s[i]))
  }

  lemma {:induction false} LiteralsExpand(s: seq<byte>, h: seq<byte>)
    ensures AllReach(Literals(s), h) && Expand(Literals(s), h) == h + s
  {
    if s != [] {
      var ts := Literals(s);
      assert ts[1..] == Literals(s[1..]) && h + [s[0]] + s[1..] == h + s;
      LiteralsExpand(s[1..], h + [s[0]]);
    }
  }

  // ---------- a block of the fixed codes

  lemma CodeOfA()
    ensures Msb(0x91, 8) == ToBits(0x89, 8)
  {
  }

  lemma CodeOfB()
    ensures Msb(0x92, 8) == ToBits(0x49, 8)
  {
  }

  lemma CodeOfC()
    ensures Msb(0x93, 8) == ToBits(0xC9, 8)
  {
  }

  lemma CodeOfEnd()
    ensures Msb(0, 7) == ToBits(0, 7)
  {
  }

  lemma FinalFixed()
    ensures [true] + ToBits(1, 2) == ToBits(3, 3)
  {
  }

  lemma FixedUsed(k: nat)
    requires k < 288
    ensures Used(FixedLens(), k) && Code(FixedLens(), k) == Msb(CodeNum(FixedLens(), k), FixedLens()[k])
  {
    FixedAt();
  }

  lemma FixedTokens(tail: seq<bool>)
    requires tail == ToBits(0, 13)
    ensures var ts := Literals([97, 98, 99]);
            AllCoded(FixedLens(), FixedDists(), ts) && TokensBits(FixedLens(), FixedDists(), ts) + tail == ToBits(0xC94989, 37)
  {
    hide FixedLens, FixedDists, CodeNum, Msb, Code, ToBits, AllCoded, TokensBits;
    FixedCodes(97);
    FixedCodes(98);
    FixedCodes(99);
    FixedUsed(97);
    FixedUsed(98);
    FixedUsed(99);
    CodeOfA();
    CodeOfB();
    CodeOfC();
    Pow2Small();
    var lens, dists := FixedLens(), FixedDists();
    NoTokens(lens, dists, tail);
    OneLiteral(lens, dists, 99, 0xC9, 8, [], tail, 0, 13);
    OneLiteral(lens, dists, 98, 0x49, 8, [Literal(99)] + [], tail, 0xC9, 21);
    OneLiteral(lens, dists, 97, 0x89, 8, [Literal(98)] + ([Literal(99)] + []), tail, 0xC949, 29);
    assert Literals([97, 98, 99]) == [Literal(97)] + ([Literal(98)] + ([Literal(99)] + []));
  }

  lemma FixedEnd()
    ensures Used(FixedLens(), END_OF_BLOCK) && Code(FixedLens(), END_OF_BLOCK) == ToBits(0, 7)
  {
    hide FixedLens, CodeNum, Msb, ToBits, Code;
    FixedCodes(END_OF_BLOCK);
    FixedUsed(END_OF_BLOCK);
    CodeOfEnd();
  }

  lemma FixedBytes()
    ensures BytesToBits([0x4B, 0x4C, 0x4A, 6, 0]) == ToBits(0x064A4C4B, 40)
  {
    hide BytesToBits, ToBits;
    NoBytesYet();
    OneByte(0, [], 0, 0);
    OneByte(6, [0] + [], 0, 8);
    OneByte(0x4A, [6] + ([0] + []), 6, 16);
    OneByte(0x4C, [0x4A] + ([6] + ([0] + [])), 0x064A, 24);
    OneByte(0x4B, [0x4C] + ([0x4A] + ([6] + ([0] + []))), 0x064A4C, 32);
    assert [0x4B, 0x4C, 0x4A, 6, 0] == [0x4B] + ([0x4C] + ([0x4A] + ([6] + ([0] + []))));
  }

  lemma FixedBits(ts: seq<Token>)
    requires ts == Literals([97, 98, 99])
    ensures Shape(Compressed(Fixed, ts)) && BlockBits(Compressed(Fixed, ts), true) + ToBits(0, 6) == ToBits(0x064A4C4B, 40)
  {
    hide FixedLens, FixedDists, Code, AllCoded, TokensBits, Literals, ToBits, Msb;
    FinalFixed();
    FixedEnd();
    Pow2Small();
    var end := ToBits(0, 7) + ToBits(0, 6);
    Joined(0, 7, 0, 6);
    FixedTokens(end);
    Joined(3, 3, 0xC94989, 37);
    var body := TokensBits(FixedLens(), FixedDists(), ts);
    assert ([true] + ToBits(1, 2)) + (body + ToBits(0, 7)) + ToBits(0, 6) == ToBits(3, 3) + (body + end);
  }

  /** The letters a, b and c. */
  lemma FixedStream()
    ensures var b := Compressed(Fixed, Literals([97, 98, 99]));
            Holds([0x4B, 0x4C, 0x4A, 6, 0], [b], ToBits(0, 6)) && StreamData([b], []) == [97, 98, 99]
  {
    hide BytesToBits, ToBits, Literals, AllReach, Expand, BlockBits, Shape;
    FixedBits(Literals([97, 98, 99]));
    LiteralsExpand([97, 98, 99], []);
    FixedBytes();
    OneBlock([0x4B, 0x4C, 0x4A, 6, 0], Compressed(Fixed, Literals([97, 98, 99])), ToBits(0, 6));
  }
}
