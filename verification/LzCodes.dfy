/** The compressor's packed code buffer: groups of eight tokens, each group behind a byte of flags that tell
    matches from literals. */
module LzCodes {
  import opened Bits
  import opened Symbols
  import opened Format

  const LZ_CODE_BUF_SIZE := 65536

  function Flag(t: Token): nat
  {
    if t.Match? then 1 else 0
  }

  /** A token as it is stored: a literal as itself, a match as its length and its distance. */
  function TokenBytes(t: Token): (b: seq<byte>)
    requires TokenOk(t)
    ensures |b| == if t.Match? then 3 else 1
  {
    match t
    case Literal(b) => [b]
    case Match(len, dist) => [len - MIN_MATCH, (dist - 1) % 256, (dist - 1) / 256]
  }

  ghost predicate AllOk(ts: seq<Token>)
  {
    forall i :: 0 <= i < |ts| ==> TokenOk(ts[i])
  }

  function Payload(ts: seq<Token>): (b: seq<byte>)
    requires AllOk(ts)
    ensures |ts| <= |b| <= 3 * |ts|
  {
    if ts == [] then [] else TokenBytes(ts[0]) + Payload(ts[1..])
  }

  /** The flags of some tokens, the first in the lowest bit. */
  function Flags(ts: seq<Token>): nat
  {
    if ts == [] then 0 else Flag(ts[0]) + 2 * Flags(ts[1..])
  }

  /** The whole buffer for some tokens. */
  function Packed(ts: seq<Token>): seq<nat>
    requires AllOk(ts)
  {
    if ts == [] then []
    else if |ts| <= 8 then [Flags(ts)] + Payload(ts)
    else [Flags(ts[..8])] + Payload(ts[..8]) + Packed(ts[8..])
  }

  // ---------- appending

  lemma {:induction false} PayloadSnoc(ts: seq<Token>, t: Token)
    requires AllOk(ts) && TokenOk(t)
    ensures AllOk(ts + [t]) && Payload(ts + [t]) == Payload(ts) + TokenBytes(t)
  {
    if ts == [] {
      assert ts + [t] == [t] && [t][1..] == [];
    } else {
      PayloadSnoc(ts[1..], t);
      assert (ts + [t])[1..] == ts[1..] + [t];
    }
  }

  lemma {:induction false} FlagsSnoc(ts: seq<Token>, t: Token)
    ensures Flags(ts + [t]) == Flags(ts) + Shl(Flag(t), |ts|)
  {
    if ts == [] {
      assert ts + [t] == [t] && [t][1..] == [];
    } else {
      FlagsSnoc(ts[1..], t);
      assert (ts + [t])[1..] == ts[1..] + [t];
    }
  }

  lemma {:induction false} FlagsBound(ts: seq<Token>)
    ensures Flags(ts) < Pow2(|ts|)
  {
    if ts != [] {
      FlagsBound(ts[1..]);
    }
  }

  /** A last group behind full ones. */
  lemma {:induction false} PackedGroup(full: seq<Token>, cur: seq<Token>)
    requires AllOk(full) && AllOk(cur) && |full| % 8 == 0 && 0 < |cur| <= 8
    ensures AllOk(full + cur) && Packed(full + cur) == Packed(full) + ([Flags(cur)] + Payload(cur))
    decreases |full|
  {
    hide Flags, Payload, TokenOk;
    if full == [] {
      assert full + cur == cur;
    } else if |full| == 8 {
      assert (full + cur)[..8] == full && (full + cur)[8..] == cur;
    } else {
      PackedGroup(full[8..], cur);
      assert (full + cur)[..8] == full[..8] && (full + cur)[8..] == full[8..] + cur;
    }
  }

  lemma {:induction false} ShrTop(v: nat, n: nat, m: nat)
    ensures Shr(v + Pow2(n + m), n) == Shr(v, n) + Pow2(m)
  {
    if n > 0 {
      ShrTop(v / 2, n - 1, m);
      assert (v + Pow2(n + m)) / 2 == v / 2 + Pow2(n - 1 + m);
    }
  }

  /** A flag comes in at the top of the flag byte, and the flags before it move down by one. */
  lemma PushFlag(v: nat, ts: seq<Token>, t: Token)
    requires |ts| < 8 && v < 256 && Shr(v, 8 - |ts|) == Flags(ts)
    ensures v / 2 + 128 * Flag(t) < 256 && Shr(v / 2 + 128 * Flag(t), 7 - |ts|) == Flags(ts + [t])
  {
    var n := 7 - |ts|;
    FlagsSnoc(ts, t);
    assert Pow2(7) == 128;
    ShrTop(v / 2, n, |ts|);
    ShlPow2(0, |ts|);
    ShlZero(|ts|);
  }

  lemma {:induction false} ShrNoMore(v: nat, n: nat)
    ensures Shr(v, n) <= v
  {
    if n > 0 {
      ShrNoMore(v / 2, n - 1);
    }
  }

  lemma ThreeMore(c: seq<byte>, c': seq<byte>, from: nat, p: nat, x: byte, y: byte, z: byte)
    requires from <= p && p + 3 <= |c| == |c'| && c'[p] == x && c'[p + 1] == y && c'[p + 2] == z
    requires forall i :: 0 <= i < p ==> c'[i] == c[i]
    ensures c'[from..p + 3] == c[from..p] + [x, y, z] && c'[..from] == c[..from]
    ensures from > 0 ==> c'[from - 1] == c[from - 1] && c'[..from - 1] == c[..from - 1]
  {
  }

  // ---------- the buffer

  class CodeBuffer {
    const codes: array<byte>
    var pos: nat
    var flagsAt: nat
    var flagsLeft: nat
    var total: nat
    /** The tokens in full groups, and those in the group that is being filled. */
    ghost var full: seq<Token>
    ghost var cur: seq<Token>

    constructor ()
      ensures Valid() && Tokens() == [] && total == 0 && fresh(codes) && pos == 1
    {
      codes := new byte[LZ_CODE_BUF_SIZE];
      pos, flagsAt, flagsLeft, total := 1, 0, 8, 0;
      full, cur := [], [];
      new;
      EmptyGroup(codes[0]);
    }

    ghost function Tokens(): seq<Token>
      reads `full, `cur
    {
      full + cur
    }

    ghost predicate Valid()
      reads this, codes
    {
      && codes.Length == LZ_CODE_BUF_SIZE && flagsAt < pos <= codes.Length
      && AllOk(full) && AllOk(cur) && |full| % 8 == 0 && |cur| < 8 && flagsLeft == 8 - |cur|
      && codes[..flagsAt] == Packed(full) && codes[flagsAt + 1..pos] == Payload(cur)
      && Shr(codes[flagsAt], 8 - |cur|) == Flags(cur)
    }

    /** After a token has been stored: its flag, and a new group if this one is full. */
    method EndToken(ghost t: Token, flag: nat)
      requires codes.Length == LZ_CODE_BUF_SIZE && flagsAt < pos < codes.Length && TokenOk(t) && flag == Flag(t)
      requires AllOk(full) && AllOk(cur) && |full| % 8 == 0 && |cur| < 8 && flagsLeft == 8 - |cur|
      requires codes[..flagsAt] == Packed(full) && codes[flagsAt + 1..pos] == Payload(cur) + TokenBytes(t)
      requires Shr(codes[flagsAt], 8 - |cur|) == Flags(cur)
      modifies this`pos, this`flagsAt, this`flagsLeft, this`full, this`cur, codes
      ensures Valid() && Tokens() == old(Tokens()) + [t] && old(pos) <= pos <= old(pos) + 1
    {
      hide Packed, Payload, Flags, TokenBytes, TokenOk, Shr;
      PushFlag(codes[flagsAt], cur, t);
      PayloadSnoc(cur, t);
      codes[flagsAt] := codes[flagsAt] / 2 + 128 * flag;
      cur := cur + [t];
      flagsLeft := flagsLeft - 1;
      assert full + cur == old(full + cur) + [t];
      if flagsLeft == 0 {
        FullGroup(codes[flagsAt], full, cur);
        assert codes[..pos] == codes[..flagsAt] + ([codes[flagsAt]] + codes[flagsAt + 1..pos]);
        flagsLeft, flagsAt, pos := 8, pos, pos + 1;
        full, cur := full + cur, [];
        EmptyGroup(codes[flagsAt]);
      }
    }

    lemma FullGroup(v: nat, full: seq<Token>, cur: seq<Token>)
      requires AllOk(full) && AllOk(cur) && |full| % 8 == 0 && |cur| == 8 && Shr(v, 0) == Flags(cur)
      ensures AllOk(full + cur) && |full + cur| % 8 == 0 && Packed(full + cur) == Packed(full) + ([v] + Payload(cur))
    {
      hide Packed, Flags, Payload, AllOk, Shr;
      ShrNothing(v);
      PackedGroup(full, cur);
    }

    lemma EmptyGroup(v: nat)
      requires v < 256
      ensures AllOk([]) && Payload([]) == [] && Flags([]) == 0 && Shr(v, 8) == 0
    {
      assert Pow2(8) == 256;
      ShrBelow(v, 8, 1);
      ShlPow2(0, 8);
    }

    /** tdefl_record_literal, without the symbol count. */
    method RecordLiteral(lit: byte)
      requires Valid() && pos + 2 <= LZ_CODE_BUF_SIZE
      modifies this, codes
      ensures Valid() && Tokens() == old(Tokens()) + [Literal(lit)] && total == old(total) + 1
      ensures pos <= old(pos) + 2
    {
      hide Packed, Payload, Flags, Shr;
      total := total + 1;
      codes[pos] := lit;
      pos := pos + 1;
      assert codes[flagsAt + 1..pos] == old(codes[flagsAt + 1..pos]) + [lit];
      EndToken(Literal(lit), 0);
    }

    /** tdefl_record_match, without the symbol counts. */
    method RecordMatch(len: nat, dist: nat)
      requires Valid() && MIN_MATCH <= len <= MAX_MATCH && 1 <= dist <= DICT_SIZE && pos + 4 <= LZ_CODE_BUF_SIZE
      modifies this, codes
      ensures Valid() && Tokens() == old(Tokens()) + [Match(len, dist)] && total == old(total) + len
      ensures pos <= old(pos) + 4
    {
      hide Packed, Payload, Flags, Shr;
      ghost var before := codes[..];
      total := total + len;
      var d := dist - 1;
      var x: byte, y: byte, z: byte := len - MIN_MATCH, d % 256, d / 256;
      codes[pos] := x;
      codes[pos + 1] := y;
      codes[pos + 2] := z;
      ThreeMore(before, codes[..], flagsAt + 1, pos, x, y, z);
      pos := pos + 3;
      EndToken(Match(len, dist), 1);
    }

    /** Before the codes are read: the flags of the last group move down, and a group without tokens goes. */
    method Close()
      requires Valid()
      modifies this`pos, codes
      ensures pos <= codes.Length == LZ_CODE_BUF_SIZE && AllOk(Tokens()) && codes[..pos] == Packed(Tokens())
    {
      hide Packed, Payload, Flags, Shr, TokenOk;
      ShrNoMore(codes[flagsAt], flagsLeft);
      codes[flagsAt] := Shr(codes[flagsAt], flagsLeft);
      if flagsLeft == 8 {
        pos := pos - 1;
        assert codes[..pos] == codes[..flagsAt];
        assert full + cur == full;
      } else {
        PackedGroup(full, cur);
        assert codes[..pos] == codes[..flagsAt] + ([codes[flagsAt]] + codes[flagsAt + 1..pos]);
      }
    }

    /** Starts an empty buffer. */
    method Reset()
      requires codes.Length == LZ_CODE_BUF_SIZE
      modifies this
      ensures Valid() && Tokens() == [] && total == 0 && pos == 1
    {
      pos, flagsAt, flagsLeft, total := 1, 0, 8, 0;
      full, cur := [], [];
      EmptyGroup(codes[0]);
    }
  }
}
