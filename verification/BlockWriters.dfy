/** The compressor's blocks: the packed tokens, and the code tables in front of them, as bits. */
module BlockWriters {
  import opened Bits
  import opened Canonical
  import opened Symbols
  import opened RunLength
  import opened Format
  import opened BitWriters
  import opened EncodeTables
  import opened LzCodes

  // ---------- tokens

  method PutSymbol(w: BitWriter, t: EncodeTable, k: nat, ghost lens: seq<nat>)
    requires w.Valid() && t.Valid() && t.Ready(lens) && Used(lens, k)
    modifies w`pos, w`bitBuffer, w`bitsIn, w`bytes, w.out
    ensures w.Valid() && w.Put() == old(w.Put()) + Code(lens, k) && old(w.bytes) <= w.bytes
  {
    t.HasCode(lens, k);
    w.PutBits(t.codes[k], t.sizes[k]);
  }

  method PutLiteral(w: BitWriter, lit: EncodeTable, b: byte, ghost lens: seq<nat>, ghost dists: seq<nat>)
    requires w.Valid() && lit.Valid() && lit.Ready(lens) && Coded(lens, dists, Literal(b))
    modifies w`pos, w`bitBuffer, w`bitsIn, w`bytes, w.out
    ensures w.Valid() && w.Put() == old(w.Put()) + TokenBits(lens, dists, Literal(b)) && old(w.bytes) <= w.bytes
  {
    PutSymbol(w, lit, b, lens);
  }

  /** A match, from its length less 3 and its distance less 1. */
  method PutMatch(w: BitWriter, lit: EncodeTable, dst: EncodeTable, len: nat, dist: nat, ghost lens: seq<nat>, ghost dists: seq<nat>)
    requires w.Valid() && lit.Valid() && lit.Ready(lens) && dst.Valid() && dst.Ready(dists)
    requires len < 256 && dist < DICT_SIZE && Coded(lens, dists, Match(len + MIN_MATCH, dist + 1))
    modifies w`pos, w`bitBuffer, w`bitsIn, w`bytes, w.out
    ensures w.Valid() && old(w.bytes) <= w.bytes
    ensures w.Put() == old(w.Put()) + TokenBits(lens, dists, Match(len + MIN_MATCH, dist + 1))
  {
    hide BitWriter.Valid, BitWriter.Put, EncodeTable.Ready, Masked, LenSym, LenExtra, SmallDistSym, SmallDistExtra, LargeDistSym,
      LargeDistExtra, ToBits, Code;
    ghost var p := w.Put();
    PutSymbol(w, lit, LenSym(len), lens);
    w.PutBits(Masked(len, LenExtra(len)), LenExtra(len));
    var sym, extra;
    if dist < 512 {
      sym, extra := SmallDistSym(dist), SmallDistExtra(dist);
    } else {
      sym, extra := LargeDistSym(dist / 256), LargeDistExtra(dist / 256);
    }
    assert sym == DistSym(dist) && extra == DistExtra(dist);
    PutSymbol(w, dst, sym, dists);
    w.PutBits(Masked(dist, extra), extra);
    Four(p, Code(lens, LenSym(len)), LenExtraBits(len + MIN_MATCH), Code(dists, sym), DistExtraBits(dist + 1));
  }

  lemma Four(p: seq<bool>, a: seq<bool>, b: seq<bool>, c: seq<bool>, d: seq<bool>)
    ensures p + a + b + c + d == p + (a + (b + (c + d)))
  {
  }

  // ---------- reading the code buffer

  /** The reader of the code buffer stands at p, with the tokens g of the current group and then those after it
      still to come; the flags of m more places are in flags. */
  ghost predicate Reading(buf: seq<nat>, p: nat, flags: nat, m: nat, g: seq<Token>, after: seq<Token>)
  {
    && p <= |buf| && AllOk(g) && AllOk(after) && |g| <= m <= 8 && (after != [] ==> m == |g|)
    && flags == Flags(g) + Pow2(m) && buf[p..] == Payload(g) + Packed(after)
  }

  lemma NonZero(m: nat)
    ensures Pow2(m) == 1 <==> m == 0
  {
  }

  lemma PackedHead(ts: seq<Token>) returns (k: nat)
    requires AllOk(ts) && ts != []
    ensures 0 < k <= |ts| && k <= 8 && (k < 8 ==> k == |ts|)
    ensures Packed(ts) == [Flags(ts[..k])] + (Payload(ts[..k]) + Packed(ts[k..]))
  {
    k := if |ts| <= 8 then |ts| else 8;
    if |ts| <= 8 {
      assert ts[..k] == ts && ts[k..] == [];
    } else {
      assert [Flags(ts[..8])] + Payload(ts[..8]) + Packed(ts[8..]) == [Flags(ts[..8])] + (Payload(ts[..8]) + Packed(ts[8..]));
    }
  }

  /** A new group: its flags come first. */
  lemma OpenGroup(buf: seq<nat>, p: nat, flags: nat, m: nat, g: seq<Token>, after: seq<Token>) returns (k: nat)
    requires Reading(buf, p, flags, m, g, after) && p < |buf| && flags == 1
    ensures g == [] && 0 < k <= |after| && k <= 8
    ensures Reading(buf, p + 1, buf[p] + 256, 8, after[..k], after[k..]) && buf[p] + 256 != 1
  {
    hide TokenOk, TokenBytes, Flags;
    assert Pow2(8) == 256;
    NonZero(m);
    assert Payload(g) == [];
    k := PackedHead(after);
    hide Packed, Payload;
    assert buf[p..] == [buf[p]] + buf[p + 1..];
    HeadTail(buf[p], buf[p + 1..], Flags(after[..k]), Payload(after[..k]) + Packed(after[k..]));
  }

  lemma HeadTail(a: nat, s: seq<nat>, b: nat, t: seq<nat>)
    requires [a] + s == [b] + t
    ensures a == b && s == t
  {
    assert ([a] + s)[0] == a && ([b] + t)[0] == b;
    assert ([a] + s)[1..] == s && ([b] + t)[1..] == t;
  }

  /** Before the end, and within a group, there is a token. */
  lemma TokenLeft(buf: seq<nat>, p: nat, flags: nat, m: nat, g: seq<Token>, after: seq<Token>)
    requires Reading(buf, p, flags, m, g, after) && p < |buf| && flags != 1
    ensures g != [] && m > 0
  {
    hide TokenOk, TokenBytes;
    NonZero(m);
    assert |buf[p..]| > 0;
  }

  lemma NextBytes(buf: seq<nat>, p: nat, g: seq<Token>, after: seq<Token>)
    requires p <= |buf| && AllOk(g) && AllOk(after) && g != [] && buf[p..] == Payload(g) + Packed(after)
    ensures p + |TokenBytes(g[0])| <= |buf| && buf[p..p + |TokenBytes(g[0])|] == TokenBytes(g[0])
    ensures buf[p + |TokenBytes(g[0])|..] == Payload(g[1..]) + Packed(after)
  {
    var b, rest := TokenBytes(g[0]), Payload(g[1..]) + Packed(after);
    hide TokenBytes, Packed;
    assert Payload(g) == b + Payload(g[1..]);
    hide Payload, TokenOk;
    Chain(b, Payload(g[1..]), Packed(after));
    Advance(buf, p, b, rest);
  }

  /** The next token: its flag is the lowest, and its bytes are next. */
  lemma NextToken(buf: seq<nat>, p: nat, flags: nat, m: nat, g: seq<Token>, after: seq<Token>)
    requires Reading(buf, p, flags, m, g, after) && p < |buf| && flags != 1
    ensures g != [] && m > 0 && TokenOk(g[0]) && flags % 2 == Flag(g[0])
    ensures p + |TokenBytes(g[0])| <= |buf| && buf[p..p + |TokenBytes(g[0])|] == TokenBytes(g[0])
    ensures Reading(buf, p + |TokenBytes(g[0])|, flags / 2, m - 1, g[1..], after)
  {
    TokenLeft(buf, p, flags, m, g, after);
    Halve(flags, Flag(g[0]), Flags(g[1..]), Pow2(m - 1));
    hide TokenOk, TokenBytes, Payload, Packed, Flags, Pow2, Flag;
    NextBytes(buf, p, g, after);
  }

  lemma Chain(a: seq<nat>, b: seq<nat>, c: seq<nat>)
    ensures (a + b) + c == a + (b + c)
  {
  }

  lemma Halve(f: nat, a: nat, x: nat, y: nat)
    requires f == a + 2 * x + 2 * y && a < 2
    ensures f / 2 == x + y && f % 2 == a
  {
  }

  lemma Advance(buf: seq<nat>, p: nat, b: seq<nat>, rest: seq<nat>)
    requires p <= |buf| && buf[p..] == b + rest
    ensures p + |b| <= |buf| && buf[p..p + |b|] == b && buf[p + |b|..] == rest
  {
    assert buf[p..p + |b|] == buf[p..][..|b|];
    assert buf[p + |b|..] == buf[p..][|b|..];
  }

  /** Reads the token t at p, a match or a literal as the flag says, and writes it. */
  method PutToken(w: BitWriter, buf: CodeBuffer, p: nat, isMatch: bool, lit: EncodeTable, dst: EncodeTable,
                  ghost t: Token, ghost lens: seq<nat>, ghost dists: seq<nat>)
    returns (p': nat)
    requires w.Valid() && lit.Valid() && lit.Ready(lens) && dst.Valid() && dst.Ready(dists) && buf.codes != w.out
    requires Coded(lens, dists, t) && (isMatch <==> t.Match?)
    requires p + |TokenBytes(t)| <= buf.codes.Length && buf.codes[p..p + |TokenBytes(t)|] == TokenBytes(t)
    modifies w`pos, w`bitBuffer, w`bitsIn, w`bytes, w.out
    ensures w.Valid() && w.Put() == old(w.Put()) + TokenBits(lens, dists, t) && old(w.bytes) <= w.bytes
    ensures p' == p + |TokenBytes(t)|
  {
    ghost var b := buf.codes[p..p + |TokenBytes(t)|];
    if isMatch {
      assert b[0] == buf.codes[p] && b[1] == buf.codes[p + 1] && b[2] == buf.codes[p + 2];
      var len: nat, low: nat, high: nat := buf.codes[p], buf.codes[p + 1], buf.codes[p + 2];
      var dist := low + 256 * high;
      assert t == Match(len + MIN_MATCH, dist + 1);
      PutMatch(w, lit, dst, len, dist, lens, dists);
      p' := p + 3;
    } else {
      assert b[0] == buf.codes[p];
      PutLiteral(w, lit, buf.codes[p], lens, dists);
      p' := p + 1;
    }
  }

  /** One more token written. */
  lemma OneMore(done: seq<Token>, g: seq<Token>, after: seq<Token>, ts: seq<Token>, lens: seq<nat>, dists: seq<nat>)
    requires ts == done + g + after && g != [] && AllCoded(lens, dists, ts)
    ensures AllCoded(lens, dists, done) && AllCoded(lens, dists, done + [g[0]]) && Coded(lens, dists, g[0])
    ensures ts == (done + [g[0]]) + g[1..] + after
    ensures TokensBits(lens, dists, done + [g[0]]) == TokensBits(lens, dists, done) + TokenBits(lens, dists, g[0])
  {
    hide Coded, TokenBits, TokensBits;
    assert forall i :: 0 <= i < |done| ==> done[i] == ts[i];
    assert g[0] == ts[|done|];
    TokensBitsSnoc(lens, dists, done, g[0]);
  }

  /** tdefl_compress_lz_codes: the tokens in the code buffer and the end of the block as bits.  The result says
      whether the output buffer has room left. */
  method CompressLzCodes(w: BitWriter, buf: CodeBuffer, lit: EncodeTable, dst: EncodeTable,
                         ghost ts: seq<Token>, ghost lens: seq<nat>, ghost dists: seq<nat>)
    returns (ok: bool)
    requires w.Valid() && lit.Valid() && lit.Ready(lens) && dst.Valid() && dst.Ready(dists) && buf.codes != w.out
    requires AllCoded(lens, dists, ts) && Used(lens, END_OF_BLOCK)
    requires AllOk(ts) && buf.pos <= buf.codes.Length && buf.codes[..buf.pos] == Packed(ts)
    modifies w`pos, w`bitBuffer, w`bitsIn, w`bytes, w.out
    ensures w.Valid() && w.Put() == old(w.Put()) + BodyBits(lens, dists, ts) && old(w.bytes) <= w.bytes
    ensures ok <==> w.pos < w.end
  {
    hide EncodeTable.Ready, BitWriter.Valid, BitWriter.Put, Coded, TokenBits, Reading, AllCoded, TokenOk, TokenBytes, Used,
      Packed, Payload;
    ghost var start, s := w.Put(), buf.codes[..buf.pos];
    var p: nat, flags: nat := 0, 1;
    ghost var m: nat, done: seq<Token>, g: seq<Token>, after: seq<Token> := 0, [], [], ts;
    StartReading(ts, lens, dists);
    assert s[0..] == s;
    while p < buf.pos
      invariant s == buf.codes[..buf.pos] && Reading(s, p, flags, m, g, after) && ts == done + g + after && AllCoded(lens, dists, done)
      invariant w.Valid() && w.Put() == start + TokensBits(lens, dists, done) && old(w.bytes) <= w.bytes
      decreases buf.pos - p
    {
      hide TokensBits;
      ghost var before, p0 := TokensBits(lens, dists, done), p;
      if flags == 1 {
        ghost var k := OpenGroup(s, p, flags, m, g, after);
        assert s[p] == buf.codes[p];
        var c: nat := buf.codes[p];
        flags := c + 256;
        p, m := p + 1, 8;
        g, after := after[..k], after[k..];
      }
      TokenThere(s, p, flags, m, g, after);
      NextToken(s, p, flags, m, g, after);
      OneMore(done, g, after, ts, lens, dists);
      SameBytes(s, buf.codes[..], p, g[0]);
      p := PutToken(w, buf, p, flags % 2 == 1, lit, dst, g[0], lens, dists);
      SnocBits(start, before, TokenBits(lens, dists, g[0]));
      done, g, m, flags := done + [g[0]], g[1..], m - 1, flags / 2;
    }
    NoMore(s, p, flags, m, g, after);
    assert done == ts;
    UsedBelow(lens, END_OF_BLOCK);
    PutSymbol(w, lit, END_OF_BLOCK, lens);
    SnocBits(start, TokensBits(lens, dists, ts), Code(lens, END_OF_BLOCK));
    ok := w.pos < w.end;
  }

  lemma UsedBelow(lens: seq<nat>, k: nat)
    requires Used(lens, k)
    ensures k < |lens|
  {
  }

  lemma StartReading(ts: seq<Token>, lens: seq<nat>, dists: seq<nat>)
    requires AllOk(ts)
    ensures Reading(Packed(ts), 0, 1, 0, [], ts) && AllCoded(lens, dists, []) && TokensBits(lens, dists, []) == []
  {
    hide Packed;
    assert Packed(ts)[0..] == Packed(ts);
    assert Payload([]) + Packed(ts) == Packed(ts);
  }

  lemma NoMore(buf: seq<nat>, p: nat, flags: nat, m: nat, g: seq<Token>, after: seq<Token>)
    requires Reading(buf, p, flags, m, g, after) && p >= |buf|
    ensures g == [] && after == []
  {
    hide TokenOk, TokenBytes;
  }

  /** In a group, and before the end. */
  lemma TokenThere(buf: seq<nat>, p: nat, flags: nat, m: nat, g: seq<Token>, after: seq<Token>)
    requires Reading(buf, p, flags, m, g, after)
    requires g != [] || p < |buf|
    ensures p < |buf|
  {
    hide TokenOk;
  }

  lemma SameBytes(s: seq<byte>, all: seq<byte>, p: nat, t: Token)
    requires TokenOk(t) && p + |TokenBytes(t)| <= |s| <= |all| && s == all[..|s|] && s[p..p + |TokenBytes(t)|] == TokenBytes(t)
    ensures all[p..p + |TokenBytes(t)|] == TokenBytes(t)
  {
    hide TokenBytes;
    assert all[p..p + |TokenBytes(t)|] == all[..|s|][p..p + |TokenBytes(t)|];
  }
}
