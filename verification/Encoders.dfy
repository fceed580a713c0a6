/** The compressor from tokens to blocks: tokens are recorded and counted, and then written as a block in
    whichever form is the shortest. */
module Encoders {
  import opened Bits
  import opened Canonical
  import opened Symbols
  import opened Format
  import opened BitWriters
  import opened EncodeTables
  import opened LzCodes
  import opened BlockWriters
  import opened HeaderWriters
  import opened SymbolCounts


  class Encoder {
    const w: BitWriter
    const buf: CodeBuffer
    const lit: EncodeTable
    const dst: EncodeTable
    const pk: EncodeTable

    constructor ()
      ensures Valid() && buf.Tokens() == [] && buf.total == 0 && buf.pos == 1 && w.Put() == [] && w.bytes == []
      ensures fresh(w) && fresh(w.out) && fresh(buf) && fresh(buf.codes)
      ensures fresh(lit.counts) && fresh(lit.codes) && fresh(lit.sizes) && fresh(dst.counts) && fresh(dst.codes)
      ensures fresh(dst.sizes) && fresh(pk.counts) && fresh(pk.codes) && fresh(pk.sizes)
    {
      hide CodeBuffer.Valid, CodeBuffer.Tokens, BitWriter.Valid, BitWriter.Put, Counted;
      w := new BitWriter();
      buf := new CodeBuffer();
      lit := new EncodeTable();
      dst := new EncodeTable();
      pk := new EncodeTable();
      new;
      assert Parts();
      hide Parts, EncodeTable.Valid;
      NothingCounted();
    }

    lemma NothingCounted()
      requires Parts() && forall k :: 0 <= k < MAX_HUFF_SYMBOLS ==> lit.counts[k] == dst.counts[k] == 0
      ensures AllOk([]) && Counted(lit.counts[..], dst.counts[..], [])
    {
    }

    /** The parts are all there, and none is used twice. */
    ghost predicate Parts()
    {
      && lit.Valid() && dst.Valid() && pk.Valid() && buf.codes != w.out
      && {lit.counts, lit.codes, lit.sizes} !! {dst.counts, dst.codes, dst.sizes}
      && {pk.counts, pk.codes, pk.sizes} !! {lit.counts, lit.codes, lit.sizes, dst.counts, dst.codes, dst.sizes}
    }

    lemma Apart()
      requires Parts()
      ensures buf.codes != w.out && dst.counts !in {lit.counts, lit.codes, lit.sizes, dst.codes, dst.sizes, pk.counts, pk.codes, pk.sizes}
    {
    }

    /** The tokens recorded are in the code buffer, and their symbols have been counted. */
    ghost predicate Recorded()
      reads buf, buf.codes, lit.counts, dst.counts
    {
      buf.Valid() && AllOk(buf.Tokens()) && Counted(lit.counts[..], dst.counts[..], buf.Tokens())
    }

    ghost predicate Valid()
      reads w, w.out, buf, buf.codes, lit.counts, dst.counts
    {
      Parts() && w.Valid() && Recorded()
    }

    lemma FewTokens()
      requires buf.Valid()
      ensures AllOk(buf.Tokens()) && |buf.Tokens()| < 65535
    {
      hide TokenOk, Packed, Payload, Flags, Shr;
      PackedUnits(buf.full);
      assert |buf.codes[..buf.flagsAt]| == buf.flagsAt;
      assert |buf.codes[buf.flagsAt + 1..buf.pos]| == buf.pos - buf.flagsAt - 1;
    }

    lemma CountOne(lc: seq<nat>, dc: seq<nat>, ts: seq<Token>, t: Token, lc': seq<nat>, dc': seq<nat>)
      requires AllOk(ts) && TokenOk(t) && |ts| < 65535 && Counted(lc, dc, ts)
      requires lc' == lc[LitSym(t) := (lc[LitSym(t)] + 1) % 65536]
      requires dc' == if t.Match? then dc[DistSym(t.dist - 1) := (dc[DistSym(t.dist - 1)] + 1) % 65536] else dc
      ensures AllOk(ts + [t]) && Counted(lc', dc', ts + [t])
    {
      hide LitSym, DistSym, TokenOk;
      forall k: nat
        ensures AllOk(ts + [t]) && LitCount(ts + [t], k) == LitCount(ts, k) + if LitSym(t) == k then 1 else 0
        ensures DistCount(ts + [t], k) == DistCount(ts, k) + if HasDistSym(t, k) then 1 else 0
      {
        CountsSnoc(ts, t, k);
      }
    }

    /** tdefl_record_literal. */
    method RecordLiteral(b: byte)
      requires Valid() && buf.pos + 2 <= LZ_CODE_BUF_SIZE
      modifies buf, buf.codes, lit.counts
      ensures Valid() && buf.Tokens() == old(buf.Tokens()) + [Literal(b)] && buf.total == old(buf.total) + 1
      ensures buf.pos <= old(buf.pos) + 2
    {
      hide CodeBuffer.Valid, CodeBuffer.Tokens, BitWriter.Valid, Counted;
      ghost var ts, lc, dc := buf.Tokens(), lit.counts[..], dst.counts[..];
      FewTokens();
      buf.RecordLiteral(b);
      lit.counts[b] := (lit.counts[b] + 1) % 65536;
      CountOne(lc, dc, ts, Literal(b), lit.counts[..], dst.counts[..]);
    }

    /** tdefl_record_match. */
    method RecordMatch(len: nat, dist: nat)
      requires Valid() && MIN_MATCH <= len <= MAX_MATCH && 1 <= dist <= DICT_SIZE && buf.pos + 4 <= LZ_CODE_BUF_SIZE
      modifies buf, buf.codes, lit.counts, dst.counts
      ensures Valid() && buf.Tokens() == old(buf.Tokens()) + [Match(len, dist)] && buf.total == old(buf.total) + len
      ensures buf.pos <= old(buf.pos) + 4
    {
      hide CodeBuffer.Valid, CodeBuffer.Tokens, BitWriter.Valid, Counted, LenSym, SmallDistSym, LargeDistSym;
      ghost var ts, lc, dc := buf.Tokens(), lit.counts[..], dst.counts[..];
      FewTokens();
      buf.RecordMatch(len, dist);
      var d := dist - 1;
      var s := if d < 512 then SmallDistSym(d) else LargeDistSym(d / 256);
      assert s == DistSym(d);
      hide DistSym;
      dst.counts[s] := (dst.counts[s] + 1) % 65536;
      lit.counts[LenSym(len - MIN_MATCH)] := (lit.counts[LenSym(len - MIN_MATCH)] + 1) % 65536;
      CountOne(lc, dc, ts, Match(len, dist), lit.counts[..], dst.counts[..]);
    }

    /** The codes of the block are ready to be read back. */
    ghost predicate Closed(ts: seq<Token>)
      reads buf, buf.codes
    {
      AllOk(ts) && buf.pos <= buf.codes.Length == LZ_CODE_BUF_SIZE && buf.codes[..buf.pos] == Packed(ts)
    }

    /** What is needed for making codes, until they have been made. */
    ghost predicate Measured(ts: seq<Token>)
      requires Parts()
      reads lit.counts, dst.counts
    {
      Countable(lit.counts[..], dst.counts[..], ts) && AllOk(ts) && Counted(lit.counts[..], dst.counts[..], ts)
    }

    lemma CountsAre(lc: seq<nat>, dc: seq<nat>, ts: seq<Token>)
      requires AllOk(ts) && Counted(lc, dc, ts)
      ensures lc[END_OF_BLOCK := 1][..288] == LitTotals(ts) && dc[..32] == DistTotals(ts)
    {
      hide LitCount, DistCount, TokenOk;
    }

    /** tdefl_compress_block: the tokens with static or with dynamic codes.  The result says whether the output
        buffer has room left. */
    method CompressBlock(fixed: bool, ghost ts: seq<Token>) returns (ok: bool, ghost b: Block)
      requires Parts() && w.Valid() && Closed(ts) && (fixed || Measured(ts))
      modifies w`pos, w`bitBuffer, w`bitsIn, w`bytes, w.out, lit.counts, lit.codes, lit.sizes, dst.codes, dst.sizes
      modifies pk.counts, pk.codes, pk.sizes
      ensures b.Compressed? && b.tokens == ts && (b.tables.Fixed? <==> fixed) && Shape(b) && Thrifty(b)
      ensures w.Valid() && old(w.bytes) <= w.bytes && w.Put() == old(w.Put()) + (ToBits(TypeOf(b), 2) + ContentBits(b))
      ensures ok <==> w.pos < w.end
    {
      hide BitWriter.Valid, BitWriter.Put, ToBits, HeaderBits, BodyBits, FixedLens, FixedDists, AllCoded, EncodeTable.Ready,
        HeaderOk, Countable, Packed, TokenOk, Used, Sparing, Counted;
      ghost var before := w.Put();
      if fixed {
        b := Compressed(Fixed, ts);
        FixedCoded(ts);
        StartStatic(w, lit, dst);
        ok := CompressLzCodes(w, buf, lit, dst, ts, FixedLens(), FixedDists());
        SnocBits(before, ToBits(1, 2), BodyBits(FixedLens(), FixedDists(), ts));
      } else {
        CountsAre(lit.counts[..], dst.counts[..], ts);
        ghost var h := StartDynamic(w, lit, dst, pk, ts);
        b := Compressed(Dynamic(h), ts);
        ok := CompressLzCodes(w, buf, lit, dst, ts, h.lens, h.dists);
        Three(before, ToBits(2, 2), HeaderBits(h), BodyBits(h.lens, h.dists, ts));
      }
    }

    /** n bytes from the dictionary, from position from on. */
    method PutBytes(dict: array<byte>, from: nat, ghost data: seq<byte>)
      requires w.Valid() && dict.Length >= DICT_SIZE && dict != w.out && buf.total == |data|
      requires forall i :: 0 <= i < |data| ==> dict[(from + i) % DICT_SIZE] == data[i]
      modifies w`pos, w`bitBuffer, w`bitsIn, w`bytes, w.out
      ensures w.Valid() && old(w.bytes) <= w.bytes && w.Put() == old(w.Put()) + BytesToBits(data)
    {
      hide BitWriter.Valid, BitWriter.Put, ToBits;
      ghost var before := w.Put();
      assert data[..0] == [];
      for i := 0 to buf.total
        invariant w.Valid() && old(w.bytes) <= w.bytes && w.Put() == before + BytesToBits(data[..i])
      {
        hide BytesToBits;
        assert data[..i + 1] == data[..i] + [data[i]];
        BytesToBitsConcat(data[..i], [data[i]]);
        OneByte(data[i]);
        SnocBits(before, BytesToBits(data[..i]), ToBits(data[i], 8));
        w.PutBits(dict[(from + i) % DICT_SIZE], 8);
      }
      assert data[..|data|] == data;
    }

    /** Fills up the last byte with zeros. */
    method PadToByte() returns (ghost pad: seq<bool>)
      requires w.Valid()
      modifies w`pos, w`bitBuffer, w`bitsIn, w`bytes, w.out
      ensures w.Valid() && old(w.bytes) <= w.bytes && w.Put() == old(w.Put()) + pad && w.bitsIn == 0
      ensures |pad| < 8 && |w.Put()| % 8 == 0 && pad == ToBits(0, |pad|) && |w.bytes| <= old(|w.bytes|) + 1
    {
      hide BitWriter.Valid, ToBits, BytesToBits;
      w.Fraction();
      pad := [];
      NoBits();
      if w.bitsIn > 0 {
        pad := ToBits(0, 8 - w.bitsIn);
        SmallPower(8 - w.bitsIn);
        w.PutBits(0, 8 - w.bitsIn);
        w.Fraction();
      }
    }

    /** A stored block: its type, padding up to a whole byte, its length twice, and its bytes. */
    method StoreRaw(dict: array<byte>, from: nat, ghost data: seq<byte>) returns (ghost b: Block)
      requires w.Valid() && dict.Length >= DICT_SIZE && dict != w.out && buf.total == |data| < 0x10000
      requires forall i :: 0 <= i < |data| ==> dict[(from + i) % DICT_SIZE] == data[i]
      modifies w`pos, w`bitBuffer, w`bitsIn, w`bytes, w.out
      ensures b.Stored? && b.data == data && Shape(b) && (|old(w.Put())| + 2 + |b.pad|) % 8 == 0
      ensures w.Valid() && old(w.bytes) <= w.bytes && w.Put() == old(w.Put()) + (ToBits(TypeOf(b), 2) + ContentBits(b))
    {
      hide BitWriter.Valid, BitWriter.Put, BytesToBits, ToBits, LengthField;
      ghost var before := w.Put();
      Powers();
      w.PutBits(0, 2);
      ghost var pad := PadToByte();
      b := Stored(pad, data);
      var n := buf.total;
      w.PutBits(n % 0x10000, 16);
      w.PutBits(0xFFFF - n % 0x10000, 16);
      PutBytes(dict, from, data);
      RawPieces(before, pad, ToBits(0, 2), n, BytesToBits(data));
    }

    /** Back to where the block began. */
    method Rewind(savedPos: nat, savedBuffer: nat, savedIn: nat, ghost saved: seq<byte>)
      requires w.Valid() && saved <= w.bytes && savedPos == |saved| <= w.end && savedIn < 8 && savedBuffer < Pow2(savedIn)
      modifies w`pos, w`bitBuffer, w`bitsIn, w`bytes
      ensures w.Valid() && w.bytes == saved && w.Put() == BytesToBits(saved) + ToBits(savedBuffer, savedIn)
    {
      w.Rewind(savedPos, savedBuffer, savedIn, saved);
    }

    /** The bytes of the dictionary from position from on, if they are still there, are the data. */
    ghost predicate InDict(inDict: bool, dict: array<byte>, from: nat, data: seq<byte>)
      reads dict
    {
      && dict.Length >= DICT_SIZE
      && (inDict ==> |data| <= DICT_SIZE && forall i :: 0 <= i < |data| ==> dict[(from + i) % DICT_SIZE] == data[i])
    }

    /** Which form the block gets: the one that was tried, with its own codes if there are at least 48 bytes; or that
        with the fixed codes, if the output buffer is too small for it; or the bytes themselves, if they are still in
        the dictionary and are to be stored, or have not become shorter by two bytes at least. */
    ghost predicate Chosen(before: seq<bool>, b: Block, tried: Block, useRaw: bool, forceFixed: bool, inDict: bool,
                           ts: seq<Token>, size: nat)
      reads w`end
    {
      && Shape(tried) && Thrifty(tried) && (!useRaw ==> tried.Compressed? && tried.tokens == ts)
      && (!useRaw ==> (tried.tables.Fixed? <==> forceFixed || size < 48))
      && Thrifty(b) &&
      if inDict && (useRaw || (size > 0 && Grown(before, tried) + 1 >= size)) then b.Stored?
      else if |before| / 8 + Grown(before, tried) < w.end then b == tried
      else b.Compressed? && b.tables.Fixed?
    }

    lemma ChosenIsThrifty(before: seq<bool>, b: Block, tried: Block, useRaw: bool, forceFixed: bool, inDict: bool,
                          ts: seq<Token>, size: nat)
      requires Chosen(before, b, tried, useRaw, forceFixed, inDict, ts, size)
      ensures Thrifty(b)
    {
    }

    /** How many whole bytes more there are behind a block. */
    ghost function Grown(before: seq<bool>, b: Block): nat
      requires Shape(b)
    {
      (|before| + 2 + |ContentBits(b)|) / 8 - |before| / 8
    }

    /** b, with its type in front, has been put behind the bits before, and there is room left. */
    ghost predicate Written(before: seq<bool>, b: Block, ts: seq<Token>, data: seq<byte>)
      reads w, w.out
    {
      && w.Valid() && w.pos < w.end && Shape(b) && w.Put() == before + (ToBits(TypeOf(b), 2) + ContentBits(b))
      && match b
         case Stored(pad, d) => d == data && (|before| + 2 + |pad|) % 8 == 0
         case Compressed(_, tokens) => tokens == ts
    }

    /** Bits that fit, with some to spare, leave room. */
    lemma RoomLeft()
      requires w.Valid() && w.end == OUT_BUF_SIZE - 16 && |w.Put()| <= 650200
      ensures w.pos < w.end
    {
      w.Fraction();
      w.NotFull();
    }

    method WriteRaw(dict: array<byte>, from: nat, ghost ts: seq<Token>, ghost data: seq<byte>) returns (ghost b: Block)
      requires w.Valid() && w.end == OUT_BUF_SIZE - 16 && dict != w.out && buf.total == |data| && |w.Put()| <= 16
      requires InDict(true, dict, from, data)
      modifies w`pos, w`bitBuffer, w`bitsIn, w`bytes, w.out
      ensures Written(old(w.Put()), b, ts, data) && b.Stored?
    {
      hide BitWriter.Valid, BitWriter.Put, BytesToBits, ToBits, LengthField;
      b := StoreRaw(dict, from, data);
      RoomLeft();
    }

    method WriteFixed(ghost ts: seq<Token>, ghost data: seq<byte>) returns (ghost b: Block)
      requires Parts() && w.Valid() && Closed(ts) && w.end == OUT_BUF_SIZE - 16 && |w.Put()| <= 16
      modifies w`pos, w`bitBuffer, w`bitsIn, w`bytes, w.out, lit.counts, lit.codes, lit.sizes, dst.codes, dst.sizes
      modifies pk.counts, pk.codes, pk.sizes
      ensures Written(old(w.Put()), b, ts, data) && b.Compressed? && b.tables.Fixed?
    {
      hide Parts, BitWriter.Valid, BitWriter.Put, BytesToBits, ToBits, Packed, AllCoded, HeaderOk, BodyBits, FixedLens, FixedDists,
        TokenOk;
      FixedBlockFits(ts);
      var ok;
      ok, b := CompressBlock(true, ts);
      RoomLeft();
    }

    /** The decision by the place in the output buffer, which does not go past its end. */
    lemma Decided(before: seq<bool>, b: Block, tried: Block, useRaw: bool, forceFixed: bool, inDict: bool, ts: seq<Token>,
                  size: nat, from: nat, to: nat)
      requires w.end == OUT_BUF_SIZE - 16 && |before| <= 16 && from == |before| / 8 && (inDict ==> size <= DICT_SIZE)
      requires Shape(tried) && Thrifty(tried) && Thrifty(b) && (useRaw ==> inDict)
      requires !useRaw ==> tried.Compressed? && tried.tokens == ts && (tried.tables.Fixed? <==> forceFixed || size < 48)
      requires !useRaw ==> to == if from + Grown(before, tried) < w.end then from + Grown(before, tried) else w.end
      requires useRaw ==> from <= to
      requires if (useRaw || (size != 0 && to - from + 1 >= size)) && inDict then b.Stored?
               else if to >= w.end then b.Compressed? && b.tables.Fixed?
               else b == tried
      ensures Chosen(before, b, tried, useRaw, forceFixed, inDict, ts, size)
    {
      hide Shape, Thrifty, ContentBits;
    }

    lemma NothingWasted(b: Block)
      requires b.Stored? || b.tables.Fixed?
      ensures Thrifty(b)
    {
    }

    /** The block in the form that tdefl_flush_block chooses: compressed, unless that makes it longer and the
        data are still in the dictionary; and with the fixed codes if the output buffer is too small otherwise. */
    method WriteForm(useRaw: bool, forceFixed: bool, inDict: bool, dict: array<byte>, from: nat,
                     ghost ts: seq<Token>, ghost data: seq<byte>)
      returns (ghost b: Block, ghost tried: Block)
      requires Parts() && w.Valid() && Closed(ts) && Measured(ts) && w.end == OUT_BUF_SIZE - 16 && |w.Put()| <= 16
      requires dict != w.out && buf.total == |data| && InDict(inDict, dict, from, data) && (useRaw ==> inDict)
      modifies w`pos, w`bitBuffer, w`bitsIn, w`bytes, w.out, lit.counts, lit.codes, lit.sizes, dst.codes, dst.sizes
      modifies pk.counts, pk.codes, pk.sizes
      ensures Written(old(w.Put()), b, ts, data) && Chosen(old(w.Put()), b, tried, useRaw, forceFixed, inDict, ts, |data|)
    {
      hide Parts, BitWriter.Valid, ToBits, BytesToBits, ContentBits, Shape, Closed, Measured, Pow2, Thrifty, BitWriter.Put, Chosen,
        Grown;
      Apart();
      w.Fraction();
      w.Bounds();
      ghost var before, saved := w.Put(), w.bytes;
      var savedPos, savedBuffer, savedIn := w.pos, w.bitBuffer, w.bitsIn;
      assert inDict ==> |data| <= DICT_SIZE;
      assert w.Put() == BytesToBits(saved) + ToBits(savedBuffer, savedIn) by {
        PutParts();
      }
      hide InDict;
      var ok := false;
      ghost var to := savedPos;
      if !useRaw {
        ok, b := CompressBlock(forceFixed || buf.total < 48, ts);
        tried, to := b, w.pos;
        GrownTo(before, b, savedPos);
      }
      if (useRaw || (buf.total != 0 && w.pos - savedPos + 1 >= buf.total)) && inDict {
        Rewind(savedPos, savedBuffer, savedIn, saved);
        b := WriteRaw(dict, from, ts, data);
        NothingWasted(b);
        tried := if useRaw then b else tried;
      } else if !ok {
        Rewind(savedPos, savedBuffer, savedIn, saved);
        b := WriteFixed(ts, data);
        NothingWasted(b);
      }
      Decided(before, b, tried, useRaw, forceFixed, inDict, ts, |data|, savedPos, to);
    }

    lemma PutParts()
      ensures w.Put() == BytesToBits(w.bytes) + ToBits(w.bitBuffer, w.bitsIn)
    {
    }

    /** Where the output is behind a block. */
    lemma GrownTo(before: seq<bool>, b: Block, from: nat)
      requires w.Valid() && Shape(b) && w.Put() == before + (ToBits(TypeOf(b), 2) + ContentBits(b)) && from == |before| / 8
      ensures w.pos == if from + Grown(before, b) < w.end then from + Grown(before, b) else w.end
    {
      hide ContentBits, Shape, BitWriter.Put, ToBits;
      w.Fraction();
      w.Bounds();
    }

    /** The counts of a new block. */
    method ResetCounts()
      requires Parts() && forall k :: 32 <= k < MAX_HUFF_SYMBOLS ==> dst.counts[k] == 0
      modifies lit.counts, dst.counts
      ensures Counted(lit.counts[..], dst.counts[..], [])
    {
      forall k | 0 <= k < 288 { lit.counts[k] := 0; }
      forall k | 0 <= k < 32 { dst.counts[k] := 0; }
    }

    lemma FinalBits(before: seq<bool>, finish: bool, b: Block)
      requires Shape(b)
      ensures before + ToBits(if finish then 1 else 0, 1) + (ToBits(TypeOf(b), 2) + ContentBits(b)) == before + BlockBits(b, finish)
    {
      hide Shape, ContentBits;
      assert ToBits(if finish then 1 else 0, 1) == [finish];
    }

    /** A block with the bit that says whether it is the last. */
    method WriteFinal(finish: bool, useRaw: bool, forceFixed: bool, inDict: bool, dict: array<byte>, from: nat,
                      ghost ts: seq<Token>, ghost data: seq<byte>)
      returns (ghost b: Block, ghost tried: Block)
      requires Parts() && w.Valid() && Closed(ts) && Measured(ts) && w.end == OUT_BUF_SIZE - 16 && |w.Put()| < 8
      requires dict != w.out && buf.total == |data| && InDict(inDict, dict, from, data) && (useRaw ==> inDict)
      modifies w`pos, w`bitBuffer, w`bitsIn, w`bytes, w.out, lit.counts, lit.codes, lit.sizes, dst.codes, dst.sizes
      modifies pk.counts, pk.codes, pk.sizes
      ensures w.Valid() && w.pos < w.end && Shape(b) && w.Put() == old(w.Put()) + BlockBits(b, finish)
      ensures match b
              case Stored(pad, d) => d == data && (|old(w.Put())| + 3 + |pad|) % 8 == 0
              case Compressed(_, tokens) => tokens == ts
      ensures Chosen(old(w.Put()) + ToBits(if finish then 1 else 0, 1), b, tried, useRaw, forceFixed, inDict, ts, |data|)
    {
      hide BitWriter.Valid, BitWriter.Put, ToBits, BytesToBits, ContentBits, Shape, Closed, InDict, Measured, Pow2, BlockBits, Chosen;
      Apart();
      Powers();
      ghost var before := w.Put();
      w.PutBits(if finish then 1 else 0, 1);
      b, tried := WriteForm(useRaw, forceFixed, inDict, dict, from, ts, data);
      FinalBits(before, finish, b);
    }

    /** Everything that was put since the last block, and is now in the output buffer and in the bit buffer. */
    ghost predicate BlockPut(before: seq<bool>, b: Block, finish: bool, pad: seq<bool>)
      requires Shape(b)
      reads w
    {
      && w.Put() == before + (BlockBits(b, finish) + pad) && w.Intact()
      && (if finish then |pad| < 8 && w.bitsIn == 0 else pad == [])
    }

    lemma AtStart(ts: seq<Token>)
      requires Valid() && ts == buf.Tokens()
      ensures AllOk(ts) && Countable(lit.counts[..], dst.counts[..], ts)
      ensures forall k :: 32 <= k < MAX_HUFF_SYMBOLS ==> dst.counts[k] == 0
    {
      hide BitWriter.Valid, CodeBuffer.Valid, CodeBuffer.Tokens, TokenOk, LitCount, DistCount;
      FewTokens();
      CountsAreCountable(lit.counts[..], dst.counts[..], ts);
      assert forall k :: 0 <= k < MAX_HUFF_SYMBOLS ==> dst.counts[..][k] == dst.counts[k];
    }

    method CloseBuffer(ghost ts: seq<Token>)
      requires Valid() && ts == buf.Tokens()
      modifies buf`pos, buf.codes
      ensures buf.codes.Length == LZ_CODE_BUF_SIZE && Closed(ts) && Measured(ts)
      ensures forall k :: 32 <= k < MAX_HUFF_SYMBOLS ==> dst.counts[k] == 0
    {
      hide BitWriter.Valid, CodeBuffer.Valid, Counted, TokenOk, Packed, Countable;
      AtStart(ts);
      buf.Close();
    }

    /** After the last block, the last byte is filled up. */
    method FinishBytes(finish: bool, ghost before: seq<bool>, ghost b: Block) returns (ghost pad: seq<bool>)
      requires w.Valid() && w.pos < w.end && Shape(b) && w.Put() == before + BlockBits(b, finish)
      modifies w`pos, w`bitBuffer, w`bitsIn, w`bytes, w.out
      ensures w.Valid() && BlockPut(before, b, finish, pad)
    {
      hide BitWriter.Valid, BitWriter.Put, ToBits, Shape, BlockBits;
      pad := [];
      w.Bounds();
      w.NotFull();
      ghost var bits := BlockBits(b, finish);
      assert bits + [] == bits;
      if finish {
        pad := PadToByte();
        SnocBits(before, bits, pad);
        w.NotFull();
      }
    }

    /** The part of tdefl_flush_block that writes: the tokens recorded become one block, and recording starts
        anew.  No byte of output is lost. */
    method WriteBlock(finish: bool, useRaw: bool, forceFixed: bool, inDict: bool, dict: array<byte>, from: nat,
                      ghost ts: seq<Token>, ghost data: seq<byte>)
      returns (ghost b: Block, ghost pad: seq<bool>, ghost tried: Block)
      requires Valid() && ts == buf.Tokens() && buf.total == |data| && dict != w.out && dict != buf.codes
      requires InDict(inDict, dict, from, data) && (useRaw ==> inDict)
      modifies w, w.out, buf, buf.codes, lit.counts, lit.codes, lit.sizes, dst.counts, dst.codes, dst.sizes
      modifies pk.counts, pk.codes, pk.sizes
      ensures Valid() && buf.Tokens() == [] && buf.total == 0 && buf.pos == 1
      ensures Shape(b) && BlockPut(old(ToBits(w.bitBuffer, w.bitsIn)), b, finish, pad)
      ensures match b
              case Stored(p, d) => d == data && (old(w.bitsIn) + 3 + |p|) % 8 == 0
              case Compressed(_, tokens) => tokens == ts
      ensures Chosen(old(ToBits(w.bitBuffer, w.bitsIn)) + ToBits(if finish then 1 else 0, 1), b, tried,
                     useRaw, forceFixed, inDict, ts, |data|)
    {
      hide Parts, BitWriter.Valid, BitWriter.Put, CodeBuffer.Valid, CodeBuffer.Tokens, ToBits, BytesToBits, ContentBits, Shape, Closed,
        InDict, Measured, Pow2, Counted, BlockBits, TokenOk, Packed, Countable, BlockPut, Chosen;
      Apart();
      w.Fraction();
      ghost var leftOver := ToBits(w.bitBuffer, w.bitsIn);
      CloseBuffer(ts);
      w.Start(16);
      b, tried := WriteFinal(finish, useRaw, forceFixed, inDict, dict, from, ts, data);
      pad := FinishBytes(finish, leftOver, b);
      ResetCounts();
      buf.Reset();
      NoTokens();
    }

    lemma NoTokens()
      ensures AllOk([])
    {
    }
  }

  lemma NoBits()
    ensures ToBits(0, 0) == []
  {
  }

  lemma RawPieces(before: seq<bool>, pad: seq<bool>, t: seq<bool>, n: nat, data: seq<bool>)
    requires n < 0x10000
    ensures before + t + pad + ToBits(n, 16) + ToBits(0xFFFF - n, 16) + data == before + (t + (pad + (LengthField(n) + data)))
  {
    hide ToBits;
  }

  lemma Three(p: seq<bool>, a: seq<bool>, b: seq<bool>, c: seq<bool>)
    ensures p + (a + b) + c == p + (a + (b + c))
  {
  }

  lemma OneByte(b: byte)
    ensures b < Pow2(8) && BytesToBits([b]) == ToBits(b, 8)
  {
    assert Pow2(8) == 256;
  }

  lemma Powers()
    ensures Pow2(1) == 2 && Pow2(2) == 4 && Pow2(16) == 65536
  {
    assert Pow2(8) == 256 && Pow2(12) == 4096;
  }

  lemma SmallPower(n: nat)
    ensures 0 < Pow2(n)
  {
  }
}
