/** The compressor: the parser that turns input into tokens, and the blocks it makes of them. */
module Compressors {
  import opened Bits
  import opened Symbols
  import opened Format
  import opened Streams
  import opened BitWriters
  import opened LzCodes
  import opened EncodeTables
  import opened SymbolCounts
  import opened Encoders
  import opened HashChains
  import opened Parsers
  import opened Dictionaries
  import opened Sinks

  datatype Result = BadParam | PutBufFailed | Okay | Done

  // ---------- what the state means

  /** The tokens of the block so far stand for the bytes from start to end. */
  ghost predicate Parsed(ts: seq<Token>, src: seq<byte>, start: nat, end: int, total: nat)
  {
    && start <= end <= |src| && total == end - start
    && AllReach(ts, src[..start]) && Expand(ts, src[..start]) == src[..end]
  }

  /** A match that waits for a better one one byte on: the byte it would start with is the last before pos. */
  ghost predicate Saved(src: seq<byte>, pos: nat, len: nat, dist: nat, lit: byte)
  {
    len > 0 ==>
      MIN_MATCH <= len < 128 && dist <= DICT_SIZE && 1 <= pos <= |src| && Genuine(src, pos - 1, len, dist) && lit == src[pos - 1]
  }

  /** The output so far, with the bits that are left over, are blocks that stand for the bytes up to start. */
  ghost predicate Emitted(blocks: seq<Block>, got: seq<byte>, left: seq<bool>, src: seq<byte>, start: nat)
  {
    && AllShape(blocks) && StreamAligned(blocks, 0) && StreamGrounded(blocks, [])
    && start <= |src| && StreamData(blocks, []) == src[..start]
    && BytesToBits(got) + left == StreamBits(blocks, false)
  }

  /** The blocks are made of what the parser recorded before the tokens ts, and waste nothing. */
  ghost predicate Told(looks: seq<Look>, told: seq<seq<Token>>, blocks: seq<Block>, ts: seq<Token>)
  {
    AllTokens(looks) == Joined(told) + ts && MadeOf(blocks, told) && forall i :: 0 <= i < |blocks| ==> Thrifty(blocks[i])
  }

  /** One more block is made of the tokens. */
  lemma ToldNext(looks: seq<Look>, told: seq<seq<Token>>, blocks: seq<Block>, ts: seq<Token>, b: Block)
    requires Told(looks, told, blocks, ts) && Thrifty(b) && (b.Compressed? ==> b.tokens == ts)
    ensures Told(looks, told + [ts], blocks + [b], [])
  {
    hide Thrifty;
    JoinedNext(told, ts);
    assert Joined(told + [ts]) + [] == Joined(told + [ts]);
  }

  /** One more step has recorded more tokens. */
  lemma ToldStep(looks: seq<Look>, told: seq<seq<Token>>, blocks: seq<Block>, ts: seq<Token>, looks': seq<Look>, more: seq<Token>)
    requires Told(looks, told, blocks, ts) && AllTokens(looks') == AllTokens(looks) + more
    ensures Told(looks', told, blocks, ts + more)
  {
    assert Joined(told) + ts + more == Joined(told) + (ts + more);
  }

  /** A step that looks as far as it can, behind others that do. */
  lemma OneMoreLook(looks: seq<Look>, looks': seq<Look>, src: seq<byte>)
    requires |looks'| == |looks| + 1 && looks <= looks' && FarEnough(src, looks)
    requires var l := looks'[|looks|]; l.pos + l.size <= |src| && l.size == Least(MAX_MATCH, |src| - l.pos)
    ensures FarEnough(src, looks')
    ensures FarSighted(looks) && looks'[|looks|].size == MAX_MATCH ==> FarSighted(looks')
  {
  }

  lemma Explains(looks: seq<Look>, told: seq<seq<Token>>, blocks: seq<Block>, opt: Options, data: seq<byte>)
    requires ParseOk(data, opt, looks) && FarEnough(data, looks) && EndOf(looks) == |data|
    requires WaitsAfter(looks, NOTHING).len == 0 && Told(looks, told, blocks, [])
    ensures Explained(looks, told, blocks, opt, data)
  {
  }

  /** The blocks are what a parse of all the data makes, and waste nothing. */
  ghost predicate Explained(looks: seq<Look>, told: seq<seq<Token>>, blocks: seq<Block>, opt: Options, data: seq<byte>)
  {
    && ParseOk(data, opt, looks) && FarEnough(data, looks) && EndOf(looks) == |data|
    && WaitsAfter(looks, NOTHING).len == 0 && Told(looks, told, blocks, [])
  }

  lemma MoreInput(ts: seq<Token>, src: seq<byte>, src': seq<byte>, start: nat, end: int, total: nat)
    requires Parsed(ts, src, start, end, total) && src <= src'
    ensures Parsed(ts, src', start, end, total)
  {
    assert src'[..start] == src[..start] && src'[..end] == src[..end];
  }

  lemma MoreSaved(src: seq<byte>, src': seq<byte>, pos: nat, len: nat, dist: nat, lit: byte)
    requires Saved(src, pos, len, dist, lit) && src <= src'
    ensures Saved(src', pos, len, dist, lit)
  {
  }

  lemma MoreEmitted(blocks: seq<Block>, got: seq<byte>, left: seq<bool>, src: seq<byte>, src': seq<byte>, start: nat)
    requires Emitted(blocks, got, left, src, start) && src <= src'
    ensures Emitted(blocks, got, left, src', start)
  {
    hide StreamBits, StreamAligned, StreamGrounded, StreamData, Shape;
    assert src'[..start] == src[..start];
  }

  lemma ParsedLiteral(ts: seq<Token>, src: seq<byte>, start: nat, end: int, total: nat, b: byte)
    requires Parsed(ts, src, start, end, total) && end < |src| && src[end] == b
    ensures Parsed(ts + [Literal(b)], src, start, end + 1, total + 1)
  {
    AddToken(ts, Literal(b), src[..start]);
    assert src[..end + 1] == src[..end] + [b];
  }

  lemma ParsedMatch(ts: seq<Token>, src: seq<byte>, start: nat, end: int, total: nat, len: nat, dist: nat)
    requires Parsed(ts, src, start, end, total) && Genuine(src, end, len, dist)
    requires MIN_MATCH <= len <= MAX_MATCH && dist <= DICT_SIZE
    ensures Parsed(ts + [Match(len, dist)], src, start, end + len, total + len)
  {
    AddToken(ts, Match(len, dist), src[..start]);
    GenuineCopy(src, end, len, dist);
  }

  /** A block behind the others. */
  lemma EmittedBlock(blocks: seq<Block>, got: seq<byte>, left: seq<bool>, src: seq<byte>, start: nat, end: nat, b: Block,
                     finish: bool, bytes: seq<byte>, left': seq<bool>, pad: seq<bool>)
    requires Emitted(blocks, got, left, src, start) && Shape(b) && start <= end <= |src|
    requires Grounded(b, src[..start]) && BlockData(b, src[..start]) == src[..end]
    requires b.Stored? ==> (|left| + 3 + |b.pad|) % 8 == 0
    requires BytesToBits(bytes) + left' == left + (BlockBits(b, finish) + pad)
    ensures var bs := blocks + [b];
            && AllShape(bs) && StreamAligned(bs, 0) && StreamGrounded(bs, []) && StreamData(bs, []) == src[..end]
            && BytesToBits(got + bytes) + left' == StreamBits(bs, finish) + pad
  {
    hide StreamBits, StreamAligned, StreamGrounded, StreamData, Shape, BlockBits, BytesToBits, BlockData, Grounded, Aligned;
    StreamBitsSnoc(blocks, b, finish);
    AlignedAt(b, |got|, |left|, |StreamBits(blocks, false)|);
    StreamAlignedSnoc(blocks, b, 0);
    StreamDataSnoc(blocks, b, []);
    BytesToBitsConcat(got, bytes);
    FivePieces(BytesToBits(got), BytesToBits(bytes), left', left, BlockBits(b, finish), pad);
  }

  lemma NothingParsed(src: seq<byte>, end: nat)
    requires end <= |src|
    ensures Parsed([], src, end, end, 0)
  {
  }

  lemma NoBitsLeft(bits: seq<bool>, v: nat)
    ensures bits + ToBits(v, 0) == bits
  {
  }

  lemma EmittedAgain(blocks: seq<Block>, got: seq<byte>, left: seq<bool>, src: seq<byte>, end: nat)
    requires AllShape(blocks) && StreamAligned(blocks, 0) && StreamGrounded(blocks, [])
    requires end <= |src| && StreamData(blocks, []) == src[..end] && BytesToBits(got) + left == StreamBits(blocks, false)
    ensures Emitted(blocks, got, left, src, end)
  {
    hide Shape, StreamAligned, StreamGrounded, StreamData, StreamBits;
  }

  lemma AlignedAt(b: Block, bytes: nat, left: nat, ofs: nat)
    requires b.Stored? ==> (left + 3 + |b.pad|) % 8 == 0
    requires ofs == 8 * bytes + left
    ensures Aligned(b, ofs)
  {
  }

  lemma FivePieces(g: seq<bool>, b: seq<bool>, l': seq<bool>, l: seq<bool>, k: seq<bool>, p: seq<bool>)
    requires b + l' == l + (k + p)
    ensures (g + b) + l' == ((g + l) + k) + p
  {
    assert (g + b) + l' == g + (b + l');
  }

  class Compressor {
    const enc: Encoder
    const win: Dictionary
    const sink: Sink
    const opt: Options
    var blockStart: nat
    var savedLen: nat
    var savedDist: nat
    var savedLit: byte
    var wantsToFinish: bool
    var finished: bool
    var prevResult: Result
    ghost var blocks: seq<Block>
    /** The steps of the parser so far, and the tokens of the blocks that have been put out. */
    ghost var looks: seq<Look>
    ghost var told: seq<seq<Token>>

    /** tdefl_init. */
    constructor (options: Options, output: Sink)
      requires options.probes >= 1 && options.probesLong >= 1 && output.got == []
      ensures Valid() && FarSighted(looks) && win.src == [] && opt == options && sink == output
      ensures !wantsToFinish && !finished && prevResult == Okay
      ensures fresh(enc.w) && fresh(enc.w.out) && fresh(enc.buf) && fresh(enc.buf.codes)
      ensures fresh(enc.lit.counts) && fresh(enc.lit.codes) && fresh(enc.lit.sizes) && fresh(enc.dst.counts) && fresh(enc.dst.codes)
      ensures fresh(enc.dst.sizes) && fresh(enc.pk.counts) && fresh(enc.pk.codes) && fresh(enc.pk.sizes)
      ensures fresh(win) && fresh(win.dict) && fresh(win.next) && fresh(win.hash)
    {
      hide Encoder.Parts, BitWriter.Valid, CodeBuffer.Valid, CodeBuffer.Tokens;
      enc := new Encoder();
      win := new Dictionary();
      sink := output;
      opt := options;
      blockStart, savedLen, savedDist, savedLit := 0, 0, 0, 0;
      wantsToFinish, finished, prevResult := false, false, Okay;
      blocks, looks, told := [], [], [];
      new;
      assert Apart();
      hide Apart, Encoder.Valid, Dictionary.Valid, BitWriter.Put;
      NothingYet(enc.w);
    }

    lemma NothingYet(w: BitWriter)
      requires w.Put() == [] && w.bytes == []
      ensures Parsed([], [], 0, 0, 0) && Saved([], 0, 0, 0, 0) && Emitted([], [], ToBits(w.bitBuffer, w.bitsIn), [], 0)
    {
    }

    /** No array is used by two of the parts. */
    ghost predicate Apart()
    {
      && win.dict != enc.w.out && win.dict != enc.buf.codes
      && {win.next, win.hash} !! {enc.lit.counts, enc.lit.codes, enc.lit.sizes, enc.dst.counts, enc.dst.codes, enc.dst.sizes,
                                  enc.pk.counts, enc.pk.codes, enc.pk.sizes}
      && opt.probes >= 1 && opt.probesLong >= 1
    }

    /** Where the tokens end: a match that waits is not yet one of them. */
    function End(): int
      reads `savedLen, win`lookaheadPos
    {
      win.lookaheadPos - if savedLen > 0 then 1 else 0
    }

    /** The tokens and the match that waits stand for the input up to the lookahead. */
    ghost predicate Parsing()
      reads `blockStart, `savedLen, `savedDist, `savedLit, enc.buf`full, enc.buf`cur, enc.buf`total, win`src, win`lookaheadPos
    {
      && Parsed(enc.buf.Tokens(), win.src, blockStart, End(), enc.buf.total)
      && Saved(win.src, win.lookaheadPos, savedLen, savedDist, savedLit)
      && (savedLen > 0 ==> !opt.rle && !opt.forceRaw)
    }

    /** The output stands for the blocks before. */
    ghost predicate Emitting()
      reads `blocks, `blockStart, sink`got, enc.w`bitBuffer, enc.w`bitsIn, win`src
    {
      Emitted(blocks, sink.got, ToBits(enc.w.bitBuffer, enc.w.bitsIn), win.src, blockStart)
    }

    function Saving(): Pending
      reads `savedLen, `savedDist, `savedLit
    {
      Pending(savedLen, savedDist, savedLit)
    }

    /** The tokens are those of a parse of the data up to the lookahead. */
    ghost predicate Traced()
      reads `savedLen, `savedDist, `savedLit, `blocks, `looks, `told, enc.buf`full, enc.buf`cur, win`src, win`lookaheadPos
    {
      && ParseOk(win.src, opt, looks) && EndOf(looks) == win.lookaheadPos && WaitsAfter(looks, NOTHING) == Saving()
      && Told(looks, told, blocks, enc.buf.Tokens())
    }

    ghost predicate Sound()
      reads `blockStart, `savedLen, `savedDist, `savedLit, `blocks, `looks, `told
      reads enc.w, enc.w.out, enc.buf, enc.buf.codes, enc.lit.counts, enc.dst.counts, win, win.dict, win.next, win.hash, sink
    {
      && Apart() && enc.Valid() && win.Valid() && win.Exact() && Parsing() && Emitting() && Traced()
    }

    /** There is also room in the code buffer for what the parser may record in one step. */
    ghost predicate Valid()
      reads `blockStart, `savedLen, `savedDist, `savedLit, `blocks, `looks, `told
      reads enc.w, enc.w.out, enc.buf, enc.buf.codes, enc.lit.counts, enc.dst.counts, win, win.dict, win.next, win.hash, sink
    {
      Sound() && enc.buf.pos + 8 <= LZ_CODE_BUF_SIZE
    }

    // ---------- one step of the parser

    /** Takes in more of the input. */
    method TakeIn(input: seq<byte>, from: nat) returns (to: nat)
      requires Valid() && from <= |input| && (from < |input| ==> FarSighted(looks)) && FarEnough(win.src, looks)
      modifies win`lookaheadSize, win`dictSize, win`src, win.dict, win.next, win.hash
      ensures Valid() && from <= to <= |input| && win.src == old(win.src) + input[from..to] && FarEnough(win.src, looks)
      ensures win.lookaheadSize == old(win.lookaheadSize) + (to - from) && (to == |input| || win.lookaheadSize == MAX_MATCH)
    {
      hide Encoder.Parts, Encoder.Valid, Parsed, Saved, Emitted, Dictionary.Valid, CodeBuffer.Tokens, ParseOk, Told,
        FarSighted, FarEnough, AllTokens, EndOf, WaitsAfter;
      ghost var s := win.src;
      to := win.Fill(input, from);
      MoreInput(enc.buf.Tokens(), s, win.src, blockStart, End(), enc.buf.total);
      MoreSaved(s, win.src, win.lookaheadPos, savedLen, savedDist, savedLit);
      MoreEmitted(blocks, sink.got, ToBits(enc.w.bitBuffer, enc.w.bitsIn), s, win.src, blockStart);
      if from < |input| {
        ParseStays(s, win.src, opt, looks);
        FarIsEnough(win.src, opt, looks);
      } else {
        assert win.src == s;
      }
    }

    /** A match at the lookahead, better than the one that waits; or none, at distance 0: the one that the search
        comes up with, unless it is rejected. */
    method Choose() returns (dist: nat, len: nat, ghost at: nat, ghost found: nat)
      requires Valid() && win.lookaheadSize > 0
      ensures dist > 0 ==> MIN_MATCH <= len <= win.lookaheadSize && dist <= win.dictSize && Genuine(win.src, win.lookaheadPos, len, dist)
      ensures (dist == 0 ==> len <= savedLen || savedLen == 0) && (opt.forceRaw ==> dist == 0)
      ensures Candidate(win.src, opt, savedLen, win.lookaheadPos, win.lookaheadSize, win.dictSize, at, found)
      ensures if Rejected(at, found, win.lookaheadPos % DICT_SIZE, opt.filter) then dist == len == 0 else dist == at && len == found
    {
      hide Encoder.Parts, Encoder.Valid, Parsed, Emitted, Dictionary.Valid, CodeBuffer.Tokens, NoneReached, Traced,
        NoLonger, Genuine, Dictionary.Rest, Dictionary.Beaten;
      dist, len := 0, if savedLen > 0 then savedLen else MIN_MATCH - 1;
      var curPos := win.lookaheadPos % DICT_SIZE;
      if opt.rle || opt.forceRaw {
        if win.dictSize > 0 && !opt.forceRaw {
          len := win.FindRun();
          NoLongerThan(len, MIN_MATCH - 1);
          if len < MIN_MATCH {
            len := 0;
          } else {
            dist := 1;
          }
        }
      } else {
        dist, len := win.FindMatch(0, len, if len >= 32 then opt.probesLong else opt.probes);
        NotAtZero(len, dist);
      }
      at, found := dist, len;
      if (len == MIN_MATCH && dist >= 8 * 1024) || curPos == dist || (opt.filter && len <= 5) {
        dist, len := 0, 0;
      }
    }

    lemma NotAtZero(len: nat, dist: nat)
      ensures Genuine(win.src, win.lookaheadPos, len, dist) ==> dist > 0
    {
    }

    lemma NoLongerThan(len: nat, more: nat)
      requires NoLonger(win.src, win.lookaheadPos, win.lookaheadSize, 1, len)
      ensures len <= more ==> NoLonger(win.src, win.lookaheadPos, win.lookaheadSize, 1, more)
    {
    }

    /** The state of the parse, once the lookahead has moved on by move. */
    ghost predicate ParsedTo(move: nat)
      reads `blockStart, `savedLen, `savedDist, `savedLit, enc.buf`full, enc.buf`cur, enc.buf`total, win`src, win`lookaheadPos
    {
      && Parsed(enc.buf.Tokens(), win.src, blockStart, End() + move, enc.buf.total)
      && Saved(win.src, win.lookaheadPos + move, savedLen, savedDist, savedLit)
      && (savedLen > 0 ==> !opt.rle && !opt.forceRaw)
    }

    method RecordLiteral(b: byte, ghost end: nat)
      requires enc.Valid() && Apart() && end < |win.src| && win.src[end] == b && enc.buf.pos + 2 <= LZ_CODE_BUF_SIZE
      requires Parsed(enc.buf.Tokens(), win.src, blockStart, end, enc.buf.total)
      modifies enc.buf, enc.buf.codes, enc.lit.counts
      ensures enc.Valid() && Parsed(enc.buf.Tokens(), win.src, blockStart, end + 1, enc.buf.total) && enc.buf.pos <= old(enc.buf.pos) + 2
      ensures enc.buf.Tokens() == old(enc.buf.Tokens()) + [Literal(b)]
    {
      hide Encoder.Valid, Parsed, CodeBuffer.Tokens;
      ParsedLiteral(enc.buf.Tokens(), win.src, blockStart, end, enc.buf.total, b);
      enc.RecordLiteral(b);
    }

    method RecordMatch(len: nat, dist: nat, ghost end: nat)
      requires enc.Valid() && Apart() && Genuine(win.src, end, len, dist) && enc.buf.pos + 4 <= LZ_CODE_BUF_SIZE
      requires MIN_MATCH <= len <= MAX_MATCH && dist <= DICT_SIZE
      requires Parsed(enc.buf.Tokens(), win.src, blockStart, end, enc.buf.total)
      modifies enc.buf, enc.buf.codes, enc.lit.counts, enc.dst.counts
      ensures enc.Valid() && Parsed(enc.buf.Tokens(), win.src, blockStart, end + len, enc.buf.total) && enc.buf.pos <= old(enc.buf.pos) + 4
      ensures enc.buf.Tokens() == old(enc.buf.Tokens()) + [Match(len, dist)]
    {
      hide Encoder.Valid, Parsed, CodeBuffer.Tokens;
      ParsedMatch(enc.buf.Tokens(), win.src, blockStart, end, enc.buf.total, len, dist);
      enc.RecordMatch(len, dist);
    }

    /** What the state says about the match that waits. */
    lemma Waiting()
      requires Valid()
      ensures enc.Valid() && win.Valid() && |win.src| == win.lookaheadPos + win.lookaheadSize && win.lookaheadSize <= MAX_MATCH
      ensures Apart() && win.Exact() && Traced() && Emitting() && enc.buf.pos + 8 <= LZ_CODE_BUF_SIZE && 0 <= End()
      ensures Parsed(enc.buf.Tokens(), win.src, blockStart, End(), enc.buf.total)
      ensures savedLen > 0 ==> !opt.rle && !opt.forceRaw
      ensures savedLen > 0 ==> MIN_MATCH <= savedLen < 128 && savedDist <= DICT_SIZE
      ensures savedLen > 0 ==> Genuine(win.src, win.lookaheadPos - 1, savedLen, savedDist)
      ensures savedLen > 0 ==> savedLit == win.src[win.lookaheadPos - 1] && savedLen - 1 <= win.lookaheadSize
    {
      hide Encoder.Parts, Encoder.Valid, Emitted, CodeBuffer.Tokens;
    }

    lemma BothTokens(ts: seq<Token>, a: Token, b: Token)
      ensures ts + [a] + [b] == ts + ([a] + [b]) && ts + ([a] + []) == ts + [a] && ts + [] == ts
    {
    }

    /** The parser has done what was to be done about a match that was chosen at byte b. */
    ghost predicate Took(ts: seq<Token>, p: Pending, dist: nat, len: nat, b: byte, move: nat)
      reads `savedLen, `savedDist, `savedLit, enc.buf`full, enc.buf`cur
    {
      var m := Decide(p, dist, len, b, opt.greedy || opt.rle);
      enc.buf.Tokens() == ts + m.tokens && Saving() == m.pending && move == m.move
    }

    /** The match that waits gives way to a longer one that starts a byte later. */
    method Outdo(dist: nat, len: nat, b: byte) returns (move: nat)
      requires Valid() && savedLen > 0 && len > savedLen && win.lookaheadSize > 0 && b == win.src[win.lookaheadPos]
      requires MIN_MATCH <= len <= win.lookaheadSize && dist <= win.dictSize && Genuine(win.src, win.lookaheadPos, len, dist)
      modifies this`savedLen, this`savedDist, this`savedLit, enc.buf, enc.buf.codes, enc.lit.counts, enc.dst.counts
      ensures 1 <= move <= win.lookaheadSize && ParsedTo(move)
      ensures enc.Valid() && enc.buf.pos <= old(enc.buf.pos) + 6
      ensures Took(old(enc.buf.Tokens()), old(Saving()), dist, len, b, move)
    {
      hide Apart, Encoder.Valid, Encoder.Recorded, Parsed, Genuine, Dictionary.Valid, CodeBuffer.Tokens, Emitted, Sound, Parsing,
        Emitting, Traced, Valid, BitWriter.Valid;
      Waiting();
      BothTokens(enc.buf.Tokens(), Literal(savedLit), Match(len, dist));
      move := 1;
      ghost var pos := win.lookaheadPos;
      RecordLiteral(savedLit, pos - 1);
      if len >= 128 {
        RecordMatch(len, dist, pos);
        savedLen := 0;
        move := len;
      } else {
        savedLit, savedDist, savedLen := b, dist, len;
      }
    }

    /** Records a match, or keeps it waiting, or records a literal: how far the parse has got is the result. */
    method Record(dist: nat, len: nat) returns (move: nat)
      requires Valid() && win.lookaheadSize > 0
      requires dist > 0 ==> MIN_MATCH <= len <= win.lookaheadSize && dist <= win.dictSize && Genuine(win.src, win.lookaheadPos, len, dist)
      requires dist == 0 ==> len <= savedLen || savedLen == 0
      requires opt.forceRaw ==> dist == 0
      modifies this`savedLen, this`savedDist, this`savedLit, enc.buf, enc.buf.codes, enc.lit.counts, enc.dst.counts
      ensures 1 <= move <= win.lookaheadSize && ParsedTo(move)
      ensures enc.Valid() && enc.buf.pos <= old(enc.buf.pos) + 6
      ensures win.lookaheadPos < |win.src| && Took(old(enc.buf.Tokens()), old(Saving()), dist, len, win.src[win.lookaheadPos], move)
    {
      hide Apart, Encoder.Valid, Encoder.Recorded, Parsed, Genuine, Dictionary.Valid, CodeBuffer.Tokens, Emitted, Sound, Parsing,
        Emitting, Traced, Valid, BitWriter.Valid;
      Waiting();
      BothTokens(enc.buf.Tokens(), Literal(savedLit), Literal(savedLit));
      move := 1;
      var b := win.Peek();
      ghost var pos := win.lookaheadPos;
      if savedLen > 0 {
        if len > savedLen {
          move := Outdo(dist, len, b);
        } else {
          RecordMatch(savedLen, savedDist, pos - 1);
          move := savedLen - 1;
          savedLen := 0;
        }
      } else if dist == 0 {
        RecordLiteral(b, pos);
      } else if opt.greedy || opt.rle || len >= 128 {
        RecordMatch(len, dist, pos);
        move := len;
      } else {
        savedLit, savedDist, savedLen := b, dist, len;
      }
    }

    // ---------- blocks

    /** The output is a whole stream that stands for the data, and tail fills up its last byte. */
    ghost predicate Complete(tail: seq<bool>, data: seq<byte>)
      reads `blocks, sink`got
    {
      && blocks != [] && AllShape(blocks) && StreamAligned(blocks, 0) && StreamGrounded(blocks, [])
      && StreamData(blocks, []) == data && BytesToBits(sink.got) == StreamBits(blocks, true) + tail
    }

    /** What is still in the dictionary of the bytes of the block. */
    lemma StillThere(data: seq<byte>)
      requires Sound() && 0 <= blockStart <= End() <= |win.src| && data == win.src[blockStart..End()]
      ensures enc.InDict(win.lookaheadPos - blockStart <= win.dictSize, win.dict, blockStart, data)
    {
      hide Encoder.Parts, Encoder.Valid, Parsed, Saved, Emitted, CodeBuffer.Tokens;
      if win.lookaheadPos - blockStart <= win.dictSize {
        forall i | 0 <= i < |data|
          ensures win.dict[(blockStart + i) % DICT_SIZE] == data[i]
        {
          assert win.Held(blockStart + i);
        }
      }
    }

    lemma BlockBounds()
      requires Sound()
      ensures 0 <= blockStart <= End() <= |win.src| && enc.buf.total == End() - blockStart && Apart() && enc.Valid() && Emitting()
      ensures Traced() && win.Exact() && AllReach(enc.buf.Tokens(), win.src[..blockStart])
      ensures Expand(enc.buf.Tokens(), win.src[..blockStart]) == win.src[..End()]
    {
      hide Encoder.Parts, Encoder.Valid, Emitted, CodeBuffer.Tokens;
    }

    /** The block stands for the bytes of its tokens, whatever its form. */
    lemma BlockStandsFor(b: Block, ts: seq<Token>, h: seq<byte>, data: seq<byte>, all: seq<byte>)
      requires AllReach(ts, h) && Expand(ts, h) == all && all == h + data
      requires match b case Stored(p, d) => d == data case Compressed(_, tokens) => tokens == ts
      ensures Grounded(b, h) && BlockData(b, h) == all
    {
    }

    /** Writes the block, which stands for the bytes of its tokens. */
    method PutBlock(finish: bool, ghost end: nat) returns (ghost b: Block, ghost tail: seq<bool>, ghost tried: Block)
      requires Sound() && end == End()
      modifies enc.w, enc.w.out, enc.buf, enc.buf.codes, enc.lit.counts, enc.lit.codes, enc.lit.sizes
      modifies enc.dst.counts, enc.dst.codes, enc.dst.sizes, enc.pk.counts, enc.pk.codes, enc.pk.sizes
      ensures enc.Valid() && enc.buf.Tokens() == [] && enc.buf.total == 0 && enc.buf.pos == 1
      ensures Shape(b) && enc.BlockPut(old(ToBits(enc.w.bitBuffer, enc.w.bitsIn)), b, finish, tail)
      ensures blockStart <= end <= |win.src|
      ensures Grounded(b, win.src[..blockStart]) && BlockData(b, win.src[..blockStart]) == win.src[..end]
      ensures b.Stored? ==> (old(enc.w.bitsIn) + 3 + |b.pad|) % 8 == 0
      ensures Thrifty(b) && (b.Compressed? ==> b.tokens == old(enc.buf.Tokens()))
      ensures var inDict := win.lookaheadPos - blockStart <= win.dictSize;
              enc.Chosen(old(ToBits(enc.w.bitBuffer, enc.w.bitsIn)) + ToBits(if finish then 1 else 0, 1), b, tried,
                         opt.forceRaw && inDict, opt.forceFixed, inDict, old(enc.buf.Tokens()), end - blockStart)
    {
      hide Thrifty, Traced, Encoder.Grown, Encoder.Chosen, Encoder.Parts, Encoder.Valid, Encoder.BlockPut, Parsed, Saved,
        Emitted, CodeBuffer.Tokens, BitWriter.Valid, ToBits,
        BytesToBits, Shape, BlockBits, Dictionary.Valid, Dictionary.Held, Encoder.InDict, Grounded, BlockData, AllReach, Expand;
      BlockBounds();
      ghost var ts, data := enc.buf.Tokens(), win.src[blockStart..end];
      StillThere(data);
      ghost var leftOver := ToBits(enc.w.bitBuffer, enc.w.bitsIn) + ToBits(if finish then 1 else 0, 1);
      var inDict := win.lookaheadPos - blockStart <= win.dictSize;
      var useRaw := opt.forceRaw && inDict;
      b, tail, tried := enc.WriteBlock(finish, useRaw, opt.forceFixed, inDict, win.dict, blockStart, ts, data);
      assert win.src[..end] == win.src[..blockStart] + data;
      enc.ChosenIsThrifty(leftOver, b, tried, useRaw, opt.forceFixed, inDict, ts, |data|);
      BlockStandsFor(b, ts, win.src[..blockStart], data, win.src[..end]);
    }

    /** The same, and what the output then stands for. */
    method EmitBlock(finish: bool, ghost end: nat)
      returns (bytes: seq<byte>, ghost tail: seq<bool>)
      requires Sound() && end == End()
      modifies this`blocks, this`told, enc.w, enc.w.out, enc.buf, enc.buf.codes, enc.lit.counts, enc.lit.codes, enc.lit.sizes
      modifies enc.dst.counts, enc.dst.codes, enc.dst.sizes, enc.pk.counts, enc.pk.codes, enc.pk.sizes
      ensures enc.Valid() && enc.buf.Tokens() == [] && enc.buf.total == 0 && enc.buf.pos == 1
      ensures blocks != [] && AllShape(blocks) && StreamAligned(blocks, 0) && StreamGrounded(blocks, [])
      ensures end <= |win.src| && StreamData(blocks, []) == win.src[..end]
      ensures BytesToBits(sink.got + bytes) + ToBits(enc.w.bitBuffer, enc.w.bitsIn) == StreamBits(blocks, finish) + tail
      ensures if finish then enc.w.bitsIn == 0 && |tail| < 8 else tail == []
      ensures Told(looks, told, blocks, []) && |blocks| == |old(blocks)| + 1
    {
      hide ParseOk, Dictionary.Exact, Encoder.Chosen, Encoder.Recorded, Parsing, Apart, Told, Thrifty, Sound, Encoder.Valid,
        Encoder.BlockPut, Emitted, CodeBuffer.Tokens, BitWriter.Valid, ToBits, BytesToBits, StreamBits, StreamAligned, StreamGrounded,
        StreamData, Shape, BlockBits, Grounded, BlockData, AllReach, Expand;
      BlockBounds();
      ghost var left, ts := ToBits(enc.w.bitBuffer, enc.w.bitsIn), enc.buf.Tokens();
      ghost var b, tried;
      b, tail, tried := PutBlock(finish, end);
      WriterValid();
      PutIs(left, b, finish, tail);
      bytes := enc.w.out[..enc.w.pos];
      EmittedBlock(blocks, sink.got, left, win.src, blockStart, end, b, finish, bytes, ToBits(enc.w.bitBuffer, enc.w.bitsIn), tail);
      ToldNext(looks, told, blocks, ts, b);
      blocks, told := blocks + [b], told + [ts];
    }

    lemma WriterValid()
      requires enc.Valid()
      ensures enc.w.Valid()
    {
    }

    lemma PutIs(before: seq<bool>, b: Block, finish: bool, pad: seq<bool>)
      requires enc.w.Valid() && Shape(b) && enc.BlockPut(before, b, finish, pad)
      ensures enc.w.pos <= enc.w.out.Length
      ensures BytesToBits(enc.w.out[..enc.w.pos]) + ToBits(enc.w.bitBuffer, enc.w.bitsIn) == before + (BlockBits(b, finish) + pad)
      ensures if finish then enc.w.bitsIn == 0 && |pad| < 8 else pad == []
    {
      hide Shape, BlockBits, ToBits, BytesToBits;
      enc.w.NotFull();
    }

    /** tdefl_flush_block.  The tokens so far become a block, which goes to the caller; the match that waits goes
        on waiting. */
    method FlushBlock(finish: bool) returns (ok: bool, ghost tail: seq<bool>)
      requires Sound()
      modifies this`blocks, this`told, this`blockStart, this`prevResult, enc.w, enc.w.out, enc.buf, enc.buf.codes
      modifies enc.lit.counts, enc.lit.codes, enc.lit.sizes, enc.dst.counts, enc.dst.codes, enc.dst.sizes
      modifies enc.pk.counts, enc.pk.codes, enc.pk.sizes, sink
      ensures ok ==> prevResult == old(prevResult)
      ensures !ok ==> prevResult == PutBufFailed && sink.patience == 0 && !sink.endless
      ensures ok && !finish ==> Valid()
      ensures ok ==> Told(looks, told, blocks, []) && enc.buf.Tokens() == []
      ensures ok ==> |blocks| == |old(blocks)| + 1
      ensures ok && finish ==> |tail| < 8 && 0 <= End() <= |win.src| && Complete(tail, win.src[..End()])
    {
      hide Encoder.Parts, Encoder.Valid, Parsed, Saved, Emitted, CodeBuffer.Tokens, BitWriter.Valid, ToBits, BytesToBits,
        StreamBits, StreamAligned, StreamGrounded, StreamData, Shape, Dictionary.Valid, Dictionary.Held, Told, ParseOk, EndOf, WaitsAfter;
      BlockBounds();
      var total := enc.buf.total;
      ghost var end: nat := End();
      var bytes;
      bytes, tail := EmitBlock(finish, end);
      blockStart := blockStart + total;
      ok := true;
      assert sink.got + [] == sink.got;
      if |bytes| != 0 {
        ok := sink.Put(bytes);
        if !ok {
          prevResult := PutBufFailed;
          return;
        }
      }
      if finish {
        NoBitsLeft(BytesToBits(sink.got), enc.w.bitBuffer);
      } else {
        assert StreamBits(blocks, finish) + tail == StreamBits(blocks, finish);
        NothingParsed(win.src, end);
        EmittedAgain(blocks, sink.got, ToBits(enc.w.bitBuffer, enc.w.bitsIn), win.src, end);
      }
    }

    // ---------- runs

    lemma Moved()
      requires Apart() && enc.Valid() && win.Valid() && win.Exact() && Emitting() && Traced()
      requires ParsedTo(0)
      ensures Sound()
    {
      hide Encoder.Parts, Encoder.Valid, Parsed, Saved, Emitted, CodeBuffer.Tokens, Dictionary.Valid, Traced;
    }

    /** The step, as one of the parse. */
    lemma OneLook(dist: nat, len: nat, at: nat, found: nat) returns (l: Look)
      requires Valid() && win.lookaheadSize > 0
      requires Candidate(win.src, opt, savedLen, win.lookaheadPos, win.lookaheadSize, win.dictSize, at, found)
      requires if Rejected(at, found, win.lookaheadPos % DICT_SIZE, opt.filter) then dist == len == 0 else dist == at && len == found
      ensures win.lookaheadPos < |win.src|
      ensures l.pos == win.lookaheadPos && l.size == win.lookaheadSize
      ensures l.turn == Decide(Saving(), dist, len, win.src[win.lookaheadPos], opt.greedy || opt.rle)
      ensures ParseOk(win.src, opt, looks + [l]) && EndOf(looks + [l]) == win.lookaheadPos + l.turn.move
      ensures WaitsAfter(looks + [l], NOTHING) == l.turn.pending
      ensures Told(looks + [l], told, blocks, enc.buf.Tokens() + l.turn.tokens)
    {
      hide Encoder.Parts, Encoder.Valid, Parsed, Saved, Emitted, CodeBuffer.Tokens, Candidate, Decide, Rejected, ParseOk, EndOf,
        WaitsAfter, AllTokens, Told, Dictionary.Window, Dictionary.Entered;
      var turn := Decide(Saving(), dist, len, win.src[win.lookaheadPos], opt.greedy || opt.rle);
      l := Look(win.lookaheadPos, win.lookaheadSize, win.dictSize, at, found, Saving(), turn);
      ParseNext(win.src, opt, looks, l);
      ToldStep(looks, told, blocks, enc.buf.Tokens(), looks + [l], turn.tokens);
    }

    /** The lookahead moves on, and the step is one of the parse. */
    method Advance(move: nat, ghost l: Look)
      requires Apart() && enc.Valid() && win.Valid() && win.Exact() && Emitting() && 1 <= move <= win.lookaheadSize && ParsedTo(move)
      requires ParseOk(win.src, opt, looks + [l]) && EndOf(looks + [l]) == win.lookaheadPos + move
      requires WaitsAfter(looks + [l], NOTHING) == Saving() && Told(looks + [l], told, blocks, enc.buf.Tokens())
      modifies this`looks, win`lookaheadPos, win`lookaheadSize, win`dictSize
      ensures Sound() && win.lookaheadSize == old(win.lookaheadSize) - move && looks == old(looks) + [l]
    {
      hide Encoder.Parts, Encoder.Valid, Encoder.Recorded, Parsed, Saved, Emitted, CodeBuffer.Tokens, Dictionary.Valid, Dictionary.Exact,
        Told, ParseOk, EndOf, WaitsAfter, Apart;
      win.Move(move);
      looks := looks + [l];
      Moved();
    }

    /** One step of the parser: it takes the match that was chosen, and goes on behind what it has taken. */
    method ParseStep()
      requires Valid() && win.lookaheadSize > 0
      modifies this`savedLen, this`savedDist, this`savedLit, this`looks
      modifies win`lookaheadPos, win`lookaheadSize, win`dictSize, enc.buf, enc.buf.codes, enc.lit.counts, enc.dst.counts
      ensures Sound() && win.lookaheadSize < old(win.lookaheadSize)
      ensures |looks| == |old(looks)| + 1 && old(looks) <= looks
      ensures looks[|looks| - 1].pos == old(win.lookaheadPos) && looks[|looks| - 1].size == old(win.lookaheadSize)
    {
      hide Encoder.Parts, Encoder.Valid, Encoder.Recorded, Parsed, Saved, Emitted, CodeBuffer.Tokens, Dictionary.Valid, Candidate, Decide,
        Rejected, Dictionary.Exact, Told, ParseOk, EndOf, WaitsAfter, BitWriter.Valid, Sound, Parsing, Traced, Valid;
      Waiting();
      ghost var at, found;
      var dist, len;
      dist, len, at, found := Choose();
      ghost var l := OneLook(dist, len, at, found);
      var move := Record(dist, len);
      Advance(move, l);
    }

    /** The code buffer is nearly full, or holds so much that does not compress that it had better be put out. */
    predicate Due(total: nat, pos: nat)
    {
      pos > LZ_CODE_BUF_SIZE - 8 || (total > 31 * 1024 && (pos * 115 / 128 >= total || opt.forceRaw))
    }

    /** The same, and the block it may complete. */
    method ParseOne() returns (ok: bool, ghost total: nat, ghost pos: nat)
      requires Valid() && win.lookaheadSize > 0
      modifies this`savedLen, this`savedDist, this`savedLit, this`blocks, this`looks, this`told, this`blockStart, this`prevResult
      modifies win`lookaheadPos, win`lookaheadSize, win`dictSize, enc.w, enc.w.out, enc.buf, enc.buf.codes
      modifies enc.lit.counts, enc.lit.codes, enc.lit.sizes, enc.dst.counts, enc.dst.codes, enc.dst.sizes
      modifies enc.pk.counts, enc.pk.codes, enc.pk.sizes, sink
      ensures ok ==> Valid() && prevResult == old(prevResult) && win.lookaheadSize < old(win.lookaheadSize)
      ensures ok ==> if Due(total, pos) then |blocks| == |old(blocks)| + 1 && enc.buf.Tokens() == []
                     else blocks == old(blocks) && enc.buf.total == total && enc.buf.pos == pos
      ensures !ok ==> prevResult == PutBufFailed && sink.patience == 0 && !sink.endless
      ensures |looks| == |old(looks)| + 1 && old(looks) <= looks
      ensures looks[|looks| - 1].pos == old(win.lookaheadPos) && looks[|looks| - 1].size == old(win.lookaheadSize)
    {
      hide Sound;
      ParseStep();
      ok := true;
      total, pos := enc.buf.total, enc.buf.pos;
      if enc.buf.pos > LZ_CODE_BUF_SIZE - 8
         || (enc.buf.total > 31 * 1024 && (enc.buf.pos * 115 / 128 >= enc.buf.total || opt.forceRaw)) {
        ghost var tail;
        ok, tail := FlushBlock(false);
      }
    }

    /** tdefl_compress_normal: all of the input goes into the dictionary; at a flush, the lookahead is emptied
        as well. */
    method CompressNormal(input: seq<byte>, flush: bool) returns (ok: bool)
      requires Valid() && FarSighted(looks)
      modifies this`savedLen, this`savedDist, this`savedLit, this`blocks, this`looks, this`told, this`blockStart, this`prevResult
      modifies win, win.dict, win.next, win.hash, enc.w, enc.w.out, enc.buf, enc.buf.codes
      modifies enc.lit.counts, enc.lit.codes, enc.lit.sizes, enc.dst.counts, enc.dst.codes, enc.dst.sizes
      modifies enc.pk.counts, enc.pk.codes, enc.pk.sizes, sink
      ensures ok ==> Valid() && prevResult == old(prevResult) && win.src == old(win.src) + input
      ensures ok && flush ==> win.lookaheadSize == 0
      ensures ok ==> FarEnough(win.src, looks) && (!flush ==> FarSighted(looks))
      ensures !ok ==> prevResult == PutBufFailed && sink.patience == 0 && !sink.endless
    {
      hide Valid, Traced, Told, ParseOk, FarSighted, FarEnough, Complete;
      TracedNow();
      var from := 0;
      ghost var s := win.src;
      while from < |input| || (flush && win.lookaheadSize > 0)
        invariant Valid() && from <= |input| && win.src == s + input[..from] && prevResult == old(prevResult)
        invariant FarEnough(win.src, looks) && (from < |input| || !flush ==> FarSighted(looks))
        decreases |input| - from + win.lookaheadSize
      {
        ghost var from0 := from;
        from := TakeIn(input, from);
        assert input[..from] == input[..from0] + input[from0..from];
        if !flush && win.lookaheadSize < MAX_MATCH {
          break;
        }
        ghost var before, total, pos := looks, 0, 0;
        ReachesEnd();
        ok, total, pos := ParseOne();
        if !ok {
          return;
        }
        OneMoreLook(before, looks, win.src);
      }
      assert input[..|input|] == input;
      ok := true;
    }

    lemma TracedNow()
      requires Valid()
      ensures ParseOk(win.src, opt, looks) && Traced() && (FarSighted(looks) ==> FarEnough(win.src, looks))
    {
      hide Parsing, Emitting, Parsed, FarSighted, FarEnough, ParseOk, Told;
      if FarSighted(looks) {
        FarIsEnough(win.src, opt, looks);
      }
    }

    lemma ReachesEnd()
      requires Valid()
      ensures |win.src| == win.lookaheadPos + win.lookaheadSize && win.lookaheadSize <= MAX_MATCH
    {
    }

    /** Nothing waits when there is no lookahead. */
    lemma NothingWaits()
      requires Valid() && win.lookaheadSize == 0
      ensures savedLen == 0 && End() == |win.src|
    {
      Waiting();
    }

    /** tdefl_compress, with a function that takes the output: more input, and the end of it if finish is set. */
    method Compress(input: seq<byte>, finish: bool) returns (r: Result, ghost tail: seq<bool>)
      requires prevResult == Okay && !finished ==> Valid() && FarSighted(looks)
      modifies this, win, win.dict, win.next, win.hash, enc.w, enc.w.out, enc.buf, enc.buf.codes
      modifies enc.lit.counts, enc.lit.codes, enc.lit.sizes, enc.dst.counts, enc.dst.codes, enc.dst.sizes
      modifies enc.pk.counts, enc.pk.codes, enc.pk.sizes, sink
      ensures r == prevResult
      ensures old(prevResult) != Okay || (old(wantsToFinish) && !finish) ==> r == BadParam
      ensures old(prevResult) == Okay && !old(wantsToFinish) && !old(finished) ==>
                match r
                case Okay => !finish && Valid() && FarSighted(looks) && !wantsToFinish && !finished && win.src == old(win.src) + input
                case Done => finish && |tail| < 8 && Complete(tail, old(win.src) + input)
                             && Explained(looks, told, blocks, opt, old(win.src) + input)
                case PutBufFailed => sink.patience == 0 && !sink.endless
                case BadParam => false
    {
      hide *;
      tail := [];
      if prevResult != Okay || (wantsToFinish && !finish) {
        prevResult := BadParam;
        return BadParam, tail;
      }
      wantsToFinish := wantsToFinish || finish;
      if finished {
        prevResult := Done;
        return Done, tail;
      }
      var ok;
      ok, tail := CompressAll(input, finish);
      if ok {
        finished := finish;
        prevResult := if finished then Done else Okay;
      }
      r := prevResult;
    }

    /** All of the input, and the last block if this is the end. */
    method CompressAll(input: seq<byte>, finish: bool) returns (ok: bool, ghost tail: seq<bool>)
      requires Valid() && FarSighted(looks)
      modifies this`savedLen, this`savedDist, this`savedLit, this`blocks, this`looks, this`told, this`blockStart, this`prevResult
      modifies win, win.dict, win.next, win.hash, enc.w, enc.w.out, enc.buf, enc.buf.codes
      modifies enc.lit.counts, enc.lit.codes, enc.lit.sizes, enc.dst.counts, enc.dst.codes, enc.dst.sizes
      modifies enc.pk.counts, enc.pk.codes, enc.pk.sizes, sink
      ensures ok && !finish ==> Valid() && FarSighted(looks) && win.src == old(win.src) + input
      ensures ok && finish ==> |tail| < 8 && Complete(tail, old(win.src) + input)
      ensures ok && finish ==> Explained(looks, told, blocks, opt, old(win.src) + input)
      ensures !ok ==> prevResult == PutBufFailed && sink.patience == 0 && !sink.endless
    {
      hide *;
      tail := [];
      ok := CompressNormal(input, finish);
      if ok && finish {
        ghost var s := win.src;
        NothingWaits();
        SoundNow();
        ReachesEnd();
        TracedNow();
        TheEnd();
        assert s[..|s|] == s;
        ok, tail := FlushBlock(true);
        if ok {
          Explains(looks, told, blocks, opt, s);
        }
      }
    }

    lemma TheEnd()
      requires Valid() && win.lookaheadSize == 0
      ensures ParseOk(win.src, opt, looks) && EndOf(looks) == |win.src| && WaitsAfter(looks, NOTHING).len == 0
    {
      Waiting();
    }

    lemma SoundNow()
      requires Valid()
      ensures Sound()
    {
    }
  }
}
