/** The parser of the compressor as a matter of the data alone: at each step, which matches there are, which is taken,
    and what becomes of it. */
module Parsers {
  import opened Bits
  import opened Symbols
  import opened Format
  import opened HashChains

  /** The flags of tdefl_init.  The numbers of probes are those it derives from them, and so positive. */
  datatype Options = Options(probes: nat, probesLong: nat, greedy: bool, rle: bool, filter: bool, forceRaw: bool, forceFixed: bool)

  // ---------- which matches are taken

  /** Matches that are not worth it: three bytes from far back, at the distance that is the place in the ring, and
      short ones if those are filtered. */
  predicate Rejected(dist: nat, len: nat, curPos: nat, filter: bool)
  {
    (len == MIN_MATCH && dist >= 8192) || curPos == dist || (filter && len <= 5)
  }

  /** A match that waits, with the byte that it starts with; a length of 0 is none. */
  datatype Pending = Pending(len: nat, dist: nat, lit: byte)

  /** What a step of the parser records, what waits after it, and how far it goes. */
  datatype Turn = Turn(tokens: seq<Token>, pending: Pending, move: nat)

  /** Lazy parsing: a match waits for one byte, and gives way to a longer one that starts there. */
  function Decide(p: Pending, dist: nat, len: nat, b: byte, greedy: bool): Turn
  {
    if p.len > 0 && len > p.len then
      Turn([Literal(p.lit)] + if len >= 128 then [Match(len, dist)] else [],
           if len >= 128 then p.(len := 0) else Pending(len, dist, b), if len >= 128 then len else 1)
    else if p.len > 0 then Turn([Match(p.len, p.dist)], p.(len := 0), p.len - 1)
    else if dist == 0 then Turn([Literal(b)], p, 1)
    else if greedy || len >= 128 then Turn([Match(len, dist)], p, len)
    else Turn([], Pending(len, dist, b), 1)
  }

  /** A byte is recorded as a literal only if no match was chosen for it, or a longer one at the next byte; and
      what is recorded and what waits are as long as the steps. */
  lemma LazyParsing(p: Pending, dist: nat, len: nat, b: byte, greedy: bool)
    requires dist > 0 ==> len >= MIN_MATCH
    requires dist == 0 ==> len <= p.len || p.len == 0
    ensures var m := Decide(p, dist, len, b, greedy);
            && (forall i :: 0 <= i < |m.tokens| && m.tokens[i].Literal? ==>
                  i == 0 && if p.len > 0 then dist > 0 && len > p.len else dist == 0)
            && (dist > 0 && len > p.len ==> m.pending == Pending(len, dist, b) || Match(len, dist) in m.tokens)
            && (p.len > 0 && len <= p.len ==> m.tokens == [Match(p.len, p.dist)])
            && TokensLength(m.tokens) + (if m.pending.len > 0 then 1 else 0) == m.move + if p.len > 0 then 1 else 0
  {
    OneToken(Literal(p.lit));
    OneToken(Literal(b));
    OneToken(Match(len, dist));
    OneToken(Match(p.len, p.dist));
    assert ([Literal(p.lit)] + [Match(len, dist)])[1..] == [Match(len, dist)];
    assert [Literal(p.lit)] + [] == [Literal(p.lit)];
    assert ([Literal(p.lit)] + [Match(len, dist)])[1] == Match(len, dist);
  }

  function TokensLength(ts: seq<Token>): nat
  {
    if ts == [] then 0 else (if ts[0].Literal? then 1 else ts[0].len) + TokensLength(ts[1..])
  }

  lemma OneToken(t: Token)
    ensures TokensLength([t]) == if t.Literal? then 1 else t.len
  {
    assert TokensLength([t][1..]) == 0;
  }

  /** What a match has to beat. */
  function Floor(saved: nat): nat
  {
    if saved > 0 then saved else MIN_MATCH - 1
  }

  /** How many positions on the chain the search looks at in any case. */
  function Looks(opt: Options, saved: nat): nat
  {
    var probes := if Floor(saved) >= 32 then opt.probesLong else opt.probes;
    if probes > 0 then probes - 1 else 0
  }

  /** The match that the search comes up with, if it is at a distance: one that beats the floor, and none that it
      can reach is longer; or the run of the last byte, as far as it goes. */
  ghost predicate Candidate(src: seq<byte>, opt: Options, saved: nat, pos: nat, size: nat, dict: nat, at: nat, found: nat)
  {
    if opt.forceRaw || (opt.rle && dict == 0) then at == 0 && found == Floor(saved)
    else if opt.rle then
      && NoLonger(src, pos, size, 1, if found >= MIN_MATCH then found else MIN_MATCH - 1)
      && if at == 0 then found == 0 else at == 1 && MIN_MATCH <= found <= size && Genuine(src, pos, found, 1)
    else
      && NoneReached(src, pos, size, dict, found, Looks(opt, saved))
      && if at == 0 then found == Floor(saved)
         else found > Floor(saved) && found <= size && at <= dict && Genuine(src, pos, found, at)
  }

  /** A match that is long enough and can be reached is not passed over: the search comes up with one that is as
      long or longer. */
  lemma NotPassedOver(src: seq<byte>, opt: Options, saved: nat, pos: nat, size: nat, dict: nat, at: nat, found: nat, q: nat, len: nat)
    requires Candidate(src, opt, saved, pos, size, dict, at, found) && !opt.rle && !opt.forceRaw
    requires Reachable(src, pos, q, dict, Looks(opt, saved)) && Genuine(src, pos, len, pos - q) && Floor(saved) < len <= size
    ensures at > 0 && found >= len
  {
  }

  // ---------- a whole parse

  /** One step: where it is, how far it looks ahead and back, what it finds, what waits before it, and what it does. */
  datatype Look = Look(pos: nat, size: nat, dict: nat, at: nat, found: nat, waits: Pending, turn: Turn)

  ghost predicate LookOk(src: seq<byte>, opt: Options, l: Look)
  {
    && 0 < l.size <= MAX_MATCH && l.pos + l.size <= |src| && l.dict == Least(l.pos, DICT_SIZE - l.size)
    && Candidate(src, opt, l.waits.len, l.pos, l.size, l.dict, l.at, l.found)
    && var none := Rejected(l.at, l.found, l.pos % DICT_SIZE, opt.filter);
       l.turn == Decide(l.waits, if none then 0 else l.at, if none then 0 else l.found, src[l.pos], opt.greedy || opt.rle)
  }

  /** Where the parse is after these steps. */
  function EndOf(looks: seq<Look>): nat
  {
    if looks == [] then 0 else looks[|looks| - 1].pos + looks[|looks| - 1].turn.move
  }

  /** What waits after these steps. */
  function WaitsAfter(looks: seq<Look>, none: Pending): Pending
  {
    if looks == [] then none else looks[|looks| - 1].turn.pending
  }

  /** All that these steps record. */
  function AllTokens(looks: seq<Look>): seq<Token>
  {
    if looks == [] then [] else AllTokens(looks[..|looks| - 1]) + looks[|looks| - 1].turn.tokens
  }

  const NOTHING := Pending(0, 0, 0)

  /** A parse from the start of the data: each step goes on where the one before has ended. */
  ghost predicate ParseOk(src: seq<byte>, opt: Options, looks: seq<Look>)
  {
    forall k :: 0 <= k < |looks| ==>
      LookOk(src, opt, looks[k]) && looks[k].pos == EndOf(looks[..k]) && looks[k].waits == WaitsAfter(looks[..k], NOTHING)
  }

  /** Every step looks ahead as far as a match can go. */
  ghost predicate FarSighted(looks: seq<Look>)
  {
    forall k :: 0 <= k < |looks| ==> looks[k].size == MAX_MATCH
  }

  /** Or to the end of the data. */
  ghost predicate FarEnough(src: seq<byte>, looks: seq<Look>)
  {
    forall k :: 0 <= k < |looks| ==> looks[k].pos <= |src| && looks[k].size == Least(MAX_MATCH, |src| - looks[k].pos)
  }

  lemma ParseNext(src: seq<byte>, opt: Options, looks: seq<Look>, l: Look)
    requires ParseOk(src, opt, looks) && LookOk(src, opt, l) && l.pos == EndOf(looks) && l.waits == WaitsAfter(looks, NOTHING)
    ensures ParseOk(src, opt, looks + [l]) && AllTokens(looks + [l]) == AllTokens(looks) + l.turn.tokens
    ensures EndOf(looks + [l]) == l.pos + l.turn.move && WaitsAfter(looks + [l], NOTHING) == l.turn.pending
  {
    hide LookOk;
    var all := looks + [l];
    assert all[..|looks|] == looks;
    forall k | 0 <= k < |all|
      ensures LookOk(src, opt, all[k]) && all[k].pos == EndOf(all[..k]) && all[k].waits == WaitsAfter(all[..k], NOTHING)
    {
      if k < |looks| {
        assert all[..k] == looks[..k];
      }
    }
  }

  /** What comes in later does not matter to steps that look ahead as far as a match can go. */
  lemma ParseStays(src: seq<byte>, src': seq<byte>, opt: Options, looks: seq<Look>)
    requires ParseOk(src, opt, looks) && FarSighted(looks) && src <= src'
    ensures ParseOk(src', opt, looks)
  {
    forall k | 0 <= k < |looks|
      ensures LookOk(src', opt, looks[k])
    {
      LookStays(src, src', opt, looks[k]);
    }
  }

  lemma FarIsEnough(src: seq<byte>, opt: Options, looks: seq<Look>)
    requires ParseOk(src, opt, looks) && FarSighted(looks)
    ensures FarEnough(src, looks)
  {
    hide Candidate, Decide, Rejected;
  }

  lemma LookStays(src: seq<byte>, src': seq<byte>, opt: Options, l: Look)
    requires LookOk(src, opt, l) && src <= src' && l.size == MAX_MATCH
    ensures LookOk(src', opt, l)
  {
    hide NoLonger, NoneReached, Decide, Rejected;
    if !opt.rle && !opt.forceRaw {
      ReachedStays(src, src', l.pos, l.size, l.dict, l.found, Looks(opt, l.waits.len));
    } else if !opt.forceRaw && l.dict > 0 {
      LongerStays(src, src', l.pos, l.size, 1, if l.found >= MIN_MATCH then l.found else MIN_MATCH - 1);
    }
  }

  /** In a parse, a byte for which nothing waits becomes a literal only if no match can be reached, or the one that
      was found is rejected: of three bytes from far back, or at the distance that is the place in the ring. */
  lemma LiteralsAreNeeded(src: seq<byte>, opt: Options, looks: seq<Look>, k: nat, q: nat, len: nat)
    requires ParseOk(src, opt, looks) && k < |looks| && !opt.rle && !opt.forceRaw && !opt.filter
    requires looks[k].waits.len == 0 && looks[k].turn.tokens == [Literal(src[looks[k].pos])]
    requires Reachable(src, looks[k].pos, q, looks[k].dict, Looks(opt, 0))
    requires MIN_MATCH <= len <= looks[k].size && Genuine(src, looks[k].pos, len, looks[k].pos - q)
    ensures var l := looks[k];
            l.found >= len && ((l.found == MIN_MATCH && l.at >= 8192) || l.at == l.pos % DICT_SIZE)
  {
    var l := looks[k];
    assert LookOk(src, opt, l);
    NotPassedOver(src, opt, l.waits.len, l.pos, l.size, l.dict, l.at, l.found, q, len);
  }

  // ---------- what a stream has of it

  /** The tokens of the blocks, one after the other. */
  function Joined(tokens: seq<seq<Token>>): seq<Token>
  {
    if tokens == [] then [] else Joined(tokens[..|tokens| - 1]) + tokens[|tokens| - 1]
  }

  /** The blocks are made of the tokens, unless they hold the bytes that those stand for. */
  ghost predicate MadeOf(blocks: seq<Block>, tokens: seq<seq<Token>>)
  {
    |blocks| == |tokens| && forall i :: 0 <= i < |blocks| && blocks[i].Compressed? ==> blocks[i].tokens == tokens[i]
  }

  lemma JoinedNext(tokens: seq<seq<Token>>, ts: seq<Token>)
    ensures Joined(tokens + [ts]) == Joined(tokens) + ts
  {
    assert (tokens + [ts])[..|tokens|] == tokens;
  }
}
