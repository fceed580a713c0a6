/** The compressor's sliding dictionary: a ring of 32768 bytes, the first 257 of which are mirrored behind its
    end, with hash chains of earlier positions.  What is found is a match, and the longest that the chain has. */
module Dictionaries {
  import opened Bits
  import opened Symbols
  import opened Format
  import opened HashChains

  const MIRROR := 257

  /** Copying back a genuine match gives the bytes it stands for. */
  lemma {:induction false} GenuineCopy(src: seq<byte>, pos: nat, len: nat, dist: nat)
    requires Genuine(src, pos, len, dist)
    ensures Copy(src[..pos], len, dist) == src[..pos + len]
    decreases len
  {
    if len > 0 {
      assert src[pos] == src[pos - dist];
      assert src[..pos] + [src[pos]] == src[..pos + 1];
      assert src[..pos][pos - dist] == src[pos - dist];
      GenuineCopy(src, pos + 1, len - 1, dist);
    }
  }

  /** What a probe finds: no position, one whose bytes agree, or one whose bytes do not. */
  datatype Found = Nothing | Agrees | Different

  class Dictionary {
    const dict: array<byte>
    const next: array<nat>
    const hash: array<nat>
    var lookaheadPos: nat
    var lookaheadSize: nat
    var dictSize: nat
    /** All that has come in so far: what has been compressed, and the lookahead. */
    ghost var src: seq<byte>

    constructor ()
      ensures Valid() && Exact() && src == [] && lookaheadPos == lookaheadSize == dictSize == 0
      ensures fresh(dict) && fresh(next) && fresh(hash)
    {
      dict := new byte[DICT_SIZE + MIRROR];
      next := new nat[DICT_SIZE];
      hash := new nat[HASH_SIZE](_ => 0);
      lookaheadPos, lookaheadSize, dictSize := 0, 0, 0;
      src := [];
      new;
      assert hash[..] == seq(HASH_SIZE, _ => 0);
      assert Entered(0);
    }

    ghost predicate Arrays()
    {
      dict.Length == DICT_SIZE + MIRROR && next.Length == DICT_SIZE && hash.Length == HASH_SIZE && next != hash
    }

    /** The dictionary holds the last 32768 bytes. */
    ghost predicate Held(t: int)
      requires Arrays() && 0 <= t < |src|
      reads `src, dict
    {
      dict[t % DICT_SIZE] == src[t] && (t % DICT_SIZE < MIRROR ==> dict[DICT_SIZE + t % DICT_SIZE] == src[t])
    }

    ghost predicate Window()
      reads `src, dict
    {
      Arrays() && forall t :: 0 <= t < |src| && |src| - t <= DICT_SIZE ==> Held(t)
    }

    /** The first n positions have been entered in the chains. */
    ghost predicate Entered(n: nat)
      reads `src, next, hash
    {
      Arrays() && Hashed(src, n, hash[..]) && Linked(src, n, next[..])
    }

    /** How many positions have three bytes. */
    ghost function Starts(): nat
      reads `src
    {
      if |src| >= 2 then |src| - 2 else 0
    }

    /** All positions that have three bytes have been entered, and no more is left out of the dictionary than a
        match is long. */
    ghost predicate Valid()
      reads this, dict, next, hash
    {
      && Window() && |src| == lookaheadPos + lookaheadSize && Entered(Starts())
      && lookaheadSize <= MAX_MATCH && dictSize <= lookaheadPos && dictSize <= DICT_SIZE
      && (dictSize == lookaheadPos || DICT_SIZE <= dictSize + MAX_MATCH)
    }

    /** The dictionary goes back as far as the ring has room beside the lookahead. */
    ghost predicate Exact()
      reads this
    {
      lookaheadSize <= DICT_SIZE && dictSize == Least(lookaheadPos, DICT_SIZE - lookaheadSize)
    }

    /** What is in the window can be read in a straight line for the length of a match. */
    lemma StraightLine(t: nat, k: nat)
      requires Window() && k < MAX_MATCH && t + k < |src| && |src| - (t + k) <= DICT_SIZE
      ensures t % DICT_SIZE + k < dict.Length && dict[t % DICT_SIZE + k] == src[t + k]
    {
      assert Held(t + k);
      assert t == t / DICT_SIZE * DICT_SIZE + t % DICT_SIZE;
    }

    /** One more byte into the ring and its mirror. */
    method PutByte(dstPos: nat, c: byte)
      requires Window() && dstPos == |src| % DICT_SIZE
      modifies this`src, dict
      ensures Window() && src == old(src) + [c]
      ensures forall n: nat :: old(Entered(n)) ==> Entered(n)
    {
      dict[dstPos] := c;
      if dstPos < MIRROR {
        dict[DICT_SIZE + dstPos] := c;
      }
      ghost var s := src;
      src := src + [c];
      forall n: nat | old(Entered(n))
        ensures Entered(n)
      {
        MoreSource(s, src, n, next[..], hash[..]);
      }
      forall t | 0 <= t < |src| && |src| - t <= DICT_SIZE
        ensures Held(t)
      {
        if t < |s| {
          assert old(Held(t));
          OtherSlot(t, |s|);
        }
      }
    }

    /** The next link of the hash chain, from position insPos. */
    method Link(insPos: nat, h: nat)
      requires Arrays() && Entered(insPos) && insPos + 3 <= |src| && h == KeyAt(src, insPos)
      modifies next, hash
      ensures Entered(insPos + 1)
    {
      hide Key, Hashed, Linked;
      EnterOne(src, insPos, next[..], hash[..]);
      HashedSize(insPos);
      next[insPos % DICT_SIZE] := hash[h];
      hash[h] := insPos % 65536;
      assert hash[..] == old(hash[..])[h := insPos % 65536];
      assert next[..] == old(next[..])[insPos % DICT_SIZE := old(hash[..])[h]];
    }

    lemma HashedSize(n: nat)
      requires Entered(n)
      ensures hash.Length == HASH_SIZE && next.Length == DICT_SIZE
    {
    }

    /** One more byte, and the hash of the last three. */
    method EnterByte(dstPos: nat, insPos: nat, h: bv15, c: byte) returns (h': bv15)
      requires Window() && dstPos == |src| % DICT_SIZE && insPos + 2 == |src|
      requires Entered(insPos) && Alike(h, Roll(Word(src[insPos]), src[insPos + 1]))
      modifies this`src, dict, next, hash
      ensures Window() && src == old(src) + [c]
      ensures Entered(insPos + 1) && Alike(h', Roll(Word(src[insPos + 1]), src[insPos + 2]))
    {
      hide Held, Roll, Key, Alike, Hashed, Linked, Word, Slot;
      PutByte(dstPos, c);
      RollOn(h, src[insPos], src[insPos + 1], c);
      h' := Roll(h, c);
      Link(insPos, Slot(h'));
    }

    /** Takes in bytes when there are at least two before them: the hash goes along. */
    method FillAlong(input: seq<byte>, from: nat) returns (to: nat)
      requires Valid() && from <= |input| && lookaheadSize + dictSize >= 2
      modifies this`lookaheadSize, this`src, dict, next, hash
      ensures Valid() && from <= to <= |input| && src == old(src) + input[from..to]
      ensures lookaheadSize == old(lookaheadSize) + (to - from) && (to == |input| || lookaheadSize == MAX_MATCH)
    {
      hide Held, Roll, Key, Alike, Hashed, Linked, Entered, Word, Slot;
      var dstPos: nat, insPos: nat := (lookaheadPos + lookaheadSize) % DICT_SIZE, lookaheadPos + lookaheadSize - 2;
      StraightLine(insPos, 0);
      StraightLine(insPos + 1, 0);
      var h: bv15 := Roll(Word(dict[insPos % DICT_SIZE]), dict[(insPos + 1) % DICT_SIZE]);
      AlikeSelf(h);
      var n := if |input| - from < MAX_MATCH - lookaheadSize then |input| - from else MAX_MATCH - lookaheadSize;
      lookaheadSize := lookaheadSize + n;
      to := from;
      ghost var s := src;
      while to != from + n
        invariant from <= to <= from + n && Window() && src == s + input[from..to] && |src| == |s| + (to - from)
        invariant dstPos == |src| % DICT_SIZE && insPos + 2 == |src| && lookaheadSize == old(lookaheadSize) + n
        invariant Entered(insPos) && Alike(h, Roll(Word(src[insPos]), src[insPos + 1]))
      {
        var c := input[to];
        h := EnterByte(dstPos, insPos, h, c);
        assert input[from..to + 1] == input[from..to] + [c];
        NextSlot(|src| - 1);
        dstPos, insPos, to := (dstPos + 1) % DICT_SIZE, insPos + 1, to + 1;
      }
    }

    lemma AlikeSelf(h: bv15)
      ensures Alike(h, h)
    {
    }

    /** Takes in the first bytes: a hash only where three bytes are there. */
    method FillFirst(input: seq<byte>, from: nat) returns (to: nat)
      requires Valid() && from <= |input| && lookaheadSize + dictSize < 2
      modifies this`lookaheadSize, this`src, dict, next, hash
      ensures Valid() && from <= to <= |input| && src == old(src) + input[from..to]
      ensures lookaheadSize == old(lookaheadSize) + (to - from) && (to == |input| || lookaheadSize == MAX_MATCH)
    {
      hide Window, Entered;
      to := from;
      ghost var s := src;
      while to < |input| && lookaheadSize < MAX_MATCH
        invariant from <= to <= |input| && Valid() && src == s + input[from..to]
        invariant dictSize == lookaheadPos < 2
        invariant lookaheadSize == old(lookaheadSize) + (to - from)
      {
        EnterFirst(input[to]);
        assert input[from..to + 1] == input[from..to] + [input[to]];
        to := to + 1;
      }
    }

    /** One of the first bytes. */
    method EnterFirst(c: byte)
      requires Valid() && dictSize == lookaheadPos && lookaheadSize < MAX_MATCH && |src| < DICT_SIZE
      modifies this`lookaheadSize, this`src, dict, next, hash
      ensures Valid() && src == old(src) + [c] && lookaheadSize == old(lookaheadSize) + 1
    {
      hide Held, Whole, Key, Hashed, Linked, Entered, Word, Slot;
      PutByte((lookaheadPos + lookaheadSize) % DICT_SIZE, c);
      lookaheadSize := lookaheadSize + 1;
      if lookaheadSize + dictSize >= MIN_MATCH {
        var insPos := lookaheadPos + (lookaheadSize - 1) - 2;
        StraightLine(insPos, 0);
        StraightLine(insPos + 1, 0);
        var h := Whole(Word(dict[insPos % DICT_SIZE]), Word(dict[(insPos + 1) % DICT_SIZE]), Word(c));
        WholeKey(insPos);
        Link(insPos, Slot(h));
      }
    }

    lemma WholeKey(p: nat)
      requires p + 3 <= |src|
      ensures Slot(Whole(Word(src[p]), Word(src[p + 1]), Word(src[p + 2]))) == KeyAt(src, p)
    {
      hide Whole, Mix, Word, Slot;
      WholeIs(Word(src[p]), Word(src[p + 1]), Word(src[p + 2]));
    }

    /** Keeps the lookahead as long as a match can be, as far as there is input; what it pushes out of the ring
        is no longer counted as dictionary. */
    method Fill(input: seq<byte>, from: nat) returns (to: nat)
      requires Valid() && Exact() && from <= |input|
      modifies this`lookaheadSize, this`dictSize, this`src, dict, next, hash
      ensures Valid() && from <= to <= |input| && src == old(src) + input[from..to]
      ensures lookaheadSize == old(lookaheadSize) + (to - from) && (to == |input| || lookaheadSize == MAX_MATCH)
      ensures Exact()
    {
      if lookaheadSize + dictSize >= MIN_MATCH - 1 {
        to := FillAlong(input, from);
      } else {
        to := FillFirst(input, from);
      }
      dictSize := if DICT_SIZE - lookaheadSize < dictSize then DICT_SIZE - lookaheadSize else dictSize;
    }

    /** Moves the lookahead on. */
    method Move(n: nat)
      requires Valid() && Exact() && n <= lookaheadSize
      modifies this`lookaheadPos, this`lookaheadSize, this`dictSize
      ensures Valid() && Exact()
      ensures lookaheadPos == old(lookaheadPos) + n && lookaheadSize == old(lookaheadSize) - n
    {
      lookaheadPos := lookaheadPos + n;
      lookaheadSize := lookaheadSize - n;
      dictSize := if dictSize + n < DICT_SIZE then dictSize + n else DICT_SIZE;
    }

    /** The next byte. */
    method Peek() returns (b: byte)
      requires Valid() && lookaheadSize > 0
      ensures lookaheadPos < |src| && b == src[lookaheadPos]
    {
      StraightLine(lookaheadPos, 0);
      b := dict[lookaheadPos % DICT_SIZE];
    }

    // ---------- matches

    /** The longest match with the bytes dist before the lookahead, found by comparing with the ring from probePos on. */
    method Compare(probePos: nat, ghost dist: nat, maxLen: nat) returns (len: nat)
      requires Valid() && 1 <= dist <= dictSize && dictSize + lookaheadSize <= DICT_SIZE && maxLen == lookaheadSize
      requires probePos == (lookaheadPos - dist) % DICT_SIZE
      ensures len <= maxLen && Genuine(src, lookaheadPos, len, dist)
      ensures NoLonger(src, lookaheadPos, maxLen, dist, len)
    {
      hide Entered;
      var pos := lookaheadPos % DICT_SIZE;
      len := 0;
      while len < maxLen
        invariant len <= maxLen && Genuine(src, lookaheadPos, len, dist)
      {
        StraightLine(lookaheadPos, len);
        StraightLine(lookaheadPos - dist, len);
        if dict[pos + len] != dict[probePos + len] {
          EndsThere(src, lookaheadPos, maxLen, dist, len);
          return;
        }
        len := len + 1;
      }
    }

    /** The distance to where a link of the chain points, modulo 65536, as far as it matters. */
    lemma LinkTarget(link: nat)
      requires Back(link, lookaheadPos) <= lookaheadPos
      ensures link % DICT_SIZE == (lookaheadPos - Back(link, lookaheadPos)) % DICT_SIZE
    {
      var q, dist := (lookaheadPos - link) / 65536, Back(link, lookaheadPos);
      assert lookaheadPos - dist == link + 65536 * q;
      if q >= 0 {
        ModAdd(link, 2 * q, DICT_SIZE);
      } else {
        ModAdd(lookaheadPos - dist, -2 * q, DICT_SIZE);
      }
    }

    /** What the first n positions on the chain from a slot on are. */
    ghost function Rest(slot: nat, n: nat): seq<nat>
      requires Arrays() && slot < DICT_SIZE
      reads this, next
    {
      Chain(next[..], slot, lookaheadPos, dictSize, n)
    }

    /** None of the distances has a match of more than len bytes. */
    ghost predicate Beaten(ds: seq<nat>, len: nat)
      reads this
    {
      forall i :: 0 <= i < |ds| ==> NoLonger(src, lookaheadPos, lookaheadSize, ds[i], len)
    }

    /** The next position on the chain. */
    lemma RestStep(slot: nat, n: nat)
      requires Arrays() && slot < DICT_SIZE
      ensures Ends(next[slot], lookaheadPos, dictSize) ==> Rest(slot, n) == []
      ensures !Ends(next[slot], lookaheadPos, dictSize) && n > 0 ==>
                Rest(slot, n) == [Back(next[slot], lookaheadPos)] + Rest(next[slot] % DICT_SIZE, n - 1)
      ensures Rest(slot, 0) == []
    {
    }

    /** Where the bytes at the end of the match so far differ, there is no longer one. */
    lemma Skipped(dist: nat, len: nat, probePos: nat)
      requires Valid() && dist <= dictSize && dictSize + lookaheadSize <= DICT_SIZE && 1 <= len < lookaheadSize
      requires probePos == (lookaheadPos - dist) % DICT_SIZE
      ensures var pos := lookaheadPos % DICT_SIZE;
              dict[probePos + len] != dict[pos + len] || dict[probePos + len - 1] != dict[pos + len - 1] ==>
                dist > 0 && Beaten([dist], len) && Beaten([], len)
    {
      hide Entered;
      StraightLine(lookaheadPos, len);
      StraightLine(lookaheadPos, len - 1);
      StraightLine(lookaheadPos - dist, len);
      StraightLine(lookaheadPos - dist, len - 1);
      var pos := lookaheadPos % DICT_SIZE;
      if dict[probePos + len] != dict[pos + len] {
        EndsThere(src, lookaheadPos, lookaheadSize, dist, len);
      } else if dict[probePos + len - 1] != dict[pos + len - 1] {
        EndsThere(src, lookaheadPos, lookaheadSize, dist, len - 1);
      }
    }

    /** One position on the chain: whether the bytes at the end of the match so far agree with those there.  The
        first n positions of the chain are at this one, if it has a match to be looked at, and then at the rest. */
    method Probe(probePos: nat, matchLen: nat, c0: byte, c1: byte, ghost n: nat)
      returns (found: Found, probePos': nat, dist: nat, ghost here: seq<nat>, ghost n': nat)
      requires Valid() && dictSize + lookaheadSize <= DICT_SIZE && probePos < DICT_SIZE && 1 <= matchLen < lookaheadSize
      requires c0 == dict[lookaheadPos % DICT_SIZE + matchLen] && c1 == dict[lookaheadPos % DICT_SIZE + matchLen - 1]
      ensures probePos' < DICT_SIZE && n' == if n > 0 && dist > 0 then n - 1 else 0
      ensures found == Nothing ==> Rest(probePos, n) == []
      ensures found != Nothing ==> dist <= dictSize && probePos' == (lookaheadPos - dist) % DICT_SIZE
      ensures found != Nothing ==> here <= [dist] && Rest(probePos, n) == here + Rest(probePos', n')
      ensures found != Nothing && dist == 0 ==> Rest(probePos, n) == []
      ensures found == Different ==> dist > 0 && Beaten(here, matchLen)
    {
      hide Window, Entered, NoLonger, Rest, Beaten;
      TheArrays();
      probePos', here, n' := probePos, [], 0;
      var link := next[probePos];
      RestStep(probePos, n);
      dist := 0;
      if link == 0 {
        return Nothing, probePos', dist, here, n';
      }
      dist := (lookaheadPos - link) % 65536;
      n' := if n > 0 && dist > 0 then n - 1 else 0;
      if dist > dictSize {
        return Nothing, probePos', dist, here, n';
      }
      LinkTarget(link);
      probePos' := link % DICT_SIZE;
      RestStep(probePos', 0);
      here := if n > 0 && dist > 0 then [dist] else [];
      Skipped(dist, matchLen, probePos');
      found := if dict[probePos' + matchLen] == c0 && dict[probePos' + matchLen - 1] == c1 then Agrees else Different;
    }

    /** Follows the chain to the next position whose bytes at the end of the match so far agree.  No such
        position within the dictionary ends the search: none of those seen has a longer match, and of the first
        n on the chain, for which there are probes left, all have been seen. */
    method NextProbe(probePos: nat, matchLen: nat, probesLeft: nat, c0: byte, c1: byte, ghost n: nat)
      returns (probePos': nat, dist: nat, probesLeft': nat, ghost seen: seq<nat>, ghost hit: seq<nat>, ghost n': nat)
      requires Valid() && dictSize + lookaheadSize <= DICT_SIZE && probePos < DICT_SIZE && 1 <= matchLen < lookaheadSize
      requires n < probesLeft
      requires c0 == dict[lookaheadPos % DICT_SIZE + matchLen] && c1 == dict[lookaheadPos % DICT_SIZE + matchLen - 1]
      ensures probePos' < DICT_SIZE && probesLeft' < probesLeft && n' <= n
      ensures probesLeft' > 0 ==> dist <= dictSize && probePos' == (lookaheadPos - dist) % DICT_SIZE && n' < probesLeft'
      ensures Beaten(seen, matchLen)
      ensures probesLeft' == 0 || dist == 0 ==> Rest(probePos, n) == seen
      ensures probesLeft' > 0 && dist > 0 ==> hit <= [dist] && Rest(probePos, n) == (seen + hit) + Rest(probePos', n')
    {
      hide Valid, Window, Entered, Rest, Beaten;
      TheArrays();
      NoneBeaten(matchLen);
      probePos', dist, probesLeft', seen, hit, n' := probePos, 0, probesLeft, [], [], n;
      ghost var all := Rest(probePos, n);
      while true
        invariant probePos' < DICT_SIZE && 1 <= probesLeft' <= probesLeft
        invariant all == seen + Rest(probePos', n') && Beaten(seen, matchLen) && n' <= n && n' < probesLeft'
        decreases probesLeft'
      {
        probesLeft' := probesLeft' - 1;
        if probesLeft' == 0 {
          NoneLeft(probePos');
          return;
        }
        for i := 0 to 3
          invariant probePos' < DICT_SIZE
          invariant all == seen + Rest(probePos', n') && Beaten(seen, matchLen) && n' <= n
          invariant n' < probesLeft' + if i == 0 then 1 else 0
        {
          var found;
          ghost var here;
          found, probePos', dist, here, n' := Probe(probePos', matchLen, c0, c1, n');
          match found
          case Nothing =>
            return probePos', dist, 0, seen, [], n';
          case Agrees =>
            hit := here;
            return;
          case Different =>
            BeatenBoth(seen, here, matchLen);
            seen := seen + here;
        }
      }
    }

    lemma TheArrays()
      requires Valid()
      ensures Arrays() && lookaheadSize <= MAX_MATCH
    {
    }

    lemma NoneLeft(slot: nat)
      requires Arrays() && slot < DICT_SIZE
      ensures Rest(slot, 0) == []
    {
    }

    lemma NoneBeaten(len: nat)
      ensures Beaten([], len)
    {
    }

    lemma BeatenBoth(ds: seq<nat>, ds': seq<nat>, len: nat)
      requires Beaten(ds, len) && Beaten(ds', len)
      ensures Beaten(ds + ds', len)
    {
    }

    /** The search on the chain comes to every position that is reachable. */
    lemma AllReached(len: nat, n: nat)
      requires Valid() && dictSize + lookaheadSize <= DICT_SIZE
      requires Beaten(Rest(lookaheadPos % DICT_SIZE, n), len) || lookaheadSize <= len
      ensures NoneReached(src, lookaheadPos, lookaheadSize, dictSize, len, n)
    {
      hide Window, Key, Rivals, Clear, KeyAt;
      forall q: nat | Reachable(src, lookaheadPos, q, dictSize, n)
        ensures NoLonger(src, lookaheadPos, lookaheadSize, lookaheadPos - q, len)
      {
        if lookaheadSize > len {
          OnChain(src, next[..], Starts(), lookaheadPos, dictSize, q, lookaheadPos, n);
          var rest := Rest(lookaheadPos % DICT_SIZE, n);
          var i :| 0 <= i < |rest| && rest[i] == lookaheadPos - q;
        }
      }
    }

    /** What has been seen so far and since then, and the last of it with a match of len' bytes. */
    lemma BeatenMore(ds: seq<nat>, ds': seq<nat>, hit: seq<nat>, d: nat, len: nat, len': nat)
      requires Beaten(ds, len) && Beaten(ds', len) && hit <= [d] && NoLonger(src, lookaheadPos, lookaheadSize, d, len')
      ensures Beaten(ds + (ds' + hit), if len' > len then len' else len)
    {
      hide Genuine;
      var all := ds + (ds' + hit);
      forall i | 0 <= i < |all|
        ensures NoLonger(src, lookaheadPos, lookaheadSize, all[i], if len' > len then len' else len)
      {
        assert i < |ds| ==> NoLonger(src, lookaheadPos, lookaheadSize, ds[i], len);
        assert |ds| <= i < |ds| + |ds'| ==> NoLonger(src, lookaheadPos, lookaheadSize, ds'[i - |ds|], len);
      }
    }

    /** The match at one position, and what has been seen with it. */
    method Match(probePos: nat, d: nat, len: nat, ghost seen: seq<nat>, ghost more: seq<nat>, ghost hit: seq<nat>)
      returns (probeLen: nat, ghost seen': seq<nat>)
      requires Valid() && 1 <= d <= dictSize && dictSize + lookaheadSize <= DICT_SIZE && probePos == (lookaheadPos - d) % DICT_SIZE
      requires Beaten(seen, len) && Beaten(more, len) && hit <= [d]
      ensures probeLen <= lookaheadSize && Genuine(src, lookaheadPos, probeLen, d)
      ensures seen' == seen + (more + hit) && Beaten(seen', if probeLen > len then probeLen else len)
    {
      hide Window, Entered, NoLonger, Beaten, Genuine;
      probeLen := Compare(probePos, d, lookaheadSize);
      BeatenMore(seen, more, hit, d, len, probeLen);
      seen' := seen + (more + hit);
    }

    /** tdefl_find_match: a match longer than the one given, or that one; none that can be reached with these
        probes is longer. */
    method FindMatch(dist0: nat, len0: nat, probes: nat) returns (dist: nat, len: nat)
      requires Valid() && dictSize + lookaheadSize <= DICT_SIZE && 1 <= len0 < MIRROR && probes >= 1
      ensures (dist == dist0 && len == len0) || (len > len0 && len <= lookaheadSize && Genuine(src, lookaheadPos, len, dist))
      ensures !(dist == dist0 && len == len0) ==> dist <= dictSize
      ensures lookaheadSize <= len || Beaten(Rest(lookaheadPos % DICT_SIZE, probes - 1), len)
      ensures NoneReached(src, lookaheadPos, lookaheadSize, dictSize, len, probes - 1)
    {
      dist, len := Search(dist0, len0, probes);
      AllReached(len, probes - 1);
    }

    method Search(dist0: nat, len0: nat, probes: nat) returns (dist: nat, len: nat)
      requires Valid() && dictSize + lookaheadSize <= DICT_SIZE && 1 <= len0 < MIRROR && probes >= 1
      ensures (dist == dist0 && len == len0) || (len > len0 && len <= lookaheadSize && Genuine(src, lookaheadPos, len, dist))
      ensures !(dist == dist0 && len == len0) ==> dist <= dictSize
      ensures lookaheadSize <= len || Beaten(Rest(lookaheadPos % DICT_SIZE, probes - 1), len)
    {
      hide Valid, Window, Entered, NoLonger, Rest, Beaten, Genuine;
      TheArrays();
      NoneBeaten(len0);
      dist, len := dist0, len0;
      var pos := lookaheadPos % DICT_SIZE;
      var probePos: nat, probesLeft: nat := pos, probes;
      var c0, c1 := dict[pos + len], dict[pos + len - 1];
      if lookaheadSize <= len {
        return;
      }
      ghost var seen: seq<nat>, n: nat := [], probes - 1;
      while true
        invariant probePos < DICT_SIZE && probesLeft >= 1 && len0 <= len < lookaheadSize
        invariant (dist == dist0 && len == len0) || (len > len0 && dist <= dictSize && Genuine(src, lookaheadPos, len, dist))
        invariant c0 == dict[pos + len] && c1 == dict[pos + len - 1] && n < probesLeft
        invariant Rest(pos, probes - 1) == seen + Rest(probePos, n) && Beaten(seen, len)
        decreases probesLeft
      {
        var d;
        ghost var more, hit;
        probePos, d, probesLeft, more, hit, n := NextProbe(probePos, len, probesLeft, c0, c1, n);
        if probesLeft == 0 || d == 0 {
          BeatenBoth(seen, more, len);
          return;
        }
        var probeLen;
        probeLen, seen := Match(probePos, d, len, seen, more, hit);
        if probeLen > len {
          dist, len := d, probeLen;
          if len == lookaheadSize {
            return;
          }
          c0, c1 := dict[pos + len], dict[pos + len - 1];
        }
      }
    }

    /** How far the byte before the lookahead is repeated in it. */
    method FindRun() returns (len: nat)
      requires Valid() && dictSize + lookaheadSize <= DICT_SIZE && dictSize > 0
      ensures len <= lookaheadSize && Genuine(src, lookaheadPos, len, 1)
      ensures len < lookaheadSize ==> src[lookaheadPos + len] != src[lookaheadPos - 1]
      ensures NoLonger(src, lookaheadPos, lookaheadSize, 1, len)
    {
      hide Entered;
      var pos := lookaheadPos % DICT_SIZE;
      StraightLine(lookaheadPos - 1, 0);
      var c := dict[(lookaheadPos - 1) % DICT_SIZE];
      len := 0;
      while len < lookaheadSize
        invariant len <= lookaheadSize && Genuine(src, lookaheadPos, len, 1)
        invariant forall i :: lookaheadPos <= i < lookaheadPos + len ==> src[i] == c
      {
        StraightLine(lookaheadPos, len);
        if dict[pos + len] != c {
          EndsThere(src, lookaheadPos, lookaheadSize, 1, len);
          return;
        }
        len := len + 1;
      }
    }
  }

  lemma NextSlot(t: nat)
    ensures (t % DICT_SIZE + 1) % DICT_SIZE == (t + 1) % DICT_SIZE
  {
  }
}
