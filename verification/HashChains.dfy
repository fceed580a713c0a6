/** The hash chains of the compressor: for each position of the input, the last one before it with the same hash
    of three bytes.  Links are kept for the last 32768 positions only, and in 16 bits, where 0 is no link. */
module HashChains {
  import opened Bits
  import opened Symbols

  const HASH_SIZE := 32768

  /** The len bytes from pos on are those that dist bytes before. */
  ghost predicate Genuine(src: seq<byte>, pos: nat, len: nat, dist: nat)
  {
    && 1 <= dist <= pos && pos + len <= |src|
    && forall i :: pos <= i < pos + len ==> src[i] == src[i - dist]
  }

  /** No match at a distance that has at most max bytes has more than len. */
  ghost predicate NoLonger(src: seq<byte>, pos: nat, max: nat, dist: nat, len: nat)
  {
    forall l: nat :: len < l <= max ==> !Genuine(src, pos, l, dist)
  }

  /** A match ends where the bytes differ. */
  lemma EndsThere(src: seq<byte>, pos: nat, max: nat, dist: nat, len: nat)
    requires dist <= pos && pos + len < |src| && src[pos + len] != src[pos + len - dist]
    ensures NoLonger(src, pos, max, dist, len)
  {
  }

  // ---------- the hash

  /** One more byte in the hash, which has 15 bits: a byte leaves it after three more. */
  function Mix(h: bv15, c: bv15): bv15
  {
    (h << 5) ^ c
  }

  /** What comes in next makes two hashes the same. */
  predicate Alike(g: bv15, h: bv15)
  {
    g << 5 == h << 5
  }

  function Word(c: byte): bv15
  {
    c as bv15
  }

  function Slot(h: bv15): (k: nat)
    ensures k < HASH_SIZE
  {
    h as nat
  }

  function Roll(h: bv15, c: byte): bv15
  {
    Mix(h, Word(c))
  }

  function Key(a: byte, b: byte, c: byte): (k: nat)
    ensures k < HASH_SIZE
  {
    Slot(Roll(Roll(Word(a), b), c))
  }

  lemma MixOn(h: bv15, x: bv15, y: bv15, z: bv15)
    requires Alike(h, Mix(x, y))
    ensures Mix(h, z) == Mix(Mix(x, y), z) && Alike(Mix(h, z), Mix(y, z))
  {
  }

  /** A hash that has gone along is the hash of the last three bytes. */
  lemma RollOn(h: bv15, a: byte, b: byte, c: byte)
    requires Alike(h, Roll(Word(a), b))
    ensures Slot(Roll(h, c)) == Key(a, b, c) && Alike(Roll(h, c), Roll(Word(b), c))
  {
    hide Alike, Mix, Word, Slot;
    MixOn(h, Word(a), Word(b), Word(c));
  }

  /** The hash of three bytes, all at once. */
  function Whole(x: bv15, y: bv15, z: bv15): bv15
  {
    (x << 10) ^ (y << 5) ^ z
  }

  lemma WholeIs(x: bv15, y: bv15, z: bv15)
    ensures Whole(x, y, z) == Mix(Mix(x, y), z)
  {
  }

  function KeyAt(src: seq<byte>, p: nat): nat
    requires p + 3 <= |src|
  {
    Key(src[p], src[p + 1], src[p + 2])
  }

  // ---------- the chains

  /** The last of the first n positions that has the hash h, or -1. */
  function Last(src: seq<byte>, h: nat, n: nat): (q: int)
    requires n == 0 || n + 2 <= |src|
    ensures -1 <= q < n && (q >= 0 ==> KeyAt(src, q) == h)
  {
    if n == 0 then -1 else if KeyAt(src, n - 1) == h then n - 1 else Last(src, h, n - 1)
  }

  /** A link to position q, or none. */
  function Link(q: int): nat
  {
    if q < 0 then 0 else q % 65536
  }

  /** The table of hashes, when the first n positions have been entered. */
  ghost predicate Hashed(src: seq<byte>, n: nat, hash: seq<nat>)
  {
    && |hash| == HASH_SIZE && (n == 0 || n + 2 <= |src|)
    && forall h: nat :: h < HASH_SIZE ==> hash[h] == Link(Last(src, h, n))
  }

  ghost predicate LinkAt(src: seq<byte>, next: seq<nat>, p: nat)
    requires p + 3 <= |src| && |next| == DICT_SIZE
  {
    next[p % DICT_SIZE] == Link(Last(src, KeyAt(src, p), p))
  }

  /** The links, when the first n positions have been entered: those of the last 32768 of them are there. */
  ghost predicate Linked(src: seq<byte>, n: nat, next: seq<nat>)
  {
    && |next| == DICT_SIZE && (n == 0 || n + 2 <= |src|)
    && forall p: nat :: p < n && n - p <= DICT_SIZE ==> LinkAt(src, next, p)
  }

  lemma {:induction false} LastSame(src: seq<byte>, src': seq<byte>, h: nat, n: nat)
    requires (n == 0 || n + 2 <= |src|) && src <= src'
    ensures Last(src, h, n) == Last(src', h, n)
  {
    if n > 0 {
      LastSame(src, src', h, n - 1);
    }
  }

  lemma MoreSource(src: seq<byte>, src': seq<byte>, n: nat, next: seq<nat>, hash: seq<nat>)
    requires Hashed(src, n, hash) && Linked(src, n, next) && src <= src'
    ensures Hashed(src', n, hash) && Linked(src', n, next)
  {
    hide Key;
    forall h: nat | h < HASH_SIZE
      ensures hash[h] == Link(Last(src', h, n))
    {
      LastSame(src, src', h, n);
    }
    forall p: nat | p < n && n - p <= DICT_SIZE
      ensures LinkAt(src', next, p)
    {
      assert LinkAt(src, next, p);
      LastSame(src, src', KeyAt(src, p), p);
    }
  }

  lemma OtherSlot(t: nat, u: nat)
    requires t < u < t + DICT_SIZE
    ensures t % DICT_SIZE != u % DICT_SIZE
  {
  }

  /** One more position is entered. */
  lemma EnterOne(src: seq<byte>, n: nat, next: seq<nat>, hash: seq<nat>)
    requires Hashed(src, n, hash) && Linked(src, n, next) && n + 3 <= |src|
    ensures var h := KeyAt(src, n);
            Hashed(src, n + 1, hash[h := n % 65536]) && Linked(src, n + 1, next[n % DICT_SIZE := hash[h]])
  {
    hide Key;
    var next' := next[n % DICT_SIZE := hash[KeyAt(src, n)]];
    forall p: nat | p < n + 1 && n + 1 - p <= DICT_SIZE
      ensures LinkAt(src, next', p)
    {
      if p < n {
        assert LinkAt(src, next, p);
        OtherSlot(p, n);
      }
    }
  }

  /** The distances from pos of the first n positions on the chain that starts with the link in a slot; the chain
      ends where there is no link, and where a link is farther back than size. */
  function Chain(next: seq<nat>, slot: nat, pos: nat, size: nat, n: nat): seq<nat>
    requires |next| == DICT_SIZE && slot < DICT_SIZE
    decreases n
  {
    if n == 0 || Ends(next[slot], pos, size) then []
    else [Back(next[slot], pos)] + Chain(next, next[slot] % DICT_SIZE, pos, size, n - 1)
  }

  /** How far back a link leads, in 16 bits. */
  function Back(link: nat, pos: nat): nat
  {
    (pos - link) % 65536
  }

  predicate Ends(link: nat, pos: nat, size: nat)
  {
    link == 0 || Back(link, pos) > size || Back(link, pos) == 0
  }

  /** How many positions from q on and before r have the hash h. */
  function Rivals(src: seq<byte>, h: nat, q: nat, r: nat): nat
    requires r + 2 <= |src|
  {
    if r <= q then 0 else Rivals(src, h, q, r - 1) + if KeyAt(src, r - 1) == h then 1 else 0
  }

  /** No link to them looks like none. */
  ghost predicate Clear(src: seq<byte>, h: nat, q: nat, r: nat)
    requires r + 2 <= |src|
  {
    forall p: nat :: q <= p < r && KeyAt(src, p) == h ==> p % 65536 != 0
  }

  /** Position q lies within the last size bytes before pos and has the same hash; it and those between that have
      this hash are at most n, and none is a multiple of 65536. */
  ghost predicate Reachable(src: seq<byte>, pos: nat, q: nat, size: nat, n: nat)
  {
    && q < pos && pos - q <= size && pos + 3 <= |src| && KeyAt(src, q) == KeyAt(src, pos)
    && Rivals(src, KeyAt(src, pos), q, pos) <= n && Clear(src, KeyAt(src, pos), q, pos)
  }

  /** No match of up to max bytes with a position that n steps along the chain can reach, has more than len bytes. */
  ghost predicate NoneReached(src: seq<byte>, pos: nat, max: nat, size: nat, len: nat, n: nat)
  {
    forall q: nat :: Reachable(src, pos, q, size, n) ==> NoLonger(src, pos, max, pos - q, len)
  }

  /** What comes behind the lookahead does not matter. */
  lemma ReachedStays(src: seq<byte>, src': seq<byte>, pos: nat, max: nat, size: nat, len: nat, n: nat)
    requires NoneReached(src, pos, max, size, len, n) && src <= src' && 3 <= max && pos + max <= |src|
    ensures NoneReached(src', pos, max, size, len, n)
  {
    hide Key;
    forall q: nat | Reachable(src', pos, q, size, n)
      ensures NoLonger(src', pos, max, pos - q, len)
    {
      RivalsStay(src, src', KeyAt(src, pos), q, pos);
      forall p: nat | p <= pos
        ensures KeyAt(src, p) == KeyAt(src', p)
      {
      }
      assert Reachable(src, pos, q, size, n);
      LongerStays(src, src', pos, max, pos - q, len);
    }
  }

  lemma LongerStays(src: seq<byte>, src': seq<byte>, pos: nat, max: nat, dist: nat, len: nat)
    requires NoLonger(src, pos, max, dist, len) && src <= src' && pos + max <= |src|
    ensures NoLonger(src', pos, max, dist, len)
  {
    forall l: nat | l <= max && Genuine(src', pos, l, dist)
      ensures Genuine(src, pos, l, dist)
    {
      GenuineWithin(src, src', pos, l, dist);
    }
  }

  lemma GenuineWithin(src: seq<byte>, src': seq<byte>, pos: nat, l: nat, dist: nat)
    requires Genuine(src', pos, l, dist) && src <= src' && pos + l <= |src|
    ensures Genuine(src, pos, l, dist)
  {
    assert forall i :: 0 <= i < |src| ==> src[i] == src'[i];
  }

  lemma {:induction false} RivalsStay(src: seq<byte>, src': seq<byte>, h: nat, q: nat, r: nat)
    requires src <= src' && r + 2 <= |src|
    ensures Rivals(src, h, q, r) == Rivals(src', h, q, r)
  {
    hide Key;
    if r > q {
      RivalsStay(src, src', h, q, r - 1);
    }
  }

  function Least(a: nat, b: nat): nat
  {
    if a < b then a else b
  }

  /** Positions with the same three bytes have the same hash. */
  lemma MatchHasKey(src: seq<byte>, pos: nat, len: nat, dist: nat)
    requires Genuine(src, pos, len, dist) && len >= 3
    ensures KeyAt(src, pos - dist) == KeyAt(src, pos)
  {
    assert src[pos] == src[pos - dist] && src[pos + 1] == src[pos + 1 - dist] && src[pos + 2] == src[pos + 2 - dist];
  }

  lemma {:induction false} RivalsLast(src: seq<byte>, h: nat, q: nat, r: nat)
    requires q < r && r + 2 <= |src| && KeyAt(src, q) == h
    ensures q <= Last(src, h, r) && Rivals(src, h, q, r) == 1 + Rivals(src, h, q, Last(src, h, r))
  {
    if KeyAt(src, r - 1) != h {
      RivalsLast(src, h, q, r - 1);
    }
  }

  /** Every position that is reachable is on the chain. */
  lemma {:induction false} OnChain(src: seq<byte>, next: seq<nat>, m: nat, pos: nat, size: nat, q: nat, r: nat, n: nat)
    requires Linked(src, m, next) && q < r <= pos < m <= q + DICT_SIZE && pos - q <= size <= DICT_SIZE
    requires KeyAt(src, q) == KeyAt(src, r)
    requires Rivals(src, KeyAt(src, r), q, r) <= n && Clear(src, KeyAt(src, r), q, r)
    ensures (pos - q) in Chain(next, r % DICT_SIZE, pos, size, n)
    decreases r
  {
    hide Key, Rivals, Last;
    var h := KeyAt(src, r);
    RivalsLast(src, h, q, r);
    var l := Last(src, h, r);
    assert LinkAt(src, next, r) && KeyAt(src, l) == h;
    LinkBack(l, pos);
    if l > q {
      OnChain(src, next, m, pos, size, q, l, n - 1);
    }
  }

  /** A link to a multiple of 65536 looks like none, and the chain ends before it. */
  lemma LostLink(src: seq<byte>, next: seq<nat>, m: nat, pos: nat, size: nat, r: nat, n: nat)
    requires Linked(src, m, next) && r < m <= r + DICT_SIZE
    requires Last(src, KeyAt(src, r), r) >= 0 && Last(src, KeyAt(src, r), r) % 65536 == 0
    ensures Chain(next, r % DICT_SIZE, pos, size, n) == []
  {
    assert LinkAt(src, next, r);
  }

  lemma LinkBack(l: nat, pos: nat)
    requires l < pos <= l + DICT_SIZE
    ensures Back(l % 65536, pos) == pos - l && l % 65536 % DICT_SIZE == l % DICT_SIZE
  {
    var k, r := l / 65536, l % 65536;
    assert l == r + 65536 * k;
    ModAdd(pos - l, k, 65536);
    assert pos - r == pos - l + k * 65536;
    ModAdd(r, 2 * k, DICT_SIZE);
  }

  lemma ModAdd(x: int, k: nat, d: nat)
    requires d > 0
    ensures (x + k * d) % d == x % d
  {
    var q, r := x / d, x % d;
    assert d * (q + k) == d * q + k * d;
    ModUnique(x + k * d, d, q + k, r);
  }
}
