/** Bit strings and bytes.  DEFLATE packs data elements into bytes starting with the
    least-significant bit, so a bit string is written in stream order. */
module Bits {

  type byte = b: nat | b < 256

  function Pow2(n: nat): (p: nat)
    ensures p >= 1
  {
    if n == 0 then 1 else 2 * Pow2(n - 1)
  }

  /** v << n. */
  function Shl(v: nat, n: nat): nat
  {
    if n == 0 then v else 2 * Shl(v, n - 1)
  }

  /** v >> n. */
  function Shr(v: nat, n: nat): nat
  {
    if n == 0 then v else Shr(v / 2, n - 1)
  }

  /** The n low bits of v, least significant first. */
  function ToBits(v: nat, n: nat): (b: seq<bool>)
    ensures |b| == n
  {
    if n == 0 then [] else [v % 2 == 1] + ToBits(v / 2, n - 1)
  }

  /** The number a bit string denotes, least significant bit first. */
  function ToNat(b: seq<bool>): nat
  {
    if b == [] then 0 else (if b[0] then 1 else 0) + 2 * ToNat(b[1..])
  }

  /** The n low bits of v, most significant first: the order of Huffman codes. */
  function Msb(v: nat, n: nat): (b: seq<bool>)
    ensures |b| == n
  {
    if n == 0 then [] else Msb(v / 2, n - 1) + [v % 2 == 1]
  }

  /** The bits of a byte string, in stream order. */
  function BytesToBits(s: seq<byte>): (b: seq<bool>)
    ensures |b| == 8 * |s|
  {
    if s == [] then [] else ToBits(s[0], 8) + BytesToBits(s[1..])
  }

  lemma {:induction false} Pow2Add(a: nat, b: nat)
    ensures Pow2(a + b) == Pow2(a) * Pow2(b)
  {
    if a == 0 {
    } else {
      Pow2Add(a - 1, b);
      assert Pow2(a + b) == 2 * (Pow2(a - 1) * Pow2(b));
      assert 2 * (Pow2(a - 1) * Pow2(b)) == (2 * Pow2(a - 1)) * Pow2(b);
    }
  }

  lemma MulMono(a: int, b: int, d: int)
    requires a <= b && d >= 0
    ensures a * d <= b * d
  {
  }

  lemma {:induction false} ShlMono(a: nat, b: nat, n: nat)
    requires a <= b
    ensures Shl(a, n) <= Shl(b, n)
    ensures a < b ==> Shl(a, n) < Shl(b, n)
  {
    if n > 0 {
      ShlMono(a, b, n - 1);
    }
  }

  lemma {:induction false} ShlPow2(l: nat, n: nat)
    ensures Shl(Pow2(l), n) == Pow2(l + n)
  {
    if n > 0 {
      ShlPow2(l, n - 1);
    }
  }

  lemma {:induction false} ShlShl(v: nat, a: nat, b: nat)
    ensures Shl(Shl(v, a), b) == Shl(v, a + b)
  {
    if b > 0 {
      ShlShl(v, a, b - 1);
    }
  }

  lemma {:induction false} ShlHalf(v: nat, n: nat)
    ensures Shl(2 * v, n) == 2 * Shl(v, n)
  {
    if n > 0 {
      ShlHalf(v, n - 1);
    }
  }

  lemma {:induction false} ShlAdd(a: nat, b: nat, n: nat)
    ensures Shl(a + b, n) == Shl(a, n) + Shl(b, n)
  {
    if n > 0 {
      ShlAdd(a, b, n - 1);
    }
  }

  lemma {:induction false} ShlZero(n: nat)
    ensures Shl(0, n) == 0
  {
    if n > 0 {
      ShlZero(n - 1);
    }
  }

  lemma {:induction false} ShlIsTimes(v: nat, n: nat)
    ensures Shl(v, n) == v * Pow2(n)
  {
    if n > 0 {
      ShlIsTimes(v, n - 1);
      assert v * Pow2(n) == 2 * (v * Pow2(n - 1));
    }
  }

  lemma {:induction false} ShrAtLeast(v: nat, d: nat, q: nat)
    requires Shl(q, d) <= v
    ensures q <= Shr(v, d)
  {
    if d > 0 {
      ShrAtLeast(v / 2, d - 1, q);
    }
  }

  lemma {:induction false} ShrBelow(v: nat, d: nat, q: nat)
    requires v < Shl(q, d)
    ensures Shr(v, d) < q
  {
    if d > 0 {
      ShrBelow(v / 2, d - 1, q);
    }
  }

  lemma {:induction false} ShrStep(v: nat, d: nat)
    ensures Shr(v, d + 1) == Shr(v, d) / 2
  {
    if d > 0 {
      ShrStep(v / 2, d - 1);
    }
  }

  lemma ShrNothing(v: nat)
    ensures Shr(v, 0) == v
  {
  }

  lemma ShrTwo(v: nat, n: nat)
    ensures Shr(v, n + 2) == Shr(v / 4, n)
  {
    assert Shr(v, n + 2) == Shr(v / 2, n + 1) == Shr(v / 2 / 2, n);
  }

  lemma {:induction false} Pow2Monotone(a: nat, b: nat)
    requires a <= b
    ensures Pow2(a) <= Pow2(b)
    decreases b - a
  {
    if a < b {
      Pow2Monotone(a, b - 1);
    }
  }

  lemma {:induction false} ToNatBound(b: seq<bool>)
    ensures ToNat(b) < Pow2(|b|)
  {
    if b == [] {
    } else {
      ToNatBound(b[1..]);
    }
  }

  lemma {:induction false} ToNatToBits(v: nat, n: nat)
    requires v < Pow2(n)
    ensures ToNat(ToBits(v, n)) == v
  {
    if n == 0 {
    } else {
      ToNatToBits(v / 2, n - 1);
      assert ToBits(v, n)[1..] == ToBits(v / 2, n - 1);
    }
  }

  lemma {:induction false} ToBitsToNat(b: seq<bool>)
    ensures ToBits(ToNat(b), |b|) == b
  {
    if b == [] {
    } else {
      ToBitsToNat(b[1..]);
      assert ToNat(b) / 2 == ToNat(b[1..]);
      assert b == [b[0]] + b[1..];
    }
  }

  lemma {:induction false} ToBitsSplit(v: nat, m: nat, n: nat)
    ensures ToBits(v, m + n) == ToBits(v, m) + ToBits(Shr(v, m), n)
  {
    if m == 0 {
    } else {
      ToBitsSplit(v / 2, m - 1, n);
    }
  }

  lemma {:induction false} ToBitsPrefix(v: nat, m: nat, n: nat)
    requires m <= n
    ensures ToBits(v, n)[..m] == ToBits(v, m)
  {
    ToBitsSplit(v, m, n - m);
  }

  lemma {:induction false} ToNatConcat(a: seq<bool>, b: seq<bool>)
    ensures ToNat(a + b) == ToNat(a) + Pow2(|a|) * ToNat(b)
  {
    if a == [] {
      assert a + b == b;
    } else {
      ToNatConcat(a[1..], b);
      assert (a + b)[1..] == a[1..] + b;
      assert 2 * (Pow2(|a| - 1) * ToNat(b)) == (2 * Pow2(|a| - 1)) * ToNat(b);
    }
  }

  /** Two numbers below 2^n with the same n bits are equal. */
  lemma ToBitsInjective(v: nat, w: nat, n: nat)
    requires v < Pow2(n) && w < Pow2(n) && ToBits(v, n) == ToBits(w, n)
    ensures v == w
  {
    ToNatToBits(v, n);
    ToNatToBits(w, n);
  }

  lemma {:induction false} BytesToBitsConcat(a: seq<byte>, b: seq<byte>)
    ensures BytesToBits(a + b) == BytesToBits(a) + BytesToBits(b)
  {
    hide ToBits;
    if a == [] {
      assert a + b == b;
    } else {
      BytesToBitsConcat(a[1..], b);
      assert (a + b)[1..] == a[1..] + b;
    }
  }

  lemma {:induction false} BytesToBitsInjective(a: seq<byte>, b: seq<byte>)
    requires BytesToBits(a) == BytesToBits(b)
    ensures a == b
  {
    assert |a| == |b|;
    if a != [] {
      assert Pow2(8) == 256;
      var x, y := BytesToBits(a), BytesToBits(b);
      assert x[..8] == ToBits(a[0], 8) && y[..8] == ToBits(b[0], 8);
      assert x[8..] == BytesToBits(a[1..]) && y[8..] == BytesToBits(b[1..]);
      ToBitsInjective(a[0], b[0], 8);
      BytesToBitsInjective(a[1..], b[1..]);
      assert a == [a[0]] + a[1..] && b == [b[0]] + b[1..];
    }
  }

  /** The code of length n+m with its last m bits dropped. */
  lemma {:induction false} MsbPrefix(v: nat, n: nat, m: nat)
    ensures Msb(v, n + m)[..n] == Msb(Shr(v, m), n)
  {
    if m == 0 {
    } else {
      MsbPrefix(v / 2, n, m - 1);
      assert Msb(v, n + m) == Msb(v / 2, n + m - 1) + [v % 2 == 1];
    }
  }

  lemma {:induction false} MsbInjective(v: nat, w: nat, n: nat)
    requires v < Pow2(n) && w < Pow2(n) && Msb(v, n) == Msb(w, n)
    ensures v == w
  {
    if n == 0 {
    } else {
      assert Msb(v, n)[..n - 1] == Msb(v / 2, n - 1);
      assert Msb(w, n)[..n - 1] == Msb(w / 2, n - 1);
      assert Msb(v, n)[n - 1] == Msb(w, n)[n - 1];
      MsbInjective(v / 2, w / 2, n - 1);
    }
  }

  /** Every bit string is the most-significant-first code of some number. */
  lemma {:induction false} MsbSurjective(b: seq<bool>) returns (v: nat)
    ensures v < Pow2(|b|) && Msb(v, |b|) == b
  {
    if b == [] {
      v := 0;
    } else {
      var n := |b| - 1;
      var u := MsbSurjective(b[..n]);
      v := 2 * u + if b[n] then 1 else 0;
      assert v / 2 == u;
      assert b == b[..n] + [b[n]];
    }
  }

  /** Bit i of v. */
  lemma {:induction false} ToBitsAt(v: nat, n: nat, i: nat)
    requires i < n
    ensures ToBits(v, n)[i] == (Shr(v, i) % 2 == 1)
  {
    if i > 0 {
      ToBitsAt(v / 2, n - 1, i - 1);
    }
  }

  lemma {:induction false} MsbGrow(v: nat, n: nat)
    ensures Msb(v, n + 1) == [Shr(v, n) % 2 == 1] + Msb(v, n)
  {
    if n > 0 {
      MsbGrow(v / 2, n - 1);
    }
  }

  /** Numbers with the same n low bits are at least 2^n apart, and adding 2^n keeps those bits. */
  lemma {:induction false} AddAbove(x: nat, n: nat)
    ensures ToBits(x + Pow2(n), n) == ToBits(x, n)
  {
    if n > 0 {
      AddAbove(x / 2, n - 1);
      assert (x + Pow2(n)) / 2 == x / 2 + Pow2(n - 1) && (x + Pow2(n)) % 2 == x % 2;
    }
  }

  lemma {:induction false} SameLowBits(x: nat, y: nat, n: nat)
    ensures ToBits(x + Pow2(n), n) == ToBits(x, n)
    ensures x < y && ToBits(x, n) == ToBits(y, n) ==> x + Pow2(n) <= y
  {
    AddAbove(x, n);
    if n > 0 {
      SameLowBits(x / 2, y / 2, n - 1);
      if ToBits(x, n) == ToBits(y, n) {
        assert ToBits(x, n)[0] == ToBits(y, n)[0];
        assert ToBits(x, n)[1..] == ToBits(x / 2, n - 1) && ToBits(y, n)[1..] == ToBits(y / 2, n - 1);
      }
    }
  }

  /** Taking v modulo 2^n keeps its n low bits. */
  lemma {:induction false} LowMod(v: nat, n: nat)
    ensures ToBits(v % Pow2(n), n) == ToBits(v, n)
  {
    if n > 0 {
      var p := Pow2(n - 1);
      ModHalf(v, p);
      LowMod(v / 2, n - 1);
    }
  }

  lemma ModHalf(v: nat, p: nat)
    requires p > 0
    ensures (v % (2 * p)) / 2 == (v / 2) % p
    ensures (v % (2 * p)) % 2 == v % 2
  {
    var q, r := v / (2 * p), v % (2 * p);
    assert v == 2 * p * q + r;
    assert v == 2 * (p * q) + r;
    var h := v / 2;
    assert h == p * q + r / 2;
    ModUnique(h, p, q, r / 2);
  }

  lemma ModUnique(x: int, d: int, q: int, r: int)
    requires d > 0 && x == d * q + r && 0 <= r < d
    ensures x % d == r && x / d == q
  {
    var q' := x / d;
    assert x == d * q' + x % d;
    assert d * q + d == d * (q + 1) && d * q' + d == d * (q' + 1);
    if q < q' {
      MulMono(q + 1, q', d);
    } else if q' < q {
      MulMono(q' + 1, q, d);
    }
  }

  /** Bitwise or. */
  function Or(a: nat, b: nat): nat
  {
    if a == 0 && b == 0 then 0
    else 2 * Or(a / 2, b / 2) + if a % 2 == 1 || b % 2 == 1 then 1 else 0
  }

  lemma {:induction false} OrZero(a: nat)
    ensures Or(a, 0) == a && Or(0, a) == a
  {
    if a > 0 {
      OrZero(a / 2);
    }
  }

  /** Or-ing new bits in above the n bits that are there appends them. */
  lemma {:induction false} Append(buf: nat, n: nat, c: nat, m: nat)
    requires buf < Pow2(n) && c < Pow2(m)
    ensures Or(buf, Shl(c, n)) < Pow2(n + m)
    ensures ToBits(Or(buf, Shl(c, n)), n + m) == ToBits(buf, n) + ToBits(c, m)
  {
    if n == 0 {
      OrZero(c);
    } else {
      Append(buf / 2, n - 1, c, m);
      var v := Or(buf, Shl(c, n));
      assert Shl(c, n) / 2 == Shl(c, n - 1);
      if buf == 0 && Shl(c, n) == 0 {
        assert Or(0, 0) == 0;
      }
      assert v / 2 == Or(buf / 2, Shl(c, n - 1)) && v % 2 == buf % 2;
      assert ToBits(v, n + m) == [v % 2 == 1] + ToBits(v / 2, n - 1 + m);
    }
  }

  lemma {:induction false} ShrBound(v: nat, n: nat, m: nat)
    requires v < Pow2(n + m)
    ensures Shr(v, n) < Pow2(m)
  {
    if n > 0 {
      ShrBound(v / 2, n - 1, m);
    }
  }

  /** Taking the n low bits off a buffer. */
  lemma TakeLow(buf: nat, num: nat, n: nat)
    requires buf < Pow2(num) && n <= num
    ensures ToBits(buf, num) == ToBits(buf % Pow2(n), n) + ToBits(Shr(buf, n), num - n)
    ensures Shr(buf, n) < Pow2(num - n) && buf % Pow2(n) < Pow2(n)
  {
    ToBitsSplit(buf, n, num - n);
    LowMod(buf, n);
    ShrBound(buf, n, num - n);
  }

  /** Reverses the order of the size low bits of code, as both the compressor and the
      decompressor do with every Huffman code. */
  method ReverseBits(code: nat, size: nat) returns (rev: nat)
    ensures rev < Pow2(size) && ToBits(rev, size) == Msb(code, size)
  {
    rev := 0;
    var l, cur := size, code;
    while l > 0
      invariant 0 <= l <= size
      invariant cur == Shr(code, size - l)
      invariant rev < Pow2(size - l) && ToBits(rev, size - l) == Msb(code, size - l)
    {
      MsbGrow(code, size - l);
      ShrStep(code, size - l);
      rev := 2 * rev + cur % 2;
      l, cur := l - 1, cur / 2;
    }
  }
}
