/** Base64 (section 4 of RFC 4648): a printer and a parser over a 32-bit accumulator that is never masked. */
module Base64 {
  import opened Bits

  datatype Result<T> = Ok(value: T) | Err(error: Error)
  datatype Error = TooLong | IllegalCharacter

  const MAX_SIZE: nat := 0xFFFF_FFFF_FFFF_FFFF
  const PAD: byte := 61

  function Letter(v: nat): byte
    requires v < 64
  {
    if v < 26 then 65 + v
    else if v < 52 then 97 + v - 26
    else if v < 62 then 48 + v - 52
    else if v == 62 then 43
    else 47
  }

  /** The table that undoes Letter; 64 marks a character outside the alphabet. */
  function Value(c: nat): nat
    requires c < 128
  {
    if 65 <= c <= 90 then c - 65
    else if 97 <= c <= 122 then c - 97 + 26
    else if 48 <= c <= 57 then c - 48 + 52
    else if c == 43 then 62
    else if c == 47 then 63
    else 64
  }

  lemma ValueOfLetter(v: nat)
    requires v < 64
    ensures Letter(v) < 128 && Value(Letter(v)) == v && !Skipped(Letter(v))
  {
  }

  predicate Space(c: byte) {
    9 <= c <= 13 || c == 32
  }

  /** The alphabet of table 1 of RFC 4648. */
  lemma Alphabet(v: nat)
    requires v < 64
    ensures v < 26 ==> Letter(v) == "ABCDEFGHIJKLMNOPQRSTUVWXYZ"[v] as nat
    ensures 26 <= v < 52 ==> Letter(v) == "abcdefghijklmnopqrstuvwxyz"[v - 26] as nat
    ensures 52 <= v < 62 ==> Letter(v) == "0123456789"[v - 52] as nat
    ensures v == 62 ==> Letter(v) == '+' as nat
    ensures v == 63 ==> Letter(v) == '/' as nat
  {
    if v < 26 {
      Capital(v);
    } else if v < 52 {
      Small(v - 26);
    } else if v < 62 {
      Figure(v - 52);
    }
  }

  lemma Capital(i: nat)
    requires i < 26
    ensures "ABCDEFGHIJKLMNOPQRSTUVWXYZ"[i] as nat == 65 + i
  {
  }

  lemma Small(i: nat)
    requires i < 26
    ensures "abcdefghijklmnopqrstuvwxyz"[i] as nat == 97 + i
  {
  }

  lemma Figure(i: nat)
    requires i < 10
    ensures "0123456789"[i] as nat == 48 + i
  {
  }

  /** What may stand anywhere: tabulator, line feed, vertical tabulator, form feed, carriage return, blank, and the
      padding; and nothing that is skipped has a value. */
  lemma SkippedAre(c: byte)
    ensures Skipped(c) <==> c in {9, 10, 11, 12, 13, 32, 61}
    ensures Skipped(c) ==> !Legal(c)
    ensures Legal(c) <==> exists v: nat :: v < 64 && Letter(v) == c
  {
    if Legal(c) {
      assert Letter(Value(c)) == c;
    }
    if v: nat :| v < 64 && Letter(v) == c {
      ValueOfLetter(v);
    }
  }

  predicate Skipped(c: byte) {
    Space(c) || c == PAD
  }

  predicate Legal(c: byte) {
    c < 128 && Value(c) < 64
  }

  function At(data: seq<nat>, i: nat): nat {
    if i < |data| then data[i] else 0
  }

  /** The j-th group of six bits, the first bit on the left, with zeros behind the data. */
  function Sextet(data: seq<byte>, j: nat): (v: nat)
    ensures v < 64
  {
    var q := j / 4 * 3;
    match j % 4
    case 0 => At(data, q) / 4
    case 1 => At(data, q) % 4 * 16 + At(data, q + 1) / 16
    case 2 => At(data, q + 1) % 16 * 4 + At(data, q + 2) / 64
    case _ => At(data, q + 2) % 64
  }

  function Sextets(n: nat): nat {
    (4 * n + 2) / 3
  }

  function Size(n: nat): nat {
    (n + 2) / 3 * 4
  }

  function Encoded(data: seq<byte>): seq<byte> {
    seq(Size(|data|), j requires j >= 0 => if j < Sextets(|data|) then Letter(Sextet(data, j)) else PAD)
  }

  /** The k-th group of eight bits out of groups of six. */
  function Octet(sextets: seq<nat>, k: nat): nat
    requires k < |sextets| * 3 / 4
  {
    var q := k / 3 * 4;
    match k % 3
    case 0 => sextets[q] * 4 + sextets[q + 1] / 16
    case 1 => sextets[q + 1] % 16 * 16 + sextets[q + 2] / 4
    case _ => sextets[q + 2] % 4 * 64 + sextets[q + 3]
  }

  predicate SixBits(s: seq<nat>) {
    forall j :: 0 <= j < |s| ==> s[j] < 64
  }

  /** The texts the parser accepts: letters, padding and white space anywhere. */
  predicate Readable(text: seq<byte>) {
    forall i :: 0 <= i < |text| ==> Skipped(text[i]) || Legal(text[i])
  }

  function Values(text: seq<byte>): (s: seq<nat>)
    requires Readable(text)
    ensures SixBits(s)
  {
    if text == [] then []
    else
      var m := |text| - 1;
      var c := text[m];
      assert Skipped(c) || Legal(c);
      Values(text[..m]) + if Skipped(c) then [] else [Value(c)]
  }

  function Octets(sextets: seq<nat>): seq<nat>
  {
    seq(|sextets| * 3 / 4, k requires 0 <= k < |sextets| * 3 / 4 => Octet(sextets, k))
  }

  /** What the parser makes of any text. */
  function Decoded(text: seq<byte>): Result<seq<nat>> {
    if Readable(text) then Ok(Octets(Values(text))) else Err(IllegalCharacter)
  }

  function Squeezed(text: seq<byte>): seq<byte> {
    if text == [] then []
    else
      var m := |text| - 1;
      Squeezed(text[..m]) + if Space(text[m]) then [] else [text[m]]
  }

  // ---------- the round trip

  lemma SextetsOf(data: seq<byte>, q: nat)
    ensures Sextet(data, 4 * q) == At(data, 3 * q) / 4
    ensures Sextet(data, 4 * q + 1) == At(data, 3 * q) % 4 * 16 + At(data, 3 * q + 1) / 16
    ensures Sextet(data, 4 * q + 2) == At(data, 3 * q + 1) % 16 * 4 + At(data, 3 * q + 2) / 64
    ensures Sextet(data, 4 * q + 3) == At(data, 3 * q + 2) % 64
  {
    hide At;
    ModIs(q, 4, 0);
    ModIs(q, 4, 1);
    ModIs(q, 4, 2);
    ModIs(q, 4, 3);
  }

  lemma OctetsOf(s: seq<nat>, q: nat)
    ensures 3 * q < |s| * 3 / 4 ==> Octet(s, 3 * q) == s[4 * q] * 4 + s[4 * q + 1] / 16
    ensures 3 * q + 1 < |s| * 3 / 4 ==> Octet(s, 3 * q + 1) == s[4 * q + 1] % 16 * 16 + s[4 * q + 2] / 4
    ensures 3 * q + 2 < |s| * 3 / 4 ==> Octet(s, 3 * q + 2) == s[4 * q + 2] % 4 * 64 + s[4 * q + 3]
  {
  }

  lemma ModIs(q: nat, d: nat, r: nat)
    requires r < d
    ensures (d * q + r) / d == q && (d * q + r) % d == r
  {
    ModUnique(d * q + r, d, q, r);
  }

  lemma Regrouped(data: seq<byte>, s: seq<nat>, k: nat)
    requires k < |data| && |s| == Sextets(|data|) && forall j :: 0 <= j < |s| ==> s[j] == Sextet(data, j)
    ensures k < |s| * 3 / 4 && Octet(s, k) == data[k]
  {
    hide Sextet, Octet;
    var q := k / 3;
    SextetsOf(data, q);
    OctetsOf(s, q);
    assert s[4 * q] == Sextet(data, 4 * q) && s[4 * q + 1] == Sextet(data, 4 * q + 1);
    if k == 3 * q {
    } else if k == 3 * q + 1 {
      assert s[4 * q + 2] == Sextet(data, 4 * q + 2);
    } else {
      assert s[4 * q + 2] == Sextet(data, 4 * q + 2) && s[4 * q + 3] == Sextet(data, 4 * q + 3);
    }
  }

  lemma {:induction false} ValuesOfEncoded(data: seq<byte>, k: nat)
    requires k <= |Encoded(data)|
    ensures Readable(Encoded(data)[..k])
    ensures Values(Encoded(data)[..k]) == seq(Min(k, Sextets(|data|)), j requires j >= 0 => Sextet(data, j))
  {
    hide Letter, Value, Sextet, Skipped;
    var e := Encoded(data);
    if k > 0 {
      ValuesOfEncoded(data, k - 1);
      var m := k - 1;
      assert e[..k][..m] == e[..m] && e[..k][m] == e[m];
      if m < Sextets(|data|) {
        ValueOfLetter(Sextet(data, m));
        assert e[m] == Letter(Sextet(data, m));
      } else {
        PadIsSkipped();
        assert e[m] == PAD;
      }
    }
  }

  function Min(a: nat, b: nat): nat {
    if a < b then a else b
  }

  lemma PadIsSkipped()
    ensures Skipped(PAD) && !Space(PAD)
  {
  }

  lemma {:induction false} RoundTrip(data: seq<byte>)
    ensures Decoded(Encoded(data)) == Ok(data)
  {
    hide Values, Readable, Octet, Sextet, Letter;
    var e := Encoded(data);
    ValuesOfEncoded(data, |e|);
    assert e[..|e|] == e;
    var s := Values(e);
    assert |s| == Sextets(|data|) && |s| * 3 / 4 == |data|;
    forall k | 0 <= k < |data| ensures k < |s| * 3 / 4 && Octet(s, k) == data[k] {
      Regrouped(data, s, k);
    }
    assert Octets(s) == data;
  }

  /** White space may stand anywhere. */
  lemma {:induction false} SqueezedSame(text: seq<byte>)
    ensures Readable(Squeezed(text)) <==> Readable(text)
    ensures Readable(text) ==> Values(Squeezed(text)) == Values(text)
    decreases |text|
  {
    if text != [] {
      var m := |text| - 1;
      SqueezedSame(text[..m]);
      ReadableSnoc(text[..m], text[m]);
      assert text[..m] + [text[m]] == text;
      if Space(text[m]) {
        assert Squeezed(text) == Squeezed(text[..m]);
      } else {
        ReadableSnoc(Squeezed(text[..m]), text[m]);
      }
    }
  }

  lemma ReadableSnoc(text: seq<byte>, c: byte)
    ensures Readable(text + [c]) <==> Readable(text) && (Skipped(c) || Legal(c))
    ensures Readable(text + [c]) ==>
              Values(text + [c]) == if Skipped(c) then Values(text) else Values(text) + [Value(c)]
  {
    var t := text + [c];
    assert t[..|text|] == text && t[|text|] == c;
    if Readable(t) {
      assert forall i :: 0 <= i < |text| ==> text[i] == t[i];
    }
  }

  lemma RoundTripSpaced(data: seq<byte>, text: seq<byte>)
    requires Squeezed(text) == Encoded(data)
    ensures Decoded(text) == Ok(data)
  {
    RoundTrip(data);
    SqueezedSame(text);
  }

  // ---------- the loops

  lemma ShiftRight(v: nat)
    ensures Shr(v, 0) == v && Shr(v, 2) == v / 4 && Shr(v, 4) == v / 16 && Shr(v, 6) == v / 64
  {
    ShrTwo(v, 0);
    ShrTwo(v, 2);
    ShrTwo(v / 4, 0);
    ShrTwo(v, 4);
    ShrTwo(v / 4, 2);
    ShrTwo(v / 16, 0);
  }

  lemma ModMod(x: nat, d: nat, e: nat)
    requires d > 0 && e > 0 && d * e > 0
    ensures x % (d * e) % d == x % d
  {
    var q, r := x / (d * e), x % (d * e);
    assert d * (e * q) == d * e * q;
    assert d * (e * q + r / d) == d * (e * q) + d * (r / d);
    ModUnique(x, d, e * q + r / d, r % d);
  }

  lemma ScaleMod(x: nat, d: nat, e: nat)
    requires d > 0 && e > 0 && d * e > 0
    ensures x * e % (d * e) == x % d * e
  {
    var q, r := x / d, x % d;
    assert x * e == (d * q + r) * e == d * e * q + r * e;
    MulMono(r + 1, d, e);
    ModUnique(x * e, d * e, q, r * e);
  }

  lemma DivMod(x: nat, d: nat, e: nat)
    requires d > 0 && e > 0 && d * e > 0
    ensures x / d % e == x % (d * e) / d
  {
    var q, r := x / (d * e), x % (d * e);
    assert d * (e * q + r / d) == d * e * q + d * (r / d);
    ModUnique(x, d, e * q + r / d, r % d);
    if r / d >= e { MulMono(e, r / d, d); }
    ModUnique(x / d, e, q, r / d);
  }

  /** A shift by log2(e) bits into 32 loses nothing of the low d * e. */
  lemma ShiftMod(acc: nat, d: nat, e: nat, m: nat)
    requires d > 0 && e > 0 && m > 0 && d * e * m == 0x1_0000_0000
    ensures acc * e % 0x1_0000_0000 % (d * e) == acc % d * e
  {
    ModMod(acc * e, d * e, m);
    ScaleMod(acc, d, e);
  }

  lemma ShiftByte(acc: nat)
    ensures acc * 256 % 0x1_0000_0000 % 4096 == acc % 16 * 256
    ensures acc * 256 % 0x1_0000_0000 % 1024 == acc % 4 * 256
    ensures acc * 256 % 0x1_0000_0000 % 256 == 0
  {
    ShiftMod(acc, 16, 256, 0x10_0000);
    ShiftMod(acc, 4, 256, 0x40_0000);
    ShiftMod(acc, 1, 256, 0x100_0000);
  }

  lemma ShiftSextet(acc: nat)
    ensures acc * 64 % 0x1_0000_0000 % 4096 == acc % 64 * 64
    ensures acc * 64 % 0x1_0000_0000 % 1024 == acc % 16 * 64
    ensures acc * 64 % 0x1_0000_0000 % 256 == acc % 4 * 64
    ensures acc * 64 % 0x1_0000_0000 % 64 == 0
  {
    ShiftMod(acc, 64, 64, 0x10_0000);
    ShiftMod(acc, 16, 64, 0x40_0000);
    ShiftMod(acc, 4, 64, 0x100_0000);
    ShiftMod(acc, 1, 64, 0x400_0000);
  }

  lemma ShiftRest(acc: nat)
    ensures acc * 16 % 0x1_0000_0000 % 64 == acc % 4 * 16 && acc * 4 % 0x1_0000_0000 % 64 == acc % 16 * 4
  {
    ShiftMod(acc, 4, 16, 0x400_0000);
    ShiftMod(acc, 16, 4, 0x400_0000);
  }

  /** The accumulator after k bytes: the bits that no letter has yet are the low ones. */
  predicate Collected(acc: nat, bits: nat, data: seq<nat>, k: nat) {
    match k % 3
    case 0 => bits == 0
    case 1 => bits == 2 && acc % 4 == At(data, k - 1) % 4
    case _ => bits == 4 && acc % 16 == At(data, k - 1) % 16
  }

  /** The bits that wait when byte k has just come in. */
  predicate Fed(acc: nat, data: seq<nat>, k: nat) {
    match k % 3
    case 0 => acc % 256 == At(data, k)
    case 1 => acc % 1024 == At(data, k - 1) % 4 * 256 + At(data, k)
    case _ => acc % 4096 == At(data, k - 1) % 16 * 256 + At(data, k)
  }

  lemma Feed(acc: nat, bits: nat, data: seq<byte>, k: nat)
    requires k < |data| && Collected(acc, bits, data, k)
    ensures bits == 2 * (k % 3) && Fed(acc * 256 % 0x1_0000_0000 + data[k], data, k)
  {
    ShiftByte(acc);
    var x := acc * 256 % 0x1_0000_0000;
    match k % 3
    case 0 => AddLow(x, data[k], 256, 0, 256);
    case 1 => AddLow(x, data[k], 1024, acc % 4, 256);
    case _ => AddLow(x, data[k], 4096, acc % 16, 256);
  }

  lemma AddLow(x: nat, b: nat, d: nat, t: nat, e: nat)
    requires 0 < d && x % d == t * e && t * e + b < d
    ensures (x + b) % d == t * e + b
  {
    ModUnique(x + b, d, x / d, t * e + b);
  }

  lemma Emit(acc: nat, data: seq<byte>, k: nat, j: nat)
    requires k < |data| && Fed(acc, data, k)
    requires k / 3 * 4 + k % 3 <= j && 6 * (j + 1) <= 8 * (k + 1)
    ensures j < Sextets(|data|)
    ensures Shr(acc, 8 * (k + 1) - 6 * (j + 1)) % 64 == Sextet(data, j)
  {
    hide Sextet, Shr;
    var q := k / 3;
    SextetsOf(data, q);
    ShiftRight(acc);
    DivMod(acc, 4, 64);
    DivMod(acc, 16, 64);
    DivMod(acc, 64, 64);
    ModMod(acc, 64, 64);
    assert k % 3 == 0 ==> j == 4 * q;
    assert k % 3 == 1 ==> j == 4 * q + 1;
    assert k % 3 == 2 ==> j == 4 * q + 2 || j == 4 * q + 3;
  }

  lemma Fill(acc: nat, bits: nat, data: seq<byte>)
    requires Collected(acc, bits, data, |data|) && bits > 0
    ensures bits < 6 && Shl(acc, 6 - bits) % 0x1_0000_0000 % 64 == Sextet(data, Sextets(|data|) - 1)
  {
    hide Sextet, Shl;
    SextetsOf(data, |data| / 3);
    ShlTwo(acc);
    ShiftRest(acc);
  }

  lemma ShlTwo(v: nat)
    ensures Shl(v, 2) == 4 * v && Shl(v, 4) == 16 * v
  {
    assert Shl(v, 1) == 2 * v;
    assert Shl(v, 3) == 2 * Shl(v, 2);
  }

  /** How far the printer writes; the two assertions at its end compare this with the size of the text. */
  method Encode(data: seq<byte>) returns (r: Result<seq<byte>>, outpos: nat)
    ensures r == if |data| > MAX_SIZE / 4 * 3 then Err(TooLong) else Ok(Encoded(data))
    ensures r.Ok? ==> outpos == Sextets(|data|)
  {
    hide Letter, Sextet, Shr, Shl, Fed, Collected;
    outpos := 0;
    if |data| > MAX_SIZE / 4 * 3 {
      return Err(TooLong), 0;
    }
    var text := new byte[Size(|data|)](_ => PAD);
    var bits: nat, acc: nat := 0, 0;
    assert Collected(acc, bits, data, 0) by { CollectedNone(acc, data); }
    for k := 0 to |data|
      invariant Collected(acc, bits, data, k)
      invariant outpos == k / 3 * 4 + k % 3
      invariant forall j :: 0 <= j < outpos ==> text[j] == Letter(Sextet(data, j))
      invariant forall j :: outpos <= j < text.Length ==> text[j] == PAD
    {
      Feed(acc, bits, data, k);
      acc := acc * 256 % 0x1_0000_0000 + data[k];
      bits := bits + 8;
      while bits >= 6
        invariant k / 3 * 4 + k % 3 <= outpos && bits == 8 * (k + 1) - 6 * outpos
        invariant forall j :: 0 <= j < outpos ==> text[j] == Letter(Sextet(data, j))
        invariant forall j :: outpos <= j < text.Length ==> text[j] == PAD
      {
        bits := bits - 6;
        Emit(acc, data, k, outpos);
        text[outpos] := Letter(Shr(acc, bits) % 64);
        outpos := outpos + 1;
      }
      Left(acc, bits, data, k, outpos);
    }
    Ends(acc, bits, data);
    if bits > 0 {
      Fill(acc, bits, data);
      acc := Shl(acc, 6 - bits) % 0x1_0000_0000;
      text[outpos] := Letter(acc % 64);
      outpos := outpos + 1;
    }
    assert outpos == Sextets(|data|);
    assert text[..] == Encoded(data);
    r := Ok(text[..]);
  }

  lemma Ends(acc: nat, bits: nat, data: seq<byte>)
    requires Collected(acc, bits, data, |data|)
    ensures |data| / 3 * 4 + |data| % 3 == if bits > 0 then Sextets(|data|) - 1 else Sextets(|data|)
    ensures Sextets(|data|) <= Size(|data|)
  {
  }

  lemma CollectedNone(acc: nat, data: seq<byte>)
    ensures Collected(acc, 0, data, 0)
  {
  }

  lemma Left(acc: nat, bits: nat, data: seq<byte>, k: nat, outpos: nat)
    requires k < |data| && Fed(acc, data, k) && bits < 6
    requires k / 3 * 4 + k % 3 <= outpos && bits == 8 * (k + 1) - 6 * outpos
    ensures Collected(acc, bits, data, k + 1) && outpos == (k + 1) / 3 * 4 + (k + 1) % 3
  {
    ModMod(acc, 4, 64);
    ModMod(acc, 16, 64);
    match k % 3
    case 0 => assert (k + 1) % 3 == 1;
    case 1 => assert (k + 1) % 3 == 2;
    case _ => assert (k + 1) % 3 == 0;
  }

  /** The first assertion compares with a size_t two below the size of the text, which is 0 for no data. */
  lemma EndAssertions(n: nat)
    requires n <= MAX_SIZE / 4 * 3
    ensures Sextets(n) >= (Size(n) - 2) % (MAX_SIZE + 1) <==> n > 0
    ensures Sextets(n) <= Size(n) <= MAX_SIZE
  {
    if n > 0 {
      assert 0 <= Size(n) - 2 < MAX_SIZE;
    }
  }

  /** The accumulator after the letters s: the low bits are those that are not in a byte yet. */
  predicate Kept(acc: nat, bits: nat, s: seq<nat>) {
    match |s| % 4
    case 0 => bits == 0
    case 1 => bits == 6 && acc % 64 == s[|s| - 1]
    case 2 => bits == 4 && acc % 16 == s[|s| - 1] % 16
    case _ => bits == 2 && acc % 4 == s[|s| - 1] % 4
  }

  method Decode(text: seq<byte>) returns (r: Result<seq<nat>>)
    ensures r == Decoded(text)
    ensures r.Ok? ==> forall i :: 0 <= i < |r.value| ==> r.value[i] < 256
  {
    hide Values, Octet, Octets, Kept, Shr, Value;
    var out: seq<nat> := [];
    var bits: nat, acc: nat := 0, 0;
    KeptNone(acc);
    for i := 0 to |text|
      invariant Readable(text[..i])
      invariant out == Octets(Values(text[..i])) && Kept(acc, bits, Values(text[..i]))
      invariant forall n :: 0 <= n < |out| ==> out[n] < 256
    {
      var c := text[i];
      ReadableSnoc(text[..i], c);
      assert text[..i + 1] == text[..i] + [c];
      if Skipped(c) {
        continue;
      }
      if c > 127 || Value(c) > 63 {
        assert !Readable(text) by { assert !(Skipped(text[i]) || Legal(text[i])); }
        return Err(IllegalCharacter);
      }
      Accept(acc, bits, Values(text[..i]), Value(c));
      acc := acc * 64 % 0x1_0000_0000 + Value(c);
      bits := bits + 6;
      if bits >= 8 {
        bits := bits - 8;
        out := out + [Shr(acc, bits) % 256];
      }
    }
    assert text[..|text|] == text;
    r := Ok(out);
  }

  lemma KeptNone(acc: nat)
    ensures Values([]) == [] && Octets([]) == [] && Kept(acc, 0, [])
  {
  }

  lemma AcceptKept(acc: nat, bits: nat, s: seq<nat>, v: nat)
    requires Kept(acc, bits, s) && v < 64
    ensures bits + 6 < 8 <==> |s| % 4 == 0
    ensures Kept(acc * 64 % 0x1_0000_0000 + v, if bits + 6 < 8 then bits + 6 else bits - 2, s + [v])
  {
    Accumulate(acc, v);
    assert (|s| + 1) % 4 == if |s| % 4 == 3 then 0 else |s| % 4 + 1;
  }

  lemma AcceptOctet(acc: nat, bits: nat, s: seq<nat>, v: nat)
    requires Kept(acc, bits, s) && SixBits(s) && v < 64 && |s| % 4 != 0
    ensures bits >= 2 && |s| * 3 / 4 < (|s| + 1) * 3 / 4
    ensures Shr(acc * 64 % 0x1_0000_0000 + v, bits - 2) % 256 == Octet(s + [v], |s| * 3 / 4)
  {
    hide Octet, Shr;
    Accumulate(acc, v);
    ShiftRight(acc * 64 % 0x1_0000_0000 + v);
    LastOctet(s, v);
  }

  /** One letter: a byte is complete unless the letter starts a group of four. */
  lemma Accept(acc: nat, bits: nat, s: seq<nat>, v: nat)
    requires Kept(acc, bits, s) && SixBits(s) && v < 64
    ensures var acc' := acc * 64 % 0x1_0000_0000 + v;
            if bits + 6 < 8 then Octets(s + [v]) == Octets(s) && Kept(acc', bits + 6, s + [v])
            else Octets(s + [v]) == Octets(s) + [Shr(acc', bits - 2) % 256] && Kept(acc', bits - 2, s + [v])
  {
    hide Octet, Shr, Octets, Kept;
    AcceptKept(acc, bits, s, v);
    OctetsSnoc(s, v);
    if |s| % 4 != 0 { AcceptOctet(acc, bits, s, v); }
  }

  lemma LastOctet(s: seq<nat>, v: nat)
    requires |s| % 4 != 0
    ensures |s| * 3 / 4 < (|s| + 1) * 3 / 4
    ensures Octet(s + [v], |s| * 3 / 4) == match |s| % 4
                                           case 1 => s[|s| - 1] * 4 + v / 16
                                           case 2 => s[|s| - 1] % 16 * 16 + v / 4
                                           case _ => s[|s| - 1] % 4 * 64 + v
  {
    hide Octet;
    var q := |s| / 4;
    OctetsOf(s + [v], q);
    assert |s| == 4 * q + |s| % 4 && |s| * 3 / 4 == 3 * q + |s| % 4 - 1;
  }

  lemma Accumulate(acc: nat, v: nat)
    requires v < 64
    ensures var acc' := acc * 64 % 0x1_0000_0000 + v;
            && acc' / 16 % 256 == acc % 64 * 4 + v / 16 && acc' % 16 == v % 16
            && acc' / 4 % 256 == acc % 16 * 16 + v / 4 && acc' % 4 == v % 4
            && acc' % 256 == acc % 4 * 64 + v && acc' % 64 == v
  {
    var x := acc * 64 % 0x1_0000_0000;
    ShiftSextet(acc);
    DivMod(x + v, 16, 256);
    DivMod(x + v, 4, 256);
    ModMod(x + v, 16, 4);
    ModMod(x + v, 4, 16);
    AddLow(x, v, 64, 0, 64);
    AddLow(x, v, 4096, acc % 64, 64);
    AddLow(x, v, 1024, acc % 16, 64);
    AddLow(x, v, 256, acc % 4, 64);
  }

  lemma OctetsSnoc(s: seq<nat>, v: nat)
    ensures |s| % 4 == 0 ==> Octets(s + [v]) == Octets(s)
    ensures |s| % 4 != 0 ==> |s| * 3 / 4 < (|s| + 1) * 3 / 4
    ensures |s| % 4 != 0 ==> Octets(s + [v]) == Octets(s) + [Octet(s + [v], |s| * 3 / 4)]
  {
    var t := s + [v];
    forall k: nat | k < |s| * 3 / 4 ensures Octet(t, k) == Octet(s, k) {
      OctetsOf(s, k / 3);
      OctetsOf(t, k / 3);
    }
  }
}
