/** The compressor's bit buffer in front of its output buffer.  A byte for which there is no room is
    dropped without a word; a buffer that is not full afterwards has dropped nothing. */
module BitWriters {
  import opened Bits

  const OUT_BUF_SIZE := 85196

  class BitWriter {
    const out: array<byte>
    var pos: nat
    var end: nat
    var bitBuffer: nat
    var bitsIn: nat
    /** The bytes completed since the output buffer was last empty, dropped or not. */
    ghost var bytes: seq<byte>

    constructor ()
      ensures Valid() && Put() == [] && bytes == [] && fresh(out)
    {
      out := new byte[OUT_BUF_SIZE];
      pos, end, bitBuffer, bitsIn := 0, 0, 0, 0;
      bytes := [];
    }

    ghost predicate Valid()
      reads this, out
    {
      && out.Length == OUT_BUF_SIZE && pos <= end <= out.Length
      && bitsIn < 8 && bitBuffer < Pow2(bitsIn)
      && pos <= |bytes| && out[..pos] == bytes[..pos]
      && (pos < |bytes| ==> pos == end)
    }

    /** All the bits put since the output buffer was last empty, after the few that were left over then. */
    ghost function Put(): seq<bool>
      reads this
    {
      BytesToBits(bytes) + ToBits(bitBuffer, bitsIn)
    }

    /** Nothing has been dropped. */
    ghost predicate Intact()
      reads this
    {
      pos == |bytes|
    }

    /** Empties the output buffer, and leaves some room at its end unused. */
    method Start(margin: nat)
      requires Valid() && margin <= OUT_BUF_SIZE
      modifies this`pos, this`end, this`bytes
      ensures Valid() && bytes == [] && pos == 0 && end == OUT_BUF_SIZE - margin && Put() == ToBits(bitBuffer, bitsIn)
    {
      pos, end := 0, out.Length - margin;
      bytes := [];
    }

    /** One whole byte, from the bits that wait. */
    method PutByte(b: byte)
      requires out.Length == OUT_BUF_SIZE && pos <= end <= out.Length
      requires pos <= |bytes| && out[..pos] == bytes[..pos] && (pos < |bytes| ==> pos == end)
      modifies this`pos, this`bytes, out
      ensures pos <= end && pos <= |bytes| && out[..pos] == bytes[..pos] && (pos < |bytes| ==> pos == end)
      ensures bytes == old(bytes) + [b] && old(pos) <= pos
      ensures old(pos == |bytes| < end) ==> pos == |bytes|
    {
      if pos < end {
        out[pos] := b;
        pos := pos + 1;
      }
      bytes := bytes + [b];
    }

    /** TDEFL_PUT_BITS: appends the len low bits of bits. */
    method PutBits(bits: nat, len: nat)
      requires Valid() && bits < Pow2(len) && len <= 16
      modifies this`pos, this`bitBuffer, this`bitsIn, this`bytes, out
      ensures Valid() && Put() == old(Put()) + ToBits(bits, len)
      ensures old(bytes) <= bytes
      ensures 8 * |bytes| + bitsIn == 8 * old(|bytes|) + old(bitsIn) + len
    {
      hide ToBits, BytesToBits, Or, Shl;
      ghost var goal := Put() + ToBits(bits, len);
      Append(bitBuffer, bitsIn, bits, len);
      SnocBits(BytesToBits(bytes), ToBits(bitBuffer, bitsIn), ToBits(bits, len));
      bitBuffer := Or(bitBuffer, Shl(bits, bitsIn));
      bitsIn := bitsIn + len;
      while bitsIn >= 8
        invariant pos <= end <= out.Length == OUT_BUF_SIZE
        invariant pos <= |bytes| && out[..pos] == bytes[..pos] && (pos < |bytes| ==> pos == end)
        invariant bitBuffer < Pow2(bitsIn) && Put() == goal && old(bytes) <= bytes
        invariant 8 * |bytes| + bitsIn == 8 * old(|bytes|) + old(bitsIn) + len
      {
        TakeByte(bitBuffer, bitsIn, bytes);
        PutByte(bitBuffer % 256);
        bitBuffer := bitBuffer / 256;
        bitsIn := bitsIn - 8;
      }
    }

    /** Goes back to where the writer was when it had put the bytes given, and forgets the rest. */
    method Rewind(savedPos: nat, savedBuffer: nat, savedIn: nat, ghost saved: seq<byte>)
      requires Valid() && saved <= bytes && savedPos == |saved| <= pos && savedIn < 8 && savedBuffer < Pow2(savedIn)
      modifies this`pos, this`bitBuffer, this`bitsIn, this`bytes
      ensures Valid() && Intact() && bytes == saved && Put() == BytesToBits(saved) + ToBits(savedBuffer, savedIn)
    {
      pos, bitBuffer, bitsIn := savedPos, savedBuffer, savedIn;
      bytes := saved;
      assert out[..savedPos] == old(out[..pos])[..savedPos];
    }

    lemma Bounds()
      requires Valid()
      ensures pos <= end && pos <= |bytes| && (|bytes| < end ==> pos == |bytes|)
    {
    }

    lemma Fraction()
      requires Valid()
      ensures bitsIn < 8 && |Put()| == 8 * |bytes| + bitsIn && |Put()| % 8 == bitsIn && bitBuffer < Pow2(bitsIn)
    {
    }

    /** A buffer that is not full has dropped nothing, and one with room for all the bytes is not. */
    lemma NotFull()
      requires Valid()
      ensures pos < end ==> Intact()
      ensures |bytes| <= end ==> Intact()
      ensures Intact() ==> out[..pos] == bytes && |bytes| <= end
    {
    }
  }

  lemma SnocBits(a: seq<bool>, b: seq<bool>, c: seq<bool>)
    ensures (a + b) + c == a + (b + c)
  {
  }

  /** Eight of the waiting bits make a byte. */
  lemma TakeByte(buf: nat, num: nat, bytes: seq<byte>)
    requires buf < Pow2(num) && num >= 8
    ensures buf / 256 < Pow2(num - 8)
    ensures BytesToBits(bytes) + ToBits(buf, num) == BytesToBits(bytes + [buf % 256]) + ToBits(buf / 256, num - 8)
  {
    assert Pow2(8) == 256;
    TakeLow(buf, num, 8);
    ShrByte(buf);
    BytesToBitsConcat(bytes, [buf % 256]);
    assert BytesToBits([buf % 256]) == ToBits(buf % 256, 8);
  }

  lemma ShrByte(v: nat)
    ensures Shr(v, 8) == v / 256
  {
    hide Shr;
    ShrTwo(v, 6);
    ShrTwo(v / 4, 4);
    ShrTwo(v / 16, 2);
    ShrTwo(v / 64, 0);
    ShrNothing(v / 256);
  }

}
