/** The decompressor's bit buffer in front of the input of the current call.  The bits of later calls
    are a ghost: nothing that is read depends on how the input is cut up. */
module BitReaders {
  import opened Bits
  import opened Canonical
  import opened DecodeTable
  import opened HuffTables

  const BIT_BUF_SIZE := 64

  lemma NextByte(s: seq<byte>, i: nat)
    requires i < |s|
    ensures BytesToBits(s[i..]) == ToBits(s[i], 8) + BytesToBits(s[i + 1..])
  {
    assert s[i..] == [s[i]] + s[i + 1..];
  }

  lemma ShiftIn(a: seq<bool>, b: seq<bool>, c: seq<bool>, d: seq<bool>)
    ensures a + ((b + c) + d) == (a + b) + (c + d)
  {
  }

  class BitReader {
    var input: seq<byte>
    var pos: nat
    /** The caller has said that more input follows that of this call. */
    var more: bool
    var bitBuf: nat
    var numBits: nat
    ghost var future: seq<bool>

    constructor (ghost stream: seq<bool>)
      requires |stream| % 8 == 0
      ensures Valid() && Starved() && input == [] && pos == numBits == 0 && future == stream && Bits() == stream
    {
      input, pos, more, bitBuf, numBits := [], 0, true, 0, 0;
      future := stream;
    }

    ghost predicate Valid()
      reads this
    {
      && pos <= |input|
      && bitBuf < Pow2(numBits) && numBits < BIT_BUF_SIZE
      && |future| % 8 == 0 && (!more ==> future == [])
    }

    /** What is still to come from the input, now and in later calls. */
    ghost function Unread(): seq<bool>
      requires pos <= |input|
      reads this
    {
      BytesToBits(input[pos..]) + future
    }

    /** All the bits still to come. */
    ghost function Bits(): seq<bool>
      requires pos <= |input|
      reads this
    {
      ToBits(bitBuf, numBits) + Unread()
    }

    /** The input of this call is used up, and there will be another call. */
    predicate Starved()
      reads this
    {
      pos == |input| && more
    }

    lemma Bounds()
      requires Valid()
      ensures pos <= |input|
    {
    }

    /** The input comes in whole bytes. */
    lemma Parity()
      requires Valid()
      ensures |Bits()| % 8 == numBits % 8
    {
    }

    lemma LastBits()
      requires Valid()
      ensures pos == |input| && !more ==> Bits() == ToBits(bitBuf, numBits)
    {
      if pos == |input| {
        assert input[pos..] == [];
      }
    }

    /** Starts a call, with what the last one left of its input and more behind it. */
    method Supply(chunk: seq<byte>, hasMore: bool, ghost rest: seq<bool>)
      requires Valid() && (!hasMore ==> rest == [])
      requires BytesToBits(chunk) + rest == Unread()
      modifies this`input, this`pos, this`more, this`future
      ensures Valid() && Bits() == old(Bits()) && input == chunk && pos == 0 && more == hasMore && future == rest
    {
      assert |BytesToBits(chunk) + rest| == 8 * |chunk| + |rest|;
      input, pos, more := chunk, 0, hasMore;
      future := rest;
      assert input[pos..] == chunk;
    }

    method LoadByte()
      requires Valid() && pos < |input| && numBits + 8 < BIT_BUF_SIZE
      modifies this`pos, this`bitBuf, this`numBits
      ensures Valid() && Bits() == old(Bits()) && numBits == old(numBits) + 8 && pos == old(pos) + 1
    {
      hide ToBits, BytesToBits, Shl, Or;
      var c := input[pos];
      assert Pow2(8) == 256;
      Append(bitBuf, numBits, c, 8);
      NextByte(input, pos);
      ShiftIn(ToBits(bitBuf, numBits), ToBits(c, 8), BytesToBits(input[pos + 1..]), future);
      bitBuf := Or(bitBuf, Shl(c, numBits));
      numBits, pos := numBits + 8, pos + 1;
    }

    method Drop(n: nat)
      requires Valid() && n <= numBits
      modifies this`bitBuf, this`numBits
      ensures Valid() && numBits == old(numBits) - n
      ensures old(Bits()) == ToBits(old(bitBuf) % Pow2(n), n) + Bits()
    {
      TakeLow(bitBuf, numBits, n);
      bitBuf := Shr(bitBuf, n);
      numBits := numBits - n;
    }

    /** At least n bits, if they are there. */
    method NeedBits(n: nat) returns (ok: bool)
      requires Valid() && n <= 16 && (!more ==> n <= |Bits()|)
      modifies this`pos, this`bitBuf, this`numBits
      ensures Valid() && Bits() == old(Bits())
      ensures if ok then numBits >= n else Starved() && |input| >= old(pos)
    {
      while numBits < n
        invariant Valid() && Bits() == old(Bits())
        decreases n - numBits
      {
        LastBits();
        if pos == |input| {
          if more {
            return false;
          }
          assert false;  // a stream that is complete never lacks the bits it asks for
        }
        LoadByte();
      }
      ok := true;
    }

    method GetBits(n: nat) returns (ok: bool, v: nat)
      requires Valid() && n <= 16 && (!more ==> n <= |Bits()|)
      modifies this`pos, this`bitBuf, this`numBits
      ensures Valid()
      ensures if ok then v < Pow2(n) && old(Bits()) == ToBits(v, n) + Bits()
              else Starved() && Bits() == old(Bits())
    {
      ok := NeedBits(n);
      v := 0;
      if ok {
        TakeLow(bitBuf, numBits, n);
        v := bitBuf % Pow2(n);
        Drop(n);
      }
    }

    /** A byte straight from the input, past an empty bit buffer. */
    method GetByte() returns (ok: bool, c: byte)
      requires Valid() && numBits == 0 && (!more ==> 8 <= |Bits()|)
      modifies this`pos
      ensures Valid()
      ensures if ok then old(Bits()) == ToBits(c, 8) + Bits() else Starved() && Bits() == old(Bits())
    {
      LastBits();
      if pos == |input| {
        return false, 0;
      }
      c := input[pos];
      assert input[pos..] == [c] + input[pos + 1..];
      pos := pos + 1;
      ok := true;
    }

    /** n bytes of the input at once, past an empty bit buffer. */
    method TakeBytes(n: nat) returns (s: seq<byte>)
      requires Valid() && numBits == 0 && pos + n <= |input|
      modifies this`pos
      ensures Valid() && |s| == n && old(Bits()) == BytesToBits(s) + Bits() && numBits == 0
    {
      s := input[pos..pos + n];
      assert input[pos..] == s + input[pos + n..];
      BytesToBitsConcat(s, input[pos + n..]);
      pos := pos + n;
    }

    /** Reads on, byte by byte, until the buffer holds the next code, or enough bits for any code. */
    method Fill(table: HuffTable, resume: bool, ghost sizes: seq<nat>, ghost k: nat) returns (ok: bool)
      requires Valid() && table.Valid() && table.Ready(sizes) && Fits(sizes)
      requires Used(sizes, k) && Code(sizes, k) <= Bits() && numBits < MAX_CODE_SIZE
      requires resume ==> numBits < sizes[k]
      modifies this`pos, this`bitBuf, this`numBits
      ensures Valid() && Bits() == old(Bits())
      ensures if ok then numBits >= sizes[k] else Starved() && numBits < sizes[k] && numBits < MAX_CODE_SIZE
    {
      var first := resume;
      while true
        invariant Valid() && Bits() == old(Bits()) && numBits < MAX_CODE_SIZE
        invariant first ==> numBits < sizes[k]
        decreases MAX_CODE_SIZE - numBits
      {
        LastBits();
        if !first {
          ok := table.HoldsCode(bitBuf, numBits, sizes, k, BytesToBits(input[pos..]) + future);
          if ok {
            return true;
          }
        }
        first := false;
        if pos == |input| {
          if more {
            return false;
          }
          assert false;  // a complete stream: all its bits are in the buffer, and so is the code
        }
        LoadByte();
        if numBits >= MAX_CODE_SIZE {
          return true;
        }
      }
    }

    /** Decodes the symbol k whose code comes next.  The raw table entry is returned; its nine low bits
        are the symbol. */
    method TakeCode(table: HuffTable, ghost sizes: seq<nat>, ghost k: nat) returns (raw: nat)
      requires Valid() && table.Valid() && table.Ready(sizes)
      requires Used(sizes, k) && Code(sizes, k) <= Bits() && sizes[k] <= numBits
      modifies this`bitBuf, this`numBits
      ensures Valid() && raw % 512 == k && old(Bits()) == Code(sizes, k) + Bits()
      ensures numBits == old(numBits) - sizes[k]
    {
      ghost var c := Code(sizes, k);
      ghost var b := ToBits(bitBuf, numBits);
      assert c == Bits()[..|c|] == b[..|c|];
      var codeLen;
      raw, codeLen := table.Decode(bitBuf, sizes, k, numBits);
      ToBitsPrefix(bitBuf, codeLen, numBits);
      LowMod(bitBuf, codeLen);
      Drop(codeLen);
    }

    /** TINFL_HUFF_DECODE: refill the buffer if it is low, then decode a symbol. */
    method DecodeSym(table: HuffTable, resume: bool, ghost sizes: seq<nat>, ghost k: nat) returns (ok: bool, sym: nat)
      requires Valid() && table.Valid() && table.Ready(sizes) && Fits(sizes)
      requires Used(sizes, k) && Code(sizes, k) <= Bits()
      requires resume ==> numBits < sizes[k] && numBits < MAX_CODE_SIZE
      modifies this`pos, this`bitBuf, this`numBits
      ensures Valid()
      ensures if ok then sym == k && old(Bits()) == Code(sizes, k) + Bits()
              else Starved() && Bits() == old(Bits()) && numBits < sizes[k] && numBits < MAX_CODE_SIZE
    {
      ok, sym := true, 0;
      if numBits < MAX_CODE_SIZE {
        if resume || |input| - pos < 2 {
          ok := Fill(table, resume, sizes, k);
        } else {
          LoadByte();
          LoadByte();
        }
      }
      if ok {
        var raw := TakeCode(table, sizes, k);
        sym := raw % 512;
      }
    }

    /** The fast path's refill: four bytes at once. */
    method LoadFour()
      requires Valid() && pos + 4 <= |input| && numBits < 30
      modifies this`pos, this`bitBuf, this`numBits
      ensures Valid() && Bits() == old(Bits()) && numBits == old(numBits) + 32 && pos == old(pos) + 4
    {
      LoadByte();
      LoadByte();
      LoadByte();
      LoadByte();
    }
  }
}
