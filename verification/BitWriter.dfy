/** The compressor's bit writer (`TDEFL_PUT_BITS`): bits collect in a 32-bit buffer, low bit first,
    and leave it as bytes, which are dropped once the output buffer is full. */
module BitWriter {
  import opened Bits

  /** Nothing has been dropped while the output is not full: the bytes written and the bits still
      in the buffer are exactly the bits put. */
  ghost predicate Written(out: seq<u8>, pos: nat, buffer: nat, bitsIn: nat, sent: seq<bool>)
  {
    pos <= |out| && BytesBits(out[..pos]) + ToBits(buffer, bitsIn) == sent
  }

  /** The writer's part of the compressor; `end` is `m_pOutput_buf_end`. */
  class Writer {
    const out: array<u8>
    const end: nat
    var pos: nat
    var buffer: u32
    var bitsIn: nat
    ghost var sent: seq<bool>
    ghost var kept: seq<u8> // bytes that must not change any more

    ghost predicate Valid()
      reads this, out
    {
      && Shape() && bitsIn < 8
    }

    /** What also holds while whole bytes wait in the bit buffer. */
    ghost predicate Shape()
      reads this, out
    {
      && pos <= end <= out.Length && buffer < Pow2(bitsIn) && |sent| % 8 == bitsIn % 8
      && |kept| <= pos && out[..|kept|] == kept && (pos == end ==> |sent| >= 8 * end)
      && (pos < end ==> Written(out[..], pos, buffer, bitsIn, sent))
    }

    constructor (out: array<u8>, end: nat)
      requires end <= out.Length
      ensures Valid() && this.out == out && this.end == end && pos == 0 && bitsIn == 0 && sent == [] && kept == []
    {
      this.out, this.end := out, end;
      pos, buffer, bitsIn := 0, 0, 0;
      sent, kept := [], [];
    }

    method PutBits(bits: nat, len: nat)
      requires Valid() && len <= 16 && bits < Pow2(len)
      modifies this`pos, this`buffer, this`bitsIn, this`sent, out
      ensures Valid() && sent == old(sent) + ToBits(bits, len) && old(pos) <= pos
    {
      hide ToBits, Pow2, Or, Written;
      EnterBits(bits, len);
      while bitsIn >= 8
        invariant Shape() && old(pos) <= pos && sent == old(sent) + ToBits(bits, len)
        decreases bitsIn
      {
        FlushByte();
      }
    }

    /** New bits go above those in the buffer. */
    method EnterBits(bits: nat, len: nat)
      requires Valid() && len <= 16 && bits < Pow2(len)
      modifies this`buffer, this`bitsIn, this`sent
      ensures Shape() && sent == old(sent) + ToBits(bits, len)
    {
      hide ToBits, Pow2, Or, Written;
      PutWord(buffer, bitsIn, bits, len);
      if pos < end { PutWritten(out[..], pos, buffer, bitsIn, sent, bits, len); }
      SameRemainder(|sent|, bitsIn, len);
      var shifted := (bits * Pow2(bitsIn)) % 0x1_0000_0000;
      buffer := Or(buffer, shifted);
      bitsIn := bitsIn + len;
      sent := sent + ToBits(bits, len);
    }

    /** As long as the output is not full nothing is lost; and it is full only if that many bits came. */
    lemma Complete()
      requires Valid()
      ensures pos < end ==> Written(out[..], pos, buffer, bitsIn, sent)
      ensures |sent| < 8 * end ==> pos < end
    {}

    /** Only whole bytes leave the bit buffer. */
    lemma Remainder()
      requires Valid()
      ensures bitsIn == |sent| % 8
    {}

    /** No more bytes than bits have come for. */
    lemma Sized()
      requires Valid()
      ensures 8 * pos <= |sent|
    {
      hide ToBits, BytesBits, Pow2;
    }

    /** The next output buffer: bits that do not fill a byte stay where they are. */
    method Restart()
      requires Valid() && end > 0
      modifies this`pos, this`sent, this`kept
      ensures Valid() && pos == 0 && kept == [] && sent == ToBits(buffer, bitsIn) && buffer == old(buffer) && bitsIn == old(bitsIn)
    {
      pos := 0;
      kept := [];
      sent := ToBits(buffer, bitsIn);
    }

    /** The bytes written so far will be needed again. */
    method Mark()
      requires Valid() && pos < end
      modifies this`kept
      ensures Valid() && |kept| == pos && sent == BytesBits(kept) + ToBits(buffer, bitsIn)
    {
      kept := out[..pos];
    }

    /** Back to a position that was marked. */
    method Rollback(pos0: nat, buffer0: u32, bitsIn0: nat)
      requires Valid() && |kept| == pos0 < end && bitsIn0 < 8 && buffer0 < Pow2(bitsIn0)
      modifies this`pos, this`buffer, this`bitsIn, this`sent
      ensures Valid() && pos == pos0 && sent == BytesBits(kept) + ToBits(buffer0, bitsIn0) && buffer == buffer0 && bitsIn == bitsIn0
    {
      pos, buffer, bitsIn := pos0, buffer0, bitsIn0;
      sent := BytesBits(kept) + ToBits(buffer0, bitsIn0);
    }

    /** Zeros up to the next byte. */
    method Align()
      requires Valid()
      modifies this`pos, this`buffer, this`bitsIn, this`sent, out
      ensures Valid() && bitsIn == 0 && old(pos) <= pos && sent == old(sent) + Padding(|old(sent)|)
    {
      hide ToBits, Pow2, Written;
      NoPadding();
      if bitsIn != 0 {
        ZeroFits(8 - bitsIn);
        PutBits(0, 8 - bitsIn);
      } else {
        assert sent + [] == sent;
      }
    }

    /** The body of the loop that empties the bit buffer. */
    method FlushByte()
      requires Shape() && bitsIn >= 8
      modifies this`pos, this`buffer, this`bitsIn, out
      ensures Shape() && bitsIn == old(bitsIn) - 8 && old(pos) <= pos
    {
      hide ToBits, Pow2, BytesBits;
      ghost var s := out[..];
      DropByte(buffer, bitsIn);
      if pos < end {
        var low: u8 := buffer % 256;
        MoveByte(s, pos, buffer, bitsIn, sent);
        out[pos] := low;
        assert out[..] == s[pos := low];
        pos := pos + 1;
      }
      buffer := buffer / 256;
      bitsIn := bitsIn - 8;
    }
  }

  /** The zeros that fill a byte behind `n` bits. */
  function Padding(n: nat): (p: seq<bool>)
    ensures (n + |p|) % 8 == 0 && |p| < 8
  {
    ToBits(0, (8 - n % 8) % 8)
  }

  lemma NoPadding()
    ensures ToBits(0, 0) == []
  {}

  lemma ZeroFits(n: nat)
    ensures 0 < Pow2(n)
  {}

  /** The shift and the `|` of the macro neither overflow nor overlap. */
  lemma PutWord(buffer: nat, bitsIn: nat, bits: nat, len: nat)
    requires bitsIn < 8 && len <= 16 && buffer < Pow2(bitsIn) && bits < Pow2(len)
    ensures (bits * Pow2(bitsIn)) % 0x1_0000_0000 == bits * Pow2(bitsIn)
    ensures Or(buffer, bits * Pow2(bitsIn)) == buffer + bits * Pow2(bitsIn) < Pow2(bitsIn + len) <= 0x80_0000
  {
    hide Pow2, Or;
    PutFits(buffer, bitsIn, bits, len);
    OrShifted(buffer, bits, bitsIn);
    SmallMod(bits * Pow2(bitsIn), 0x1_0000_0000);
  }

  lemma PutWritten(s: seq<u8>, pos: nat, buffer: nat, bitsIn: nat, sent: seq<bool>, bits: nat, len: nat)
    requires Written(s, pos, buffer, bitsIn, sent) && bitsIn < 8 && len <= 16 && buffer < Pow2(bitsIn) && bits < Pow2(len)
    ensures Written(s, pos, Or(buffer, bits * Pow2(bitsIn)), bitsIn + len, sent + ToBits(bits, len))
  {
    hide Pow2, Or, ToBits, BytesBits;
    PutWord(buffer, bitsIn, bits, len);
    ToBitsAppend(buffer, bitsIn, bits, len);
    var a, b := ToBits(buffer, bitsIn), ToBits(bits, len);
    assert BytesBits(s[..pos]) + (a + b) == (BytesBits(s[..pos]) + a) + b;
  }

  lemma SameRemainder(x: nat, y: nat, n: nat)
    requires x % 8 == y % 8
    ensures (x + n) % 8 == (y + n) % 8
  {}

  lemma PutFits(buffer: nat, bitsIn: nat, bits: nat, len: nat)
    requires bitsIn < 8 && len <= 16 && buffer < Pow2(bitsIn) && bits < Pow2(len)
    ensures buffer + bits * Pow2(bitsIn) < Pow2(bitsIn + len) <= 0x80_0000
  {
    Pow2Add(len, bitsIn);
    MulMono(bits + 1, Pow2(len), Pow2(bitsIn));
    MulAdd(bits, 1, Pow2(bitsIn));
    Pow2Mono(bitsIn + len, 23);
    Pow2Add(8, 15);
    assert Pow2(8) == 256 && Pow2(15) == 0x8000;
  }

  lemma DropByte(buffer: nat, bitsIn: nat)
    requires bitsIn >= 8 && buffer < Pow2(bitsIn)
    ensures buffer / 256 < Pow2(bitsIn - 8)
  {
    Pow2Add(8, bitsIn - 8);
    assert Pow2(8) == 256;
  }

  /** One byte goes from the bit buffer to the output. */
  lemma MoveByte(s: seq<u8>, pos: nat, buffer: nat, bitsIn: nat, sent: seq<bool>)
    requires Written(s, pos, buffer, bitsIn, sent) && bitsIn >= 8 && pos < |s|
    ensures var low: u8 := buffer % 256; Written(s[pos := low], pos + 1, buffer / 256, bitsIn - 8, sent)
  {
    hide ToBits, Pow2;
    var low: u8 := buffer % 256;
    var s' := s[pos := low];
    assert s'[..pos + 1][..pos] == s[..pos];
    ToBitsPrefix(buffer, bitsIn, 8);
    ByteBits(buffer);
    var b := ToBits(buffer, bitsIn);
    assert b == b[..8] + b[8..];
    assert BytesBits(s[..pos]) + (b[..8] + b[8..]) == (BytesBits(s[..pos]) + b[..8]) + b[8..];
  }

  lemma ByteBits(buffer: nat)
    ensures ToBits(buffer % 256, 8) == ToBits(buffer, 8) && Shr(buffer, 8) == buffer / 256
  {
    ToBitsMod(buffer, 8);
    assert Pow2(8) == 256;
  }
}
