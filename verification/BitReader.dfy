/** The decompressor's bit reader: bytes enter a 64-bit buffer above the bits that are still in it,
    and bits leave it from below (`TINFL_GET_BYTE`, `TINFL_NEED_BITS`, `TINFL_GET_BITS`). */
module BitReader {
  import opened Bits

  /** The buffer holds the bits from position `pos` up to the end of byte `cur - 1`. */
  ghost predicate Buffered(input: seq<u8>, cur: nat, bitBuf: nat, numBits: nat)
  {
    && cur <= |input| && numBits <= 8 * cur
    && bitBuf == FromBits(BytesBits(input)[8 * cur - numBits..8 * cur])
  }

  /** Why the decompressor returns; `Go` is internal: no reason yet. */
  datatype Status = Go | Done | NeedInput | NeedOutput | Failed

  /** The reader's part of the decompressor. `input` is all that the callers have handed over;
      `start` is where the present call's piece of it begins. */
  class Reader {
    var input: seq<u8>
    var start: nat
    var cur: nat
    var bitBuf: nat
    var numBits: nat

    ghost predicate Valid()
      reads this
    {
      start <= cur && numBits <= 64 && Buffered(input, cur, bitBuf, numBits)
    }

    /** How many bits have been consumed. */
    ghost function Pos(): nat
      requires Valid()
      reads this
    {
      8 * cur - numBits
    }

    /** The bits not consumed yet. */
    ghost function Rest(): seq<bool>
      requires Valid()
      reads this
    {
      BytesBits(input)[8 * cur - numBits..]
    }

    /** No whole byte of an earlier call's input is in the buffer. */
    ghost predicate Own()
      reads this
    {
      numBits < 8 * (cur - start) + 8
    }

    constructor (input: seq<u8>)
      ensures Valid() && Pos() == 0 && this.input == input && numBits == 0 && start == cur == 0
    {
      this.input, start, cur, bitBuf, numBits := input, 0, 0, 0, 0;
    }

    /** Another call with more input. */
    method Feed(more: seq<u8>)
      requires Valid()
      modifies this
      ensures Valid() && Pos() == old(Pos()) && input == old(input) + more && start == cur == old(cur)
      ensures Rest() == old(Rest()) + BytesBits(more) && numBits == old(numBits)
    {
      hide FromBits, BytesBits;
      BytesBitsAppend(input, more);
      ghost var a, b := BytesBits(input), BytesBits(more);
      assert (a + b)[8 * cur - numBits..8 * cur] == a[8 * cur - numBits..8 * cur];
      assert (a + b)[8 * cur - numBits..] == a[8 * cur - numBits..] + b;
      input := input + more;
      start := cur;
    }

    /** Moves a byte of the input into the buffer. */
    method TakeByte()
      requires Valid() && cur < |input| && numBits <= 56
      modifies this`cur, this`bitBuf, this`numBits
      ensures Valid() && Rest() == old(Rest()) && Pos() == old(Pos())
      ensures numBits == old(numBits) + 8 && cur == old(cur) + 1
    {
      hide FromBits, BytesBits, Or, ToBits, Pow2;
      EnterByte(input, cur, bitBuf, numBits);
      bitBuf := Or(bitBuf, input[cur] * Pow2(numBits));
      cur := cur + 1;
      numBits := numBits + 8;
    }

    /** `bit_buf >>= n; num_bits -= n` */
    method Drop(n: nat)
      requires Valid() && n <= numBits
      modifies this`bitBuf, this`numBits
      ensures Valid() && numBits == old(numBits) - n && Pos() == old(Pos()) + n
      ensures n <= |old(Rest())| && Rest() == old(Rest())[n..]
    {
      hide FromBits, BytesBits, Pow2;
      DropBits(input, cur, bitBuf, numBits, n);
      bitBuf := bitBuf / Pow2(n);
      numBits := numBits - n;
    }

    /** Reads an `n`-bit number; without enough input it keeps all there is in the buffer. */
    method GetBits(n: nat) returns (ok: bool, v: nat)
      requires Valid() && n <= 16
      modifies this`cur, this`bitBuf, this`numBits
      ensures Valid() && (ok <==> n <= |old(Rest())|)
      ensures ok ==> v < Pow2(n) && ToBits(v, n) == old(Rest())[..n] && Rest() == old(Rest())[n..] && Pos() == old(Pos()) + n
      ensures !ok ==> v == 0 && Rest() == old(Rest()) && Pos() == old(Pos()) && cur == |input| && numBits < n
    {
      hide FromBits, BytesBits, ToBits, Pow2, Buffered;
      while numBits < n
        invariant Valid() && Rest() == old(Rest()) && Pos() == old(Pos())
        decreases 16 - numBits
      {
        RestLength(input, cur, bitBuf, numBits);
        if cur >= |input| {
          return false, 0;
        }
        TakeByte();
      }
      RestLength(input, cur, bitBuf, numBits);
      LowBits(input, cur, bitBuf, numBits, n);
      v := bitBuf % Pow2(n);
      ok := true;
      Drop(n);
    }

    /** Steps over bytes that are used without the bit buffer, which is empty. */
    method SkipBytes(n: nat)
      requires Valid() && numBits == 0 && cur + n <= |input|
      modifies this`cur
      ensures Valid() && Pos() == old(Pos()) + 8 * n && cur == old(cur) + n
      ensures 8 * n <= |old(Rest())| && Rest() == old(Rest())[8 * n..]
    {
      hide BytesBits;
      cur := cur + n;
    }

    /** At the end of a stream: back to a byte boundary, and whole bytes read ahead are handed back.
        Nothing is left in the buffer unless an earlier call's bytes are. */
    method Finish()
      requires Valid() && Own()
      modifies this`cur, this`bitBuf, this`numBits
      ensures Valid() && numBits == 0 && Pos() == old(Pos()) + old(numBits) % 8 && 8 * cur == Pos()
    {
      hide BytesBits, Buffered;
      Drop(numBits % 8);
      PutBack();
    }

    /** Hands back whole bytes that were read ahead, as far as this call's input goes. */
    method PutBack()
      requires Valid()
      modifies this`cur, this`bitBuf, this`numBits
      ensures Valid() && Rest() == old(Rest()) && Pos() == old(Pos()) && (numBits < 8 || cur == start)
      ensures numBits % 8 == old(numBits) % 8
    {
      hide FromBits, BytesBits, Pow2, Buffered;
      BufferedBasic(input, cur, bitBuf, numBits);
      var cur0, bits0 := cur, numBits;
      while cur > start && numBits >= 8
        invariant start <= cur <= cur0 && 0 <= numBits && bits0 - numBits == 8 * (cur0 - cur)
        invariant bitBuf == old(bitBuf)
        decreases cur
      {
        cur := cur - 1;
        numBits := numBits - 8;
      }
      SameMod(bits0, numBits, cur0 - cur);
      KeepLow(input, cur0, bitBuf, bits0, cur, numBits);
      bitBuf := bitBuf % Pow2(numBits);
    }
  }

  lemma EnterByte(input: seq<u8>, cur: nat, bitBuf: nat, numBits: nat)
    requires Buffered(input, cur, bitBuf, numBits) && cur < |input|
    ensures Buffered(input, cur + 1, Or(bitBuf, input[cur] * Pow2(numBits)), numBits + 8)
  {
    hide FromBits, BytesBits, Or, ToBits;
    var all, pos := BytesBits(input), 8 * cur - numBits;
    BytesBitsAt(input, cur);
    assert Pow2(8) == 256;
    hide Pow2;
    FromBitsOr(all[pos..8 * cur], input[cur], 8);
    assert all[pos..8 * cur + 8] == all[pos..8 * cur] + all[8 * cur..8 * cur + 8];
  }

  lemma DropBits(input: seq<u8>, cur: nat, bitBuf: nat, numBits: nat, n: nat)
    requires Buffered(input, cur, bitBuf, numBits) && n <= numBits
    ensures Buffered(input, cur, bitBuf / Pow2(n), numBits - n)
  {
    hide FromBits, BytesBits, Pow2;
    var all, pos := BytesBits(input), 8 * cur - numBits;
    FromBitsDivMod(all[pos..8 * cur], n);
    assert all[pos..8 * cur][n..] == all[pos + n..8 * cur];
  }

  lemma BufferedBasic(input: seq<u8>, cur: nat, bitBuf: nat, numBits: nat)
    requires Buffered(input, cur, bitBuf, numBits)
    ensures cur <= |input| && numBits <= 8 * cur
  {}

  lemma SameMod(a: nat, b: nat, k: nat)
    requires a - b == 8 * k
    ensures a % 8 == b % 8
  {}

  lemma KeepLow(input: seq<u8>, cur: nat, bitBuf: nat, numBits: nat, cur': nat, numBits': nat)
    requires Buffered(input, cur, bitBuf, numBits) && cur' <= cur && 8 * cur' - numBits' == 8 * cur - numBits
    ensures Buffered(input, cur', bitBuf % Pow2(numBits'), numBits')
  {
    hide FromBits, BytesBits, Pow2;
    var all, pos := BytesBits(input), 8 * cur - numBits;
    FromBitsDivMod(all[pos..8 * cur], numBits');
    assert all[pos..8 * cur][..numBits'] == all[pos..8 * cur'];
  }

  lemma RestLength(input: seq<u8>, cur: nat, bitBuf: nat, numBits: nat)
    requires Buffered(input, cur, bitBuf, numBits)
    ensures cur <= |input| && |BytesBits(input)[8 * cur - numBits..]| == numBits + 8 * (|input| - cur)
  {}

  lemma LowBits(input: seq<u8>, cur: nat, bitBuf: nat, numBits: nat, n: nat)
    requires Buffered(input, cur, bitBuf, numBits) && n <= numBits
    ensures bitBuf % Pow2(n) < Pow2(n)
    ensures ToBits(bitBuf % Pow2(n), n) == ToBits(bitBuf, n) == BytesBits(input)[8 * cur - numBits..][..n]
  {
    hide FromBits, BytesBits, Pow2, ToBits;
    var all, pos := BytesBits(input), 8 * cur - numBits;
    var b := all[pos..8 * cur];
    ToFromBits(b);
    ToBitsPrefix(bitBuf, numBits, n);
    ToBitsMod(bitBuf, n);
    assert b[..n] == all[pos..][..n];
  }
}
