/** A stored block in the decompressor (`tinfl_decompress`): its two lengths, bytes that are in the bit
    buffer already, and runs of bytes from the input, with every point at which it can be interrupted. */
module StoredReader {
  import opened Bits
  import opened BitReader
  import opened KnownInput
  import opened OutputWindow
  import opened DeflateStream

  // ---------------------------------------------------------------- where things stand

  /** What is read of a stored block from its first whole byte on. */
  function StoredBits(size: nat, check: nat, bytes: seq<u8>): seq<bool>
  {
    StoredHead(size, check) + if check == Xor(size, 0xFFFF) then BytesBits(bytes) else []
  }

  function HeadBytes(size: nat, check: nat): (s: seq<u8>)
    requires size < 0x1_0000 && check < 0x1_0000
    ensures |s| == 4
  {
    [size % 256, size / 256, check % 256, check / 256]
  }

  lemma HeadStands(size: nat, check: nat, bytes: seq<u8>, k: nat)
    requires size < 0x1_0000 && check < 0x1_0000 && k < 4
    ensures Stands(ToBits(HeadBytes(size, check)[k], 8), StoredBits(size, check, bytes), 8 * k) && HeadBytes(size, check)[k] < Pow2(8)
  {
    hide ToBits, BytesBits, Xor;
    TwoBytes(size);
    TwoBytes(check);
    assert Pow2(8) == 256;
    hide Pow2, Stands;
    var rest := if check == Xor(size, 0xFFFF) then BytesBits(bytes) else [];
    FourStand(ToBits(size % 256, 8), ToBits(size / 256, 8), ToBits(check % 256, 8), ToBits(check / 256, 8), rest);
  }

  lemma FourStand(a: seq<bool>, b: seq<bool>, c: seq<bool>, d: seq<bool>, e: seq<bool>)
    requires |a| == |b| == |c| == |d| == 8
    ensures var s := ((a + b) + (c + d)) + e; Stands(a, s, 0) && Stands(b, s, 8) && Stands(c, s, 16) && Stands(d, s, 24)
  {
    var s := ((a + b) + (c + d)) + e;
    assert s[0..8] == a && s[8..16] == b && s[16..24] == c && s[24..32] == d;
  }

  lemma ByteStands(size: nat, check: nat, bytes: seq<u8>, i: nat)
    requires check == Xor(size, 0xFFFF) && i < |bytes|
    ensures Stands(ToBits(bytes[i], 8), StoredBits(size, check, bytes), 32 + 8 * i) && bytes[i] < Pow2(8)
  {
    hide ToBits, BytesBits, Xor;
    assert Pow2(8) == 256;
    BytesBitsAt(bytes, i);
    assert Stands(ToBits(bytes[i], 8), BytesBits(bytes), 8 * i);
    StandsBehind(StoredHead(size, check), BytesBits(bytes), []);
    assert StoredHead(size, check) + (BytesBits(bytes) + []) == StoredBits(size, check, bytes);
    StandsIn(ToBits(bytes[i], 8), BytesBits(bytes), StoredBits(size, check, bytes), 32, 8 * i);
  }

  /** A whole byte of the input that is known. */
  lemma KnownByte(input: seq<u8>, from: nat, bits: seq<bool>, p: nat, b: u8, c: nat)
    requires Expects(input, from, bits) && Stands(ToBits(b, 8), bits, p) && from + p == 8 * c && c < |input|
    ensures input[c] == b
  {
    hide ToBits, BytesBits;
    BytesBitsAt(input, c);
    ExpectsPart(input, from, bits, ToBits(b, 8), p);
    assert ToBits(input[c], 8) == ToBits(b, 8);
    assert Pow2(8) == 256;
    hide Pow2;
    KnownNumber(input[c], b, 8, ToBits(b, 8));
  }

  lemma SizeAgain(size: nat, check: nat)
    requires size < 0x1_0000 && check < 0x1_0000
    ensures size % 256 + 256 * (size / 256) == size && check % 256 + 256 * (check / 256) == check
    ensures size == Xor(check, 0xFFFF) <==> check == Xor(size, 0xFFFF)
  {
    Inverted(size);
    Inverted(check);
  }

  /** Position and buffer end at the same place in a byte. */
  lemma PosMod(r: Reader)
    requires r.Valid()
    ensures (r.numBits + r.Pos()) % 8 == 0
  {
    hide Buffered;
    BufferedBasic(r.input, r.cur, r.bitBuf, r.numBits);
    hide *;
    WholeBytes(r.numBits, r.cur);
  }

  lemma WholeBytes(bits: nat, bytes: nat)
    requires bits <= 8 * bytes
    ensures (bits + (8 * bytes - bits)) % 8 == 0
  {}

  // ---------------------------------------------------------------- the reader

  /** Where it can be interrupted: in the lengths, between bytes, or with a byte in hand; or at the end. */
  datatype StoredStage = InLengths | InBytes | ByteWait | Copied

  class ByteReader {
    const r: Reader
    const w: Window
    var stage: StoredStage
    var counter: nat
    var header: seq<u8>
    var byte: u8
    // The block being read, the position of its first whole byte, and the output before it.
    ghost const size: nat
    ghost const check: nat
    ghost const bytes: seq<u8>
    ghost const from: nat
    ghost const before: seq<u8>

    ghost predicate BlockOk()
    {
      size < 0x1_0000 && check < 0x1_0000 && from % 8 == 0 && (Matching() ==> size == |bytes|)
    }

    ghost predicate Matching()
    {
      check == Xor(size, 0xFFFF)
    }

    /** `counter` bytes are still missing from the output; `taken` of those have left the input. */
    ghost predicate Written(taken: nat)
      requires r.Valid()
      reads this, r, w
    {
      && Matching() && counter <= |bytes| && w.produced == before + bytes[..|bytes| - counter]
      && r.Pos() == from + 32 + 8 * (|bytes| - counter + taken)
    }

    ghost predicate InPlace()
      requires r.Valid() && BlockOk()
      reads this, r, w
    {
      match stage
      case InLengths =>
        counter <= 4 && header == HeadBytes(size, check)[..counter] && r.Pos() == from + 8 * counter && w.produced == before
      case InBytes => Written(0)
      case ByteWait => Written(1) && counter > 0 && byte == bytes[|bytes| - counter]
      case Copied => Written(0) && counter == 0
    }

    ghost predicate Valid()
      reads this, r, w, w.out
    {
      && BlockOk() && r.Valid() && r.Own() && w.Valid() && Expects(r.input, from, StoredBits(size, check, bytes))
      && InPlace()
    }

    ghost predicate After(st: Status)
      reads this, r, w, w.out
    {
      match st
      case Go => Valid()
      case Done => false
      case NeedInput => Valid() && r.numBits < 8 && r.cur == |r.input| && 8 * |r.input| < from + |StoredBits(size, check, bytes)|
      case NeedOutput => Valid() && r.numBits < 8 && w.cur == w.end && Matching() && w.produced < before + bytes
      case Failed => r.Valid() && w.Valid() && !Matching() && w.produced == before
    }

    ghost function Left(): nat
      reads this
    {
      match stage
      case InLengths => 2 * |bytes| + 6 - (if counter < 4 then counter else 4)
      case InBytes => 2 * counter + 1
      case ByteWait => 2 * counter
      case Copied => 0
    }

    constructor (r: Reader, w: Window, ghost size: nat, ghost check: nat, ghost bytes: seq<u8>)
      requires size < 0x1_0000 && check < 0x1_0000 && (check == Xor(size, 0xFFFF) ==> size == |bytes|)
      requires r.Valid() && r.Own() && w.Valid() && r.Pos() % 8 == 0 && Expects(r.input, r.Pos(), StoredBits(size, check, bytes))
      ensures Valid() && this.r == r && this.w == w && this.size == size && this.check == check && this.bytes == bytes
      ensures from == r.Pos() && before == w.produced
    {
      hide Xor, Expects, StoredBits, Buffered, Holds;
      this.r, this.w := r, w;
      stage, counter, header, byte := InLengths, 0, [], 0;
      this.size, this.check, this.bytes, from, before := size, check, bytes, r.Pos(), w.produced;
    }

    // ---------------------------------------------------------------- the parts

    /** The two lengths, byte by byte, and the test that they match. */
    method LengthPart() returns (st: Status)
      requires Valid() && stage == InLengths
      modifies this, r`cur, r`bitBuf, r`numBits
      ensures After(st) && (st == Go ==> Left() < old(Left()))
    {
      hide Xor, Expects, StoredBits, Buffered, Holds, ToBits, Pow2, BytesBits, Stands;
      if counter == 4 {
        SizeAgain(size, check);
        if header[0] as nat + 256 * header[1] as nat != Xor(header[2] as nat + 256 * header[3] as nat, 0xFFFF) {
          return Failed;
        }
        stage, counter := InBytes, header[0] as nat + 256 * header[1] as nat;
        return Go;
      }
      HeadStands(size, check, bytes, counter);
      ghost var v := HeadBytes(size, check)[counter];
      var ok, x := ReadKnown(r, 8, from, StoredBits(size, check, bytes), 8 * counter, v);
      if !ok {
        PartEnds(StoredBits(size, check, bytes), ToBits(v, 8), 8 * counter);
        return NeedInput;
      }
      header, counter := header + [x], counter + 1;
      st := Go;
    }

    /** Waiting for room for the byte in hand. */
    method BytePart() returns (st: Status)
      requires Valid() && stage == ByteWait
      modifies this, r`cur, r`bitBuf, r`numBits, w`cur, w`produced, w.out
      ensures After(st) && (st == Go ==> Left() < old(Left()))
    {
      hide Xor, Expects, StoredBits, Buffered, Holds, BytesBits;
      if w.cur >= w.end {
        Missing();
        r.PutBack();
        return NeedOutput;
      }
      ghost var i := |bytes| - counter;
      assert bytes[..i + 1] == bytes[..i] + [bytes[i]];
      w.Put(byte);
      stage, counter := InBytes, counter - 1;
      st := Go;
    }

    lemma Missing()
      requires Valid() && (stage == ByteWait || stage == InBytes) && counter > 0
      ensures w.produced < before + bytes
    {
      hide Xor, Expects, StoredBits, Buffered, Holds, BytesBits;
      var i := |bytes| - counter;
      assert bytes == bytes[..i] + bytes[i..];
    }

    /** The next byte, or bytes: from the bit buffer as long as it holds any, then from the input. */
    method BytesPart() returns (st: Status)
      requires Valid() && stage == InBytes
      modifies this, r`cur, r`bitBuf, r`numBits, w`cur, w`produced, w.out
      ensures After(st) && (st == Go ==> Left() < old(Left()))
    {
      hide Xor, Expects, StoredBits, Buffered, Holds, BytesBits;
      if counter == 0 {
        stage := Copied;
        return Go;
      }
      if r.numBits > 0 {
        TakeByte();
        return Go;
      }
      if w.cur >= w.end {
        Missing();
        return NeedOutput;
      }
      if r.cur >= |r.input| {
        MoreToCome();
        return NeedInput;
      }
      CopyRun();
      st := Go;
    }

    /** A byte of the bit buffer. */
    method TakeByte()
      requires Valid() && stage == InBytes && counter > 0 && r.numBits > 0
      modifies this`stage, this`byte, r`cur, r`bitBuf, r`numBits
      ensures Valid() && stage == ByteWait && counter == old(counter)
    {
      hide Xor, Expects, StoredBits, Buffered, Holds, BytesBits, ToBits, Pow2, Stands;
      PosMod(r);
      ghost var i := |bytes| - counter;
      ByteStands(size, check, bytes, i);
      var ok, x := ReadKnown(r, 8, from, StoredBits(size, check, bytes), 32 + 8 * i, bytes[i]);
      stage, byte := ByteWait, x;
    }

    /** All of the input has been used, but not all bytes have come. */
    lemma MoreToCome()
      requires Valid() && stage == InBytes && counter > 0 && r.numBits == 0 && r.cur >= |r.input|
      ensures r.cur == |r.input| && 8 * |r.input| < from + |StoredBits(size, check, bytes)|
    {
      hide Xor, Expects, StoredBits, Holds, BytesBits, ToBits, Pow2;
      ByteStands(size, check, bytes, |bytes| - counter);
    }

    /** As many bytes as input and output allow. */
    method CopyRun()
      requires Valid() && stage == InBytes && counter > 0 && r.numBits == 0 && w.cur < w.end && r.cur < |r.input|
      modifies this`counter, r`cur, w`cur, w`produced, w.out
      ensures Valid() && stage == InBytes && counter < old(counter)
    {
      hide Xor, Expects, StoredBits, Holds, Buffered, BytesBits;
      var n := w.end - w.cur;
      if |r.input| - r.cur < n { n := |r.input| - r.cur; }
      if counter < n { n := counter; }
      ghost var i := |bytes| - counter;
      for k := 0 to n
        invariant counter == old(counter) && r.Valid() && r.Own() && r.numBits == 0 && r.cur == old(r.cur) && r.Pos() == from + 32 + 8 * i
        invariant w.Valid() && w.cur == old(w.cur) + k && w.end == old(w.end) && w.produced == before + bytes[..i + k]
      {
        InputByte(r.input, from, size, check, bytes, i + k, r.cur + k);
        assert bytes[..i + k + 1] == bytes[..i + k] + [bytes[i + k]];
        w.Put(r.input[r.cur + k]);
      }
      r.SkipBytes(n);
      counter := counter - n;
    }

    /** The output so far is the front of all there will be. */
    lemma SoFar()
      requires Valid()
      ensures before <= w.produced && if Matching() then w.produced <= before + bytes else w.produced == before
    {
      hide Xor, Expects, StoredBits, Buffered, Holds, BytesBits;
      if counter <= |bytes| { assert bytes == bytes[..|bytes| - counter] + bytes[|bytes| - counter..]; }
    }

    /** Another call: there is more input, or room. */
    twostate lemma Resumed()
      requires old(Valid()) && unchanged(this) && r.Valid() && w.Valid() && r.numBits < 8
      requires r.Pos() == old(r.Pos()) && w.produced == old(w.produced) && Expects(r.input, from, StoredBits(size, check, bytes))
      ensures Valid()
    {
      hide Xor, Expects, StoredBits, Buffered, Holds, BytesBits;
    }

    // ---------------------------------------------------------------- the loop

    method Step() returns (st: Status)
      requires Valid() && stage != Copied
      modifies this, r`cur, r`bitBuf, r`numBits, w`cur, w`produced, w.out
      ensures After(st) && (st == Go ==> Left() < old(Left()))
    {
      hide ByteReader.Valid, ByteReader.After, ByteReader.Left;
      match stage
      case InLengths => st := LengthPart();
      case InBytes => st := BytesPart();
      case ByteWait => st := BytePart();
      case Copied => st := Go;
    }

    /** One call inside a stored block: it is refused exactly if its lengths do not match; otherwise its bytes
        are written, as far as they have arrived and there is room. */
    method Run() returns (st: Status)
      requires Valid()
      modifies this, r`cur, r`bitBuf, r`numBits, w`cur, w`produced, w.out
      ensures st != Go && (if st == Done then Valid() && stage == Copied else After(st))
    {
      hide ByteReader.Valid, ByteReader.Left;
      while stage != Copied
        invariant Valid()
        decreases Left()
      {
        st := Step();
        if st != Go {
          return;
        }
      }
      st := Done;
    }
  }

  lemma InputByte(input: seq<u8>, from: nat, size: nat, check: nat, bytes: seq<u8>, i: nat, c: nat)
    requires Expects(input, from, StoredBits(size, check, bytes)) && check == Xor(size, 0xFFFF) && i < |bytes|
    requires from + 32 + 8 * i == 8 * c && c < |input|
    ensures input[c] == bytes[i]
  {
    hide *;
    ByteStands(size, check, bytes, i);
    KnownByte(input, from, StoredBits(size, check, bytes), 32 + 8 * i, bytes[i], c);
  }
}
