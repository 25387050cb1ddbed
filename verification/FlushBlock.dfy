/** Closing a block (`tdefl_flush_block`): compressed or stored, into the output buffer and from there
    to the caller. */
module FlushBlock {
  import opened Bits
  import opened Tokens
  import opened Canonical
  import opened LzSymbols
  import opened BlockCode
  import opened TokenBuffer
  import opened DecodeTable
  import opened BlockTables
  import opened BitWriter
  import opened BlockCost
  import CodeLengths
  import opened BlockHeader
  import opened CompressBlock
  import opened DeflateStream
  import RingDict

  const OUT_BUF_SIZE := 85196 // 65536 * 13 / 10
  const OUT_BUF_END := 85180 // OUT_BUF_SIZE - 16

  const MOST_BITS := 681310 // of a block, with what is left over from the one before

  datatype Flush = NoFlush | SyncFlush | FullFlush | Finish

  // ---------------------------------------------------------------- how long a block gets

  /** A whole token buffer always fits the output buffer under the fixed codes. */
  lemma StaticFits(ts: seq<Token>)
    requires AllValid(ts) && |Pack(ts)| <= 0x1_0000
    ensures Coded(Static, ts) && |CodedBits(Static, ts)| <= 650140
  {
    hide StaticLit, StaticDist, Pack, Units, ItemsBits, CodeBits, AllCodable, ItemsOf, Acceptable, ValidSizes;
    StaticCoded(ts);
    StaticSize(ts);
    PackUnits(ts);
  }

  // ---------------------------------------------------------------- with codes built for the block

  lemma OpSize(cl: seq<nat>, o: CodeLengths.Op)
    requires OpCodable(cl, o) && forall s :: 0 <= s < |cl| ==> cl[s] <= 7
    ensures |OpBits(cl, o)| <= 14
  {
    hide CodeBits, ToBits, CodeLengths.OpExtra;
  }

  lemma {:induction false} OpsSize(cl: seq<nat>, ops: seq<CodeLengths.Op>)
    requires OpsCodable(cl, ops) && forall s :: 0 <= s < |cl| ==> cl[s] <= 7
    ensures |OpsBits(cl, ops)| <= 14 * |ops|
  {
    hide OpCodable, OpBits;
    if ops != [] {
      OpsSize(cl, ops[..|ops| - 1]);
      OpSize(cl, ops[|ops| - 1]);
    }
  }

  lemma HeaderSize(h: Header)
    requires HeaderOk(h)
    ensures |HeaderBits(h)| <= 4551
  {
    hide OpsBits, ClBits, ToBits, OpsCodable, CodeLengths.Lengths, CodeLengths.OpsFit, Acceptable;
    CodeLengths.PackedShort(h.ops);
    OpsSize(h.cl, h.ops);
    ClSize(h.cl, h.numLengths);
  }

  /** A whole token buffer fits the output buffer under codes built for it, too. */
  lemma DynamicFits(k: Codes, ts: seq<Token>)
    requires Coded(k, ts) && (k == Static || Lean(k, ts)) && |Pack(ts)| <= 0x1_0000
    ensures |CodedBits(k, ts)| <= 681300
  {
    hide StaticLit, StaticDist, Pack, Units, HeaderOk, HeaderBits, BlockBits, AllCodable, ItemsOf, Acceptable, ValidSizes, ToBits, LitOf, DistOf, CodesOk;
    if k == Static {
      StaticFits(ts);
    } else {
      CodedSize(k, ts);
      PackUnits(ts);
    }
  }

  lemma CodedSize(k: Codes, ts: seq<Token>)
    requires Coded(k, ts) && k.Dynamic?
    ensures |CodedBits(k, ts)| <= 4553 + |BlockBits(LitOf(k), DistOf(k), ItemsOf(ts))|
  {
    hide HeaderOk, HeaderBits, BlockBits, AllCodable, ItemsOf, Acceptable, ValidSizes, ToBits, LitOf, DistOf;
    HeaderSize(k.h);
  }

  // ---------------------------------------------------------------- delivering

  /** What was written goes to the caller, apart from the bits of an unfinished byte. */
  lemma Deliver(output: seq<u8>, s: seq<u8>, pos: nat, buffer: nat, bitsIn: nat, sent: seq<bool>)
    requires Written(s, pos, buffer, bitsIn, sent)
    ensures BytesBits(output + s[..pos]) + ToBits(buffer, bitsIn) == BytesBits(output) + sent
  {
    hide BytesBits, ToBits;
    BytesBitsAppend(output, s[..pos]);
    var a, b, c := BytesBits(output), BytesBits(s[..pos]), ToBits(buffer, bitsIn);
    assert (a + b) + c == a + (b + c);
  }

  lemma SamePadding(a: nat, b: nat)
    requires a % 8 == b % 8
    ensures Padding(a) == Padding(b)
  {}

  /** The part of the compressor that owns the output. */
  class BlockSink {
    const w: Writer
    const litSizes: array<nat>
    const litCodes: array<nat>
    const distSizes: array<nat>
    const distCodes: array<nat>
    var output: seq<u8>
    ghost var parts: seq<Part>
    ghost var tail: seq<bool> // zeros that fill the last byte, once the stream is finished

    ghost predicate Memory()
    {
      && w.end == OUT_BUF_END && litSizes.Length == litCodes.Length == LIT_SYMS && distSizes.Length == distCodes.Length == DIST_SYMS
      && Distinct(litSizes, litCodes, distSizes, distCodes)
    }

    /** Everything handed to the caller, and the bits that wait for a whole byte, are the stream. */
    ghost predicate Valid()
      reads this, w, w.out
    {
      && Memory() && w.Valid() && PartsOk(parts)
      && BytesBits(output) + ToBits(w.buffer, w.bitsIn) == StreamBits(parts) + tail
    }

    constructor ()
      ensures Valid() && output == [] && parts == [] && tail == [] && fresh(w) && fresh(w.out)
      ensures fresh(litSizes) && fresh(litCodes) && fresh(distSizes) && fresh(distCodes)
    {
      var out := new u8[OUT_BUF_SIZE](_ => 0);
      w := new Writer(out, OUT_BUF_END);
      litSizes, litCodes := new nat[LIT_SYMS](_ => 0), new nat[LIT_SYMS](_ => 0);
      distSizes, distCodes := new nat[DIST_SYMS](_ => 0), new nat[DIST_SYMS](_ => 0);
      output, parts, tail := [], [], [];
    }

    // ---------------------------------------------------------------- stored blocks

    /** A stored block behind the bit that says whether it is the last one. */
    method PutStored(size: nat, dict: array<u8>, from: nat, ghost s: seq<u8>)
      requires Memory() && w.Valid() && dict != w.out && HeldBytes(dict[..], s, from, size)
      modifies w`pos, w`buffer, w`bitsIn, w`sent, w.out
      ensures w.Valid() && w.sent == old(w.sent) + (ToBits(0, 2) + Padding(|old(w.sent)| + 2) + StoredBody(s[from..from + size]))
    {
      hide ToBits, Pow2, BytesBits, Xor;
      ghost var sent, bytes := w.sent, s[from..from + size];
      Fields(size);
      w.PutBits(0, 2);
      w.Align();
      w.PutBits(size, 16);
      w.PutBits(Xor(size, 0xFFFF), 16);
      ghost var head, d := w.sent, dict[..];
      NoBytes();
      assert bytes[..0] == [];
      for i := 0 to size
        invariant w.Valid() && w.sent == head + BytesBits(bytes[..i]) && dict[..] == d
      {
        ByteFits(bytes[i]);
        OneByte(bytes, i);
        HeldAt(d, s, from, size, i);
        w.PutBits(dict[(from + i) % DICT_SIZE], 8);
        Assoc(head, BytesBits(bytes[..i]), ToBits(bytes[i], 8));
      }
      assert bytes[..size] == bytes;
      AssocStored(sent, ToBits(0, 2), Padding(|sent| + 2), ToBits(size, 16), ToBits(Xor(size, 0xFFFF), 16), BytesBits(bytes));
    }

    // ---------------------------------------------------------------- one block

    /** The next output buffer begins with the bits left over and the bit that marks the last block. */
    method Begin(final: bool)
      requires Memory() && w.Valid()
      modifies w`pos, w`buffer, w`bitsIn, w`sent, w`kept, w.out
      ensures AtStart() && w.sent == ToBits(old(w.buffer), old(w.bitsIn)) + FinalBit(final)
    {
      hide ToBits, BytesBits;
      assert 1 < Pow2(1) by { assert Pow2(1) == 2; }
      hide Pow2;
      w.Restart();
      w.PutBits(if final then 1 else 0, 1);
      w.Mark();
    }

    /** Where a block begins: the position and the bit buffer behind its first bit are kept. */
    ghost predicate AtStart()
      reads w, w.out
    {
      && Memory() && w.Valid() && w.pos < w.end && |w.kept| == w.pos && 1 <= |w.sent| <= 8
      && w.buffer < Pow2(w.bitsIn) && w.sent == BytesBits(w.kept) + ToBits(w.buffer, w.bitsIn)
    }

    /** Forgets what was written and sends the bytes as they are. */
    method StoreInstead(pos0: nat, buffer0: u32, bitsIn0: nat, size: nat, dict: array<u8>, from: nat, ghost s: seq<u8>, ghost sent: seq<bool>)
      requires Memory() && w.Valid() && dict != w.out && HeldBytes(dict[..], s, from, size)
      requires |w.kept| == pos0 < w.end && bitsIn0 < 8 && buffer0 < Pow2(bitsIn0) && sent == BytesBits(w.kept) + ToBits(buffer0, bitsIn0) && |sent| <= 8
      modifies w`pos, w`buffer, w`bitsIn, w`sent, w.out
      ensures w.Valid() && w.sent == sent + (ToBits(0, 2) + Padding(|sent| + 2) + StoredBody(s[from..from + size])) && |w.sent| <= MOST_BITS
    {
      hide ToBits, BytesBits, Pow2, StoredBody;
      w.Rollback(pos0, buffer0, bitsIn0);
      PutStored(size, dict, from, s);
      StoredSize(s[from..from + size], |sent| + 2);
    }

    /** Forgets what was written and compresses with fixed codes. */
    method CompressInstead(pos0: nat, buffer0: u32, bitsIn0: nat, lz: LzCodeBuffer, ghost sent: seq<bool>)
      requires Memory() && w.Valid() && lz.Sizes() && lz.codePos <= lz.buf.Length && AllValid(lz.tokens)
      requires lz.buf[..lz.codePos] == Pack(lz.tokens) && lz.buf != w.out
      requires |w.kept| == pos0 < w.end && bitsIn0 < 8 && buffer0 < Pow2(bitsIn0) && sent == BytesBits(w.kept) + ToBits(buffer0, bitsIn0) && |sent| <= 8
      modifies w`pos, w`buffer, w`bitsIn, w`sent, w.out, lz.litCount, litSizes, litCodes, distSizes, distCodes
      ensures w.Valid() && Coded(Static, lz.tokens) && w.sent == sent + CodedBits(Static, lz.tokens) && |w.sent| <= MOST_BITS
    {
      hide ToBits, BytesBits, Pow2, Pack, Coded, CodedBits;
      w.Rollback(pos0, buffer0, bitsIn0);
      StaticFits(lz.tokens);
      var ok, k := Compress(lz, w, true, litSizes, litCodes, distSizes, distCodes);
    }

    /** The block itself: compressed, stored if that is not longer and still possible, or with fixed
        codes if the output buffer was too small for anything else. */
    method PutPart(lz: LzCodeBuffer, dict: array<u8>, from: nat, held: bool, final: bool, forceAllRaw: bool, forceAllStatic: bool,
                   ghost s: seq<u8>) returns (ghost p: Part)
      requires AtStart() && lz.Sizes() && lz.codePos <= lz.buf.Length && AllValid(lz.tokens)
      requires lz.buf[..lz.codePos] == Pack(lz.tokens) && Counted(lz.litCount[..], lz.distCount[..], lz.tokens)
      requires dict != w.out && lz.buf != w.out && (held ==> HeldBytes(dict[..], s, from, lz.totalBytes))
      modifies w`pos, w`buffer, w`bitsIn, w`sent, w.out, lz.litCount, litSizes, litCodes, distSizes, distCodes
      ensures w.Valid() && PartOk(p) && p.final == final
      ensures (held && p == Stored(final, s[from..from + lz.totalBytes])) || (p.Compressed? && p.tokens == lz.tokens)
      ensures w.sent == old(w.sent) + PartTail(|old(w.sent)| - 1, p)
      ensures |w.sent| <= MOST_BITS
      ensures Chosen(p, lz.tokens, lz.totalBytes, held, forceAllRaw, forceAllStatic || lz.totalBytes < 48)
      ensures p.Compressed? && held && lz.totalBytes != 0 ==> w.pos - old(w.pos) + 1 < lz.totalBytes
    {
      hide NotWorthIt, Lean, ToBits, BytesBits, Pow2, Pack, Coded, CodedBits, StoredBody, HeldBytes, Counted, AllValid, Writer.Shape, Padding;
      ghost var sent := w.sent;
      var pos0, buffer0, bitsIn0 := w.pos, w.buffer, w.bitsIn;
      var total := lz.totalBytes;
      var useRawBlock := forceAllRaw && held;
      var ok := false;
      ghost var k := Static;
      ghost var d, b := dict[..], lz.buf[..];
      if !useRawBlock {
        ok, k := Compress(lz, w, forceAllStatic || total < 48, litSizes, litCodes, distSizes, distCodes);
        DynamicFits(k, lz.tokens);
        if total != 0 && w.pos - pos0 + 1 >= total { NotShorter(k, lz.tokens, total, forceAllStatic || total < 48, sent); }
      }
      assert dict[..] == d && lz.buf[..] == b;
      if held { HeldSize(d, s, from, total); }
      if (useRawBlock || (total != 0 && w.pos - pos0 + 1 >= total)) && held {
        p := Stored(final, s[from..from + total]);
        StoreInstead(pos0, buffer0, bitsIn0, total, dict, from, s, sent);
      } else if !ok {
        assert lz.buf[..lz.codePos] == b[..lz.codePos];
        CompressInstead(pos0, buffer0, bitsIn0, lz, sent);
        p := Compressed(final, Static, lz.tokens);
      } else {
        p := Compressed(final, k, lz.tokens);
      }
    }

    /** What follows when compressing did not pay. */
    lemma NotShorter(k: Codes, ts: seq<Token>, total: nat, fixed: bool, sent: seq<bool>)
      requires w.Valid() && Coded(k, ts) && (if fixed then k == Static else k.Dynamic? && Lean(k, ts))
      requires w.sent == sent + CodedBits(k, ts) && |sent| <= 8 && total != 0 && w.pos + 1 >= total
      ensures NotWorthIt(ts, total, fixed)
    {
      hide Coded, Lean, CodedBits, Writer.Shape;
      w.Sized();
    }

    // ---------------------------------------------------------------- the end of a block

    /** Behind a flush that is not the last one: an empty stored block, so that the output ends at a byte. */
    method PutMarker()
      requires Memory() && w.Valid()
      modifies w`pos, w`buffer, w`bitsIn, w`sent, w.out
      ensures w.Valid() && w.sent == old(w.sent) + PartBits(|old(w.sent)|, Stored(false, [])) && |w.sent| <= |old(w.sent)| + 42
      ensures w.bitsIn == 0 && |w.sent| >= 32 && w.sent[|w.sent| - 32..] == BytesBits([0, 0, 0xFF, 0xFF])
    {
      hide ToBits, BytesBits, Pow2, Writer.Shape, Xor, PartBits, Padding;
      ghost var sent := w.sent;
      Fields(0);
      ThreeZeros();
      w.PutBits(0, 3);
      w.Align();
      w.PutBits(0, 16);
      w.PutBits(Xor(0, 0xFFFF), 16);
      w.Remainder();
      MarkerSent(sent, ToBits(0, 3), Padding(|sent| + 3), ToBits(0, 16), ToBits(Xor(0, 0xFFFF), 16));
    }

    /** What has been written, behind all that was delivered, is the stream. */
    ghost predicate Streams()
      reads this, w
    {
      PartsOk(parts) && BytesBits(output) + w.sent == StreamBits(parts) + tail
    }

    /** Closes the open block. Its output always fits the buffer, as the source asserts. */
    method Flush(lz: LzCodeBuffer, dict: array<u8>, from: nat, held: bool, flush: Flush, forceAllRaw: bool, forceAllStatic: bool,
                 ghost s: seq<u8>) returns (ghost p: Part)
      requires Valid() && tail == [] && lz.Valid() && dict != w.out && lz.buf != w.out && lz.buf != dict
      requires held ==> HeldBytes(dict[..], s, from, lz.totalBytes)
      modifies this`output, this`parts, this`tail, w`pos, w`buffer, w`bitsIn, w`sent, w`kept, w.out
      modifies lz, lz.buf, lz.litCount, lz.distCount, litSizes, litCodes, distSizes, distCodes
      ensures lz.Valid() && lz.tokens == [] && lz.codePos == 1
      ensures (held && p == Stored(flush == Finish, s[from..from + old(lz.totalBytes)])) || (p.Compressed? && p.tokens == old(lz.tokens))
      ensures p.final == (flush == Finish) && parts == old(parts) + [p] + Markers(flush)
      ensures Chosen(p, old(lz.tokens), old(lz.totalBytes), held, forceAllRaw, forceAllStatic || old(lz.totalBytes) < 48)
      ensures Valid() && tail == if flush == Finish then Padding(|StreamBits(parts)|) else []
      ensures old(output) <= output && (flush != NoFlush ==> w.bitsIn == 0 && BytesBits(output) == StreamBits(parts) + tail)
      ensures flush == SyncFlush || flush == FullFlush ==> |output| >= 4 && output[|output| - 4..] == [0, 0, 0xFF, 0xFF]
    {
      hide ToBits, BytesBits, Pow2, Pack, StoredBody, HeldBytes, Counted, AllValid, Padding, PartOk, PartBits, StreamBits, PartsOk;
      hide LzCodeBuffer.Valid, Writer.Shape, Chosen;
      ghost var d := dict[..];
      lz.Finish();
      p := PutFirst(lz, dict, from, held, flush == Finish, forceAllRaw, forceAllStatic, s);
      Close(flush);
      lz.Reset();
    }

    /** The first bit and the block. */
    method PutFirst(lz: LzCodeBuffer, dict: array<u8>, from: nat, held: bool, final: bool, forceAllRaw: bool, forceAllStatic: bool,
                    ghost s: seq<u8>) returns (ghost p: Part)
      requires Valid() && tail == [] && lz.Sizes() && lz.codePos <= lz.buf.Length && AllValid(lz.tokens)
      requires lz.buf[..lz.codePos] == Pack(lz.tokens) && Counted(lz.litCount[..], lz.distCount[..], lz.tokens)
      requires dict != w.out && lz.buf != w.out && (held ==> HeldBytes(dict[..], s, from, lz.totalBytes))
      modifies this`parts, w`pos, w`buffer, w`bitsIn, w`sent, w`kept, w.out, lz.litCount, litSizes, litCodes, distSizes, distCodes
      ensures w.Valid() && Streams() && PartOk(p) && p.final == final && parts == old(parts) + [p]
      ensures (held && p == Stored(final, s[from..from + lz.totalBytes])) || (p.Compressed? && p.tokens == lz.tokens)
      ensures |w.sent| <= MOST_BITS
      ensures Chosen(p, lz.tokens, lz.totalBytes, held, forceAllRaw, forceAllStatic || lz.totalBytes < 48)
    {
      hide Chosen, ToBits, BytesBits, Pow2, Pack, StoredBody, HeldBytes, Counted, AllValid, Padding, PartOk, PartBits, StreamBits, PartsOk, PartTail;
      hide Writer.Shape, FinalBit;
      ghost var carry, d, b := ToBits(w.buffer, w.bitsIn), dict[..], lz.buf[..];
      NoTail(StreamBits(parts));
      Begin(final);
      assert dict[..] == d && lz.buf[..lz.codePos] == b[..lz.codePos];
      FinalBitSize(final);
      p := PutPart(lz, dict, from, held, final, forceAllRaw, forceAllStatic, s);
      PartSplit(carry, p);
      AddOne(parts, output, carry, p);
      parts := parts + [p];
      NoTail(StreamBits(parts));
    }

    /** Behind the block: the end, and the delivery. */
    method Close(flush: Flush)
      requires Memory() && w.Valid() && Streams() && tail == []
      requires |w.sent| <= MOST_BITS
      modifies this`output, this`parts, this`tail, w`pos, w`buffer, w`bitsIn, w`sent, w.out
      ensures parts == old(parts) + Markers(flush)
      ensures Valid() && tail == if flush == Finish then Padding(|StreamBits(parts)|) else []
      ensures old(output) <= output && (flush != NoFlush ==> w.bitsIn == 0 && BytesBits(output) == StreamBits(parts) + tail)
      ensures flush == SyncFlush || flush == FullFlush ==> |output| >= 4 && output[|output| - 4..] == [0, 0, 0xFF, 0xFF]
    {
      hide ToBits, BytesBits, Pow2, Padding, PartBits, StreamBits, PartsOk, Writer.Shape;
      NoTail(StreamBits(parts));
      if flush == Finish {
        tail := Padding(|w.sent|);
        SamePadding(|w.sent|, |StreamBits(parts)|);
        Assoc(BytesBits(output), w.sent, tail);
        w.Align();
      } else if flush != NoFlush {
        AddMarker(parts, output, w.sent);
        PutMarker();
        parts := parts + Markers(flush);
        NoTail(StreamBits(parts));
      }
      w.Complete();
      assert w.pos < w.end; // the assertion in the source
      Deliver(output, w.out[..], w.pos, w.buffer, w.bitsIn, w.sent);
      ghost var before := output;
      output := output + w.out[..w.pos];
      if flush != NoFlush {
        NothingLeft(w.buffer, BytesBits(output));
        if flush != Finish { SentLast(before, output, w.sent); }
      }
    }
  }

  /** Compressed with the codes the compressor builds, or with the fixed ones, the block would be
      at most two bytes shorter than its bytes. */
  ghost predicate NotWorthIt(ts: seq<Token>, total: nat, fixed: bool)
  {
    total != 0 && exists k :: Coded(k, ts) && (if fixed then k == Static else k.Dynamic? && Lean(k, ts)) && |CodedBits(k, ts)| >= 8 * (total - 2)
  }

  /** Which kind of block it is: stored only if its bytes are held and that is forced or pays, and always if it
      is forced; with fixed codes if that is asked for, and only then if the bytes are held. */
  ghost predicate Chosen(p: Part, ts: seq<Token>, total: nat, held: bool, raw: bool, fixed: bool)
  {
    if p.Stored? then held && (raw || NotWorthIt(ts, total, fixed))
    else !(raw && held) && (fixed ==> p.codes == Static) && (held && !fixed ==> p.codes.Dynamic?)
  }

  /** The empty block that ends a flush. */
  function Markers(flush: Flush): seq<Part>
  {
    if flush == SyncFlush || flush == FullFlush then [Stored(false, [])] else []
  }

  lemma MarkerSent(sent: seq<bool>, z: seq<bool>, pad: seq<bool>, a: seq<bool>, b: seq<bool>)
    requires z == ToBits(0, 3) && pad == Padding(|sent| + 3) && a == ToBits(0, 16) && b == ToBits(Xor(0, 0xFFFF), 16)
    ensures var all := sent + z + pad + a + b;
      && all == sent + PartBits(|sent|, Stored(false, [])) && |sent| + 32 <= |all| <= |sent| + 42 && |all| % 8 == 0
      && all[|all| - 32..] == BytesBits([0, 0, 0xFF, 0xFF])
  {
    hide ToBits, Xor, BytesBits, PartBits;
    EmptyStored(sent, pad, a, b);
    MarkerEnds(sent + z + pad, a, b);
  }

  lemma MarkerEnds(front: seq<bool>, a: seq<bool>, b: seq<bool>)
    requires a == ToBits(0, 16) && b == ToBits(Xor(0, 0xFFFF), 16)
    ensures |front + a + b| >= 32 && (front + a + b)[|front + a + b| - 32..] == BytesBits([0, 0, 0xFF, 0xFF])
  {
    hide ToBits, Xor, BytesBits;
    Inverted(0);
    TwoOf(0, 0, 0);
    TwoOf(0xFFFF, 0xFF, 0xFF);
    FourBytes(0, 0, 0xFF, 0xFF);
    BehindFront(front, a, b);
  }

  lemma BehindFront(front: seq<bool>, a: seq<bool>, b: seq<bool>)
    requires |a| == |b| == 16
    ensures |front + a + b| == |front| + 32 && (front + a + b)[|front|..] == a + b
  {}

  lemma TwoOf(v: nat, low: u8, high: u8)
    requires v == low + 256 * high
    ensures ToBits(v, 16) == ToBits(low, 8) + ToBits(high, 8) && |ToBits(v, 16)| == 16
  {
    hide ToBits;
    TwoBytes(v);
  }

  lemma FourBytes(a: u8, b: u8, c: u8, d: u8)
    ensures BytesBits([a, b, c, d]) == (ToBits(a, 8) + ToBits(b, 8)) + (ToBits(c, 8) + ToBits(d, 8))
  {
    hide ToBits, BytesBits;
    OneByteBits(a);
    OneByteBits(b);
    OneByteBits(c);
    OneByteBits(d);
    BytesBitsAppend([a], [b]);
    BytesBitsAppend([c], [d]);
    BytesBitsAppend([a] + [b], [c] + [d]);
    assert [a, b, c, d] == ([a] + [b]) + ([c] + [d]);
  }

  lemma OneByteBits(b: u8)
    ensures BytesBits([b]) == ToBits(b, 8)
  {
    assert [b][..0] == [];
  }

  lemma NothingLeft(buffer: nat, b: seq<bool>)
    ensures b + ToBits(buffer, 0) == b
  {}

  /** The last bytes delivered are the last ones sent. */
  lemma SentLast(before: seq<u8>, output: seq<u8>, sent: seq<bool>)
    requires BytesBits(output) == BytesBits(before) + sent && |sent| >= 32 && sent[|sent| - 32..] == BytesBits([0, 0, 0xFF, 0xFF])
    ensures |output| >= 4 && output[|output| - 4..] == [0, 0, 0xFF, 0xFF]
  {
    hide *;
    FrontAndEnd(BytesBits(before), sent);
    LastBytes(output, BytesBits(before) + sent[..|sent| - 32], [0, 0, 0xFF, 0xFF]);
  }

  lemma FrontAndEnd(a: seq<bool>, b: seq<bool>)
    requires |b| >= 32
    ensures a + b == (a + b[..|b| - 32]) + b[|b| - 32..]
  {}

  lemma NoTail(b: seq<bool>)
    ensures b + [] == b
  {}

  lemma FinalBitSize(final: bool)
    ensures |FinalBit(final)| == 1
  {}

  /** A block put behind what was sent is put behind the stream: positions count from its start, but
      only their remainder matters. */
  lemma AddOne(parts: seq<Part>, output: seq<u8>, sent: seq<bool>, p: Part)
    requires PartsOk(parts) && PartOk(p) && BytesBits(output) + sent == StreamBits(parts)
    ensures PartsOk(parts + [p]) && BytesBits(output) + (sent + PartBits(|sent|, p)) == StreamBits(parts + [p])
  {
    hide BytesBits, PartsOk, StreamBits, PartBits, PartOk;
    SameAt(|StreamBits(parts)|, |sent|, p);
    StreamNext(parts, p);
    Assoc(BytesBits(output), sent, PartBits(|sent|, p));
  }

  lemma AddMarker(parts: seq<Part>, output: seq<u8>, sent: seq<bool>)
    requires PartsOk(parts) && BytesBits(output) + sent == StreamBits(parts)
    ensures PartsOk(parts + [Stored(false, [])])
    ensures BytesBits(output) + (sent + PartBits(|sent|, Stored(false, []))) == StreamBits(parts + [Stored(false, [])])
  {
    hide BytesBits, PartsOk, StreamBits, PartBits;
    AddOne(parts, output, sent, Stored(false, []));
  }

  lemma SameAt(n: nat, m: nat, p: Part)
    requires n % 8 == m % 8 && PartOk(p)
    ensures PartBits(n, p) == PartBits(m, p)
  {
    hide StoredBody, Padding, FinalBit, CodedBits, Coded, ToBits;
    SamePadding(n + 3, m + 3);
  }

  lemma PartSplit(carry: seq<bool>, p: Part)
    requires PartOk(p)
    ensures carry + PartBits(|carry|, p) == (carry + FinalBit(p.final)) + PartTail(|carry|, p)
  {
    hide StoredBody, Padding, FinalBit, CodedBits, Coded, ToBits;
    if p.Stored? { Assoc4(FinalBit(p.final), ToBits(0, 2), Padding(|carry| + 3), StoredBody(p.bytes)); }
    Assoc(carry, FinalBit(p.final), PartTail(|carry|, p));
  }

  lemma Assoc4(a: seq<bool>, b: seq<bool>, c: seq<bool>, d: seq<bool>)
    ensures a + b + c + d == a + (b + c + d)
  {}

  /** The three bits of the marker are those of an empty stored block. */
  lemma ThreeZeros()
    ensures ToBits(0, 3) == FinalBit(false) + ToBits(0, 2) && 0 < Pow2(3)
  {
    assert ToBits(0, 3) == [false] + ToBits(0, 2);
    assert ToBits(0, 1) == [false] + ToBits(0, 0);
  }

  lemma EmptyStored(sent: seq<bool>, pad: seq<bool>, a: seq<bool>, b: seq<bool>)
    requires pad == Padding(|sent| + 3) && a == ToBits(0, 16) && b == ToBits(Xor(0, 0xFFFF), 16)
    ensures sent + ToBits(0, 3) + pad + a + b == sent + PartBits(|sent|, Stored(false, []))
  {
    hide ToBits, Padding, Xor, FinalBit;
    ThreeZeros();
    NoBytes();
    assert StoredBody([]) == a + b;
  }

  /** The part of a block behind its first bit, which stands at position `n`. */
  ghost function PartTail(n: nat, p: Part): seq<bool>
    requires PartOk(p)
  {
    match p
    case Compressed(_, codes, tokens) => CodedBits(codes, tokens)
    case Stored(_, bytes) => ToBits(0, 2) + Padding(n + 3) + StoredBody(bytes)
  }

  /** The ring still holds the bytes of the block. */
  ghost predicate HeldBytes(dict: seq<u8>, s: seq<u8>, from: nat, total: nat)
  {
    && |dict| == RingDict.RING_SIZE && from + total <= |s| && total <= DICT_SIZE
    && forall p: nat :: from <= p < from + total ==> RingDict.Stored(dict, s, p)
  }

  lemma HeldAt(dict: seq<u8>, s: seq<u8>, from: nat, total: nat, i: nat)
    requires HeldBytes(dict, s, from, total) && i < total
    ensures dict[(from + i) % DICT_SIZE] == s[from..from + total][i]
  {
    var p := from + i;
    assert RingDict.Stored(dict, s, p);
  }

  lemma HeldSize(dict: seq<u8>, s: seq<u8>, from: nat, total: nat)
    requires HeldBytes(dict, s, from, total)
    ensures from + total <= |s| && total <= DICT_SIZE
  {}

  lemma StoredSize(bytes: seq<u8>, n: nat)
    requires |bytes| <= DICT_SIZE
    ensures |ToBits(0, 2) + Padding(n) + StoredBody(bytes)| <= 650000
  {
    hide BytesBits, Xor;
  }

  lemma Fields(size: nat)
    requires size <= DICT_SIZE
    ensures 0 < Pow2(2) && size < Pow2(16) && Xor(size, 0xFFFF) < Pow2(16)
  {
    hide Xor;
    Pow2Add(8, 8);
    assert Pow2(8) == 256;
    XorOnes(size, 16);
  }

  lemma NoBytes()
    ensures BytesBits([]) == []
  {}

  lemma ByteFits(b: u8)
    ensures b < Pow2(8)
  {
    assert Pow2(8) == 256;
  }

  lemma OneByte(bytes: seq<u8>, i: nat)
    requires i < |bytes|
    ensures BytesBits(bytes[..i + 1]) == BytesBits(bytes[..i]) + ToBits(bytes[i], 8)
  {
    assert bytes[..i + 1][..i] == bytes[..i];
  }

  lemma AssocStored(s: seq<bool>, a: seq<bool>, p: seq<bool>, b: seq<bool>, c: seq<bool>, d: seq<bool>)
    ensures s + a + p + b + c + d == s + (a + p + (b + c + d))
  {}
}
