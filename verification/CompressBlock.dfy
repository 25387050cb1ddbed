/** One compressed block (`tdefl_compress_block`): the codes, built for the tokens at hand or fixed,
    their description, and the tokens. */
module CompressBlock {
  import opened Bits
  import opened Tokens
  import opened Canonical
  import opened LzSymbols
  import opened BlockCode
  import opened TokenBuffer
  import opened HuffmanTree
  import opened HuffTable
  import opened DecodeTable
  import opened BlockTables
  import opened BlockCost
  import opened CodeLengths
  import opened BitWriter
  import opened BlockHeader
  import opened CompressLz

  /** Fixed codes, or codes described in the block. */
  datatype Codes = Static | Dynamic(h: Header)

  ghost predicate CodesOk(k: Codes)
  {
    k.Dynamic? ==> HeaderOk(k.h)
  }

  ghost function LitOf(k: Codes): seq<nat>
    requires CodesOk(k)
  {
    if k.Static? then StaticLit() else Lengths(k.h.ops)[..k.h.numLit]
  }

  ghost function DistOf(k: Codes): seq<nat>
    requires CodesOk(k)
  {
    if k.Static? then StaticDist() else Lengths(k.h.ops)[k.h.numLit..]
  }

  /** The block type and the description of the codes. */
  ghost function CodesBits(k: Codes): seq<bool>
    requires CodesOk(k)
  {
    if k.Static? then ToBits(1, 2) else ToBits(2, 2) + HeaderBits(k.h)
  }

  /** A decompressor accepts the codes. */
  ghost predicate Accepted(k: Codes)
  {
    CodesOk(k) && Acceptable(LitOf(k)) && Acceptable(DistOf(k))
  }

  /** The codes are such as a decompressor accepts, and all tokens have a code. */
  ghost predicate Coded(k: Codes, ts: seq<Token>)
  {
    && Accepted(k) && AllValid(ts) && ValidSizes(LitOf(k)) && ValidSizes(DistOf(k))
    && AllCodable(LitOf(k), DistOf(k), ItemsOf(ts)) && Used(LitOf(k), END_OF_BLOCK)
  }

  /** A compressed block behind the bit that says whether it is the last one. */
  ghost function CodedBits(k: Codes, ts: seq<Token>): seq<bool>
    requires Coded(k, ts)
  {
    CodesBits(k) + BlockBits(LitOf(k), DistOf(k), ItemsOf(ts))
  }

  // ---------------------------------------------------------------- fixed codes

  lemma StaticCoded(ts: seq<Token>)
    requires AllValid(ts)
    ensures Coded(Static, ts)
  {
    hide CountLen, FirstCode, EndCode, Pow2, Acceptable;
    StaticFull();
    var lit, dis := StaticLit(), StaticDist();
    assert lit[END_OF_BLOCK] <= MAX_LEN;
    forall k | 0 <= k < |ts| ensures Codable(lit, dis, ItemsOf(ts)[k]) {
      StaticToken(ts[k]);
    }
  }

  /** The four loops that set the fixed lengths. */
  method SetStatic(litSizes: array<nat>, distSizes: array<nat>)
    requires litSizes.Length == LIT_SYMS && distSizes.Length == DIST_SYMS && litSizes != distSizes
    modifies litSizes, distSizes
    ensures litSizes[..] == StaticLit() && distSizes[..] == StaticDist()
  {
    for i := 0 to 144
      invariant forall j :: 0 <= j < i ==> litSizes[j] == 8
    { litSizes[i] := 8; }
    for i := 144 to 256
      invariant forall j :: 0 <= j < i ==> litSizes[j] == if j < 144 then 8 else 9
    { litSizes[i] := 9; }
    for i := 256 to 280
      invariant forall j :: 0 <= j < i ==> litSizes[j] == if j < 144 then 8 else if j < 256 then 9 else 7
    { litSizes[i] := 7; }
    for i := 280 to 288
      invariant forall j :: 0 <= j < i ==> litSizes[j] == if j < 144 then 8 else if j < 256 then 9 else if j < 280 then 7 else 8
    { litSizes[i] := 8; }
    forall i | 0 <= i < 32 { distSizes[i] := 5; }
  }

  /** Codes for lengths that are given (`tdefl_optimize_huffman_table` with `static_table`). */
  method StaticTable(sizes: array<nat>, codes: array<nat>)
    requires sizes.Length == codes.Length && sizes != codes && forall s :: 0 <= s < sizes.Length ==> 1 <= sizes[s] <= MAX_LEN
    modifies codes
    ensures CodesFor(sizes[..], codes[..])
  {
    hide CountLen, RevCode;
    ghost var z := sizes[..];
    var num := new nat[33](_ => 0);
    NoRank(z);
    for i := 0 to sizes.Length
      invariant sizes[..] == z && forall l :: 0 <= l < 33 ==> num[l] == CountLen(z[..i], l)
    {
      RankStep(z, i);
      num[sizes[i]] := num[sizes[i]] + 1;
    }
    assert z[..sizes.Length] == z;
    AssignCodes(sizes, codes, num, MAX_LEN);
    assert sizes[..] == z;
  }

  method StartStaticBlock(w: Writer, litSizes: array<nat>, litCodes: array<nat>, distSizes: array<nat>, distCodes: array<nat>)
    requires w.Valid() && litSizes.Length == litCodes.Length == LIT_SYMS && distSizes.Length == distCodes.Length == DIST_SYMS
    requires litSizes != litCodes && litSizes != distSizes && litSizes != distCodes && litCodes != distSizes && litCodes != distCodes && distSizes != distCodes
    modifies w`pos, w`buffer, w`bitsIn, w`sent, w.out, litSizes, litCodes, distSizes, distCodes
    ensures w.Valid() && old(w.pos) <= w.pos && w.sent == old(w.sent) + CodesBits(Static)
    ensures litSizes[..] == StaticLit() && distSizes[..] == StaticDist() && CodesFor(litSizes[..], litCodes[..]) && CodesFor(distSizes[..], distCodes[..])
  {
    hide ToBits, CodesFor, StaticLit, StaticDist;
    SetStatic(litSizes, distSizes);
    assert forall s :: 0 <= s < LIT_SYMS ==> litSizes[..][s] == litSizes[s];
    assert forall s :: 0 <= s < DIST_SYMS ==> distSizes[..][s] == distSizes[s];
    StaticTable(litSizes, litCodes);
    StaticTable(distSizes, distCodes);
    assert 1 < Pow2(2) by { assert Pow2(2) == 4; }
    w.PutBits(1, 2);
  }

  // ---------------------------------------------------------------- codes built for the tokens

  /** What the lengths of both codes must offer. */
  ghost predicate Serves(lit: seq<nat>, dis: seq<nat>, ts: seq<Token>)
  {
    && AllValid(ts) && |lit| == LIT_SYMS && |dis| == DIST_SYMS && ValidSizes(lit) && ValidSizes(dis)
    && Acceptable(lit) && Acceptable(dis) && AllCodable(lit, dis, ItemsOf(ts)) && Used(lit, END_OF_BLOCK)
    && Trailing(lit, 286) && Trailing(dis, 30) && Frugal(BlockCounts(ts), lit) && Frugal(DistCounts(ts), dis)
  }

  /** The lengths built from the counts serve the tokens. */
  lemma BuiltServes(litCounts: seq<u16>, distCounts: seq<u16>, lit: seq<nat>, dis: seq<nat>, ts: seq<Token>)
    requires AllValid(ts) && litCounts == LitCounts(ts)[END_OF_BLOCK := 1] && distCounts == DistCounts(ts)
    requires LengthsFor(litCounts, lit, MAX_LEN) && LengthsFor(distCounts, dis, MAX_LEN)
    requires Frugal(litCounts, lit) && Frugal(distCounts, dis)
    ensures Serves(lit, dis, ts)
  {
    hide LitCount, DistCount, UsedSyms, Full, Roomy, Acceptable, AllCodable, ItemsOf, Frugal;
    BuiltIsAcceptable(litCounts, lit, MAX_LEN);
    BuiltIsAcceptable(distCounts, dis, MAX_LEN);
    forall s: nat | LitCount(ts, s) > 0 ensures Used(lit, s) {
      ReservedUnused(ts, s);
      assert litCounts[s] == LitCount(ts, s);
    }
    forall s: nat | DistCount(ts, s) > 0 ensures Used(dis, s) {
      ReservedUnused(ts, s);
      assert distCounts[s] == DistCount(ts, s);
    }
    CountedIsCodable(ts, lit, dis);
    ReservedUnused(ts, 286);
    ReservedUnused(ts, 287);
    ReservedUnused(ts, 30);
    ReservedUnused(ts, 31);
    assert litCounts[286] == 0 && litCounts[287] == 0 && distCounts[30] == 0 && distCounts[31] == 0;
  }

  method BuildCodes(litCount: array<u16>, distCount: array<u16>, litSizes: array<nat>, litCodes: array<nat>,
                    distSizes: array<nat>, distCodes: array<nat>, ghost ts: seq<Token>)
    requires AllValid(ts) && |ts| < 0xFFFF && Counted(litCount[..], distCount[..], ts) && litCount != distCount
    requires litSizes.Length == litCodes.Length == LIT_SYMS && distSizes.Length == distCodes.Length == DIST_SYMS
    requires litSizes != litCodes && litSizes != distSizes && litSizes != distCodes && litCodes != distSizes && litCodes != distCodes && distSizes != distCodes
    modifies litCount, litSizes, litCodes, distSizes, distCodes
    ensures Serves(litSizes[..], distSizes[..], ts) && CodesFor(litSizes[..], litCodes[..]) && CodesFor(distSizes[..], distCodes[..])
  {
    hide LitCount, DistCount, LengthsFor, CodesFor, Serves, Sum, Pow2, Frugal;
    ghost var c, d := litCount[..], distCount[..];
    CountsFit(ts);
    assert c == LitCounts(ts) && d == DistCounts(ts);
    litCount[END_OF_BLOCK] := 1;
    assert litCount[..] == c[END_OF_BLOCK := 1] && distCount[..] == d;
    RoomForAll();
    OptimizeHuffmanTable(litCount, litSizes, litCodes, MAX_LEN);
    ghost var z, zc := litSizes[..], litCodes[..];
    assert distCount[..] == d;
    OptimizeHuffmanTable(distCount, distSizes, distCodes, MAX_LEN);
    assert litSizes[..] == z && litCodes[..] == zc;
    BuiltServes(c[END_OF_BLOCK := 1], d, z, distSizes[..], ts);
  }

  lemma RoomForAll()
    ensures LIT_SYMS <= Pow2(MAX_LEN) && DIST_SYMS <= Pow2(MAX_LEN) && NUM_LENGTH_SYMS <= Pow2(7)
  {
    assert Pow2(7) == 128 && Pow2(9) == 512;
    Pow2Mono(9, MAX_LEN);
  }

  lemma CountsFit(ts: seq<Token>)
    requires AllValid(ts) && |ts| < 0xFFFF
    ensures Sum(LitCounts(ts)[END_OF_BLOCK := 1]) < 0x1_0000 && Sum(DistCounts(ts)) < 0x1_0000
  {
    hide LitCount, DistCount, Sum;
    CountsSum(ts);
    ReservedUnused(ts, END_OF_BLOCK);
    SumBump(LitCounts(ts), END_OF_BLOCK);
  }

  // ---------------------------------------------------------------- describing them

  /** How many lengths are worth sending: at least `min`, and up to the last symbol in use. */
  method CountCodes(sizes: array<nat>, min: nat, max: nat) returns (n: nat)
    requires 1 <= min <= max <= sizes.Length && Trailing(sizes[..], max)
    ensures min <= n <= max && Trailing(sizes[..], n) && (n == min || sizes[n - 1] != 0)
  {
    n := max;
    while n > min && sizes[n - 1] == 0
      invariant min <= n <= max && Trailing(sizes[..], n)
    {
      n := n - 1;
    }
  }

  /** Operations whose symbols were counted have codes. */
  lemma CountedOps(ops: seq<Op>, counts: seq<u16>, cl: seq<nat>, limit: nat)
    requires AllOk(ops) && |counts| == NUM_LENGTH_SYMS && LengthsFor(counts, cl, limit) && limit <= MAX_LEN
    requires forall sym :: 0 <= sym < NUM_LENGTH_SYMS ==> counts[sym] == SymCount(ops, sym)
    ensures OpsCodable(cl, ops)
  {
    forall k | 0 <= k < |ops| ensures OpCodable(cl, ops[k]) {
      OpCounted(ops, k);
    }
  }

  lemma {:induction false} OpCounted(ops: seq<Op>, k: nat)
    requires AllOk(ops) && k < |ops|
    ensures SymCount(ops, OpSym(ops[k])) > 0
  {
    if k < |ops| - 1 { OpCounted(ops[..|ops| - 1], k); }
  }

  lemma {:induction false} OpsSum(ops: seq<Op>, c: seq<nat>)
    requires AllOk(ops) && |c| == NUM_LENGTH_SYMS && forall sym :: 0 <= sym < NUM_LENGTH_SYMS ==> c[sym] == SymCount(ops, sym)
    ensures Sum(c) == |ops|
  {
    hide Sum;
    if ops == [] {
      SumZero(c);
    } else {
      var init, s := ops[..|ops| - 1], OpSym(ops[|ops| - 1]);
      assert c[s] == SymCount(init, s) + 1;
      var d := c[s := c[s] - 1];
      OpsSum(init, d);
      SumBump(d, s);
      assert c == d[s := d[s] + 1];
    }
  }

  lemma OpsFewEnough(ops: seq<Op>, counts: seq<u16>, total: nat)
    requires OpsFit(ops) && AllOk(ops) && |Lengths(ops)| == total < 0x1_0000 && |counts| == NUM_LENGTH_SYMS
    requires forall sym :: 0 <= sym < NUM_LENGTH_SYMS ==> counts[sym] == SymCount(ops, sym)
    ensures Sum(counts) < 0x1_0000
  {
    hide Sum, SymCount;
    PackedShort(ops);
    OpsSum(ops, counts);
  }

  /** Packs the lengths of both codes, builds the code length code, and sends the description. */
  method WriteCodes(w: Writer, litSizes: array<nat>, numLit: nat, distSizes: array<nat>, numDist: nat) returns (ghost h: Header)
    requires w.Valid() && 257 <= numLit <= 288 && 1 <= numDist <= 32 && numLit <= litSizes.Length && numDist <= distSizes.Length
    requires ValidSizes(litSizes[..]) && ValidSizes(distSizes[..])
    modifies w`pos, w`buffer, w`bitsIn, w`sent, w.out
    ensures w.Valid() && old(w.pos) <= w.pos && HeaderOk(h) && w.sent == old(w.sent) + CodesBits(Dynamic(h))
    ensures h.numLit == numLit && h.numDist == numDist && Lengths(h.ops) == litSizes[..numLit] + distSizes[..numDist]
    ensures h.ops == OpsOf(litSizes[..numLit] + distSizes[..numDist])
  {
    hide LengthsFor, CodesFor, Sum, Pow2, ToBits, Acceptable, HeaderBits, HeaderOk, Packed, SymCount, OpsCodable, OpsFit, Lengths, OpsOf;
    ghost var lit, dis, sent := litSizes[..], distSizes[..], w.sent;
    var toPack := JoinSizes(litSizes, numLit, distSizes, numDist);
    var packed, counts := new u8[320](_ => 0), new u16[NUM_LENGTH_SYMS](_ => 0);
    var n, ops := PackCodeSizes(toPack, packed, counts);
    var clSizes, clCodes := BuildLengthCode(counts, ops, numLit + numDist);
    TwoFits();
    w.PutBits(2, 2);
    h := WriteHeader(w, numLit, numDist, packed, n, clSizes, clCodes, ops);
    Assoc(sent, ToBits(2, 2), HeaderBits(h));
  }

  lemma TwoFits()
    ensures 2 < Pow2(2)
  {}

  method JoinSizes(litSizes: array<nat>, numLit: nat, distSizes: array<nat>, numDist: nat) returns (toPack: array<nat>)
    requires numLit <= litSizes.Length && numDist <= distSizes.Length && ValidSizes(litSizes[..]) && ValidSizes(distSizes[..])
    ensures fresh(toPack) && toPack[..] == litSizes[..numLit] + distSizes[..numDist] && forall k :: 0 <= k < toPack.Length ==> toPack[k] <= 15
  {
    ghost var lit, dis := litSizes[..], distSizes[..];
    toPack := new nat[numLit + numDist];
    forall i | 0 <= i < numLit { toPack[i] := litSizes[i]; }
    forall i | 0 <= i < numDist { toPack[numLit + i] := distSizes[i]; }
    forall k | 0 <= k < toPack.Length ensures toPack[k] <= 15 {
      assert toPack[k] == if k < numLit then lit[k] else dis[k - numLit];
    }
  }

  /** The code length code. */
  method BuildLengthCode(counts: array<u16>, ghost ops: seq<Op>, ghost total: nat) returns (clSizes: array<nat>, clCodes: array<nat>)
    requires counts.Length == NUM_LENGTH_SYMS && OpsFit(ops) && AllOk(ops) && |Lengths(ops)| == total < 0x1_0000
    requires forall sym :: 0 <= sym < NUM_LENGTH_SYMS ==> counts[..][sym] == SymCount(ops, sym)
    ensures fresh(clSizes) && fresh(clCodes) && clSizes.Length == clCodes.Length == 19
    ensures CodesFor(clSizes[..], clCodes[..]) && OpsCodable(clSizes[..], ops) && Acceptable(clSizes[..])
    ensures forall s :: 0 <= s < 19 ==> clSizes[s] <= 7
  {
    hide CodesFor, Sum, Pow2, Acceptable, SymCount, OpsCodable, Lengths, Full, Roomy, UsedSyms;
    clSizes, clCodes := new nat[19](_ => 0), new nat[19](_ => 0);
    OpsFewEnough(ops, counts[..], total);
    RoomForAll();
    ghost var c := counts[..];
    OptimizeHuffmanTable(counts, clSizes, clCodes, 7);
    CountedOps(ops, c, clSizes[..], 7);
    BuiltIsAcceptable(c, clSizes[..], 7);
    assert forall s :: 0 <= s < 19 ==> clSizes[..][s] <= 7;
  }

  lemma ServesParts(lit: seq<nat>, dis: seq<nat>, ts: seq<Token>)
    requires Serves(lit, dis, ts)
    ensures Trailing(lit, 286) && Trailing(dis, 30) && ValidSizes(lit) && ValidSizes(dis) && AllValid(ts)
    ensures AllCodable(lit, dis, ItemsOf(ts)) && Used(lit, END_OF_BLOCK) && |lit| == LIT_SYMS && |dis| == DIST_SYMS
    ensures Frugal(BlockCounts(ts), lit) && Frugal(DistCounts(ts), dis)
  {}

  /** The decompressor, which sees the shortened lengths, reads the same block. */
  lemma DynamicCoded(lit: seq<nat>, dis: seq<nat>, numLit: nat, numDist: nat, h: Header, ts: seq<Token>)
    requires Serves(lit, dis, ts) && Trailing(lit, numLit) && Trailing(dis, numDist) && HeaderOk(h)
    requires h.numLit == numLit && h.numDist == numDist && Lengths(h.ops) == lit[..numLit] + dis[..numDist]
    ensures Coded(Dynamic(h), ts) && AllValid(ts) && AllCodable(lit, dis, ItemsOf(ts)) && Used(lit, END_OF_BLOCK)
    ensures BlockBits(LitOf(Dynamic(h)), DistOf(Dynamic(h)), ItemsOf(ts)) == BlockBits(lit, dis, ItemsOf(ts))
  {
    hide HeaderOk, Lengths, OpsFit, Acceptable, AllCodable, ItemsOf, BlockBits;
    OkFits(h);
    assert Lengths(h.ops)[..numLit] == lit[..numLit] && Lengths(h.ops)[numLit..] == dis[..numDist];
    TrailingBlock(lit, dis, numLit, numDist, ItemsOf(ts));
    TrailingAcceptable(lit, numLit);
    TrailingAcceptable(dis, numDist);
  }

  lemma OkFits(h: Header)
    requires HeaderOk(h)
    ensures OpsFit(h.ops) && |Lengths(h.ops)| == h.numLit + h.numDist
  {}

  /** The whole description of a dynamic block. */
  method StartDynamicBlock(w: Writer, litCount: array<u16>, distCount: array<u16>, litSizes: array<nat>, litCodes: array<nat>,
                           distSizes: array<nat>, distCodes: array<nat>, ghost ts: seq<Token>) returns (ghost k: Codes)
    requires w.Valid() && AllValid(ts) && |ts| < 0xFFFF && Counted(litCount[..], distCount[..], ts) && litCount != distCount
    requires litSizes.Length == litCodes.Length == LIT_SYMS && distSizes.Length == distCodes.Length == DIST_SYMS
    requires litSizes != litCodes && litSizes != distSizes && litSizes != distCodes && litCodes != distSizes && litCodes != distCodes && distSizes != distCodes
    modifies w`pos, w`buffer, w`bitsIn, w`sent, w.out, litCount, litSizes, litCodes, distSizes, distCodes
    ensures w.Valid() && old(w.pos) <= w.pos && Coded(k, ts) && w.sent == old(w.sent) + CodesBits(k)
    ensures Serves(litSizes[..], distSizes[..], ts) && CodesFor(litSizes[..], litCodes[..]) && CodesFor(distSizes[..], distCodes[..])
    ensures BlockBits(LitOf(k), DistOf(k), ItemsOf(ts)) == BlockBits(litSizes[..], distSizes[..], ItemsOf(ts))
    ensures Lean(k, ts) && k.Dynamic?
    ensures Shortest(k, litSizes[..], distSizes[..])
  {
    hide LitCount, DistCount, LengthsFor, CodesFor, Serves, Sum, Pow2, Frugal, Units, ToBits, Acceptable, AllCodable, ItemsOf, BlockBits, HeaderBits, Trailing, Shortest, OpsOf;
    BuildCodes(litCount, distCount, litSizes, litCodes, distSizes, distCodes, ts);
    ServesParts(litSizes[..], distSizes[..], ts);
    var numLit := CountCodes(litSizes, 257, 286);
    var numDist := CountCodes(distSizes, 1, 30);
    ghost var lit, dis := litSizes[..], distSizes[..];
    var header := WriteCodes(w, litSizes, numLit, distSizes, numDist);
    assert litSizes[..] == lit && distSizes[..] == dis;
    k := Dynamic(header);
    NoShorter(k, lit, dis);
    DynamicCoded(lit, dis, numLit, numDist, header, ts);
    BuiltIsShort(lit, dis, ts);
  }

  /** Neither list of lengths ends with one that is not used, unless it is as short as it can be. */
  ghost predicate Shortest(k: Codes, lit: seq<nat>, dis: seq<nat>)
  {
    && k.Dynamic? && 1 <= k.h.numLit <= |lit| && 1 <= k.h.numDist <= |dis|
    && (k.h.numLit == 257 || lit[k.h.numLit - 1] != 0) && (k.h.numDist == 1 || dis[k.h.numDist - 1] != 0)
  }

  lemma NoShorter(k: Codes, lit: seq<nat>, dis: seq<nat>)
    requires k.Dynamic? && 1 <= k.h.numLit <= |lit| && 1 <= k.h.numDist <= |dis|
    requires (k.h.numLit == 257 || lit[k.h.numLit - 1] != 0) && (k.h.numDist == 1 || dis[k.h.numDist - 1] != 0)
    ensures Shortest(k, lit, dis)
  {}

  /** The body of the block is not much longer than with the fixed codes. */
  ghost predicate Lean(k: Codes, ts: seq<Token>)
    requires Coded(k, ts)
  {
    100 * |BlockBits(LitOf(k), DistOf(k), ItemsOf(ts))| <= 129 * Units(ts) + 800
  }

  // ---------------------------------------------------------------- the whole block

  ghost predicate Distinct(a: object, b: object, c: object, d: object)
  {
    a != b && a != c && a != d && b != c && b != d && c != d
  }

  /** `tdefl_compress_block`: the description of the codes and the tokens of the buffer. */
  method Compress(lz: LzCodeBuffer, w: Writer, isStatic: bool, litSizes: array<nat>, litCodes: array<nat>, distSizes: array<nat>, distCodes: array<nat>)
    returns (ok: bool, ghost k: Codes)
    requires lz.Sizes() && lz.codePos <= lz.buf.Length && AllValid(lz.tokens) && lz.buf[..lz.codePos] == Pack(lz.tokens)
    requires isStatic || Counted(lz.litCount[..], lz.distCount[..], lz.tokens)
    requires w.Valid() && w.out != lz.buf && litSizes.Length == litCodes.Length == LIT_SYMS && distSizes.Length == distCodes.Length == DIST_SYMS
    requires Distinct(litSizes, litCodes, distSizes, distCodes)
    modifies w`pos, w`buffer, w`bitsIn, w`sent, w.out, lz.litCount, litSizes, litCodes, distSizes, distCodes
    ensures w.Valid() && old(w.pos) <= w.pos && Coded(k, lz.tokens) && w.sent == old(w.sent) + CodedBits(k, lz.tokens)
    ensures (isStatic <==> k == Static) && (ok <==> w.pos < w.end) && lz.buf[..] == old(lz.buf[..])
    ensures k == Static || Lean(k, lz.tokens)
  {
    hide Lean, CodesFor, Pack, StaticLit, StaticDist, AllCodable, ItemsOf, BlockBits, HeaderBits, HeaderOk, Acceptable, ToBits, LitCount, DistCount, Lengths, ValidSizes;
    ghost var ts, b, sent := lz.tokens, lz.buf[..lz.codePos], w.sent;
    FewTokens(ts, lz.codePos);
    if isStatic {
      StartStaticBlock(w, litSizes, litCodes, distSizes, distCodes);
      k := Static;
      StaticCoded(ts);
    } else {
      k := StartDynamicBlock(w, lz.litCount, lz.distCount, litSizes, litCodes, distSizes, distCodes, ts);
      ServesParts(litSizes[..], distSizes[..], ts);
    }
    Assoc(sent, CodesBits(k), BlockBits(LitOf(k), DistOf(k), ItemsOf(ts)));
    assert lz.buf[..lz.codePos] == b;
    ok := CompressLzCodes(lz.buf, lz.codePos, w, litSizes, litCodes, distSizes, distCodes, ts);
  }

  lemma FewTokens(ts: seq<Token>, n: nat)
    requires AllValid(ts) && |Pack(ts)| == n <= 0x1_0000
    ensures |ts| < 0xFFFF
  {
    hide Pack;
    PackSize(ts);
  }
}
