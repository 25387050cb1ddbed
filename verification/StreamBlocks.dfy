/** What a decompressor may be given: a stream of good blocks, perhaps with one behind them that is to be
    refused; where its blocks stand, and what they add to the output. */
module StreamBlocks {
  import opened Options
  import opened Bits
  import opened Tokens
  import opened Canonical
  import opened BlockCode
  import opened DecodeTable
  import opened BitWriter
  import opened CodeLengths
  import opened BlockHeader
  import opened KnownInput
  import opened CompressBlock
  import opened DeflateStream
  import opened StoredReader

  lemma {:induction false} StreamPrefix(parts: seq<Part>, i: nat)
    requires PartsOk(parts) && i <= |parts|
    ensures PartsOk(parts[..i]) && StreamBits(parts[..i]) <= StreamBits(parts)
    decreases |parts|
  {
    hide PartBits, PartOk;
    if i < |parts| {
      var init := parts[..|parts| - 1];
      StreamPrefix(init, i);
      assert init[..i] == parts[..i];
    } else {
      assert parts[..i] == parts;
    }
  }

  lemma StreamStep(parts: seq<Part>, i: nat)
    requires PartsOk(parts) && i < |parts|
    ensures PartsOk(parts[..i]) && PartsOk(parts[..i + 1]) && PartOk(parts[i])
    ensures var n := |StreamBits(parts[..i])|; StreamBits(parts[..i + 1]) == StreamBits(parts[..i]) + PartBits(n, parts[i])
  {
    hide PartBits, PartOk;
    assert parts[..i + 1][..i] == parts[..i];
  }

  lemma {:induction false} UnpackPrefix(parts: seq<Part>, i: nat)
    requires Unpackable(parts) && i <= |parts|
    ensures Unpackable(parts[..i]) && Unpack(parts[..i]) <= Unpack(parts)
    decreases |parts|
  {
    if i < |parts| {
      var init := parts[..|parts| - 1];
      UnpackPrefix(init, i);
      assert init[..i] == parts[..i];
    } else {
      assert parts[..i] == parts;
    }
  }

  lemma UnpackStep(parts: seq<Part>, i: nat)
    requires Unpackable(parts) && i < |parts|
    ensures Unpackable(parts[..i]) && Unpackable(parts[..i + 1]) && PartFits(Unpack(parts[..i]), parts[i])
    ensures Unpack(parts[..i + 1]) == AddPart(Unpack(parts[..i]), parts[i])
  {
    UnpackPrefix(parts, i);
    UnpackPrefix(parts, i + 1);
    assert parts[..i + 1][..i] == parts[..i];
  }

  // ---------------------------------------------------------------- one block

  /** What a decompressor may find next. */
  datatype Block = Good(part: Part) | Bad(fault: Fault)

  ghost predicate BlockOk(b: Block)
  {
    match b
    case Good(p) => PartOk(p)
    case Bad(f) => FaultOk(f)
  }

  ghost function NextBits(n: nat, b: Block): seq<bool>
    requires BlockOk(b)
  {
    match b
    case Good(p) => PartBits(n, p)
    case Bad(f) => FaultBits(n, f)
  }

  /** The block is good, or bad, behind the output `h`. */
  predicate BlockFits(h: seq<u8>, b: Block)
  {
    match b
    case Good(p) => PartFits(h, p)
    case Bad(f) => Refused(h, f)
  }

  /** What is written of it. */
  function AddBlock(h: seq<u8>, b: Block): seq<u8>
    requires BlockFits(h, b)
  {
    match b
    case Good(p) => AddPart(h, p)
    case Bad(f) => AddFault(h, f)
  }

  /** The tokens of a block whose codes are accepted. */
  lemma AddTokens(h: seq<u8>, b: Block)
    requires BlockFits(h, b) && (Type(b) == 1 || Type(b) == 2)
    ensures !(b.Bad? && b.fault.BadCodes?) ==> AddBlock(h, b) == ExpandTo(h, TokensIn(b)) && (Expandable(h, TokensIn(b)) <==> b.Good?)
  {
    hide Expand, ExpandTo, Expandable;
    if b.Good? { ExpandAll(h, b.part.tokens); }
  }

  function Final(b: Block): bool
  {
    match b
    case Good(p) => p.final
    case Bad(f) => f.final
  }

  function Type(b: Block): nat
  {
    match b
    case Good(p) => if p.Stored? then 0 else if p.codes.Static? then 1 else 2
    case Bad(f) => if f.Reserved? then 3 else if f.BadLength? then 0 else if f.TooFar? && f.codes.Static? then 1 else 2
  }

  /** The first three bits of a block: last block or not, and the type. */
  function TypeField(b: Block): nat
  {
    (if Final(b) then 1 else 0) + 2 * Type(b)
  }

  /** What follows them. */
  ghost function BlockRest(n: nat, b: Block): seq<bool>
    requires BlockOk(b)
  {
    match b
    case Good(Compressed(_, codes, tokens)) =>
      (if codes.Static? then [] else HeaderBits(codes.h)) + BlockBits(LitOf(codes), DistOf(codes), ItemsOf(tokens))
    case Good(Stored(_, bytes)) => Padding(n + 3) + StoredBody(bytes)
    case Bad(Reserved(_)) => []
    case Bad(BadLength(_, size, check)) => Padding(n + 3) + StoredHead(size, check)
    case Bad(BadCodes(_, h)) => SentBits(h)
    case Bad(TooFar(_, codes, tokens)) =>
      (if codes.Static? then [] else HeaderBits(codes.h)) + BlockBits(LitOf(codes), DistOf(codes), ItemsOf(tokens))
  }

  /** The two lengths of a block of type 0. */
  function StoredSize(b: Block): nat
    requires Type(b) == 0
  {
    match b
    case Good(p) => |p.bytes|
    case Bad(f) => f.size
  }

  function StoredCheck(b: Block): nat
    requires Type(b) == 0
  {
    match b
    case Good(p) => Xor(|p.bytes|, 0xFFFF)
    case Bad(f) => f.check
  }

  /** The bytes of a stored block. */
  function StoredBytes(b: Block): seq<u8>
    requires Type(b) == 0
  {
    match b
    case Good(p) => p.bytes
    case Bad(_) => []
  }

  lemma RestStored(n: nat, b: Block)
    requires BlockOk(b) && Type(b) == 0
    ensures var size, check, bytes := StoredSize(b), StoredCheck(b), StoredBytes(b);
      && size < 0x1_0000 && check < 0x1_0000 && (check == Xor(size, 0xFFFF) <==> b.Good?) && (b.Good? ==> size == |bytes|)
      && BlockRest(n, b) == Padding(n + 3) + StoredBits(size, check, bytes)
  {
    hide StoredHead, Padding, Xor, BytesBits;
    match b {
      case Good(p) => Inverted(|p.bytes|);
      case Bad(f) => assert StoredHead(f.size, f.check) + [] == StoredHead(f.size, f.check);
    }
  }

  lemma TypeBits(b: Block)
    ensures TypeField(b) < 8 == Pow2(3)
    ensures TypeField(b) % 2 == 1 <==> Final(b)
    ensures TypeField(b) / 2 == Type(b)
  {
    assert Pow2(3) == 8;
  }

  lemma ThreeBitsJoin(final: bool, t: nat)
    requires t < 4
    ensures FinalBit(final) + ToBits(t, 2) == ToBits((if final then 1 else 0) + 2 * t, 3)
  {
    var b := if final then 1 else 0;
    var v := b + 2 * t;
    assert ToBits(v, 3) == [v % 2 == 1] + ToBits(v / 2, 2);
    assert ToBits(b, 1) == [b % 2 == 1] + ToBits(b / 2, 0);
  }

  lemma BlockFields(n: nat, b: Block)
    requires BlockOk(b)
    ensures NextBits(n, b) == ToBits(TypeField(b), 3) + BlockRest(n, b) && TypeField(b) < Pow2(3)
    ensures |NextBits(n, b)| == 3 + |BlockRest(n, b)|
  {
    hide StoredBody, StoredHead, Padding, ToBits, HeaderBits, BlockBits, ItemsOf, LitOf, DistOf, FinalBit, HeaderOk, AllCodable, Acceptable, ValidSizes;
    TypeBits(b);
    ThreeBitsJoin(Final(b), Type(b));
    var f, t := FinalBit(Final(b)), ToBits(Type(b), 2);
    assert |ToBits(TypeField(b), 3)| == 3;
    match b {
      case Good(Compressed(_, codes, tokens)) =>
        JoinCoded(f, t, if codes.Static? then [] else HeaderBits(codes.h), BlockBits(LitOf(codes), DistOf(codes), ItemsOf(tokens)));
      case Good(Stored(_, bytes)) =>
        JoinParts(f, t, Padding(n + 3), StoredBody(bytes));
      case Bad(Reserved(_)) =>
        assert f + t + [] == f + t;
      case Bad(BadLength(_, size, check)) =>
        JoinParts(f, t, Padding(n + 3), StoredHead(size, check));
      case Bad(BadCodes(_, h)) =>
      case Bad(TooFar(_, codes, tokens)) =>
        JoinCoded(f, t, if codes.Static? then [] else HeaderBits(codes.h), BlockBits(LitOf(codes), DistOf(codes), ItemsOf(tokens)));
    }
  }

  lemma JoinParts(a: seq<bool>, b: seq<bool>, c: seq<bool>, d: seq<bool>)
    ensures a + b + c + d == (a + b) + (c + d)
  {}

  lemma JoinCoded(a: seq<bool>, b: seq<bool>, c: seq<bool>, d: seq<bool>)
    ensures a + ((b + c) + d) == (a + b) + (c + d) && b + [] == b
  {}

  /** The codes and tokens of a block of type 1 or 2. */
  function CodesIn(b: Block): Codes
    requires Type(b) == 1 || Type(b) == 2
  {
    match b
    case Good(p) => p.codes
    case Bad(f) => if f.TooFar? then f.codes else Dynamic(f.h)
  }

  function TokensIn(b: Block): seq<Token>
    requires Type(b) == 1 || Type(b) == 2
  {
    match b
    case Good(p) => p.tokens
    case Bad(f) => if f.TooFar? then f.tokens else []
  }

  /** The description of the codes, if there is one, and the symbols, if the codes are accepted. */
  lemma RestCompressed(n: nat, b: Block)
    requires BlockOk(b) && (Type(b) == 1 || Type(b) == 2)
    ensures var k, ts := CodesIn(b), TokensIn(b);
      && (k.Dynamic? ==> Sent(k.h)) && (k.Static? <==> Type(b) == 1) && (Accepted(k) <==> !(b.Bad? && b.fault.BadCodes?)) && (Accepted(k) ==> Coded(k, ts))
      && BlockRest(n, b) == (if k.Static? then [] else SentBits(k.h)) + (if Accepted(k) then BlockBits(LitOf(k), DistOf(k), ItemsOf(ts)) else [])
      && (Accepted(k) && k.Dynamic? ==> SentBits(k.h) == HeaderBits(k.h))
  {
    hide HeaderBits, HeaderOk, Sent, SentBits, BlockBits, ItemsOf, LitOf, DistOf, AllCodable, Acceptable, ValidSizes;
    var k := CodesIn(b);
    if k.Dynamic? { AcceptedHeader(k.h); }
  }

  /** Both codes of a described block have lengths that fit. */
  lemma LensSmall(k: Codes)
    requires CodesOk(k)
    ensures ValidSizes(LitOf(k)) && ValidSizes(DistOf(k))
  {
    hide OpsCodable, Acceptable, Lengths, OpsFit, Swizzle;
    if k.Dynamic? { LengthsSmall(k.h.ops); }
  }

  lemma LensApart(k: Codes)
    requires k.Dynamic? && HeaderOk(k.h)
    ensures CodesOk(k) && LitOf(k) + DistOf(k) == Lengths(k.h.ops) && |LitOf(k)| == k.h.numLit && |DistOf(k)| == k.h.numDist
  {
    hide OpsCodable, Acceptable, Lengths, OpsFit, Swizzle;
  }

  lemma PaddingLength(n: nat)
    ensures |Padding(n)| == (8 - n % 8) % 8
  {
    hide ToBits;
  }

  lemma ToBoundary(bits: nat, n: nat)
    requires (bits + n) % 8 == 0
    ensures bits % 8 == (8 - n % 8) % 8
  {
    var a, b := bits % 8, n % 8;
    assert bits + n == 8 * (bits / 8 + n / 8) + (a + b);
  }

  // ---------------------------------------------------------------- the stream

  /** Blocks that are good, and how the stream ends. */
  datatype Stream = Stream(parts: seq<Part>, fault: Option<Fault>)

  ghost predicate StreamOk(s: Stream)
  {
    && PartsOk(s.parts) && Unpackable(s.parts) && Ends(s.parts, s.fault)
    && (s.fault.Some? ==> Refused(Unpack(s.parts), s.fault.value))
  }

  ghost function AllBits(s: Stream): seq<bool>
    requires StreamOk(s)
  {
    StreamBits(s.parts) + EndBits(|StreamBits(s.parts)|, s.fault)
  }

  function Count(s: Stream): nat
  {
    |s.parts| + if s.fault.Some? then 1 else 0
  }

  function BlockAt(s: Stream, i: nat): Block
    requires i < Count(s)
  {
    if i < |s.parts| then Good(s.parts[i]) else Bad(s.fault.value)
  }

  /** Where block `i` begins. */
  ghost function At(s: Stream, i: nat): nat
    requires StreamOk(s) && i <= |s.parts|
  {
    StreamPrefix(s.parts, i);
    |StreamBits(s.parts[..i])|
  }

  /** The output before it. */
  ghost function OutAt(s: Stream, i: nat): seq<u8>
    requires StreamOk(s) && i <= |s.parts|
  {
    UnpackPrefix(s.parts, i);
    Unpack(s.parts[..i])
  }

  ghost function AllOutput(s: Stream): seq<u8>
    requires StreamOk(s)
  {
    Output(s.parts, s.fault)
  }

  lemma LastIsFinal(parts: seq<Part>, fault: Option<Fault>, i: nat)
    requires Ends(parts, fault) && i < |parts|
    ensures parts[i].final <==> fault.None? && i + 1 == |parts|
  {
    assert i + 1 < |parts| ==> parts[i] == parts[..|parts| - 1][i];
  }

  /** One block more. */
  lemma BlockFollows(s: Stream, i: nat)
    requires StreamOk(s) && i < Count(s)
    ensures var b := BlockAt(s, i);
      && BlockOk(b) && BlockFits(OutAt(s, i), b) && Stands(NextBits(At(s, i), b), AllBits(s), At(s, i)) && (b.Good? <==> i < |s.parts|)
      && (i < |s.parts| ==>
        && At(s, i + 1) == At(s, i) + |NextBits(At(s, i), b)| && OutAt(s, i + 1) == AddBlock(OutAt(s, i), b)
        && (Final(b) <==> i + 1 == Count(s)))
      && AddBlock(OutAt(s, i), b) <= AllOutput(s) && (i == |s.parts| ==> AddBlock(OutAt(s, i), b) == AllOutput(s))
  {
    hide StreamBits, Unpack, Unpackable, PartBits, PartOk, PartFits, AddPart, AddFault, Refused, FaultBits, FaultOk, PartsOk;
    if i < |s.parts| {
      StreamStep(s.parts, i);
      UnpackStep(s.parts, i);
      UnpackPrefix(s.parts, i + 1);
      LastIsFinal(s.parts, s.fault, i);
      OutputGrows(s.parts, s.fault);
      StreamPrefix(s.parts, i + 1);
      PrefixStands(StreamBits(s.parts[..i]), PartBits(At(s, i), s.parts[i]), StreamBits(s.parts), EndBits(|StreamBits(s.parts)|, s.fault));
    } else {
      assert s.parts[..i] == s.parts;
      StandsBehind(StreamBits(s.parts), EndBits(|StreamBits(s.parts)|, s.fault), []);
      assert EndBits(|StreamBits(s.parts)|, s.fault) + [] == EndBits(|StreamBits(s.parts)|, s.fault);
    }
  }

  lemma OutputSoFar(s: Stream, i: nat)
    requires StreamOk(s) && i < Count(s)
    ensures OutAt(s, i) <= AllOutput(s)
  {
    hide StreamOk, At, OutAt, NextBits, BlockFits, AllBits, AllOutput, Expandable, Expand, ExpandTo;
    BlockFollows(s, i);
  }

  /** Where block `i` ends. */
  ghost function EndAt(s: Stream, i: nat): nat
    requires StreamOk(s) && i < Count(s)
  {
    BlockFollows(s, i);
    At(s, i) + |NextBits(At(s, i), BlockAt(s, i))|
  }

  lemma NextFollows(s: Stream, i: nat)
    requires StreamOk(s) && i < |s.parts|
    ensures At(s, i + 1) == EndAt(s, i) && BlockFits(OutAt(s, i), BlockAt(s, i)) && OutAt(s, i + 1) == AddBlock(OutAt(s, i), BlockAt(s, i))
    ensures Final(BlockAt(s, i)) <==> i + 1 == Count(s)
    ensures i + 1 == Count(s) ==> s.fault.None?
  {
    hide StreamOk, At, OutAt, NextBits, AddBlock, BlockFits, AllBits, AllOutput;
    BlockFollows(s, i);
  }

  lemma EndsInside(s: Stream, i: nat)
    requires StreamOk(s) && i < Count(s)
    ensures EndAt(s, i) <= |AllBits(s)|
  {
    hide StreamOk, At, OutAt, NextBits, AddBlock, BlockFits, AllBits, AllOutput;
    BlockFollows(s, i);
  }

  /** Blocks follow each other in the stream, and so does their output. */
  lemma {:induction false} InOrder(s: Stream, i: nat, j: nat)
    requires StreamOk(s) && i <= j <= |s.parts|
    ensures At(s, i) <= At(s, j) && OutAt(s, i) <= OutAt(s, j)
    decreases j
  {
    hide StreamOk, At, OutAt, NextBits, AddBlock, BlockFits, AllBits, AllOutput, EndAt;
    if i < j {
      InOrder(s, i, j - 1);
      NextFollows(s, j - 1);
      BlockLong(s, j - 1);
      OutputGrowsOn(s, j - 1);
    }
  }

  lemma OutputGrowsOn(s: Stream, i: nat)
    requires StreamOk(s) && i < |s.parts| && BlockFits(OutAt(s, i), BlockAt(s, i))
    ensures OutAt(s, i) <= AddBlock(OutAt(s, i), BlockAt(s, i))
  {
    hide StreamOk, OutAt, Expand, Expandable;
  }

  /** If the input ends inside block `i`, the blocks that have arrived are those before it, and their output is
      the front of what is before it. */
  lemma HaveArrived(s: Stream, i: nat, j: nat, n: nat)
    requires StreamOk(s) && i < Count(s) && j <= |s.parts| && At(s, j) <= n < EndAt(s, i)
    ensures j <= i && OutAt(s, j) <= OutAt(s, i)
  {
    hide StreamOk, At, OutAt, EndAt;
    if j > i {
      NextFollows(s, i);
      InOrder(s, i + 1, j);
    } else {
      InOrder(s, j, i);
    }
  }

  lemma PrefixStands(a: seq<bool>, b: seq<bool>, all: seq<bool>, more: seq<bool>)
    requires a + b <= all
    ensures Stands(b, all + more, |a|)
  {
    assert (all + more)[|a|..|a| + |b|] == all[..|a + b|][|a|..];
  }

  lemma OutputGrows(parts: seq<Part>, fault: Option<Fault>)
    requires Unpackable(parts)
    ensures Unpack(parts) <= Output(parts, fault)
  {}

  lemma StreamStarts(s: Stream)
    requires StreamOk(s)
    ensures At(s, 0) == 0 && OutAt(s, 0) == [] && Count(s) > 0
  {
    assert s.parts[..0] == [];
  }

  /** Where the pieces of a block stand in the stream. */
  lemma PiecesStand(s: Stream, i: nat)
    requires StreamOk(s) && i < Count(s)
    ensures var b, n := BlockAt(s, i), At(s, i);
      && BlockOk(b) && Stands(ToBits(TypeField(b), 3), AllBits(s), n) && TypeField(b) < Pow2(3)
      && Stands(BlockRest(n, b), AllBits(s), n + 3) && |NextBits(n, b)| == 3 + |BlockRest(n, b)|
  {
    hide StreamOk, AllBits, At, OutAt, NextBits, BlockRest, AddBlock, BlockFits, ToBits, Pow2;
    BlockFollows(s, i);
    var b, n := BlockAt(s, i), At(s, i);
    BlockFields(n, b);
    SplitStands(ToBits(TypeField(b), 3), BlockRest(n, b), AllBits(s), n);
    ThreeLong(TypeField(b));
  }

  /** A block that is refused, unless for a match that reaches too far, adds nothing. */
  lemma FaultHere(s: Stream, i: nat)
    requires StreamOk(s) && i < Count(s) && BlockAt(s, i).Bad? && !BlockAt(s, i).fault.TooFar?
    ensures s.fault.Some? && AllOutput(s) == OutAt(s, i)
  {
    hide StreamOk, AllBits, At, OutAt, NextBits, AllOutput;
    BlockFollows(s, i);
  }

  lemma StoredPieces(s: Stream, i: nat)
    requires StreamOk(s) && i < Count(s) && Type(BlockAt(s, i)) == 0
    ensures var b, n := BlockAt(s, i), At(s, i);
      var size, check, bytes, from := StoredSize(b), StoredCheck(b), StoredBytes(b), n + 3 + |Padding(n + 3)|;
      && size < 0x1_0000 && check < 0x1_0000 && (check == Xor(size, 0xFFFF) <==> b.Good?) && (b.Good? ==> size == |bytes|) && from % 8 == 0
      && Stands(StoredBits(size, check, bytes), AllBits(s), from) && from + |StoredBits(size, check, bytes)| == EndAt(s, i) <= |AllBits(s)|
      && (b.Good? ==> BlockFits(OutAt(s, i), b) && AddBlock(OutAt(s, i), b) == OutAt(s, i) + bytes && |StoredBits(size, check, bytes)| == 32 + 8 * |bytes|)
      && (b.Good? ==> OutAt(s, i) + bytes <= AllOutput(s))
      && (b.Bad? ==> s.fault.Some? && AllOutput(s) == OutAt(s, i))
  {
    hide StreamOk, AllBits, At, OutAt, AllOutput, NextBits, BlockRest, StoredBits, Padding, Xor, Stands, ToBits, Pow2, TypeField, FaultOk, PartOk;
    var b, n := BlockAt(s, i), At(s, i);
    BlockFollows(s, i);
    PiecesStand(s, i);
    RestStored(n, b);
    var pad, bits := Padding(n + 3), StoredBits(StoredSize(b), StoredCheck(b), StoredBytes(b));
    SplitStands(pad, bits, AllBits(s), n + 3);
    PartEnds(AllBits(s), bits, n + 3 + |pad|);
    PaddingLength(n + 3);
    if b.Good? { StoredLength(StoredSize(b), StoredCheck(b), StoredBytes(b)); } else { FaultHere(s, i); }
  }

  lemma StoredLength(size: nat, check: nat, bytes: seq<u8>)
    requires check == Xor(size, 0xFFFF)
    ensures |StoredBits(size, check, bytes)| == 32 + 8 * |bytes|
  {
    hide Xor, ToBits;
  }

  lemma CodedPieces(s: Stream, i: nat)
    requires StreamOk(s) && i < Count(s) && (Type(BlockAt(s, i)) == 1 || Type(BlockAt(s, i)) == 2)
    ensures var b, n := BlockAt(s, i), At(s, i);
      var k, ts := CodesIn(b), TokensIn(b);
      && (k.Dynamic? ==> Sent(k.h) && Stands(SentBits(k.h), AllBits(s), n + 3)) && (k.Static? <==> Type(b) == 1)
      && (Accepted(k) ==> Coded(k, ts) && BlockFits(OutAt(s, i), b))
      && (Accepted(k) ==> var from := n + 3 + |if k.Static? then [] else SentBits(k.h)|;
           var bits := BlockBits(LitOf(k), DistOf(k), ItemsOf(ts));
           && Stands(bits, AllBits(s), from) && from + |bits| == EndAt(s, i) <= |AllBits(s)| && (k.Dynamic? ==> SentBits(k.h) == HeaderBits(k.h)))
      && (Accepted(k) ==>
           && ExpandTo(OutAt(s, i), ts) <= AllOutput(s) && AddBlock(OutAt(s, i), b) == ExpandTo(OutAt(s, i), ts)
           && (Expandable(OutAt(s, i), ts) <==> b.Good?) && (b.Bad? ==> s.fault.Some? && b.fault.TooFar? && AllOutput(s) == ExpandTo(OutAt(s, i), ts)))
      && (!Accepted(k) ==> s.fault.Some? && AllOutput(s) == OutAt(s, i))
  {
    hide StreamOk, AllBits, At, OutAt, AllOutput, NextBits, BlockRest, BlockBits, ItemsOf, LitOf, DistOf, SentBits, HeaderBits, Stands, Coded, Accepted, ExpandTo, Expandable, AddBlock, BlockFits, Sent;
    var b, n := BlockAt(s, i), At(s, i);
    var k, ts := CodesIn(b), TokensIn(b);
    BlockFollows(s, i);
    PiecesStand(s, i);
    RestCompressed(n, b);
    AddTokens(OutAt(s, i), b);
    SplitStands(if k.Static? then [] else SentBits(k.h), if Accepted(k) then BlockOf(k, ts) else [], AllBits(s), n + 3);
    PartEnds(AllBits(s), BlockRest(n, b), n + 3);
    if !Accepted(k) { FaultHere(s, i); }
  }

  ghost function BlockOf(k: Codes, ts: seq<Token>): seq<bool>
    requires Coded(k, ts)
  {
    BlockBits(LitOf(k), DistOf(k), ItemsOf(ts))
  }

  lemma BlockLong(s: Stream, i: nat)
    requires StreamOk(s) && i < Count(s)
    ensures At(s, i) + 3 <= EndAt(s, i)
  {
    hide StreamOk, AllBits, At, OutAt, NextBits, BlockRest, Stands;
    PiecesStand(s, i);
  }

  lemma HeaderLong(s: Stream, i: nat)
    requires StreamOk(s) && i < Count(s) && Type(BlockAt(s, i)) == 2
    ensures Sent(CodesIn(BlockAt(s, i)).h) && At(s, i) + 3 + |SentBits(CodesIn(BlockAt(s, i)).h)| <= EndAt(s, i)
  {
    hide StreamOk, AllBits, At, OutAt, NextBits, BlockRest, BlockBits, ItemsOf, LitOf, DistOf, SentBits, HeaderBits, Stands, Coded, Accepted, Sent;
    PiecesStand(s, i);
    RestCompressed(At(s, i), BlockAt(s, i));
  }

  lemma ThreeLong(v: nat)
    ensures |ToBits(v, 3)| == 3
  {}

  lemma SplitStands(a: seq<bool>, b: seq<bool>, all: seq<bool>, p: nat)
    requires Stands(a + b, all, p)
    ensures Stands(a, all, p) && Stands(b, all, p + |a|)
  {
    assert Stands(a, a + b, 0) && Stands(b, a + b, |a|);
    StandsIn(a, a + b, all, p, 0);
    StandsIn(b, a + b, all, p, |a|);
  }
}
