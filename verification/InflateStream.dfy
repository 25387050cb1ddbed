/** The whole decompressor (`tinfl_decompress`): block after block, down to the bytes read ahead that are
    handed back, with every point at which it can be interrupted and called again. */
module InflateStream {
  import opened Bits
  import opened Tokens
  import opened Canonical
  import opened LzSymbols
  import opened BlockCode
  import opened DecodeTable
  import opened BlockTables
  import opened BitWriter
  import opened BitReader
  import opened HuffDecode
  import opened KnownInput
  import opened CodeLengths
  import opened BlockHeader
  import opened HeaderReader
  import opened OutputWindow
  import opened InflateBlock
  import opened Inflate
  import opened CompressBlock
  import opened DeflateStream
  import opened StoredReader
  import opened StreamBlocks

  /** Where it stands: before a block, in a stored block, in the description of codes, in the symbols of a
      block, or behind the stream. */
  datatype Stage = AtHead | InStored | InHeader | InBody | AtEnd

  /** The decompressor's arrays: code lengths, and the tables for the three codes. */
  class Memory {
    const litSizes: array<nat>
    const distSizes: array<nat>
    const clSizes: array<nat>
    const lens: array<nat>
    const litLookup: array<int>
    const litTree: array<int>
    const distLookup: array<int>
    const distTree: array<int>
    const clLookup: array<int>
    const clTree: array<int>

    ghost predicate Ok()
    {
      && litSizes.Length == LIT_SYMS && distSizes.Length == DIST_SYMS && clSizes.Length == 19 && lens.Length == LEN_CODES
      && FourApart(litSizes, distSizes, clSizes, lens)
      && litLookup.Length == FAST_SIZE && distLookup.Length == FAST_SIZE && litTree.Length == 576 && distTree.Length == 64
      && clLookup.Length == FAST_SIZE && clTree.Length == 38 && FourApart(litLookup, litTree, distLookup, distTree)
      && Apart(clLookup, litLookup, litTree, distLookup, distTree) && Apart(clTree, litLookup, litTree, distLookup, distTree) && clLookup != clTree
    }

    ghost function Arrays(): (a: set<object>)
    {
      var a: set<object>, b: set<object> := {litSizes, distSizes, clSizes, lens}, {litLookup, litTree, distLookup, distTree, clLookup, clTree};
      a + b
    }

    constructor ()
      ensures Ok() && fresh(Arrays())
    {
      litSizes, distSizes := new nat[LIT_SYMS](_ => 0), new nat[DIST_SYMS](_ => 0);
      clSizes, lens := new nat[19](_ => 0), new nat[LEN_CODES](_ => 0);
      litLookup, litTree := new int[FAST_SIZE](_ => 0), new int[576](_ => 0);
      distLookup, distTree := new int[FAST_SIZE](_ => 0), new int[64](_ => 0);
      clLookup, clTree := new int[FAST_SIZE](_ => 0), new int[38](_ => 0);
    }
  }

  class Decompressor {
    const r: Reader
    const w: Window
    const m: Memory
    var stage: Stage
    var final: bool
    var stored: ByteReader?
    var header: CodeReader?
    var body: Inflater?
    // The stream being read, and how many of its blocks are done.
    ghost const s: Stream
    ghost var i: nat

    /** Every distance fits a wrapping buffer; there nothing tells a match that reaches too far. */
    ghost predicate Wide()
    {
      w.wrap ==> w.out.Length >= DICT_SIZE && !(s.fault.Some? && s.fault.value.TooFar?)
    }

    /** What does not depend on the place. */
    ghost predicate Setting()
      reads this, r, w, w.out
    {
      m.Ok() && Apart(w.out, m.litLookup, m.litTree, m.distLookup, m.distTree) && StreamOk(s) && Wide() && r.Valid() && w.Valid() && Expects(r.input, 0, AllBits(s))
    }

    ghost predicate HeadPlace()
      requires StreamOk(s) && r.Valid()
      reads this, r, w
    {
      i < Count(s) && r.Own() && r.Pos() == At(s, i) && w.produced == OutAt(s, i)
    }

    ghost predicate StoredPlace()
      requires StreamOk(s)
      reads this, r, w, w.out, stored
    {
      && i < Count(s) && Type(BlockAt(s, i)) == 0 && final == Final(BlockAt(s, i))
      && stored != null && stored.r == r && stored.w == w && stored.Valid() && StoredFor(stored, s, i)
    }

    ghost predicate HeaderPlace()
      requires StreamOk(s)
      reads this, r, w, header, m.litSizes, m.distSizes, m.clSizes, m.lens, m.clLookup, m.clTree
    {
      && i < Count(s) && Type(BlockAt(s, i)) == 2 && final == Final(BlockAt(s, i)) && w.produced == OutAt(s, i)
      && header != null && header.r == r && header.litSizes == m.litSizes && header.distSizes == m.distSizes && header.clSizes == m.clSizes
      && header.lens == m.lens && header.lookup == m.clLookup && header.tree == m.clTree && header.Valid() && HeaderFor(header, s, i)
    }

    ghost predicate BodyPlace()
      requires StreamOk(s) && r.Valid()
      reads this, r, w, w.out, body, m.litLookup, m.litTree, m.distLookup, m.distTree
    {
      && i < Count(s) && (Type(BlockAt(s, i)) == 1 || Type(BlockAt(s, i)) == 2) && final == Final(BlockAt(s, i))
      && body != null && body.r == r && body.w == w && body.litLookup == m.litLookup && body.litTree == m.litTree
      && body.distLookup == m.distLookup && body.distTree == m.distTree && body.Valid() && BodyFor(body, s, i)
      && Stands(body.want, AllBits(s), r.Pos())
    }

    /** Behind the stream; whole bytes read ahead have been handed back. */
    ghost predicate EndPlace()
      requires StreamOk(s) && r.Valid()
      reads this, r, w
    {
      s.fault.None? && i == |s.parts| && w.produced == AllOutput(s) && r.numBits == 0 && r.cur == (|AllBits(s)| + 7) / 8
    }

    ghost predicate InPlace()
      requires StreamOk(s) && r.Valid()
      reads this, r, w, w.out, stored, header, body, m.litSizes, m.distSizes, m.clSizes, m.lens, m.clLookup, m.clTree
      reads m.litLookup, m.litTree, m.distLookup, m.distTree
    {
      match stage
      case AtHead => HeadPlace()
      case InStored => StoredPlace()
      case InHeader => HeaderPlace()
      case InBody => BodyPlace()
      case AtEnd => EndPlace()
    }

    ghost predicate Valid()
      reads this, r, w, w.out, stored, header, body, m.litSizes, m.distSizes, m.clSizes, m.lens, m.clLookup, m.clTree
      reads m.litLookup, m.litTree, m.distLookup, m.distTree
    {
      Setting() && InPlace()
    }

    /** No whole byte is kept that was read ahead, except inside a symbol. */
    ghost predicate Paused()
      requires Valid()
      reads this, r, w, w.out, stored, header, body, m.litSizes, m.distSizes, m.clSizes, m.lens, m.clLookup, m.clTree
      reads m.litLookup, m.litTree, m.distLookup, m.distTree
    {
      r.numBits < 8 || (stage == InHeader && header.resume) || (stage == InBody && body.resume)
    }

    ghost predicate After(st: Status)
      reads this, r, w, w.out, stored, header, body, m.litSizes, m.distSizes, m.clSizes, m.lens, m.clLookup, m.clTree
      reads m.litLookup, m.litTree, m.distLookup, m.distTree
    {
      match st
      case Go => Valid()
      case Done => false
      case NeedInput => Valid() && Paused() && r.cur == |r.input| && i < Count(s) && 8 * |r.input| < EndAt(s, i)
      case NeedOutput => Valid() && Paused() && w.cur == w.end && w.produced < AllOutput(s)
      case Failed => Setting() && s.fault.Some? && w.produced == AllOutput(s)
    }

    /** The readers of blocks are the old ones or new ones. */
    twostate predicate Renewed()
      reads this
    {
      && (stored == old(stored) || fresh(stored)) && (header == old(header) || fresh(header)) && (body == old(body) || fresh(body))
    }

    ghost function Left(): nat
      reads this
    {
      5 * (if i < Count(s) then Count(s) - i else 0) +
      match stage
      case AtHead => 4
      case InHeader => 3
      case InBody => 2
      case InStored => 2
      case AtEnd => 0
    }

    constructor (input: seq<u8>, out: array<u8>, wrap: bool, end: nat, ghost s: Stream)
      requires end <= out.Length && (wrap ==> end == out.Length >= DICT_SIZE && !(s.fault.Some? && s.fault.value.TooFar?))
      requires StreamOk(s) && Expects(input, 0, AllBits(s))
      ensures Valid() && r.input == input && w.out == out && w.wrap == wrap && w.end == end && w.produced == [] && this.s == s
      ensures stored == null && header == null && body == null && r.start == 0
      ensures fresh(r) && fresh(w) && fresh(m.Arrays())
    {
      hide BytesBits, AllBits, At, OutAt, Expects, StreamOk, Holds, Buffered;
      StreamStarts(s);
      r := new Reader(input);
      w := new Window(out, wrap, end);
      m := new Memory();
      stage, final, stored, header, body := AtHead, false, null, null, null;
      this.s, i := s, 0;
    }

    // ---------------------------------------------------------------- between blocks

    /** The last bit of a block has been read: on to the next one, or to the end of the stream, where what
        has been read behind it is handed back. */
    method NextBlock()
      requires Setting() && i < |s.parts| && r.Own() && r.Pos() == EndAt(s, i) && final == Final(BlockAt(s, i))
      requires BlockFits(OutAt(s, i), BlockAt(s, i)) && w.produced == AddBlock(OutAt(s, i), BlockAt(s, i))
      modifies this`stage, this`i, r`cur, r`bitBuf, r`numBits
      ensures Valid() && i == old(i) + 1 && (stage == AtHead || stage == AtEnd)
    {
      hide AllBits, At, OutAt, AllOutput, Holds, Buffered, BytesBits, Expects, StreamOk, Decompressor.StoredPlace, Decompressor.HeaderPlace, Decompressor.BodyPlace, ByteReader.Valid, CodeReader.Valid, Inflater.Valid, Stands, Type, Final, AddBlock, BlockFits, EndAt, BlockOk, NextBits, BlockAt, Compatible;
      NextFollows(s, i);
      i := i + 1;
      if final {
        StreamEnds(s);
        PosMod(r);
        ghost var bits := r.numBits;
        r.Finish();
        RoundUp(bits, |AllBits(s)|, r.cur);
        stage := AtEnd;
      } else {
        stage := AtHead;
      }
    }

    /** The first three bits of a block. */
    method ReadHead() returns (ok: bool, blockType: nat)
      requires Valid() && stage == AtHead
      modifies this`final, r`cur, r`bitBuf, r`numBits
      ensures if ok then Opened(blockType) else After(NeedInput)
    {
      hide AllBits, At, OutAt, AllOutput, Holds, Buffered, BytesBits, Expects, StreamOk, ToBits, Pow2, Stands, TypeField, Type, Final, BlockRest, Decompressor.StoredPlace, Decompressor.HeaderPlace, Decompressor.BodyPlace, Decompressor.EndPlace, ByteReader.Valid, CodeReader.Valid, Inflater.Valid, EndAt, AddBlock, BlockFits, BlockOk, NextBits, BlockAt, Compatible;
      PiecesStand(s, i);
      ghost var b := BlockAt(s, i);
      var x;
      ok, x := ReadKnown(r, 3, 0, AllBits(s), At(s, i), TypeField(b));
      ThreeLong(TypeField(b));
      BlockLong(s, i);
      TypeBits(b);
      if ok { final := x % 2 == 1; }
      blockType := x / 2;
    }

    method HeadPart() returns (st: Status)
      requires Valid() && stage == AtHead
      modifies this`stage, this`final, this`stored, this`header, this`body, r`cur, r`bitBuf, r`numBits
      modifies m.litSizes, m.distSizes, m.litLookup, m.litTree, m.distLookup, m.distTree
      ensures After(st) && (st == Go ==> stage != AtHead && stage != AtEnd) && Renewed()
    {
      hide Decompressor.Valid, Decompressor.After, Decompressor.Opened, Reader.Valid, Window.Valid, StreamOk;
      var ok, blockType := ReadHead();
      st := NeedInput;
      if ok { st := OpenBlock(blockType); }
    }

    /** The four types of blocks. */
    method OpenBlock(blockType: nat) returns (st: Status)
      requires Opened(blockType)
      modifies this`stage, this`stored, this`header, this`body, r`bitBuf, r`numBits
      modifies m.litSizes, m.distSizes, m.litLookup, m.litTree, m.distLookup, m.distTree
      ensures After(st) && (st == Go ==> stage != AtHead && stage != AtEnd) && Renewed()
    {
      hide Decompressor.Setting, Decompressor.InPlace, AllBits, At, OutAt, AllOutput, Holds, Buffered, BytesBits, Expects, StreamOk, Type, Final;
      TypeRange(BlockAt(s, i));
      if blockType == 0 {
        StartStored();
        st := Go;
      } else if blockType == 3 {
        OpenedIs(3);
        ReservedHere(s, i);
        st := Failed;
      } else if blockType == 1 {
        st := StaticBody();
      } else {
        StartHeader();
        st := Go;
      }
    }

    lemma OpenedIs(kind: nat)
      requires Opened(kind)
      ensures Setting() && StreamOk(s) && i < Count(s) && Type(BlockAt(s, i)) == kind && w.produced == OutAt(s, i)
    {
      hide StreamOk, AllBits, At, OutAt, Holds, Buffered, Expects, Type, Final;
    }

    /** What holds behind the first three bits. */
    ghost predicate Opened(kind: nat)
      reads this, r, w, w.out
    {
      && Setting() && i < Count(s) && Type(BlockAt(s, i)) == kind && final == Final(BlockAt(s, i))
      && r.Own() && r.Pos() == At(s, i) + 3 && w.produced == OutAt(s, i)
    }

    // ---------------------------------------------------------------- stored blocks

    /** The rest of the byte is skipped. */
    method StartStored()
      requires Opened(0)
      modifies this`stage, this`stored, r`bitBuf, r`numBits
      ensures Valid() && stage == InStored && fresh(stored)
    {
      hide AllBits, At, OutAt, AllOutput, Holds, Buffered, BytesBits, Expects, StreamOk, Stands, Type, Final, StoredBits, Padding, Xor, StoredSize, StoredCheck, StoredBytes, Decompressor.HeadPlace, Decompressor.HeaderPlace, Decompressor.BodyPlace, Decompressor.EndPlace, ByteReader.Valid, CodeReader.Valid, Inflater.Valid, EndAt, AddBlock, BlockFits, BlockOk, NextBits, BlockAt, Compatible;
      StoredPieces(s, i);
      ghost var b, n := BlockAt(s, i), At(s, i);
      PadLength(r, n + 3);
      r.Drop(r.numBits % 8);
      ExpectsHere(r, AllBits(s), StoredBits(StoredSize(b), StoredCheck(b), StoredBytes(b)));
      stored := new ByteReader(r, w, StoredSize(b), StoredCheck(b), StoredBytes(b));
      stage := InStored;
    }

    method StoredPart() returns (st: Status)
      requires Valid() && stage == InStored
      modifies this`stage, this`i, stored, r`cur, r`bitBuf, r`numBits, w`cur, w`produced, w.out
      ensures After(st) && (st == Go ==> i == old(i) + 1)
    {
      hide AllBits, At, OutAt, AllOutput, Holds, Buffered, BytesBits, Expects, StreamOk, Stands, Type, Final, StoredBits, Padding, Xor, StoredSize, StoredCheck, StoredBytes, AddBlock, BlockFits, Decompressor.HeadPlace, Decompressor.HeaderPlace, Decompressor.BodyPlace, Decompressor.EndPlace, CodeReader.Valid, Inflater.Valid, EndAt, BlockOk, NextBits, Compatible;
      StoredPieces(s, i);
      st := stored.Run();
      if st == Done {
        assert stored.bytes[..|stored.bytes|] == stored.bytes;
        NextBlock();
        st := Go;
      }
    }

    // ---------------------------------------------------------------- compressed blocks

    method StartHeader()
      requires Opened(2)
      modifies this`stage, this`header
      ensures Valid() && stage == InHeader && fresh(header)
    {
      hide AllBits, At, OutAt, AllOutput, Holds, Buffered, BytesBits, Expects, StreamOk, Stands, Type, Final, Sent, SentBits, CodesIn, TokensIn, Accepted, Decompressor.HeadPlace, Decompressor.StoredPlace, Decompressor.BodyPlace, Decompressor.EndPlace, ByteReader.Valid, CodeReader.Valid, Inflater.Valid, LitOf, DistOf, ItemsOf, BlockBits, Coded, Expandable, ExpandTo, EndAt, HeaderBits, AddBlock, BlockFits, CodesOk, Acceptable, Decodes, ValidSizes, BlockOk, NextBits, BlockAt, Compatible;
      CodedPieces(s, i);
      ghost var h := CodesIn(BlockAt(s, i)).h;
      ExpectsHere(r, AllBits(s), SentBits(h));
      header := new CodeReader(r, m.litSizes, m.distSizes, m.clSizes, m.lens, m.clLookup, m.clTree, h);
      stage := InHeader;
    }

    method HeaderPart() returns (st: Status)
      requires Valid() && stage == InHeader
      modifies this`stage, this`body, header, r`cur, r`bitBuf, r`numBits, m.litSizes, m.distSizes, m.clSizes, m.lens, m.clLookup, m.clTree
      modifies m.litLookup, m.litTree, m.distLookup, m.distTree
      ensures After(st) && (st == Go ==> stage == InBody) && Renewed()
    {
      hide AllBits, At, OutAt, AllOutput, Holds, Buffered, BytesBits, Expects, StreamOk, Stands, Type, Final, Sent, SentBits, CodesIn, TokensIn, Accepted, Decompressor.HeadPlace, Decompressor.StoredPlace, Decompressor.BodyPlace, Decompressor.EndPlace, ByteReader.Valid, Inflater.Valid, Acceptable, Decodes, LitOf, DistOf, OpsFit, Lengths, OpsCodable, ItemsOf, BlockBits, Coded, Expandable, ExpandTo, EndAt, HeaderBits, AddBlock, BlockFits, CodesOk, ValidSizes, BlockOk, NextBits, BlockAt, Compatible;
      CodedPieces(s, i);
      DescribedCodes(header.h);
      TypeOfHeader(s, i);
      HeaderLong(s, i);
      st := header.Run();
      if st == Done { st := HeaderDone(); }
    }

    /** The header has been read. */
    method HeaderDone() returns (st: Status)
      requires Valid() && stage == InHeader && header.stage == Complete
      modifies this`stage, this`body, m.litLookup, m.litTree, m.distLookup, m.distTree
      ensures After(st) && (st == Go ==> stage == InBody) && Renewed()
    {
      hide AllBits, At, OutAt, AllOutput, Holds, Buffered, BytesBits, Expects, StreamOk, Stands, Type, Final, Sent, SentBits, CodesIn, TokensIn, Accepted, Decompressor.HeadPlace, Decompressor.StoredPlace, Decompressor.BodyPlace, Decompressor.EndPlace, ByteReader.Valid, Inflater.Valid, Acceptable, Decodes, LitOf, DistOf, OpsFit, Lengths, OpsCodable, ItemsOf, BlockBits, Coded, Expandable, ExpandTo, EndAt, HeaderBits, AddBlock, BlockFits, CodesOk, ValidSizes, BlockOk, NextBits, BlockAt, Compatible;
      CodedPieces(s, i);
      DescribedCodes(header.h);
      TypeOfHeader(s, i);
      ghost var k := CodesIn(BlockAt(s, i));
      SameSplit(m.litSizes[..header.numLit], m.distSizes[..header.numDist], LitOf(k), DistOf(k));
      st := StartBody(header.numLit, header.numDist);
    }

    method StaticBody() returns (st: Status)
      requires Opened(1)
      modifies this`stage, this`body, m.litSizes, m.distSizes, m.litLookup, m.litTree, m.distLookup, m.distTree
      ensures After(st) && (st == Go ==> stage == InBody) && Renewed()
    {
      hide AllBits, At, OutAt, AllOutput, Holds, Buffered, BytesBits, Expects, StreamOk, Stands, Type, Final, Sent, SentBits, CodesIn, TokensIn, Accepted, Decompressor.HeadPlace, Decompressor.StoredPlace, Decompressor.HeaderPlace, Decompressor.BodyPlace, Decompressor.EndPlace, ByteReader.Valid, CodeReader.Valid, Inflater.Valid, LitOf, DistOf, ItemsOf, BlockBits, Coded, Expandable, ExpandTo, EndAt, HeaderBits, AddBlock, BlockFits, CodesOk, Acceptable, Decodes, ValidSizes, BlockOk, NextBits, BlockAt, Compatible;
      CodedPieces(s, i);
      StaticCodes(CodesIn(BlockAt(s, i)));
      SetStatic(m.litSizes, m.distSizes);
      assert m.litSizes[..288] == m.litSizes[..] && m.distSizes[..32] == m.distSizes[..];
      st := StartBody(288, 32);
    }

    /** The tables for both codes; the one for distances first. */
    method BuildBoth(numLit: nat, numDist: nat, ghost lit: seq<nat>, ghost dis: seq<nat>) returns (ok: bool)
      requires m.Ok() && numLit <= 288 && numDist <= 32 && m.litSizes[..numLit] == lit && m.distSizes[..numDist] == dis
      requires ValidSizes(lit) && ValidSizes(dis)
      modifies m.litLookup, m.litTree, m.distLookup, m.distTree
      ensures ok <==> Acceptable(lit) && Acceptable(dis)
      ensures ok ==> Decodes(lit, m.litLookup[..], m.litTree[..]) && Decodes(dis, m.distLookup[..], m.distTree[..])
    {
      hide Acceptable, Decodes;
      ok := BuildTables(m.distSizes, numDist, m.distLookup, m.distTree);
      if ok {
        ghost var a, b := m.distLookup[..], m.distTree[..];
        ok := BuildTables(m.litSizes, numLit, m.litLookup, m.litTree);
        assert m.distLookup[..] == a && m.distTree[..] == b;
      }
    }

    /** The lengths of both codes are there. */
    ghost predicate Described(numLit: nat, numDist: nat)
      reads this, r, w, w.out, m.litSizes, m.distSizes
    {
      && Setting() && i < Count(s) && (Type(BlockAt(s, i)) == 1 || Type(BlockAt(s, i)) == 2) && final == Final(BlockAt(s, i))
      && r.Own() && w.produced == OutAt(s, i) && numLit <= 288 && numDist <= 32
      && var k := CodesIn(BlockAt(s, i));
         && CodesOk(k) && m.litSizes[..numLit] == LitOf(k) && m.distSizes[..numDist] == DistOf(k)
         && (k.Dynamic? ==> Sent(k.h)) && r.Pos() == At(s, i) + 3 + |if k.Static? then [] else SentBits(k.h)|
    }

    /** The tables are built, unless a code is not acceptable, and then the symbols begin. */
    method StartBody(numLit: nat, numDist: nat) returns (st: Status)
      requires Described(numLit, numDist)
      modifies this`stage, this`body, m.litLookup, m.litTree, m.distLookup, m.distTree
      ensures After(st) && (st == Go ==> stage == InBody) && Renewed()
    {
      hide AllBits, At, OutAt, AllOutput, Holds, Buffered, BytesBits, Expects, StreamOk, Stands, Type, Final, Sent, SentBits, CodesIn, TokensIn, Acceptable, Decodes, LitOf, DistOf, CodesOk, Decompressor.HeadPlace, Decompressor.StoredPlace, Decompressor.HeaderPlace, Decompressor.BodyPlace, Decompressor.EndPlace, ByteReader.Valid, CodeReader.Valid, Inflater.Valid, ItemsOf, BlockBits, Coded, Expandable, ExpandTo, EndAt, HeaderBits, AddBlock, BlockFits, ValidSizes, BlockOk, NextBits, BlockAt, Compatible;
      CodedPieces(s, i);
      ghost var k := CodesIn(BlockAt(s, i));
      LensSmall(k);
      var ok := BuildBoth(numLit, numDist, LitOf(k), DistOf(k));
      if !ok {
        return Failed;
      }
      EnterBody();
      st := Go;
    }

    method EnterBody()
      requires Setting() && i < Count(s) && (Type(BlockAt(s, i)) == 1 || Type(BlockAt(s, i)) == 2) && final == Final(BlockAt(s, i))
      requires r.Own() && w.produced == OutAt(s, i) && Accepted(CodesIn(BlockAt(s, i)))
      requires var k := CodesIn(BlockAt(s, i));
        && Decodes(LitOf(k), m.litLookup[..], m.litTree[..]) && Decodes(DistOf(k), m.distLookup[..], m.distTree[..])
        && (k.Dynamic? ==> Sent(k.h)) && r.Pos() == At(s, i) + 3 + |if k.Static? then [] else SentBits(k.h)|
      modifies this`stage, this`body
      ensures Valid() && stage == InBody && fresh(body)
    {
      hide AllBits, At, OutAt, AllOutput, Holds, Buffered, BytesBits, Expects, StreamOk, Stands, Type, Final, Sent, SentBits, CodesIn, TokensIn, Acceptable, Decodes, LitOf, DistOf, CodesOk, BlockBits, ItemsOf, TokensOf, Expandable, ExpandTo, Near, Decompressor.HeadPlace, Decompressor.StoredPlace, Decompressor.HeaderPlace, Decompressor.EndPlace, ByteReader.Valid, CodeReader.Valid, Inflater.Valid, Coded, EndAt, HeaderBits, AddBlock, BlockFits, ValidSizes, BlockOk, NextBits, Compatible;
      CodedPieces(s, i);
      ghost var k, ts := CodesIn(BlockAt(s, i)), TokensIn(BlockAt(s, i));
      AcceptedCodes(k);
      SendableTokens(k, ts, w.out.Length);
      ExpectsHere(r, AllBits(s), BlockBits(LitOf(k), DistOf(k), ItemsOf(ts)));
      body := new Inflater(r, w, m.litLookup, m.litTree, m.distLookup, m.distTree, LitOf(k), DistOf(k), ItemsOf(ts));
      stage := InBody;
    }

    method BodyPart() returns (st: Status)
      requires Valid() && stage == InBody
      modifies this`stage, this`i, body, r`cur, r`bitBuf, r`numBits, w`cur, w`produced, w.out
      ensures After(st) && (st == Go ==> i == old(i) + 1)
    {
      hide AllBits, At, OutAt, AllOutput, Holds, Buffered, BytesBits, Expects, StreamOk, Stands, Type, Final, Sent, SentBits, CodesIn, TokensIn, Accepted, AddBlock, BlockFits, Expandable, ExpandTo, Expand, Inflater.Valid, Rests, Decompressor.HeadPlace, Decompressor.StoredPlace, Decompressor.HeaderPlace, Decompressor.EndPlace, ByteReader.Valid, CodeReader.Valid, LitOf, DistOf, ItemsOf, BlockBits, Coded, EndAt, HeaderBits, CodesOk, Acceptable, Decodes, ValidSizes, BlockOk, NextBits, Compatible;
      CodedPieces(s, i);
      ghost var want, pos := body.want, r.Pos();
      OnItsWay(body);
      st := body.Run();
      if st == Done {
        ExpandAll(body.start, body.tokens);
        NextBlock();
        st := Go;
      } else if st != Failed {
        OnItsWay(body);
        RestsStand(want, body.want, AllBits(s), pos, r.Pos());
      }
    }

    /** The output so far is the front of all there will be. */
    lemma SoFar()
      requires Valid()
      ensures w.produced <= AllOutput(s)
    {
      hide AllBits, At, OutAt, AllOutput, Holds, Buffered, BytesBits, Expects, StreamOk, Stands, Type, Final, BlockAt, BlockOk, NextBits, Compatible, EndAt, AddBlock, BlockFits, LitOf, DistOf, ItemsOf, BlockBits, Coded, Expandable, ExpandTo, HeaderBits, CodesOk, Acceptable, Decodes, ValidSizes, Sent, SentBits, CodesIn, TokensIn, Accepted, ByteReader.Valid, CodeReader.Valid, Inflater.Valid, StoredBits, Padding, Xor, StoredSize, StoredCheck, StoredBytes;
      if stage != AtEnd { OutputSoFar(s, i); }
      if stage == InStored {
        StoredPieces(s, i);
        stored.SoFar();
      }
      if stage == InBody {
        CodedPieces(s, i);
        body.SoFar();
      }
    }

    lemma Sound()
      requires Valid()
      ensures StreamOk(s)
    {
      hide StreamOk, Decompressor.InPlace, Expects, AllBits;
    }

    /** Everything has been written that blocks stand for whose bits have all arrived. */
    ghost predicate Caught()
      requires StreamOk(s)
      reads this, r, w
    {
      forall j :: 0 <= j <= |s.parts| && At(s, j) <= 8 * |r.input| ==> OutAt(s, j) <= w.produced
    }

    lemma Catches()
      requires Valid() && i < Count(s) && 8 * |r.input| < EndAt(s, i)
      ensures Caught() && 8 * |r.input| < |AllBits(s)|
    {
      hide AllBits, At, OutAt, AllOutput, Holds, Buffered, BytesBits, Expects, StreamOk, Stands, Type, Final, BlockAt, BlockOk, NextBits, Compatible, EndAt, AddBlock, BlockFits, ByteReader.Valid, CodeReader.Valid, Inflater.Valid;
      Begun();
      EndsInside(s, i);
      forall j | 0 <= j <= |s.parts| && At(s, j) <= 8 * |r.input| ensures OutAt(s, j) <= w.produced {
        HaveArrived(s, i, j, 8 * |r.input|);
      }
    }

    /** The output of the blocks before this one has been written. */
    lemma Begun()
      requires Valid() && i < Count(s)
      ensures OutAt(s, i) <= w.produced
    {
      hide AllBits, At, OutAt, AllOutput, Holds, Buffered, BytesBits, Expects, StreamOk, Stands, Type, Final, BlockAt, BlockOk, NextBits, Compatible, EndAt, AddBlock, BlockFits, ByteReader.Valid, CodeReader.Valid, Inflater.Valid;
      if stage == InStored { stored.SoFar(); }
      if stage == InBody { body.SoFar(); }
    }

    /** Why it stopped, as a caller sees it: all of a stream that ends well has been read and written; a block
        has been refused, behind all output before it; the input ends inside the stream; or the output is
        full, and not all of it. */
    ghost predicate Ended(st: Status)
      reads this, r, w, w.out
    {
      && StreamOk(s) && r.Valid() && w.Valid() && w.produced <= AllOutput(s)
      && match st
         case Go => false
         case Done => s.fault.None? && w.produced == AllOutput(s) && r.cur == (|AllBits(s)| + 7) / 8 && r.numBits == 0
         case Failed => s.fault.Some? && w.produced == AllOutput(s)
         case NeedInput => r.cur == |r.input| && 8 * |r.input| < |AllBits(s)| && Caught()
         case NeedOutput => w.cur == w.end && w.produced != AllOutput(s)
    }

    lemma Outcome(st: Status)
      requires if st == Done then Valid() && stage == AtEnd else st != Go && After(st)
      ensures Ended(st) && (st == NeedInput || st == NeedOutput ==> Valid() && Paused())
    {
      hide AllBits, At, OutAt, AllOutput, Holds, Buffered, BytesBits, Expects, StreamOk, Stands, Type, Final, BlockAt, BlockOk, NextBits, Compatible, EndAt, AddBlock, BlockFits, LitOf, DistOf, ItemsOf, BlockBits, Coded, Expandable, ExpandTo, HeaderBits, CodesOk, Acceptable, Decodes, ValidSizes, Sent, SentBits, CodesIn, TokensIn, Accepted, Decompressor.HeadPlace, Decompressor.StoredPlace, Decompressor.HeaderPlace, Decompressor.BodyPlace;
      if st != Failed { SoFar(); }
      if st == NeedInput { Catches(); }
    }

    // ---------------------------------------------------------------- another call

    /** Only reader and window have changed. */
    twostate predicate Untouched()
      reads this, w.out, stored, header, body, m.litSizes, m.distSizes, m.clSizes, m.lens, m.clLookup, m.clTree
      reads m.litLookup, m.litTree, m.distLookup, m.distTree
    {
      && unchanged(this) && unchanged(w.out) && (stored != null ==> unchanged(stored)) && (header != null ==> unchanged(header)) && (body != null ==> unchanged(body))
      && unchanged(m.litSizes, m.distSizes, m.clSizes, m.lens, m.clLookup, m.clTree, m.litLookup, m.litTree, m.distLookup, m.distTree)
    }

    /** There is more input, or room. */
    twostate predicate Handed()
      reads this, r, w, w.out
    {
      && old(r.Valid()) && r.Valid() && r.Pos() == old(r.Pos()) && r.numBits == old(r.numBits) && |old(r.input)| <= |r.input|
      && w.Valid() && w.produced == old(w.produced) && (w.cur == old(w.cur) || (w.wrap && w.cur == 0 && old(w.cur) == w.out.Length))
      && StreamOk(s) && Expects(r.input, 0, AllBits(s))
    }

    twostate lemma HeadAgain()
      requires old(Valid()) && old(Paused()) && Untouched() && Handed() && stage == AtHead
      ensures Valid()
    {
      hide AllBits, At, OutAt, AllOutput, Holds, Buffered, BytesBits, Expects, StreamOk, Stands, Type, Final, BlockAt, BlockOk, NextBits, Compatible, EndAt, AddBlock, BlockFits, Decompressor.StoredPlace, Decompressor.HeaderPlace, Decompressor.BodyPlace, Decompressor.EndPlace, ByteReader.Valid, CodeReader.Valid, Inflater.Valid;
    }

    twostate lemma StoredAgain()
      requires old(Valid()) && old(Paused()) && Untouched() && Handed() && stage == InStored
      ensures Valid()
    {
      hide AllBits, At, OutAt, AllOutput, Holds, Buffered, BytesBits, Expects, StreamOk, Stands, Type, Final, BlockAt, BlockOk, NextBits, Compatible, EndAt, AddBlock, BlockFits, Decompressor.HeadPlace, Decompressor.HeaderPlace, Decompressor.BodyPlace, Decompressor.EndPlace, CodeReader.Valid, Inflater.Valid, StoredBits, Padding, Xor, StoredSize, StoredCheck, StoredBytes;
      StoredPieces(s, i);
      Arrived(old(r.input), stored.from, StoredBits(stored.size, stored.check, stored.bytes));
      ExpectsLater(r.input, stored.from, AllBits(s), StoredBits(stored.size, stored.check, stored.bytes));
      stored.Resumed();
    }

    twostate lemma HeaderAgain()
      requires old(Valid()) && old(Paused()) && Untouched() && Handed() && stage == InHeader
      ensures Valid()
    {
      hide AllBits, At, OutAt, AllOutput, Holds, Buffered, BytesBits, Expects, StreamOk, Stands, Type, Final, BlockAt, BlockOk, NextBits, Compatible, EndAt, AddBlock, BlockFits, LitOf, DistOf, ItemsOf, BlockBits, Coded, Expandable, ExpandTo, HeaderBits, CodesOk, Acceptable, Decodes, ValidSizes, Sent, SentBits, CodesIn, TokensIn, Accepted, Decompressor.HeadPlace, Decompressor.StoredPlace, Decompressor.BodyPlace, Decompressor.EndPlace, ByteReader.Valid, Inflater.Valid;
      CodedPieces(s, i);
      TypeOfHeader(s, i);
      Arrived(old(r.input), header.from, SentBits(header.h));
      ExpectsLater(r.input, header.from, AllBits(s), SentBits(header.h));
      header.Resumed();
    }

    twostate lemma BodyAgain()
      requires old(Valid()) && old(Paused()) && Untouched() && Handed() && stage == InBody
      ensures Valid()
    {
      hide AllBits, At, OutAt, AllOutput, Holds, Buffered, BytesBits, Expects, StreamOk, Stands, Type, Final, BlockAt, BlockOk, NextBits, Compatible, EndAt, AddBlock, BlockFits, LitOf, DistOf, ItemsOf, BlockBits, Coded, Expandable, ExpandTo, HeaderBits, CodesOk, Acceptable, Decodes, ValidSizes, Sent, SentBits, CodesIn, TokensIn, Accepted, Decompressor.HeadPlace, Decompressor.StoredPlace, Decompressor.HeaderPlace, Decompressor.EndPlace, ByteReader.Valid, CodeReader.Valid, Inflater.Valid;
      ExpectsHere(r, AllBits(s), body.want);
      body.Resumed();
    }

    twostate lemma EndAgain()
      requires old(Valid()) && old(Paused()) && Untouched() && Handed() && stage == AtEnd
      ensures Valid()
    {
      hide AllBits, At, OutAt, AllOutput, Holds, Buffered, BytesBits, Expects, StreamOk, Stands, Type, Final, BlockAt, BlockOk, NextBits, Compatible, EndAt, AddBlock, BlockFits, Decompressor.HeadPlace, Decompressor.StoredPlace, Decompressor.HeaderPlace, Decompressor.BodyPlace, ByteReader.Valid, CodeReader.Valid, Inflater.Valid;
    }

    // ---------------------------------------------------------------- the loop

    method Step() returns (st: Status)
      requires Valid() && stage != AtEnd
      modifies this, r`cur, r`bitBuf, r`numBits, w`cur, w`produced, w.out, m.Arrays(), stored, header, body
      ensures After(st) && (st == Go ==> Left() < old(Left())) && Renewed()
    {
      hide Decompressor.Valid, Decompressor.After;
      Within();
      match stage
      case AtHead => st := HeadPart();
      case InStored => st := StoredPart();
      case InHeader => st := HeaderPart();
      case InBody => st := BodyPart();
      case AtEnd => st := Go;
    }

    lemma Within()
      requires Valid() && stage != AtEnd
      ensures i < Count(s) && (stage == InStored ==> stored != null) && (stage == InHeader ==> header != null) && (stage == InBody ==> body != null)
    {
      hide StreamOk, Expects, AllBits, At, OutAt, ByteReader.Valid, CodeReader.Valid, Inflater.Valid, StoredFor, HeaderFor, BodyFor;
    }

    /** One call. It succeeds exactly if the stream ends well and all of it has arrived, and then it has used
        the bytes of the stream and none of those behind it. Otherwise it has written all there is up to
        a block that is refused; or it waits for input, of which the stream needs more; or it waits for
        room in the output, which is full. */
    method Decompress() returns (st: Status)
      requires Valid()
      modifies this, r`cur, r`bitBuf, r`numBits, w`cur, w`produced, w.out, m.Arrays(), stored, header, body
      ensures Ended(st) && Renewed() && (st == NeedInput || st == NeedOutput ==> Valid() && Paused())
    {
      hide Decompressor.Valid, Decompressor.After, Decompressor.Ended, Decompressor.Left, Decompressor.Paused, Reader.Valid, Window.Valid;
      while stage != AtEnd
        invariant Valid() && Renewed()
        decreases Left()
      {
        st := Step();
        if st != Go {
          NotDone(st);
          Outcome(st);
          return;
        }
        Goes();
      }
      st := Done;
      Outcome(st);
    }

    lemma Goes()
      requires After(Go)
      ensures Valid()
    {
      hide Decompressor.Valid;
    }

    lemma NotDone(st: Status)
      requires After(st)
      ensures st != Done
    {
      hide Decompressor.Valid;
    }
  }

  /** The reader is for block `i`, which is of its kind. */
  ghost predicate StoredFor(x: ByteReader, s: Stream, i: nat)
    requires StreamOk(s) && i < Count(s) && Type(BlockAt(s, i)) == 0
  {
    var b, n := BlockAt(s, i), At(s, i);
    && x.size == StoredSize(b) && x.check == StoredCheck(b) && x.bytes == StoredBytes(b) && x.before == OutAt(s, i)
    && x.from == n + 3 + |Padding(n + 3)|
  }

  ghost predicate HeaderFor(x: CodeReader, s: Stream, i: nat)
    requires StreamOk(s) && i < Count(s) && Type(BlockAt(s, i)) == 2
  {
    x.h == CodesIn(BlockAt(s, i)).h && x.from == At(s, i) + 3
  }

  ghost predicate BodyFor(x: Inflater, s: Stream, i: nat)
    requires StreamOk(s) && i < Count(s) && (Type(BlockAt(s, i)) == 1 || Type(BlockAt(s, i)) == 2)
  {
    && x.tokens == TokensIn(BlockAt(s, i)) && x.start == OutAt(s, i) && x.endPos == EndAt(s, i) && Accepted(CodesIn(BlockAt(s, i)))
  }

  lemma RoundUp(bits: nat, n: nat, cur: nat)
    requires (bits + n) % 8 == 0 && 8 * cur == n + bits % 8
    ensures cur == (n + 7) / 8
  {}

  lemma PadLength(r: Reader, n: nat)
    requires r.Valid() && r.Pos() == n
    ensures r.numBits % 8 == |Padding(n)|
  {
    PosMod(r);
    hide *;
    PaddingLength(n);
    ToBoundary(r.numBits, n);
  }

  /** What is known of the whole input is known of the rest of it. */
  lemma ExpectsHere(r: Reader, all: seq<bool>, part: seq<bool>)
    requires r.Valid() && Expects(r.input, 0, all) && Stands(part, all, r.Pos())
    ensures Expects(r.input, r.Pos(), part) && Compatible(part, r.Rest())
  {
    hide BytesBits, Stands, Compatible;
    BufferLength(r);
    ExpectsPart(r.input, 0, all, part, r.Pos());
    assert r.Rest() == BytesBits(r.input)[r.Pos()..];
  }

  lemma StreamEnds(s: Stream)
    requires StreamOk(s) && s.fault.None?
    ensures At(s, |s.parts|) == |AllBits(s)| && OutAt(s, |s.parts|) == AllOutput(s)
  {
    hide StreamBits, Unpack, Unpackable, PartsOk, Ends;
    assert s.parts[..|s.parts|] == s.parts;
  }

  lemma ReservedHere(s: Stream, i: nat)
    requires StreamOk(s) && i < Count(s) && Type(BlockAt(s, i)) == 3
    ensures s.fault.Some? && AllOutput(s) == OutAt(s, i)
  {
    hide StreamOk, AllOutput, OutAt;
    FaultHere(s, i);
  }

  lemma StaticCodes(k: Codes)
    requires k.Static?
    ensures CodesOk(k) && LitOf(k) == StaticLit() && DistOf(k) == StaticDist()
  {
    hide StaticLit, StaticDist;
  }

  /** The codes that a header describes, if it is well formed. */
  lemma DescribedCodes(h: Header)
    ensures Accepted(Dynamic(h)) ==> BlockHeader.HeaderOk(h)
    ensures BlockHeader.HeaderOk(h) ==>
      && CodesOk(Dynamic(h)) && LitOf(Dynamic(h)) + DistOf(Dynamic(h)) == Lengths(h.ops) && Sent(h) && SentBits(h) == HeaderBits(h)
      && |LitOf(Dynamic(h))| == h.numLit <= 288 && |DistOf(Dynamic(h))| == h.numDist <= 32
  {
    hide Acceptable, OpsFit, OpsCodable, Sent, SentBits, HeaderBits;
    AcceptedHeader(h);
    if BlockHeader.HeaderOk(h) { LensApart(Dynamic(h)); }
  }

  lemma AcceptedCodes(k: Codes)
    requires Accepted(k)
    ensures CodesOk(k)
  {}

  lemma TypeOfHeader(s: Stream, i: nat)
    requires StreamOk(s) && i < Count(s) && Type(BlockAt(s, i)) == 2
    ensures CodesIn(BlockAt(s, i)) == Dynamic(CodesIn(BlockAt(s, i)).h)
  {
    hide StreamOk;
  }

  lemma SameSplit(a: seq<nat>, b: seq<nat>, c: seq<nat>, d: seq<nat>)
    requires a + b == c + d && |a| == |c|
    ensures a == c && b == d
  {
    assert a == (a + b)[..|a|] && c == (c + d)[..|a|];
    assert b == (a + b)[|a|..] && d == (c + d)[|a|..];
  }

  lemma TypeRange(b: Block)
    ensures Type(b) < 4
  {}

  /** What the loop over the symbols needs to know of the tokens. */
  lemma SendableTokens(k: Codes, ts: seq<Token>, size: nat)
    requires Coded(k, ts)
    ensures forall j :: 0 <= j < |ts| ==> ValidToken(ts[j])
    ensures Sendable(LitOf(k), DistOf(k), ItemsOf(ts)) && TokensOf(ItemsOf(ts)) == ts && (size >= DICT_SIZE ==> Near(ts, size))
  {
    hide LitOf, DistOf, AllCodable, ItemsOf, TokensOf, Acceptable, ValidSizes;
    ItemsRoundTrip(ts);
  }

  lemma OnItsWay(d: Inflater)
    requires d.Valid()
    ensures d.r.Valid() && d.w.Valid() && d.r.Pos() + |d.want| == d.endPos && (d.resume || d.r.Own())
  {}

  /** The rest of what was wanted stands where the input now is. */
  lemma RestsStand(want: seq<bool>, want': seq<bool>, all: seq<bool>, pos: nat, pos': nat)
    requires Stands(want, all, pos) && Rests(want, want') && pos + |want| == pos' + |want'|
    ensures Stands(want', all, pos')
  {
    var n := |want| - |want'|;
    assert want == want[..n] + want';
    StandsBehind(want[..n], want', []);
    assert want[..n] + (want' + []) == want;
    StandsIn(want', want, all, pos, n);
  }
}
