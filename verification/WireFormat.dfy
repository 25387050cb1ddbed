/** What a deflate stream looks like in the numbers of RFC 1951: the heads of the three kinds of block,
    stored blocks, and one stream in full. */
module WireFormat {
  import opened Bits
  import opened Tokens
  import opened Canonical
  import opened LzSymbols
  import opened BlockCode
  import opened BlockTables
  import opened BitWriter
  import opened BlockHeader
  import opened TokenBuffer
  import opened CompressBlock
  import opened DeflateStream
  import opened FlushBlock

  // ---------------------------------------------------------------- heads

  /** The last block is marked, and the low bit of the type comes first: 0 is stored, 1 fixed codes, 2
      codes of its own. */
  lemma BlockHeads(n: nat, p: Part)
    requires PartOk(p)
    ensures |PartBits(n, p)| >= 3 && PartBits(n, p)[0] == p.final
    ensures PartBits(n, p)[1] <==> p.Compressed? && p.codes == Static
    ensures PartBits(n, p)[2] <==> p.Compressed? && p.codes.Dynamic?
  {
    TypeBits();
    hide ToBits, StoredBody, Padding, Coded, BlockBits, ItemsOf, LitOf, DistOf, AllCodable, HeaderBits;
  }

  lemma TypeBits()
    ensures ToBits(0, 1) == [false] && ToBits(1, 1) == [true]
    ensures ToBits(0, 2) == [false, false] && ToBits(1, 2) == [true, false] && ToBits(2, 2) == [false, true]
  {
    TwoBits(0);
    TwoBits(1);
    TwoBits(2);
  }

  lemma TwoBits(v: nat)
    ensures ToBits(v, 1) == [v % 2 == 1] && ToBits(v, 2) == [v % 2 == 1, v / 2 % 2 == 1]
  {
    assert ToBits(v, 1) == [v % 2 == 1] + ToBits(v / 2, 0);
    assert ToBits(v / 2, 1) == [v / 2 % 2 == 1] + ToBits(v / 2 / 2, 0);
    assert ToBits(v, 2) == [v % 2 == 1] + ToBits(v / 2, 1);
  }

  // ---------------------------------------------------------------- stored blocks

  function Clear(k: nat): (z: seq<bool>)
    ensures |z| == k && forall i :: 0 <= i < k ==> !z[i]
  {
    seq(k, _ => false)
  }

  /** Zeros up to a byte, the length in two bytes, low one first, the same two inverted, the bytes. */
  lemma StoredOnWire(n: nat, final: bool, bytes: seq<u8>, low: u8, high: u8) returns (k: nat)
    requires |bytes| == low + 256 * high
    ensures k < 8 && (n + 3 + k) % 8 == 0
    ensures PartBits(n, Stored(final, bytes)) == [final, false, false] + Clear(k) + BytesBits([low, high, 255 - low, 255 - high] + bytes)
  {
    k := |Padding(n + 3)|;
    assert (n + 3 + k) % 8 == 0;
    StoredLead(n, final);
    StoredBytes(bytes, low, high, 255 - low, 255 - high);
    PartIsStored(n, final, bytes);
    hide *;
  }

  lemma PartIsStored(n: nat, final: bool, bytes: seq<u8>)
    requires |bytes| < 0x1_0000
    ensures PartBits(n, Stored(final, bytes)) == FinalBit(final) + ToBits(0, 2) + Padding(n + 3) + StoredBody(bytes)
  {}

  lemma StoredLead(n: nat, final: bool)
    ensures FinalBit(final) + ToBits(0, 2) + Padding(n + 3) == [final, false, false] + Clear(|Padding(n + 3)|)
  {
    TypeBits();
    PaddingZero(n + 3);
    Zeros(|Padding(n + 3)|);
    hide ToBits, Padding;
    assert FinalBit(final) == [final];
  }

  lemma StoredBytes(bytes: seq<u8>, low: u8, high: u8, low': u8, high': u8)
    requires |bytes| == low + 256 * high && low + low' == 255 && high + high' == 255
    ensures StoredBody(bytes) == BytesBits([low, high, low', high'] + bytes)
  {
    Inverted(|bytes|);
    hide ToBits, BytesBits, Xor;
    TwoOf(|bytes|, low, high);
    TwoOf(Xor(|bytes|, 0xFFFF), low', high');
    FourBytes(low, high, low', high');
    BytesBitsAppend([low, high, low', high'], bytes);
  }

  lemma PaddingZero(n: nat)
    ensures Padding(n) == ToBits(0, |Padding(n)|)
  {}

  lemma {:induction false} Zeros(k: nat)
    ensures ToBits(0, k) == Clear(k)
  {
    if k > 0 { Zeros(k - 1); }
  }

  // ---------------------------------------------------------------- a stream in full

  /** The letter a, and a match of 20 bytes at distance 1: the last block, with fixed codes, is four
      whole bytes. */
  lemma KnownStream()
    ensures var p := Compressed(true, Static, [Literal(97), Match(20, 1)]);
      PartsOk([p]) && StreamBits([p]) == BytesBits([0x4B, 0xC4, 0x06, 0x00])
  {
    var ts := [Literal(97), Match(20, 1)];
    KnownItems();
    StaticCoded(ts);
    OnePart(Compressed(true, Static, ts));
    OneBlock(ts);
    KnownBody();
    KnownBytes();
    FourBytes(0x4B, 0xC4, 0x06, 0x00);
    Regroup(LetterA(), LengthTwenty(), [true, false], DistOne(), BlockEnd(), ToBits(0x4B, 8), ToBits(0xC4, 8), ToBits(0x06, 8), ToBits(0x00, 8));
    KnownHead();
    hide *;
  }

  lemma KnownHead()
    ensures ToBits(1, 1) == [true] && ToBits(1, 2) == [true, false]
  {
    TypeBits();
  }

  function LetterA(): seq<bool> { [true, false, false, true, false, false, false, true] }
  function LengthTwenty(): seq<bool> { [false, false, false, true, true, false, true] }
  function DistOne(): seq<bool> { [false, false, false, false, false] }
  function BlockEnd(): seq<bool> { [false, false, false, false, false, false, false] }

  lemma Regroup(a: seq<bool>, l: seq<bool>, x: seq<bool>, d: seq<bool>, e: seq<bool>, b0: seq<bool>, b1: seq<bool>, b2: seq<bool>, b3: seq<bool>)
    requires a == LetterA() && l == LengthTwenty() && x == [true, false] && d == DistOne() && e == BlockEnd()
    requires b0 == [true, true, false, true, false, false, true, false] && b1 == [false, false, true, false, false, false, true, true]
    requires b2 == [false, true, true, false, false, false, false, false] && b3 == [false, false, false, false, false, false, false, false]
    ensures [true] + ([true, false] + (a + (l + x + d) + e)) == (b0 + b1) + (b2 + b3)
  {
    assert [true] + [true, false] + a[..5] == b0;
    assert a[5..] + l[..5] == b1;
    assert l[5..] + x + d[..4] == b2;
    assert d[4..] + e == b3;
    assert a == a[..5] + a[5..] && l == l[..5] + l[5..] && d == d[..4] + d[4..];
    Pieces([true], [true, false], a[..5], a[5..], l[..5], l[5..], x, d[..4], d[4..], e);
  }

  lemma Pieces(f: seq<bool>, t: seq<bool>, a: seq<bool>, a': seq<bool>, l: seq<bool>, l': seq<bool>, x: seq<bool>, d: seq<bool>, d': seq<bool>, e: seq<bool>)
    ensures f + (t + ((a + a') + ((l + l') + x + (d + d')) + e)) == ((f + t + a) + (a' + l)) + ((l' + x + d) + (d' + e))
  {}

  lemma OneBlock(ts: seq<Token>)
    requires Coded(Static, ts)
    ensures PartBits(0, Compressed(true, Static, ts)) == ToBits(1, 1) + (ToBits(1, 2) + BlockBits(StaticLit(), StaticDist(), ItemsOf(ts)))
  {
    hide ToBits, BlockBits, StaticLit, StaticDist, AllCodable, ItemsOf;
  }

  lemma KnownBody()
    ensures var items := [Lit(97), Copy(269, 1, 0, 0)];
      AllCodable(StaticLit(), StaticDist(), items) && Used(StaticLit(), END_OF_BLOCK)
      && BlockBits(StaticLit(), StaticDist(), items) == LetterA() + (LengthTwenty() + [true, false] + DistOne()) + BlockEnd()
  {
    KnownCodes();
    hide StaticLit, StaticDist, CodeBits, AllCodable, BlockBits;
    BodyOf(StaticLit(), StaticDist());
  }

  lemma KnownCodes()
    ensures Used(StaticLit(), 97) && Used(StaticLit(), 269) && Used(StaticLit(), 256) && Used(StaticDist(), 0)
    ensures CodeBits(StaticLit(), 97) == LetterA() && CodeBits(StaticLit(), 269) == LengthTwenty()
    ensures CodeBits(StaticLit(), 256) == BlockEnd() && CodeBits(StaticDist(), 0) == DistOne()
  {
    hide StaticLit, StaticDist, CodeBits, BigEndian;
    FixedCodes();
    CodeA();
    CodeLength();
    CodeZero();
  }

  lemma BodyOf(lit: seq<nat>, dis: seq<nat>)
    requires |lit| == LIT_SYMS && |dis| == DIST_SYMS && Used(lit, 97) && Used(lit, 269) && Used(lit, 256) && Used(dis, 0)
    ensures AllCodable(lit, dis, [Lit(97), Copy(269, 1, 0, 0)])
    ensures BlockBits(lit, dis, [Lit(97), Copy(269, 1, 0, 0)])
         == CodeBits(lit, 97) + (CodeBits(lit, 269) + [true, false] + CodeBits(dis, 0)) + CodeBits(lit, 256)
  {
    TwoBits(1);
    NoBits();
    assert Pow2(2) == 4 && Pow2(0) == 1 && LengthExtraOf(12) == 2 && DistExtraOf(0) == 0;
    hide CodeBits, ToBits, ItemsBits, LengthExtraOf, DistExtraOf, Pow2;
    TwoItems(lit, dis, Lit(97), Copy(269, 1, 0, 0));
  }

  lemma NoBits()
    ensures ToBits(0, 0) == []
  {}

  lemma TwoItems(lit: seq<nat>, dis: seq<nat>, a: Item, b: Item)
    requires Codable(lit, dis, a) && Codable(lit, dis, b)
    ensures AllCodable(lit, dis, [a, b]) && ItemsBits(lit, dis, [a, b]) == ItemBits(lit, dis, a) + ItemBits(lit, dis, b)
  {
    hide ItemBits, Codable;
    assert [a, b][..1] == [a] && [a][..0] == [];
    assert ItemsBits(lit, dis, [a]) == ItemBits(lit, dis, a);
  }

  lemma OnePart(p: Part)
    requires PartOk(p)
    ensures PartsOk([p]) && StreamBits([p]) == PartBits(0, p)
  {
    hide PartBits, PartOk;
    assert [p][..0] == [];
  }

  lemma Nibble(v: nat)
    ensures ToBits(v, 4) == [v % 2 == 1, v / 2 % 2 == 1, v / 4 % 2 == 1, v / 8 % 2 == 1]
  {
    TwoBits(v);
    TwoBits(v / 4);
    assert Pow2(2) == 4;
    ToBitsPrefix(v, 4, 2);
    assert ToBits(v, 4) == ToBits(v, 4)[..2] + ToBits(v, 4)[2..];
    hide ToBits, Pow2;
  }

  lemma ByteBits(v: nat, low: nat, high: nat)
    requires v == low + 16 * high && low < 16
    ensures ToBits(v, 8) == [low % 2 == 1, low / 2 % 2 == 1, low / 4 % 2 == 1, low / 8 % 2 == 1]
                          + [high % 2 == 1, high / 2 % 2 == 1, high / 4 % 2 == 1, high / 8 % 2 == 1]
  {
    assert Pow2(4) == 16;
    ToBitsAppend(low, 4, high, 4);
    Nibble(low);
    Nibble(high);
    hide ToBits, Pow2;
  }

  lemma KnownBytes()
    ensures ToBits(0x4B, 8) == [true, true, false, true, false, false, true, false]
    ensures ToBits(0xC4, 8) == [false, false, true, false, false, false, true, true]
    ensures ToBits(0x06, 8) == [false, true, true, false, false, false, false, false]
    ensures ToBits(0x00, 8) == [false, false, false, false, false, false, false, false]
  {
    hide ToBits;
    ByteBits(0x4B, 0xB, 0x4);
    ByteBits(0xC4, 0x4, 0xC);
    ByteBits(0x06, 0x6, 0x0);
    ByteBits(0x00, 0x0, 0x0);
  }

  lemma CodeA()
    ensures BigEndian(0x30 + 97, 8) == LetterA()
  {}

  lemma CodeLength()
    ensures BigEndian(269 - 256, 7) == LengthTwenty()
  {}

  lemma CodeZero()
    ensures BigEndian(0, 5) == DistOne() && BigEndian(0, 7) == BlockEnd()
  {}

  lemma KnownItems()
    ensures AllValid([Literal(97), Match(20, 1)]) && ItemsOf([Literal(97), Match(20, 1)]) == [Lit(97), Copy(269, 1, 0, 0)]
  {
    assert Pow2(0) == 1 && Pow2(2) == 4;
    hide Pow2;
  }
}
