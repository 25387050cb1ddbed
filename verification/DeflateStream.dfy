/** A deflate stream (section 3.2.3 of RFC 1951): compressed and stored blocks, their bits, and the
    bytes they stand for. */
module DeflateStream {
  import opened Options
  import opened Bits
  import opened Tokens
  import opened BitWriter
  import opened BlockHeader
  import opened CompressBlock

  datatype Part = Compressed(final: bool, codes: Codes, tokens: seq<Token>) | Stored(final: bool, bytes: seq<u8>)

  ghost predicate PartOk(p: Part)
  {
    match p
    case Compressed(_, codes, tokens) => Coded(codes, tokens)
    case Stored(_, bytes) => |bytes| < 0x1_0000
  }

  function FinalBit(final: bool): seq<bool>
  {
    ToBits(if final then 1 else 0, 1)
  }

  /** A length, and what should be its inverse. */
  function StoredHead(size: nat, check: nat): seq<bool>
  {
    ToBits(size, 16) + ToBits(check, 16)
  }

  lemma TwoBytes(v: nat)
    requires v < 0x1_0000
    ensures ToBits(v, 16) == ToBits(v % 256, 8) + ToBits(v / 256, 8)
  {
    assert Pow2(8) == 256;
    ToBitsAppend(v % 256, 8, v / 256, 8);
  }

  /** The second length is the first one with every bit inverted. */
  lemma Inverted(size: nat)
    requires size < 0x1_0000
    ensures Xor(size, 0xFFFF) == 0xFFFF - size && Xor(Xor(size, 0xFFFF), 0xFFFF) == size
  {
    assert Pow2(8) == 256;
    Pow2Add(8, 8);
    XorOnes(size, 16);
    XorOnes(0xFFFF - size, 16);
  }

  /** Length, inverted length, and the bytes. */
  function StoredBody(bytes: seq<u8>): seq<bool>
    requires |bytes| < 0x1_0000
  {
    StoredHead(|bytes|, Xor(|bytes|, 0xFFFF)) + BytesBits(bytes)
  }

  /** The bits of a block that starts at bit position `n`; stored bytes start at a byte. */
  ghost function PartBits(n: nat, p: Part): seq<bool>
    requires PartOk(p)
  {
    match p
    case Compressed(final, codes, tokens) => FinalBit(final) + CodedBits(codes, tokens)
    case Stored(final, bytes) => FinalBit(final) + ToBits(0, 2) + Padding(n + 3) + StoredBody(bytes)
  }

  ghost predicate PartsOk(parts: seq<Part>)
  {
    forall i :: 0 <= i < |parts| ==> PartOk(parts[i])
  }

  ghost function StreamBits(parts: seq<Part>): seq<bool>
    requires PartsOk(parts)
  {
    if parts == [] then [] else
      var init := StreamBits(parts[..|parts| - 1]);
      init + PartBits(|init|, parts[|parts| - 1])
  }

  lemma StreamNext(parts: seq<Part>, p: Part)
    requires PartsOk(parts) && PartOk(p)
    ensures PartsOk(parts + [p]) && StreamBits(parts + [p]) == StreamBits(parts) + PartBits(|StreamBits(parts)|, p)
  {
    assert (parts + [p])[..|parts|] == parts;
  }

  /** Only the last block says that it is the last. */
  predicate Open(parts: seq<Part>)
  {
    forall i :: 0 <= i < |parts| ==> !parts[i].final
  }

  predicate Finished(parts: seq<Part>)
  {
    parts != [] && Open(parts[..|parts| - 1]) && parts[|parts| - 1].final
  }

  // ---------------------------------------------------------------- blocks that are refused

  /** The reserved block type, a stored block whose two lengths do not match, a block whose codes are
      not described or not acceptable, and one with a match that may reach too far. */
  datatype Fault =
    | Reserved(final: bool)
    | BadLength(final: bool, size: nat, check: nat)
    | BadCodes(final: bool, h: Header)
    | TooFar(final: bool, codes: Codes, tokens: seq<Token>)

  ghost predicate FaultOk(f: Fault)
  {
    match f
    case Reserved(_) => true
    case BadLength(_, size, check) => size < 0x1_0000 && check < 0x1_0000 && check != Xor(size, 0xFFFF)
    case BadCodes(_, h) => Sent(h) && !Accepted(Dynamic(h))
    case TooFar(_, codes, tokens) => Coded(codes, tokens)
  }

  /** The bits of a refused block that starts at bit position `n`, as far as they matter. */
  ghost function FaultBits(n: nat, f: Fault): seq<bool>
    requires FaultOk(f)
  {
    match f
    case Reserved(final) => FinalBit(final) + ToBits(3, 2)
    case BadLength(final, size, check) => FinalBit(final) + ToBits(0, 2) + Padding(n + 3) + StoredHead(size, check)
    case BadCodes(final, h) => FinalBit(final) + ToBits(2, 2) + SentBits(h)
    case TooFar(final, codes, tokens) => FinalBit(final) + CodedBits(codes, tokens)
  }

  /** How a stream ends: with its last block, or with a block that is refused. */
  ghost predicate Ends(parts: seq<Part>, fault: Option<Fault>)
  {
    match fault
    case None => Finished(parts)
    case Some(f) => Open(parts) && FaultOk(f)
  }

  ghost function EndBits(n: nat, fault: Option<Fault>): seq<bool>
    requires fault.Some? ==> FaultOk(fault.value)
  {
    match fault
    case None => []
    case Some(f) => FaultBits(n, f)
  }

  // ---------------------------------------------------------------- what it stands for

  predicate PartFits(h: seq<u8>, p: Part)
  {
    p.Compressed? ==> Expandable(h, p.tokens)
  }

  /** The output so far followed by the output of a block. */
  function AddPart(h: seq<u8>, p: Part): (r: seq<u8>)
    requires PartFits(h, p)
    ensures h <= r
  {
    if p.Compressed? then Expand(h, p.tokens) else h + p.bytes
  }

  predicate Unpackable(parts: seq<Part>)
    decreases |parts|, 0
  {
    parts == [] || (Unpackable(parts[..|parts| - 1]) && PartFits(Unpack(parts[..|parts| - 1]), parts[|parts| - 1]))
  }

  /** What a decompressor makes of all the blocks. */
  function Unpack(parts: seq<Part>): seq<u8>
    requires Unpackable(parts)
    decreases |parts|, 1
  {
    if parts == [] then [] else AddPart(Unpack(parts[..|parts| - 1]), parts[|parts| - 1])
  }

  /** The refused block is one behind the output `h`: it has a match that reaches before its start. */
  predicate Refused(h: seq<u8>, f: Fault)
  {
    f.TooFar? ==> !Expandable(h, f.tokens)
  }

  /** What a decompressor makes of a refused block: nothing, or what comes before that match. */
  function AddFault(h: seq<u8>, f: Fault): seq<u8>
  {
    if f.TooFar? then ExpandTo(h, f.tokens) else h
  }

  /** All output of a stream, however it ends. */
  function Output(parts: seq<Part>, fault: Option<Fault>): seq<u8>
    requires Unpackable(parts)
  {
    match fault
    case None => Unpack(parts)
    case Some(f) => AddFault(Unpack(parts), f)
  }

  lemma UnpackNext(parts: seq<Part>, p: Part)
    requires Unpackable(parts) && PartFits(Unpack(parts), p)
    ensures Unpackable(parts + [p]) && Unpack(parts + [p]) == AddPart(Unpack(parts), p)
  {
    assert (parts + [p])[..|parts|] == parts;
  }
}
