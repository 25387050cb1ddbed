/** The header of a block with dynamic codes (section 3.2.7 of RFC 1951): how the compressor writes it
    and which headers a decompressor accepts. */
module BlockHeader {
  import opened Bits
  import opened Canonical
  import opened CodeLengths
  import opened BitWriter
  import opened DecodeTable

  /** The order in which the lengths of the code length code are sent. */
  function Swizzle(i: nat): (s: nat)
    requires i < 19
    ensures s < 19
  {
    match i
    case 0 => 16 case 1 => 17 case 2 => 18 case 3 => 0 case 4 => 8 case 5 => 7 case 6 => 9 case 7 => 6 case 8 => 10
    case 9 => 5 case 10 => 11 case 11 => 4 case 12 => 12 case 13 => 3 case 14 => 13 case 15 => 2 case 16 => 14 case 17 => 1
    case _ => 15
  }

  lemma SwizzleInjective(i: nat, j: nat)
    requires i < 19 && j < 19 && Swizzle(i) == Swizzle(j)
    ensures i == j
  {}

  /** Where a symbol stands in that order. */
  function Unswizzle(s: nat): (i: nat)
    requires s < 19
    ensures i < 19 && Swizzle(i) == s
  {
    match s
    case 16 => 0 case 17 => 1 case 18 => 2 case 0 => 3 case 8 => 4 case 7 => 5 case 9 => 6 case 6 => 7 case 10 => 8
    case 5 => 9 case 11 => 10 case 4 => 11 case 12 => 12 case 3 => 13 case 13 => 14 case 2 => 15 case 14 => 16 case 1 => 17
    case _ => 18
  }

  // ---------------------------------------------------------------- the bits

  ghost predicate OpCodable(cl: seq<nat>, o: Op)
  {
    OpOk(o) && Used(cl, OpSym(o))
  }

  ghost predicate OpsCodable(cl: seq<nat>, ops: seq<Op>)
  {
    forall k :: 0 <= k < |ops| ==> OpCodable(cl, ops[k])
  }

  ghost function OpBits(cl: seq<nat>, o: Op): seq<bool>
    requires OpCodable(cl, o)
  {
    CodeBits(cl, OpSym(o)) + ToBits(OpExtra(o), ExtraBits(OpSym(o)))
  }

  ghost function OpsBits(cl: seq<nat>, ops: seq<Op>): seq<bool>
    requires OpsCodable(cl, ops)
  {
    if ops == [] then [] else OpsBits(cl, ops[..|ops| - 1]) + OpBits(cl, ops[|ops| - 1])
  }

  /** How the operations are sent, in the numbers of section 3.2.7 of RFC 1951. */
  lemma OpsOnWire(cl: seq<nat>, o: Op)
    requires OpCodable(cl, o)
    ensures o.One? ==> OpBits(cl, o) == CodeBits(cl, o.n)
    ensures o.Again? ==> 3 <= o.n <= 6 && OpBits(cl, o) == CodeBits(cl, 16) + ToBits(o.n - 3, 2)
    ensures o.Zeros? && o.n <= 10 ==> 3 <= o.n && OpBits(cl, o) == CodeBits(cl, 17) + ToBits(o.n - 3, 3)
    ensures o.Zeros? && o.n > 10 ==> o.n <= 138 && OpBits(cl, o) == CodeBits(cl, 18) + ToBits(o.n - 11, 7)
  {
    hide CodeBits;
    if o.One? { assert CodeBits(cl, o.n) + [] == CodeBits(cl, o.n); }
  }

  /** The first `n` lengths of the code length code, three bits each. */
  ghost function ClBits(cl: seq<nat>, n: nat): seq<bool>
    requires |cl| == 19 && n <= 19
  {
    if n == 0 then [] else ClBits(cl, n - 1) + ToBits(cl[Swizzle(n - 1)], 3)
  }

  /** How many literal/length and distance lengths follow, how many lengths of the code length code,
      those lengths, and the operations sent with that code. */
  datatype Header = Header(numLit: nat, numDist: nat, numLengths: nat, cl: seq<nat>, ops: seq<Op>)

  /** The counts and the lengths of the code length code are such as their bits can say. */
  ghost predicate CountsOk(h: Header)
  {
    && 257 <= h.numLit <= 288 && 1 <= h.numDist <= 32 && 4 <= h.numLengths <= 19
    && |h.cl| == 19 && (forall s :: 0 <= s < 19 ==> h.cl[s] <= 7)
    && (forall i :: h.numLengths <= i < 19 ==> h.cl[Swizzle(i)] == 0)
  }

  ghost predicate HeaderOk(h: Header)
  {
    && CountsOk(h) && Acceptable(h.cl)
    && OpsCodable(h.cl, h.ops) && OpsFit(h.ops) && |Lengths(h.ops)| == h.numLit + h.numDist
  }

  /** Any header, accepted or not, with the operations that are read. */
  ghost predicate Sent(h: Header)
  {
    CountsOk(h) && (Acceptable(h.cl) ==> OpsCodable(h.cl, h.ops) && UpTo(h.ops, h.numLit + h.numDist))
  }

  ghost function CountBits(h: Header): seq<bool>
    requires CountsOk(h)
  {
    ToBits(h.numLit - 257, 5) + ToBits(h.numDist - 1, 5) + ToBits(h.numLengths - 4, 4)
  }

  /** Everything between the block type and the first symbol. */
  ghost function HeaderBits(h: Header): seq<bool>
    requires HeaderOk(h)
  {
    CountBits(h) + ClBits(h.cl, h.numLengths) + OpsBits(h.cl, h.ops)
  }

  /** A repeat of nothing is refused before its extra bits are read. */
  ghost function OpsSent(cl: seq<nat>, ops: seq<Op>): seq<bool>
    requires OpsCodable(cl, ops)
  {
    if OpsFit(ops) || ops == [] then OpsBits(cl, ops) else CodeBits(cl, OpSym(ops[0]))
  }

  /** What is read of a header before it is accepted or refused. */
  ghost function SentBits(h: Header): seq<bool>
    requires Sent(h)
  {
    CountBits(h) + (ClBits(h.cl, h.numLengths) + if Acceptable(h.cl) then OpsSent(h.cl, h.ops) else [])
  }

  /** Which headers are accepted, and that all of them are read then. */
  lemma AcceptedHeader(h: Header)
    ensures HeaderOk(h) <==> Sent(h) && Acceptable(h.cl) && OpsFit(h.ops) && |Lengths(h.ops)| == h.numLit + h.numDist
    ensures HeaderOk(h) ==> SentBits(h) == HeaderBits(h)
  {
    hide CountBits, ClBits, OpsBits, OpsCodable, Acceptable, Swizzle;
    if HeaderOk(h) {
      assert h.ops != [];
      LastOpCompletes(h.ops);
      assert (CountBits(h) + ClBits(h.cl, h.numLengths)) + OpsBits(h.cl, h.ops) == CountBits(h) + (ClBits(h.cl, h.numLengths) + OpsBits(h.cl, h.ops));
    }
  }

  // ---------------------------------------------------------------- the fields in numbers

  /** The number in the `n` bits from `p` on, the lowest bit first. */
  function Number(b: seq<bool>, p: nat, n: nat): nat
    requires p + n <= |b|
    decreases n
  {
    if n == 0 then 0 else (if b[p] then 1 else 0) + 2 * Number(b, p + 1, n - 1)
  }

  /** The first `n` fields of three bits, and zeros for those that are not sent. */
  function LengthFields(b: seq<bool>, at: nat, n: nat): (f: seq<nat>)
    requires at + 3 * n <= |b|
    ensures |f| == 19
  {
    seq(19, i requires 0 <= i < 19 => if i < n then Number(b, at + 3 * i, 3) else 0)
  }

  /** How a header begins: three counts, and the lengths for the symbols 16, 17, 18, 0, 8, 7, 9, 6, 10, 5, 11,
      4, 12, 3, 13, 2, 14, 1 and 15 of the length code, as many as the third count says. */
  ghost predicate Begins(b: seq<bool>, numLit: nat, numDist: nat, numLengths: nat, cl: seq<nat>)
  {
    && 14 + 3 * numLengths <= |b|
    && numLit == 257 + Number(b, 0, 5) && numDist == 1 + Number(b, 5, 5) && numLengths == 4 + Number(b, 10, 4)
    && var f := LengthFields(b, 14, numLengths);
       cl == [f[3], f[17], f[15], f[13], f[11], f[9], f[7], f[5], f[4], f[6], f[8], f[10], f[12], f[14], f[16], f[18], f[0], f[1], f[2]]
  }

  lemma {:induction false} NumberOf(b: seq<bool>, p: nat, n: nat, v: nat)
    requires p + n <= |b| && b[p..p + n] == ToBits(v, n) && v < Pow2(n)
    ensures Number(b, p, n) == v
    decreases n
  {
    if n > 0 {
      assert b[p] == ToBits(v, n)[0] && b[p + 1..p + n] == b[p..p + n][1..] == ToBits(v, n)[1..];
      assert ToBits(v, n)[1..] == ToBits(v / 2, n - 1);
      NumberOf(b, p + 1, n - 1, v / 2);
    }
  }

  /** Only the bits of the fields matter. */
  lemma {:induction false} NumberSame(a: seq<bool>, b: seq<bool>, p: nat, n: nat)
    requires p + n <= |a| && p + n <= |b| && forall j :: p <= j < p + n ==> a[j] == b[j]
    ensures Number(a, p, n) == Number(b, p, n)
    decreases n
  {
    if n > 0 { NumberSame(a, b, p + 1, n - 1); }
  }

  lemma {:induction false} FieldIn(cl: seq<nat>, i: nat, n: nat)
    requires |cl| == 19 && i < n <= 19 && forall s :: 0 <= s < 19 ==> cl[s] <= 7
    ensures |ClBits(cl, n)| == 3 * n && ClBits(cl, n)[3 * i..3 * i + 3] == ToBits(cl[Swizzle(i)], 3) && cl[Swizzle(i)] < Pow2(3)
    decreases n
  {
    hide ToBits, Swizzle;
    assert Pow2(3) == 8;
    hide Pow2;
    ClSize(cl, n);
    ClSize(cl, n - 1);
    var front, last := ClBits(cl, n - 1), ToBits(cl[Swizzle(n - 1)], 3);
    assert ClBits(cl, n) == front + last;
    if i < n - 1 {
      FieldIn(cl, i, n - 1);
      assert (front + last)[3 * i..3 * i + 3] == front[3 * i..3 * i + 3];
    } else {
      assert (front + last)[3 * i..3 * i + 3] == last;
    }
  }

  /** In every header, accepted or not, the fields say what they should. */
  lemma SentBegins(h: Header)
    requires Sent(h)
    ensures Begins(SentBits(h), h.numLit, h.numDist, h.numLengths, h.cl)
  {
    hide ToBits, Pow2, Swizzle, ClBits, OpsSent, Acceptable, OpsCodable, UpTo, Number;
    var a, b, c := ToBits(h.numLit - 257, 5), ToBits(h.numDist - 1, 5), ToBits(h.numLengths - 4, 4);
    var cl, more := ClBits(h.cl, h.numLengths), if Acceptable(h.cl) then OpsSent(h.cl, h.ops) else [];
    var bits := SentBits(h);
    assert bits == (a + b + c) + (cl + more);
    ClSize(h.cl, h.numLengths);
    FieldsFit(h.numLit, h.numDist);
    FieldFour(h.numLengths);
    assert bits[0..5] == a && bits[5..10] == b && bits[10..14] == c;
    NumberOf(bits, 0, 5, h.numLit - 257);
    NumberOf(bits, 5, 5, h.numDist - 1);
    NumberOf(bits, 10, 4, h.numLengths - 4);
    var f := LengthFields(bits, 14, h.numLengths);
    forall i | 0 <= i < 19 ensures f[i] == h.cl[Swizzle(i)] {
      if i < h.numLengths {
        FieldIn(h.cl, i, h.numLengths);
        assert bits[14 + 3 * i..14 + 3 * i + 3] == cl[3 * i..3 * i + 3];
        NumberOf(bits, 14 + 3 * i, 3, h.cl[Swizzle(i)]);
      }
    }
    InOrder(f, h.cl);
  }

  lemma InOrder(f: seq<nat>, cl: seq<nat>)
    requires |f| == |cl| == 19 && forall i :: 0 <= i < 19 ==> f[i] == cl[Swizzle(i)]
    ensures cl == [f[3], f[17], f[15], f[13], f[11], f[9], f[7], f[5], f[4], f[6], f[8], f[10], f[12], f[14], f[16], f[18], f[0], f[1], f[2]]
  {
    assert f[0] == cl[16] && f[1] == cl[17] && f[2] == cl[18] && f[3] == cl[0] && f[4] == cl[8] && f[5] == cl[7] && f[6] == cl[9];
    assert f[7] == cl[6] && f[8] == cl[10] && f[9] == cl[5] && f[10] == cl[11] && f[11] == cl[4] && f[12] == cl[12] && f[13] == cl[3];
    assert f[14] == cl[13] && f[15] == cl[2] && f[16] == cl[14] && f[17] == cl[1] && f[18] == cl[15];
  }

  /** What begins with the bits of a header up to the last field begins like it. */
  lemma BeginsSame(a: seq<bool>, b: seq<bool>, numLit: nat, numDist: nat, numLengths: nat, cl: seq<nat>)
    requires Begins(a, numLit, numDist, numLengths, cl) && 14 + 3 * numLengths <= |b| && a[..14 + 3 * numLengths] == b[..14 + 3 * numLengths]
    ensures Begins(b, numLit, numDist, numLengths, cl)
  {
    hide Number;
    var n := 14 + 3 * numLengths;
    forall j | 0 <= j < n ensures a[j] == b[j] { assert a[j] == a[..n][j] && b[j] == b[..n][j]; }
    NumberSame(a, b, 0, 5);
    NumberSame(a, b, 5, 5);
    NumberSame(a, b, 10, 4);
    forall i | 0 <= i < 19 ensures LengthFields(a, 14, numLengths)[i] == LengthFields(b, 14, numLengths)[i] {
      if i < numLengths { NumberSame(a, b, 14 + 3 * i, 3); }
    }
    assert LengthFields(a, 14, numLengths) == LengthFields(b, 14, numLengths);
  }

  // ---------------------------------------------------------------- writing

  /** Sends the lengths of the code length code and the packed operations. */
  method WriteOps(w: Writer, packed: array<u8>, n: nat, clSizes: array<nat>, clCodes: array<nat>, ghost ops: seq<Op>)
    requires w.Valid() && n <= packed.Length && w.out != packed && clSizes.Length == clCodes.Length
    requires AllOk(ops) && packed[..n] == Packed(ops) && CodesFor(clSizes[..], clCodes[..]) && OpsCodable(clSizes[..], ops)
    modifies w`pos, w`buffer, w`bitsIn, w`sent, w.out
    ensures w.Valid() && old(w.pos) <= w.pos && w.sent == old(w.sent) + OpsBits(clSizes[..], ops)
  {
    hide CodesFor, CodeBits, ToBits, Pow2, OpsBits, Packed;
    ghost var z, p, sent := clSizes[..], packed[..n], w.sent;
    ghost var k := 0;
    var i := 0;
    NoOps(z);
    while i < n
      invariant k <= |ops| && i <= n && i == |Packed(ops[..k])| && w.Valid() && old(w.pos) <= w.pos
      invariant w.sent == sent + OpsBits(z, ops[..k])
      invariant packed[..n] == p && clSizes[..] == z && CodesFor(z, clCodes[..])
      decreases n - i
    {
      OpAt(ops, p, k);
      PutOp(z, ops, k);
      ghost var o := ops[k];
      var code := packed[i];
      assert code == p[i];
      StoredCode(z, clCodes[..], code);
      i := i + 1;
      w.PutBits(clCodes[code], clSizes[code]);
      ghost var before := w.sent;
      if code >= 16 {
        assert packed[i] == p[i];
        w.PutBits(packed[i], ExtraBits(code));
        i := i + 1;
      } else {
        NoBits(OpExtra(o));
      }
      Join(sent, OpsBits(z, ops[..k]), CodeBits(z, code), ToBits(OpExtra(o), ExtraBits(code)));
      k := k + 1;
    }
    AllSent(ops, k);
  }

  lemma NoOps(z: seq<nat>)
    ensures OpsCodable(z, []) && OpsBits(z, []) == [] && Packed([]) == []
  {}

  lemma NoBits(v: nat)
    ensures ToBits(v, 0) == []
  {}

  lemma Join(a: seq<bool>, b: seq<bool>, c: seq<bool>, d: seq<bool>)
    ensures ((a + b) + c) + d == a + (b + (c + d))
    ensures (a + b) + c == a + (b + c)
    ensures d == [] ==> c + d == c
  {}

  lemma PutOp(cl: seq<nat>, ops: seq<Op>, k: nat)
    requires OpsCodable(cl, ops) && k < |ops|
    ensures OpsBits(cl, ops[..k + 1]) == OpsBits(cl, ops[..k]) + OpBits(cl, ops[k])
  {
    assert ops[..k + 1][..k] == ops[..k];
  }

  lemma {:induction false} PackedSplit(a: seq<Op>, b: seq<Op>)
    requires AllOk(a) && AllOk(b)
    ensures AllOk(a + b) && Packed(a + b) == Packed(a) + Packed(b)
  {
    hide OpBytes;
    if b == [] {
      assert a + b == a;
    } else {
      assert (a + b)[..|a + b| - 1] == a + b[..|b| - 1];
      PackedSplit(a, b[..|b| - 1]);
    }
  }

  /** The bytes of operation `k` in the packed form. */
  lemma OpAt(ops: seq<Op>, p: seq<u8>, k: nat)
    requires AllOk(ops) && p == Packed(ops) && k <= |ops| && |Packed(ops[..k])| < |p|
    ensures k < |ops| && |Packed(ops[..k + 1])| == |Packed(ops[..k])| + |OpBytes(ops[k])| <= |p|
    ensures var i := |Packed(ops[..k])|; p[i] == OpSym(ops[k]) && (OpSym(ops[k]) >= 16 ==> i + 1 < |p| && p[i + 1] == OpExtra(ops[k]))
  {
    hide Packed, OpExtra;
    assert ops[..|ops|] == ops;
    var o, rest := ops[k], ops[k + 1..];
    PackNext(ops[..k], o);
    assert ops[..k + 1] == ops[..k] + [o] && ops == ops[..k + 1] + rest;
    PackedSplit(ops[..k + 1], rest);
    assert p == Packed(ops[..k]) + OpBytes(o) + Packed(rest);
  }

  lemma AllSent(ops: seq<Op>, k: nat)
    requires AllOk(ops) && k <= |ops| && |Packed(ops[..k])| == |Packed(ops)|
    ensures ops[..k] == ops
  {
    PackedSplit(ops[..k], ops[k..]);
    assert ops == ops[..k] + ops[k..];
    if k < |ops| { PackedNonempty(ops[k..]); }
  }

  lemma PackedNonempty(ops: seq<Op>)
    requires AllOk(ops) && ops != []
    ensures Packed(ops) != []
  {}

  /** How many lengths of the code length code are worth sending. */
  method CountLengths(clSizes: array<nat>) returns (n: nat)
    requires clSizes.Length == 19
    ensures 4 <= n <= 19 && (forall i :: n <= i < 19 ==> clSizes[Swizzle(i)] == 0) && (n == 4 || clSizes[Swizzle(n - 1)] != 0)
  {
    var last := 18;
    while last >= 0 && clSizes[Swizzle(last)] == 0
      invariant -1 <= last <= 18 && forall i :: last < i < 19 ==> clSizes[Swizzle(i)] == 0
    {
      last := last - 1;
    }
    n := if last + 1 < 4 then 4 else last + 1;
  }

  method WriteLengths(w: Writer, clSizes: array<nat>, n: nat)
    requires w.Valid() && clSizes.Length == 19 && n <= 19 && forall s :: 0 <= s < 19 ==> clSizes[s] <= 7
    modifies w`pos, w`buffer, w`bitsIn, w`sent, w.out
    ensures w.Valid() && old(w.pos) <= w.pos && w.sent == old(w.sent) + ClBits(clSizes[..], n)
  {
    hide ToBits, Pow2, ClBits, Swizzle;
    ghost var z, sent := clSizes[..], w.sent;
    NoLengths(z);
    for i := 0 to n
      invariant w.Valid() && old(w.pos) <= w.pos && clSizes[..] == z && w.sent == sent + ClBits(z, i)
    {
      ThreeBits(z, i);
      var c := clSizes[Swizzle(i)];
      assert c == z[Swizzle(i)];
      w.PutBits(c, 3);
      Join(sent, ClBits(z, i), ToBits(c, 3), []);
    }
  }

  lemma NoLengths(z: seq<nat>)
    requires |z| == 19
    ensures ClBits(z, 0) == []
  {}

  lemma {:induction false} ClSize(cl: seq<nat>, n: nat)
    requires |cl| == 19 && n <= 19
    ensures |ClBits(cl, n)| == 3 * n
  {
    hide ToBits, Swizzle;
    if n > 0 { ClSize(cl, n - 1); }
  }

  lemma ThreeBits(z: seq<nat>, i: nat)
    requires |z| == 19 && i < 19 && forall s :: 0 <= s < 19 ==> z[s] <= 7
    ensures z[Swizzle(i)] < Pow2(3) && ClBits(z, i + 1) == ClBits(z, i) + ToBits(z[Swizzle(i)], 3)
  {
    assert Pow2(3) == 8;
  }

  /** The header itself, behind the two bits of the block type. */
  method WriteHeader(w: Writer, numLit: nat, numDist: nat, packed: array<u8>, n: nat, clSizes: array<nat>, clCodes: array<nat>, ghost ops: seq<Op>)
    returns (ghost h: Header)
    requires w.Valid() && n <= packed.Length && w.out != packed && clSizes.Length == clCodes.Length == 19
    requires AllOk(ops) && packed[..n] == Packed(ops) && CodesFor(clSizes[..], clCodes[..]) && OpsCodable(clSizes[..], ops)
    requires 257 <= numLit <= 288 && 1 <= numDist <= 32 && OpsFit(ops) && |Lengths(ops)| == numLit + numDist
    requires (forall s :: 0 <= s < 19 ==> clSizes[s] <= 7) && Acceptable(clSizes[..])
    modifies w`pos, w`buffer, w`bitsIn, w`sent, w.out
    ensures w.Valid() && old(w.pos) <= w.pos && HeaderOk(h) && h.numLit == numLit && h.numDist == numDist && h.ops == ops
    ensures w.sent == old(w.sent) + HeaderBits(h)
    ensures Begins(w.sent[|old(w.sent)|..], numLit, numDist, h.numLengths, clSizes[..])
    ensures h.numLengths == 4 || clSizes[Swizzle(h.numLengths - 1)] != 0
  {
    hide CodesFor, CodeBits, ToBits, Pow2, OpsBits, Packed, ClBits, Swizzle, Acceptable, OpsFit, Lengths, OpsCodable, Begins, Sent, SentBits;
    ghost var z, sent := clSizes[..], w.sent;
    FieldsFit(numLit, numDist);
    w.PutBits(numLit - 257, 5);
    w.PutBits(numDist - 1, 5);
    var numLengths := CountLengths(clSizes);
    FieldFour(numLengths);
    w.PutBits(numLengths - 4, 4);
    WriteLengths(w, clSizes, numLengths);
    assert clSizes[..] == z;
    WriteOps(w, packed, n, clSizes, clCodes, ops);
    h := Header(numLit, numDist, numLengths, z, ops);
    assert HeaderOk(h);
    AcceptedHeader(h);
    SentBegins(h);
    assert (sent + HeaderBits(h))[|sent|..] == HeaderBits(h);
    HeaderSum(sent, ToBits(numLit - 257, 5), ToBits(numDist - 1, 5), ToBits(numLengths - 4, 4), ClBits(z, numLengths), OpsBits(z, ops));
  }

  lemma HeaderSum(s: seq<bool>, a: seq<bool>, b: seq<bool>, c: seq<bool>, d: seq<bool>, e: seq<bool>)
    ensures s + a + b + c + d + e == s + ((a + b + c) + d + e)
  {}

  lemma FieldsFit(numLit: nat, numDist: nat)
    requires 257 <= numLit <= 288 && 1 <= numDist <= 32
    ensures numLit - 257 < Pow2(5) && numDist - 1 < Pow2(5)
  {
    assert Pow2(5) == 32;
  }

  lemma FieldFour(n: nat)
    requires 4 <= n <= 19
    ensures n - 4 < Pow2(4)
  {
    assert Pow2(4) == 16;
  }

  // ---------------------------------------------------------------- one operation after another

  lemma {:induction false} OpsSplit(cl: seq<nat>, a: seq<Op>, b: seq<Op>)
    requires OpsCodable(cl, a) && OpsCodable(cl, b)
    ensures OpsCodable(cl, a + b) && OpsBits(cl, a + b) == OpsBits(cl, a) + OpsBits(cl, b)
  {
    hide OpBits, OpCodable;
    if b == [] {
      assert a + b == a;
    } else {
      assert (a + b)[..|a + b| - 1] == a + b[..|b| - 1];
      OpsSplit(cl, a, b[..|b| - 1]);
    }
  }

  lemma OneOp(cl: seq<nat>, o: Op)
    requires OpCodable(cl, o)
    ensures OpsCodable(cl, [o]) && OpsBits(cl, [o]) == OpBits(cl, o)
  {
    assert [o][..0] == [];
  }

  /** The next operation and the ones behind it. */
  lemma OpsFront(cl: seq<nat>, ops: seq<Op>)
    requires OpsCodable(cl, ops) && ops != []
    ensures OpCodable(cl, ops[0]) && OpsCodable(cl, ops[1..]) && OpsBits(cl, ops) == OpBits(cl, ops[0]) + OpsBits(cl, ops[1..])
  {
    hide OpBits, OpsBits;
    OneOp(cl, ops[0]);
    OpsSplit(cl, [ops[0]], ops[1..]);
    assert ops == [ops[0]] + ops[1..];
  }

  lemma {:induction false} LengthsPrefix(a: seq<Op>, b: seq<Op>)
    requires OpsFit(a + b)
    ensures OpsFit(a) && Lengths(a) <= Lengths(a + b)
    ensures b != [] ==> OpFits(Lengths(a), b[0])
    decreases |b|
  {
    if b == [] {
      assert a + b == a;
    } else {
      var init := b[..|b| - 1];
      assert (a + b)[..|a + b| - 1] == a + init;
      LengthsPrefix(a, init);
      if init == [] { assert a + init == a; }
    }
  }

  lemma LastOpCompletes(ops: seq<Op>)
    requires OpsFit(ops)
    ensures ops != [] ==> OpsFit(ops[..|ops| - 1]) && |Lengths(ops[..|ops| - 1])| < |Lengths(ops)|
  {}
}
