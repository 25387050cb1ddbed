/** Reading an input of which it is known how it goes on: the bits `bits` from position `from` on, as far
    as they have arrived. */
module KnownInput {
  import opened Bits
  import opened Canonical
  import opened DecodeTable
  import opened BitReader
  import opened HuffDecode

  /** The input goes on with `bits` at position `from`, or ends inside them. */
  ghost predicate Expects(input: seq<u8>, from: nat, bits: seq<bool>)
  {
    from <= |BytesBits(input)| && Compatible(bits, BytesBits(input)[from..])
  }

  /** `part` stands in `bits` at `p`. */
  ghost predicate Stands(part: seq<bool>, bits: seq<bool>, p: nat)
  {
    p + |part| <= |bits| && bits[p..p + |part|] == part
  }

  lemma PartEnds(bits: seq<bool>, part: seq<bool>, p: nat)
    requires Stands(part, bits, p)
    ensures p + |part| <= |bits|
  {}

  lemma StandsIn(part: seq<bool>, mid: seq<bool>, bits: seq<bool>, p: nat, q: nat)
    requires Stands(mid, bits, p) && Stands(part, mid, q)
    ensures Stands(part, bits, p + q)
  {
    var n := |part|;
    forall k | 0 <= k < n ensures part[k] == bits[p + q..p + q + n][k] {
      assert part[k] == mid[q..q + n][k] && mid[q + k] == bits[p..p + |mid|][q + k];
    }
  }

  lemma StandsBehind(a: seq<bool>, b: seq<bool>, c: seq<bool>)
    ensures Stands(b, a + b, |a|) && Stands(b, a + (b + c), |a|) && Stands(b, (a + b) + c, |a|) && Stands(a, a + b, 0)
  {}

  /** What is known of the whole is known of its parts. */
  lemma ExpectsPart(input: seq<u8>, from: nat, bits: seq<bool>, part: seq<bool>, p: nat)
    requires Expects(input, from, bits) && Stands(part, bits, p) && from + p <= |BytesBits(input)|
    ensures Expects(input, from + p, part)
  {
    hide BytesBits;
    var rest := BytesBits(input)[from..];
    assert rest[p..] == BytesBits(input)[from + p..];
    PartCompatible(rest, bits, part, p);
  }

  lemma Arrived(input: seq<u8>, from: nat, bits: seq<bool>)
    requires Expects(input, from, bits)
    ensures from <= 8 * |input|
  {}

  lemma ExpectsLater(input: seq<u8>, from: nat, all: seq<bool>, part: seq<bool>)
    requires Expects(input, 0, all) && Stands(part, all, from) && from <= 8 * |input|
    ensures Expects(input, from, part)
  {
    hide BytesBits, Stands;
    ExpectsPart(input, 0, all, part, from);
  }

  lemma PartCompatible(rest: seq<bool>, bits: seq<bool>, part: seq<bool>, p: nat)
    requires Compatible(bits, rest) && Stands(part, bits, p) && p <= |rest|
    ensures Compatible(part, rest[p..])
  {
    if bits <= rest {
      assert rest[p..][..|part|] == rest[..|bits|][p..p + |part|];
    } else {
      assert rest == bits[..|rest|];
      if |rest| >= p + |part| {
        assert rest[p..][..|part|] == bits[p..p + |part|];
      } else {
        assert rest[p..] == part[..|rest| - p];
      }
    }
  }

  /** The bits behind position `p`. */
  lemma RestKnown(r: Reader, from: nat, bits: seq<bool>, part: seq<bool>, p: nat)
    requires r.Valid() && Expects(r.input, from, bits) && r.Pos() == from + p && Stands(part, bits, p)
    ensures Compatible(part, r.Rest())
    ensures |r.Rest()| < |part| ==> 8 * |r.input| < from + p + |part|
  {
    hide BytesBits;
    BufferLength(r);
    ExpectsPart(r.input, from, bits, part, p);
  }

  /** Reads a number that is known, if it has arrived. */
  method ReadKnown(r: Reader, n: nat, ghost from: nat, ghost bits: seq<bool>, ghost p: nat, ghost v: nat) returns (ok: bool, x: nat)
    requires r.Valid() && r.Own() && n <= 16 && v < Pow2(n)
    requires Expects(r.input, from, bits) && r.Pos() == from + p && Stands(ToBits(v, n), bits, p)
    modifies r`cur, r`bitBuf, r`numBits
    ensures r.Valid() && r.Own() && (ok ==> x == v) && r.Pos() == from + if ok then p + n else p
    ensures n <= old(r.numBits) ==> ok
    ensures !ok ==> r.cur == |r.input| && 8 * |r.input| < from + p + n && r.numBits < n
  {
    hide ToBits, Pow2, BytesBits, Buffered;
    RestKnown(r, from, bits, ToBits(v, n), p);
    BufferLength(r);
    ghost var rest := r.Rest();
    ok, x := r.GetBits(n);
    if ok { KnownNumber(x, v, n, rest); }
  }

  lemma KnownNumber(x: nat, v: nat, n: nat, rest: seq<bool>)
    requires x < Pow2(n) && v < Pow2(n) && n <= |rest| && ToBits(x, n) == rest[..n] && Compatible(ToBits(v, n), rest)
    ensures x == v
  {
    hide ToBits, Pow2;
    ToBitsInjective(x, v, n);
    SmallMod(x, Pow2(n));
    SmallMod(v, Pow2(n));
  }

  /** Reads a symbol that is known, if its code has arrived. */
  method SymbolKnown(r: Reader, lookup: array<int>, tree: array<int>, resume: bool, ghost sizes: seq<nat>, ghost s: nat,
                     ghost from: nat, ghost bits: seq<bool>, ghost p: nat) returns (sym: int)
    requires r.Valid() && Decodes(sizes, lookup[..], tree[..]) && Used(sizes, s)
    requires Expects(r.input, from, bits) && r.Pos() == from + p && Stands(CodeBits(sizes, s), bits, p)
    requires if resume then r.numBits < 15 && r.numBits < sizes[s] else r.Own()
    modifies r`cur, r`bitBuf, r`numBits
    ensures r.Valid() && (sym >= 0 ==> sym == s && r.Own()) && r.Pos() == from + if sym >= 0 then p + sizes[s] else p
    ensures sym < 0 ==> r.cur == |r.input| && 8 * |r.input| < from + p + sizes[s] && r.numBits < 15 && r.numBits < sizes[s]
  {
    hide CodeBits, BytesBits, Buffered, Decodes, Compatible;
    UsedLength(sizes, s);
    RestKnown(r, from, bits, CodeBits(sizes, s), p);
    sym := DecodeSymbol(r, lookup, tree, resume, sizes, s);
  }
}
