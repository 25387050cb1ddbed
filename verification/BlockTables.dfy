/** Code lengths on their way from the compressor to the decompressor: what was built from counts is
    acceptable, and leaving off unused symbols at the end changes no code. */
module BlockTables {
  import opened Bits
  import opened Tokens
  import opened Canonical
  import opened LzSymbols
  import opened BlockCode
  import opened TokenBuffer
  import opened HuffmanTree
  import opened HuffTable
  import opened DecodeTable

  // ---------------------------------------------------------------- acceptable lengths

  lemma {:induction false} SameNumUsed(counts: seq<u16>, sizes: seq<nat>)
    requires |counts| == |sizes| < 0x1_0000 && forall i :: 0 <= i < |counts| ==> (sizes[i] == 0 <==> counts[i] == 0)
    ensures NumUsed(sizes) == |UsedSyms(counts)|
  {
    if counts != [] {
      SameNumUsed(counts[..|counts| - 1], sizes[..|sizes| - 1]);
    }
  }

  /** The decompressor accepts every table the compressor builds. */
  lemma BuiltIsAcceptable(counts: seq<u16>, sizes: seq<nat>, limit: nat)
    requires LengthsFor(counts, sizes, limit) && limit <= MAX_LEN
    ensures Acceptable(sizes) && ValidSizes(sizes) && Roomy(sizes)
  {
    hide UsedSyms, NumUsed, Full, Roomy;
    SameNumUsed(counts, sizes);
  }

  // ---------------------------------------------------------------- unused symbols at the end

  /** Nothing but unused symbols from `n` on. */
  ghost predicate Trailing(z: seq<nat>, n: nat)
  {
    n <= |z| && forall i :: n <= i < |z| ==> z[i] == 0
  }

  lemma {:induction false} TrailingCount(z: seq<nat>, n: nat, l: nat)
    requires Trailing(z, n) && l > 0
    ensures CountLen(z, l) == CountLen(z[..n], l)
    decreases |z|
  {
    if |z| > n {
      var init := z[..|z| - 1];
      TrailingCount(init, n, l);
      assert init[..n] == z[..n];
    } else {
      assert z[..n] == z;
    }
  }

  lemma {:induction false} TrailingFirst(z: seq<nat>, n: nat, l: nat)
    requires Trailing(z, n)
    ensures FirstCode(z, l) == FirstCode(z[..n], l)
    decreases l
  {
    hide CountLen;
    if l > 1 {
      TrailingFirst(z, n, l - 1);
      TrailingCount(z, n, l - 1);
    }
  }

  lemma TrailingCode(z: seq<nat>, n: nat, s: nat)
    requires Trailing(z, n) && Used(z, s)
    ensures Used(z[..n], s) && CodeBits(z, s) == CodeBits(z[..n], s)
  {
    hide CountLen, FirstCode, BigEndian;
    assert s < n;
    TrailingFirst(z, n, z[s]);
    assert z[..n][..s] == z[..s];
  }

  lemma {:induction false} TrailingUsed(z: seq<nat>, n: nat)
    requires Trailing(z, n)
    ensures NumUsed(z) == NumUsed(z[..n])
    decreases |z|
  {
    if |z| > n {
      TrailingUsed(z[..|z| - 1], n);
      assert z[..|z| - 1][..n] == z[..n];
    } else {
      assert z[..n] == z;
    }
  }

  lemma TrailingAcceptable(z: seq<nat>, n: nat)
    requires Trailing(z, n) && Acceptable(z)
    ensures Acceptable(z[..n])
  {
    hide CountLen, FirstCode, NumUsed;
    TrailingUsed(z, n);
    TrailingFirst(z, n, MAX_LEN);
    TrailingCount(z, n, MAX_LEN);
  }

  lemma TrailingItem(lit: seq<nat>, dis: seq<nat>, n: nat, m: nat, i: Item)
    requires Trailing(lit, n) && Trailing(dis, m) && Codable(lit, dis, i)
    ensures Codable(lit[..n], dis[..m], i) && ItemBits(lit[..n], dis[..m], i) == ItemBits(lit, dis, i)
  {
    hide CodeBits, ToBits, Pow2;
    match i
    case Lit(b) => TrailingCode(lit, n, b);
    case Copy(ls, _, ds, _) =>
      TrailingCode(lit, n, ls);
      TrailingCode(dis, m, ds);
  }

  lemma {:induction false} TrailingItems(lit: seq<nat>, dis: seq<nat>, n: nat, m: nat, items: seq<Item>)
    requires Trailing(lit, n) && Trailing(dis, m) && AllCodable(lit, dis, items)
    ensures AllCodable(lit[..n], dis[..m], items) && ItemsBits(lit[..n], dis[..m], items) == ItemsBits(lit, dis, items)
  {
    hide Codable, ItemBits;
    if items != [] {
      var k := |items| - 1;
      TrailingItems(lit, dis, n, m, items[..k]);
      TrailingItem(lit, dis, n, m, items[k]);
    }
  }

  /** The shortened lengths give a block the same bits. */
  lemma TrailingBlock(lit: seq<nat>, dis: seq<nat>, n: nat, m: nat, items: seq<Item>)
    requires Trailing(lit, n) && Trailing(dis, m) && AllCodable(lit, dis, items) && Used(lit, END_OF_BLOCK)
    ensures AllCodable(lit[..n], dis[..m], items) && Used(lit[..n], END_OF_BLOCK)
    ensures BlockBits(lit[..n], dis[..m], items) == BlockBits(lit, dis, items)
  {
    hide CodeBits, ItemsBits, Codable;
    TrailingItems(lit, dis, n, m, items);
    TrailingCode(lit, n, END_OF_BLOCK);
  }

  // ---------------------------------------------------------------- counts

  lemma {:induction false} SumBump(c: seq<nat>, i: nat)
    requires i < |c|
    ensures Sum(c[i := c[i] + 1]) == Sum(c) + 1
  {
    var d := c[i := c[i] + 1];
    if i > 0 {
      SumBump(c[1..], i - 1);
      assert d[1..] == c[1..][i - 1 := c[1..][i - 1] + 1];
    } else {
      assert d[1..] == c[1..];
    }
  }

  lemma {:induction false} SumZero(c: seq<nat>)
    requires forall i :: 0 <= i < |c| ==> c[i] == 0
    ensures Sum(c) == 0
  {
    if c != [] { SumZero(c[1..]); }
  }

  function LitCounts(ts: seq<Token>): (c: seq<nat>)
    requires forall k :: 0 <= k < |ts| ==> ValidToken(ts[k])
    ensures |c| == LIT_SYMS
  {
    seq(LIT_SYMS, s requires 0 <= s => LitCount(ts, s))
  }

  function DistCounts(ts: seq<Token>): (c: seq<nat>)
    requires forall k :: 0 <= k < |ts| ==> ValidToken(ts[k])
    ensures |c| == DIST_SYMS
  {
    seq(DIST_SYMS, s requires 0 <= s => DistCount(ts, s))
  }

  /** Every token is counted once in the literal/length code, and at most once in the other. */
  lemma {:induction false} CountsSum(ts: seq<Token>)
    requires AllValid(ts)
    ensures Sum(LitCounts(ts)) == |ts| && Sum(DistCounts(ts)) <= |ts|
  {
    hide LitSymOf, DistSymOf, Sum;
    if ts == [] {
      SumZero(LitCounts(ts));
      SumZero(DistCounts(ts));
    } else {
      var init, t := ts[..|ts| - 1], ts[|ts| - 1];
      CountsSum(init);
      var a, b := LitCounts(init), DistCounts(init);
      SumBump(a, LitSymOf(t));
      assert LitCounts(ts) == a[LitSymOf(t) := a[LitSymOf(t)] + 1];
      if t.Match? {
        SumBump(b, DistSymOf(t));
        assert DistCounts(ts) == b[DistSymOf(t) := b[DistSymOf(t)] + 1];
      } else {
        assert DistCounts(ts) == b;
      }
    }
  }

  /** The last two symbols of either alphabet are never used, and a token never counts as the end of
      the block. */
  lemma {:induction false} ReservedUnused(ts: seq<Token>, s: nat)
    requires AllValid(ts)
    ensures s >= 286 || s == END_OF_BLOCK ==> LitCount(ts, s) == 0
    ensures s >= 30 ==> DistCount(ts, s) == 0
  {
    if ts != [] {
      ReservedUnused(ts[..|ts| - 1], s);
      LitSymRange(ts[|ts| - 1]);
    }
  }

  lemma LitSymRange(t: Token)
    requires ValidToken(t)
    ensures LitSymOf(t) < 286 && LitSymOf(t) != END_OF_BLOCK
  {
    if t.Match? { LenTables(t.len - MIN_MATCH); }
  }

  // ---------------------------------------------------------------- the static codes

  function Times(x: nat, n: nat): (r: seq<nat>)
    ensures |r| == n && forall i :: 0 <= i < n ==> r[i] == x
  {
    seq(n, _ => x)
  }

  /** The lengths both sides set for a static block (section 3.2.6 of RFC 1951). */
  function StaticLit(): (z: seq<nat>)
    ensures |z| == LIT_SYMS && forall i :: 0 <= i < LIT_SYMS ==> 7 <= z[i] <= 9
  {
    Times(8, 144) + Times(9, 112) + Times(7, 24) + Times(8, 8)
  }

  function StaticDist(): (z: seq<nat>)
    ensures |z| == DIST_SYMS && forall i :: 0 <= i < DIST_SYMS ==> z[i] == 5
  {
    Times(5, 32)
  }

  lemma {:induction false} CountTimes(x: nat, n: nat, l: nat)
    ensures CountLen(Times(x, n), l) == if x == l then n else 0
  {
    if n > 0 {
      CountTimes(x, n - 1, l);
      assert Times(x, n)[..n - 1] == Times(x, n - 1);
    }
  }

  lemma StaticCounts(l: nat)
    ensures CountLen(StaticLit(), l) == if l == 7 then 24 else if l == 8 then 152 else if l == 9 then 112 else 0
    ensures CountLen(StaticDist(), l) == if l == 5 then 32 else 0
  {
    hide CountLen;
    var a, b, c, d := Times(8, 144), Times(9, 112), Times(7, 24), Times(8, 8);
    CountSplit(a + b + c, d, l);
    CountSplit(a + b, c, l);
    CountSplit(a, b, l);
    CountTimes(8, 144, l);
    CountTimes(9, 112, l);
    CountTimes(7, 24, l);
    CountTimes(8, 8, l);
    CountTimes(5, 32, l);
  }

  lemma StaticEnds()
    ensures EndCode(StaticLit(), 9) == 512 && EndCode(StaticDist(), 5) == 32
  {
    var z, d := StaticLit(), StaticDist();
    EndStart(z);
    EndStart(d);
    hide *;
    StaticCounts(1); StaticCounts(2); StaticCounts(3); StaticCounts(4); StaticCounts(5); StaticCounts(6); StaticCounts(7); StaticCounts(8); StaticCounts(9);
    EndStep(z, 2); EndStep(z, 3); EndStep(z, 4); EndStep(z, 5); EndStep(z, 6); EndStep(z, 7); EndStep(z, 8); EndStep(z, 9);
    EndStep(d, 2); EndStep(d, 3); EndStep(d, 4); EndStep(d, 5);
  }

  lemma EndStart(z: seq<nat>)
    ensures EndCode(z, 1) == CountLen(z, 1)
  {
    hide CountLen;
  }

  /** Both static codes are complete. */
  lemma StaticFull()
    ensures Full(StaticLit()) && Full(StaticDist()) && Acceptable(StaticLit()) && Acceptable(StaticDist())
  {
    StaticEnds();
    EndCodeGrows(StaticLit(), 9, MAX_LEN);
    EndCodeGrows(StaticDist(), 5, MAX_LEN);
    assert Pow2(MAX_LEN - 9) == 64 && Pow2(MAX_LEN - 5) == 1024 && Pow2(MAX_LEN) == 32768;
    hide EndCode, StaticLit, StaticDist, Pow2, NumUsed;
  }

  // ---------------------------------------------------------------- the static codes, symbol by symbol

  function StaticLitLength(s: nat): nat
  {
    if s < 144 then 8 else if s < 256 then 9 else if s < 280 then 7 else 8
  }

  function StaticLitCode(s: nat): nat
    requires s < 288
  {
    if s < 144 then 0x30 + s else if s < 256 then 0x190 + (s - 144) else if s < 280 then s - 256 else 0xC0 + (s - 280)
  }

  /** The table in section 3.2.6 of RFC 1951, and the five bits of a distance. */
  lemma FixedCodes()
    ensures forall s :: 0 <= s < 144 ==> StaticLit()[s] == 8 && CodeBits(StaticLit(), s) == BigEndian(0x30 + s, 8)
    ensures forall s :: 144 <= s < 256 ==> StaticLit()[s] == 9 && CodeBits(StaticLit(), s) == BigEndian(0x190 + (s - 144), 9)
    ensures forall s :: 256 <= s < 280 ==> StaticLit()[s] == 7 && CodeBits(StaticLit(), s) == BigEndian(s - 256, 7)
    ensures forall s :: 280 <= s < 288 ==> StaticLit()[s] == 8 && CodeBits(StaticLit(), s) == BigEndian(0xC0 + (s - 280), 8)
    ensures forall s :: 0 <= s < 32 ==> StaticDist()[s] == 5 && CodeBits(StaticDist(), s) == BigEndian(s, 5)
  {
    hide Code, BigEndian, StaticLit, StaticDist;
    forall s: nat | s < 288 ensures StaticLit()[s] == StaticLitLength(s) && Code(StaticLit(), s) == StaticLitCode(s) {
      StaticLitIs(s);
    }
    forall s: nat | s < 32 ensures StaticDist()[s] == 5 && Code(StaticDist(), s) == s {
      StaticDistIs(s);
    }
  }

  lemma StaticLitIs(s: nat)
    requires s < 288
    ensures StaticLit()[s] == StaticLitLength(s) && Code(StaticLit(), s) == StaticLitCode(s)
  {
    hide CountLen, FirstCode, StaticLit;
    StaticLitAt(s);
    StaticFirsts();
    if s < 144 { Rank8(s); } else if s < 256 { Rank9(s); } else if s < 280 { Rank7(s); } else { Rank8Late(s); }
  }

  lemma StaticLitAt(s: nat)
    requires s < 288
    ensures StaticLit()[s] == StaticLitLength(s)
  {}

  lemma StaticFirsts()
    ensures FirstCode(StaticLit(), 7) == 0 && FirstCode(StaticLit(), 8) == 0x30 && FirstCode(StaticLit(), 9) == 0x190 && FirstCode(StaticDist(), 5) == 0
  {
    var z, d := StaticLit(), StaticDist();
    EndStart(z);
    EndStart(d);
    FirstIs(z, 7);
    FirstIs(z, 8);
    FirstIs(z, 9);
    FirstIs(d, 5);
    hide *;
    StaticCounts(1); StaticCounts(2); StaticCounts(3); StaticCounts(4); StaticCounts(5); StaticCounts(6); StaticCounts(7); StaticCounts(8);
    EndStep(z, 2); EndStep(z, 3); EndStep(z, 4); EndStep(z, 5); EndStep(z, 6); EndStep(z, 7); EndStep(z, 8);
    EndStep(d, 2); EndStep(d, 3); EndStep(d, 4);
  }

  lemma FirstIs(z: seq<nat>, l: nat)
    requires l > 1
    ensures FirstCode(z, l) == 2 * EndCode(z, l - 1)
  {
    hide CountLen;
  }

  lemma Rank8(s: nat)
    requires s < 144
    ensures CountLen(StaticLit()[..s], 8) == s
  {
    hide CountLen;
    CountTimes(8, s, 8);
    assert StaticLit()[..s] == Times(8, s);
  }

  lemma Rank9(s: nat)
    requires 144 <= s < 256
    ensures CountLen(StaticLit()[..s], 9) == s - 144
  {
    hide CountLen;
    CountSplit(Times(8, 144), Times(9, s - 144), 9);
    CountTimes(8, 144, 9);
    CountTimes(9, s - 144, 9);
    assert StaticLit()[..s] == Times(8, 144) + Times(9, s - 144);
  }

  lemma Rank7(s: nat)
    requires 256 <= s < 280
    ensures CountLen(StaticLit()[..s], 7) == s - 256
  {
    hide CountLen;
    CountSplit(Times(8, 144) + Times(9, 112), Times(7, s - 256), 7);
    CountSplit(Times(8, 144), Times(9, 112), 7);
    CountTimes(8, 144, 7);
    CountTimes(9, 112, 7);
    CountTimes(7, s - 256, 7);
    assert StaticLit()[..s] == Times(8, 144) + Times(9, 112) + Times(7, s - 256);
  }

  lemma Rank8Late(s: nat)
    requires 280 <= s < 288
    ensures CountLen(StaticLit()[..s], 8) == 144 + (s - 280)
  {
    hide CountLen;
    CountSplit(Times(8, 144) + Times(9, 112) + Times(7, 24), Times(8, s - 280), 8);
    CountSplit(Times(8, 144) + Times(9, 112), Times(7, 24), 8);
    CountSplit(Times(8, 144), Times(9, 112), 8);
    CountTimes(8, 144, 8);
    CountTimes(9, 112, 8);
    CountTimes(7, 24, 8);
    CountTimes(8, s - 280, 8);
    assert StaticLit()[..s] == Times(8, 144) + Times(9, 112) + Times(7, 24) + Times(8, s - 280);
  }

  lemma StaticDistIs(s: nat)
    requires s < 32
    ensures StaticDist()[s] == 5 && Code(StaticDist(), s) == s
  {
    hide CountLen, FirstCode;
    StaticFirsts();
    CountTimes(5, s, 5);
    assert StaticDist()[..s] == Times(5, s);
  }
}
