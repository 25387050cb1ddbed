/** How many bits the tokens of a block take: with the fixed codes, and with codes built for them. */
module BlockCost {
  import opened Bits
  import opened Tokens
  import opened Canonical
  import opened LzSymbols
  import opened BlockCode
  import opened TokenBuffer
  import opened HuffmanTree
  import opened TreeCost
  import opened LengthLimit
  import opened RankLengths
  import opened HuffTable
  import opened BlockTables

  // ---------------------------------------------------------------- with the fixed codes

  lemma StaticToken(t: Token)
    requires ValidToken(t)
    ensures Codable(StaticLit(), StaticDist(), ItemOf(t))
  {
    hide StaticLit, StaticDist, LenSym, DistSym, LenExtra, DistExtra, Pow2, LengthBase, LengthExtraOf, DistBase, DistExtraOf;
    ItemRoundTrip(t);
  }

  /** Eight times what a token takes in the token buffer, its flag included. */
  function Units(ts: seq<Token>): nat
  {
    if ts == [] then 0 else Units(ts[..|ts| - 1]) + if ts[|ts| - 1].Match? then 25 else 9
  }

  lemma {:induction false} UnitsSplit(a: seq<Token>, b: seq<Token>)
    ensures Units(a + b) == Units(a) + Units(b)
  {
    if b == [] {
      assert a + b == a;
    } else {
      assert (a + b)[..|a + b| - 1] == a + b[..|b| - 1];
      UnitsSplit(a, b[..|b| - 1]);
    }
  }

  lemma {:induction false} PayloadUnits(ts: seq<Token>)
    requires AllValid(ts)
    ensures Units(ts) == 8 * |Payloads(ts)| + |ts|
  {
    if ts != [] { PayloadUnits(ts[..|ts| - 1]); }
  }

  lemma {:induction false} PackUnits(ts: seq<Token>)
    requires AllValid(ts)
    ensures Units(ts) <= 8 * |Pack(ts)|
    decreases |ts|
  {
    if ts != [] {
      var m := if |ts| < 8 then |ts| else 8;
      PackUnits(ts[m..]);
      PayloadUnits(ts[..m]);
      UnitsSplit(ts[..m], ts[m..]);
      assert ts == ts[..m] + ts[m..];
    }
  }

  lemma StaticTokenSize(t: Token)
    requires ValidToken(t)
    ensures Codable(StaticLit(), StaticDist(), ItemOf(t))
    ensures |ItemBits(StaticLit(), StaticDist(), ItemOf(t))| <= if t.Match? then 31 else 9
  {
    hide CodeBits, ToBits, Pow2, LengthBase, LengthExtraOf, DistBase, DistExtraOf, LenSym, DistSym, LenExtra, DistExtra;
    StaticToken(t);
    ItemRoundTrip(t);
  }

  lemma {:induction false} StaticSize(ts: seq<Token>)
    requires AllValid(ts)
    ensures AllCodable(StaticLit(), StaticDist(), ItemsOf(ts))
    ensures 25 * |ItemsBits(StaticLit(), StaticDist(), ItemsOf(ts))| <= 31 * Units(ts)
  {
    hide Codable, ItemBits, StaticLit, StaticDist, ItemOf;
    var items := ItemsOf(ts);
    forall k | 0 <= k < |ts| ensures Codable(StaticLit(), StaticDist(), items[k]) {
      StaticTokenSize(ts[k]);
    }
    if ts != [] {
      var init := ts[..|ts| - 1];
      StaticSize(init);
      assert items[..|items| - 1] == ItemsOf(init);
      StaticTokenSize(ts[|ts| - 1]);
    }
  }

  // ---------------------------------------------------------------- by symbol

  /** The extra bits of all tokens. */
  function ExtraBits(ts: seq<Token>): nat
    requires AllValid(ts)
  {
    if ts == [] then 0 else ExtraBits(ts[..|ts| - 1]) + TokenExtra(ts[|ts| - 1])
  }

  function TokenExtra(t: Token): nat
    requires ValidToken(t)
  {
    if t.Match? then LenExtra(t.len - MIN_MATCH) + DistExtra(t.dist - 1) else 0
  }

  lemma ItemCost(lit: seq<nat>, dis: seq<nat>, t: Token)
    requires ValidToken(t) && Codable(lit, dis, ItemOf(t))
    ensures LitSymOf(t) < |lit| && (t.Match? ==> DistSymOf(t) < |dis|)
    ensures |ItemBits(lit, dis, ItemOf(t))| == lit[LitSymOf(t)] + (if t.Match? then dis[DistSymOf(t)] else 0) + TokenExtra(t)
  {
    hide CodeBits, ToBits, Pow2, LengthBase, LengthExtraOf, DistBase, DistExtraOf, LenSym, DistSym, LenExtra, DistExtra;
    ItemRoundTrip(t);
    if t.Match? {
      LenTables(t.len - MIN_MATCH);
      DistTables(t.dist - 1);
    }
  }

  /** One more of a symbol costs its length. */
  lemma CostBump(c: seq<nat>, z: seq<nat>, i: nat)
    requires |c| == |z| && i < |c|
    ensures RankCost(c[i := c[i] + 1], z) == RankCost(c, z) + z[i]
  {
    hide Sum;
    var p, q := Products(c, z), Products(c[i := c[i] + 1], z);
    assert (c[i] + 1) * z[i] == c[i] * z[i] + z[i];
    assert p == p[..i] + ([p[i]] + p[i + 1..]) && q == p[..i] + ([p[i] + z[i]] + p[i + 1..]);
    SumSplit(p[..i], [p[i]] + p[i + 1..]);
    SumSplit(p[..i], [p[i] + z[i]] + p[i + 1..]);
    SumSplit([p[i]], p[i + 1..]);
    SumSplit([p[i] + z[i]], p[i + 1..]);
    SumOne(p[i]);
    SumOne(p[i] + z[i]);
  }

  lemma SumOne(x: nat)
    ensures Sum([x]) == x
  {
    assert [x][1..] == [];
  }

  lemma {:induction false} CostNone(c: seq<nat>, z: seq<nat>)
    requires |c| == |z| && forall i :: 0 <= i < |c| ==> c[i] == 0
    ensures RankCost(c, z) == 0
  {
    hide Sum;
    SumZero(Products(c, z));
  }

  /** What the tokens cost is what the counts of their symbols cost, and the extra bits. */
  lemma {:induction false} BodyCost(lit: seq<nat>, dis: seq<nat>, ts: seq<Token>)
    requires AllValid(ts) && |lit| == LIT_SYMS && |dis| == DIST_SYMS && AllCodable(lit, dis, ItemsOf(ts))
    ensures |ItemsBits(lit, dis, ItemsOf(ts))| == RankCost(LitCounts(ts), lit) + RankCost(DistCounts(ts), dis) + ExtraBits(ts)
  {
    hide Codable, ItemBits, ItemOf, LitSymOf, DistSymOf, TokenExtra, RankCost;
    if ts == [] {
      CostNone(LitCounts(ts), lit);
      CostNone(DistCounts(ts), dis);
    } else {
      var init, t, items := ts[..|ts| - 1], ts[|ts| - 1], ItemsOf(ts);
      assert items[..|items| - 1] == ItemsOf(init) && items[|items| - 1] == ItemOf(t);
      BodyCost(lit, dis, init);
      ItemCost(lit, dis, t);
      var a, b := LitCounts(init), DistCounts(init);
      CostBump(a, lit, LitSymOf(t));
      assert LitCounts(ts) == a[LitSymOf(t) := a[LitSymOf(t)] + 1];
      if t.Match? {
        CostBump(b, dis, DistSymOf(t));
        assert DistCounts(ts) == b[DistSymOf(t) := b[DistSymOf(t)] + 1];
      } else {
        assert DistCounts(ts) == b;
      }
    }
  }

  /** With the end of the block. */
  lemma BlockCosts(lit: seq<nat>, dis: seq<nat>, ts: seq<Token>)
    requires AllValid(ts) && |lit| == LIT_SYMS && |dis| == DIST_SYMS && AllCodable(lit, dis, ItemsOf(ts)) && Used(lit, END_OF_BLOCK)
    ensures |BlockBits(lit, dis, ItemsOf(ts))| == RankCost(BlockCounts(ts), lit) + RankCost(DistCounts(ts), dis) + ExtraBits(ts)
  {
    hide RankCost, ItemsBits, LitCount, DistCount, AllCodable, ItemsOf;
    BodyCost(lit, dis, ts);
    ReservedUnused(ts, END_OF_BLOCK);
    CostBump(LitCounts(ts), lit, END_OF_BLOCK);
  }

  /** The counts that the literal/length code is built from. */
  function BlockCounts(ts: seq<Token>): (c: seq<nat>)
    requires forall k :: 0 <= k < |ts| ==> ValidToken(ts[k])
    ensures |c| == LIT_SYMS
  {
    LitCounts(ts)[END_OF_BLOCK := 1]
  }

  // ---------------------------------------------------------------- with codes built for the tokens

  /** The fixed codes are competitors. */
  lemma StaticCompetes()
    ensures Competes(StaticLit(), 9) && Competes(StaticDist(), 9)
  {
    hide StaticLit, StaticDist, CountLen, Room, Share;
    var c: seq<nat> := [0, 0, 0, 0, 0, 0, 0, 24, 152, 112];
    var d: seq<nat> := [0, 0, 0, 0, 0, 32, 0, 0, 0, 0];
    forall l | 1 <= l <= 9 ensures c[l] == CountLen(StaticLit(), l) && d[l] == CountLen(StaticDist(), l) { StaticCounts(l); }
    RoomByCounts(c, StaticLit(), 9);
    RoomByCounts(d, StaticDist(), 9);
    StaticShares(c, d);
  }

  lemma StaticShares(c: seq<nat>, d: seq<nat>)
    requires c == [0, 0, 0, 0, 0, 0, 0, 24, 152, 112] && d == [0, 0, 0, 0, 0, 32, 0, 0, 0, 0]
    ensures Share(c, 1, 10, 9) == 512 == Pow2(9) && Share(d, 1, 10, 9) == 512
  {
    Powers();
    hide Pow2;
    ShareSteps(c);
    ShareSteps(d);
  }

  lemma ShareSteps(c: seq<nat>)
    requires |c| == 10 && c[1] == c[2] == c[3] == c[4] == c[6] == 0
    ensures Share(c, 1, 10, 9) == c[5] * 16 + c[7] * 4 + c[8] * 2 + c[9]
  {
    Powers();
    assert Pow2(0) == 1;
    hide Pow2;
    assert Share(c, 1, 2, 9) == 0;
    assert Share(c, 1, 3, 9) == 0;
    assert Share(c, 1, 4, 9) == 0;
    assert Share(c, 1, 5, 9) == 0;
    assert Share(c, 1, 6, 9) == c[5] * 16;
    assert Share(c, 1, 7, 9) == c[5] * 16;
    assert Share(c, 1, 8, 9) == c[5] * 16 + c[7] * 4;
    assert Share(c, 1, 9, 9) == c[5] * 16 + c[7] * 4 + c[8] * 2;
  }

  /** How many matches there are. */
  function Matches(ts: seq<Token>): nat
  {
    if ts == [] then 0 else Matches(ts[..|ts| - 1]) + if ts[|ts| - 1].Match? then 1 else 0
  }

  lemma {:induction false} MatchesCounted(ts: seq<Token>)
    requires AllValid(ts)
    ensures Sum(DistCounts(ts)) == Matches(ts)
  {
    hide DistSymOf, Sum;
    if ts == [] {
      SumZero(DistCounts(ts));
    } else {
      var init, t := ts[..|ts| - 1], ts[|ts| - 1];
      MatchesCounted(init);
      var b := DistCounts(init);
      if t.Match? {
        SumBump(b, DistSymOf(t));
        assert DistCounts(ts) == b[DistSymOf(t) := b[DistSymOf(t)] + 1];
      } else {
        assert DistCounts(ts) == b;
      }
    }
  }

  lemma BlockSum(ts: seq<Token>)
    requires AllValid(ts)
    ensures Sum(BlockCounts(ts)) == |ts| + 1
  {
    hide LitCount, Sum;
    CountsSum(ts);
    ReservedUnused(ts, END_OF_BLOCK);
    SumBump(LitCounts(ts), END_OF_BLOCK);
  }

  /** The fixed codes, with one bit more for each token and a quarter of one for each match. */
  lemma {:induction false} StaticAndMore(ts: seq<Token>)
    requires AllValid(ts)
    ensures AllCodable(StaticLit(), StaticDist(), ItemsOf(ts))
    ensures 100 * |ItemsBits(StaticLit(), StaticDist(), ItemsOf(ts))| + 100 * |ts| + 25 * Matches(ts) <= 129 * Units(ts)
  {
    hide Codable, ItemBits, StaticLit, StaticDist, ItemOf;
    StaticSize(ts);
    if ts != [] {
      var items, init := ItemsOf(ts), ts[..|ts| - 1];
      StaticAndMore(init);
      assert items[..|items| - 1] == ItemsOf(init) && items[|items| - 1] == ItemOf(ts[|ts| - 1]);
      StaticTokenSize(ts[|ts| - 1]);
    }
  }

  /** Codes built for a block take not much more than the fixed ones, however they had to be limited. */
  lemma BuiltIsShort(lit: seq<nat>, dis: seq<nat>, ts: seq<Token>)
    requires AllValid(ts) && |lit| == LIT_SYMS && |dis| == DIST_SYMS && AllCodable(lit, dis, ItemsOf(ts)) && Used(lit, END_OF_BLOCK)
    requires Frugal(BlockCounts(ts), lit) && Frugal(DistCounts(ts), dis)
    ensures 100 * |BlockBits(lit, dis, ItemsOf(ts))| <= 129 * Units(ts) + 800
  {
    hide RankCost, ItemsBits, BlockBits, AllCodable, ItemsOf, Units, BlockCounts, DistCounts, Frugal, Sum, StaticLit, StaticDist, Competes;
    StaticAndMore(ts);
    StaticCompetes();
    StaticEnd(ts);
    BlockCosts(lit, dis, ts);
    BlockCosts(StaticLit(), StaticDist(), ts);
    Against(BlockCounts(ts), lit, StaticLit());
    Against(DistCounts(ts), dis, StaticDist());
    BlockSum(ts);
    MatchesCounted(ts);
  }

  lemma Against(counts: seq<nat>, sizes: seq<nat>, other: seq<nat>)
    requires |counts| == |sizes| == |other| && Frugal(counts, sizes) && Competes(other, 9)
    ensures RankCost(counts, sizes) <= RankCost(counts, other) + Sum(counts)
    ensures |counts| <= 32 ==> 4 * RankCost(counts, sizes) <= 4 * RankCost(counts, other) + Sum(counts)
  {}

  lemma StaticEnd(ts: seq<Token>)
    requires AllValid(ts) && AllCodable(StaticLit(), StaticDist(), ItemsOf(ts))
    ensures Used(StaticLit(), END_OF_BLOCK)
    ensures |BlockBits(StaticLit(), StaticDist(), ItemsOf(ts))| == |ItemsBits(StaticLit(), StaticDist(), ItemsOf(ts))| + 7
  {
    hide ItemsBits, AllCodable, ItemsOf;
    assert StaticLit()[END_OF_BLOCK] == 7;
  }
}
