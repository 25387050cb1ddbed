/** Code lengths by rank, rarest symbol first, and what limiting them costs: the limiter works on the
    numbers of codes of each length only, but those numbers determine the length of every rank. */
module RankLengths {
  import opened Bits
  import opened HuffmanTree
  import opened OptimalCode
  import opened TreeCost
  import opened MinRedundancy
  import opened LengthLimit
  import opened Canonical

  // ---------------------------------------------------------------- lengths and their numbers

  lemma {:induction false} NoneOfLength(sizes: seq<nat>, l: nat)
    requires forall s :: 0 <= s < |sizes| ==> sizes[s] != l
    ensures CountLen(sizes, l) == 0
  {
    if sizes != [] { NoneOfLength(sizes[..|sizes| - 1], l); }
  }

  /** Kraft's sum over lengths and over counts of lengths. */
  lemma {:induction false} KraftByCounts(f: seq<nat>, lens: seq<nat>, c: seq<nat>, n: nat)
    requires |f| == |lens| && |c| == n + 1 && forall i :: 0 <= i < |lens| ==> 1 <= lens[i] <= n
    requires forall l :: 1 <= l <= n ==> c[l] == CountLen(lens, l)
    ensures Within(Items(f, lens), n) && Kraft(Items(f, lens), n) == Share(c, 1, n + 1, n)
    ensures Total(c, 1, n + 1) == |lens|
  {
    if f == [] {
      ShareZero(c, n, n + 1);
      assert Items(f, lens) == [];
    } else {
      hide CountLen, Share, Total, Pow2, Kraft;
      var l, rest := lens[0], lens[1..];
      var c' := WithoutFirst(lens, c, n);
      KraftByCounts(f[1..], rest, c', n);
      OneMoreOfLength(c', l, n);
      assert Items(f, lens)[1..] == Items(f[1..], rest);
      ItemsWithin(f, lens, n);
      KraftHead(Items(f, lens), n);
    }
  }

  lemma WithoutFirst(lens: seq<nat>, c: seq<nat>, n: nat) returns (c': seq<nat>)
    requires lens != [] && |c| == n + 1 && 1 <= lens[0] <= n && forall l :: 1 <= l <= n ==> c[l] == CountLen(lens, l)
    ensures |c'| == n + 1 && c == c'[lens[0] := c'[lens[0]] + 1]
    ensures forall l :: 1 <= l <= n ==> c'[l] == CountLen(lens[1..], l)
  {
    CountFront(lens);
    hide CountLen;
    c' := c[lens[0] := c[lens[0]] - 1];
  }

  lemma OneMoreOfLength(c: seq<nat>, l: nat, n: nat)
    requires |c| == n + 1 && 1 <= l <= n
    ensures Share(c[l := c[l] + 1], 1, n + 1, n) == Share(c, 1, n + 1, n) + Pow2(n - l)
    ensures Total(c[l := c[l] + 1], 1, n + 1) == Total(c, 1, n + 1) + 1
  {
    hide *;
    ShareUpdate(c, 1, n + 1, n, l, c[l] + 1);
    TotalUpdate(c, 1, n + 1, l, c[l] + 1);
  }

  lemma CountFront(lens: seq<nat>)
    requires lens != []
    ensures forall l :: CountLen(lens, l) == CountLen(lens[1..], l) + if lens[0] == l then 1 else 0
  {
    forall l ensures CountLen(lens, l) == CountLen(lens[1..], l) + if lens[0] == l then 1 else 0 {
      CountSplit([lens[0]], lens[1..], l);
      assert lens == [lens[0]] + lens[1..] && [lens[0]][..0] == [];
    }
  }

  lemma {:induction false} ShareZero(c: seq<nat>, n: nat, hi: nat)
    requires 1 <= hi <= |c| == n + 1 && forall l :: 1 <= l < hi ==> c[l] == 0
    ensures Share(c, 1, hi, n) == 0 && Total(c, 1, hi) == 0
    decreases hi
  {
    if hi > 1 { ShareZero(c, n, hi - 1); }
  }

  lemma {:induction false} CountUpdate(s: seq<nat>, x: nat, v: nat, l: nat)
    requires x < |s|
    ensures CountLen(s[x := v], l) == CountLen(s, l) + (if v == l then 1 else 0) - (if s[x] == l then 1 else 0)
  {
    hide CountLen;
    CountSplit(s[..x], s[x..], l);
    CountSplit([s[x]], s[x + 1..], l);
    CountSplit(s[..x], [v] + s[x + 1..], l);
    CountSplit([v], s[x + 1..], l);
    CountOne(s[x], l);
    CountOne(v, l);
    assert s == s[..x] + s[x..] && s[x..] == [s[x]] + s[x + 1..];
    assert s[x := v] == s[..x] + ([v] + s[x + 1..]);
  }

  lemma CountOne(v: nat, l: nat)
    ensures CountLen([v], l) == if v == l then 1 else 0
  {
    assert [v][..0] == [];
  }

  // ---------------------------------------------------------------- ranks

  /** Lengths from 1 to `m`, longest first. */
  ghost predicate Ranked(z: seq<nat>, m: nat)
  {
    Descending(z) && forall r :: 0 <= r < |z| ==> 1 <= z[r] <= m
  }

  /** The numbers of codes are those of the ranks. */
  ghost predicate Matches(c: seq<nat>, z: seq<nat>, m: nat)
  {
    m < |c| && forall l :: 1 <= l <= m ==> c[l] == CountLen(z, l)
  }

  /** The longest codes come first. */
  lemma {:induction false} FrontCount(z: seq<nat>, m: nat, r: nat)
    requires Ranked(z, m) && r < |z|
    ensures z[r] == m <==> r < CountLen(z, m)
    decreases |z|
  {
    var init, last := z[..|z| - 1], z[|z| - 1];
    if r < |init| {
      FrontCount(init, m, r);
      if last == m { AllCount(init, m); }
    } else if last == m {
      AllCount(init, m);
    }
  }

  /** With the last one all of them are longest. */
  lemma {:induction false} AllCount(z: seq<nat>, m: nat)
    requires forall r :: 0 <= r < |z| ==> z[r] == m
    ensures CountLen(z, m) == |z|
  {
    if z != [] { AllCount(z[..|z| - 1], m); }
  }

  lemma {:induction false} SomeRank(z: seq<nat>, l: nat) returns (r: nat)
    requires CountLen(z, l) > 0
    ensures r < |z| && z[r] == l
  {
    r := |z| - 1;
    if z[r] != l { r := SomeRank(z[..r], l); }
  }

  // ---------------------------------------------------------------- room

  /** Kraft's sum over the ranks. */
  ghost function Room(z: seq<nat>, m: nat): nat
    requires forall r :: 0 <= r < |z| ==> z[r] <= m
  {
    Sum(Shares(z, m))
  }

  lemma RoomSplit(a: seq<nat>, b: seq<nat>, m: nat)
    requires (forall r :: 0 <= r < |a| ==> a[r] <= m) && forall r :: 0 <= r < |b| ==> b[r] <= m
    ensures (forall r :: 0 <= r < |a + b| ==> (a + b)[r] <= m) && Room(a + b, m) == Room(a, m) + Room(b, m)
  {
    hide Sum;
    SumSplit(Shares(a, m), Shares(b, m));
    assert Shares(a + b, m) == Shares(a, m) + Shares(b, m);
  }

  lemma RoomOne(v: nat, m: nat)
    requires v <= m
    ensures Room([v], m) == Pow2(m - v)
  {
    hide Pow2;
    SumHead(Shares([v], m));
    assert Shares([v], m)[1..] == [];
  }

  lemma RoomUpdate(z: seq<nat>, j: nat, v: nat, m: nat)
    requires (forall r :: 0 <= r < |z| ==> z[r] <= m) && j < |z| && v <= m
    ensures Room(z[j := v], m) + Pow2(m - z[j]) == Room(z, m) + Pow2(m - v)
  {
    hide Room;
    RoomSplit(z[..j], [z[j]] + z[j + 1..], m);
    RoomSplit([z[j]], z[j + 1..], m);
    RoomSplit(z[..j], [v] + z[j + 1..], m);
    RoomSplit([v], z[j + 1..], m);
    RoomOne(z[j], m);
    RoomOne(v, m);
    assert z == z[..j] + ([z[j]] + z[j + 1..]) && z[j := v] == z[..j] + ([v] + z[j + 1..]);
  }

  lemma {:induction false} RoomOfLongest(z: seq<nat>, m: nat)
    requires forall r :: 0 <= r < |z| ==> z[r] == m
    ensures Room(z, m) == |z|
  {
    if z == [] {
      assert Shares(z, m) == [];
    } else {
      var init := z[..|z| - 1];
      RoomOfLongest(init, m);
      RoomSplit(init, [m], m);
      RoomOne(m, m);
      assert z == init + [m] && Pow2(0) == 1;
    }
  }

  lemma RoomByCounts(c: seq<nat>, z: seq<nat>, m: nat)
    requires (forall r :: 0 <= r < |z| ==> 1 <= z[r] <= m) && Matches(c, z, m) && m >= 1
    ensures Room(z, m) == Share(c, 1, m + 1, m)
  {
    hide Share, CountLen, Kraft, Total;
    var d := c[..m + 1];
    KraftByCounts(z, z, d, m);
    KraftIsSum(z, z, m);
    ShareOfPart(c, m + 1, m + 1, m);
  }

  lemma {:induction false} ShareOfPart(c: seq<nat>, k: nat, hi: nat, m: nat)
    requires 1 <= hi <= k <= |c| && hi <= m + 1
    ensures Share(c[..k], 1, hi, m) == Share(c, 1, hi, m)
    decreases hi
  {
    if hi > 1 { ShareOfPart(c, k, hi - 1, m); }
  }

  /** Lengths of at most `i` take multiples of what a code of length `i` takes. */
  lemma {:induction false} RoomMultiple(z: seq<nat>, i: nat, m: nat) returns (q: nat)
    requires i <= m && forall r :: 0 <= r < |z| ==> z[r] <= i
    ensures Room(z, m) == q * Pow2(m - i)
  {
    if z == [] {
      assert Shares(z, m) == [];
      q := 0;
    } else {
      var init, last := z[..|z| - 1], z[|z| - 1];
      var k := RoomMultiple(init, i, m);
      RoomSplit(init, [last], m);
      RoomOne(last, m);
      assert z == init + [last];
      hide Room;
      Pow2Add(i - last, m - i);
      q := k + Pow2(i - last);
      hide Pow2;
      MulAdd(k, Pow2(i - last), Pow2(m - i));
    }
  }

  // ---------------------------------------------------------------- one trade

  /** The ranks after a trade: the first one that is shorter than `m` gets longer by one, and the one
      before it, if it can, as short as that. */
  ghost function Moved(z: seq<nat>, m: nat, x: nat): seq<nat>
    requires 1 <= x < |z|
  {
    if z[x] + 1 < m then z[x := z[x] + 1][x - 1 := z[x] + 1] else z[x := z[x] + 1]
  }

  /** A trade, rank by rank. */
  lemma TradeMoves(c: seq<nat>, z: seq<nat>, m: nat) returns (x: nat)
    requires Ranked(z, m) && Matches(c, z, m) && CanTrade(c, m)
    ensures x == c[m] && 1 <= x < |z| && z[x] == Longest(c, m) && (forall r :: 0 <= r < x ==> z[r] == m)
    ensures Ranked(Moved(z, m, x), m) && Matches(Traded(c, m, Longest(c, m)), Moved(z, m, x), m)
    ensures Room(Moved(z, m, x), m) == Room(z, m) - 1
  {
    hide CountLen, Room, Longest;
    x := c[m];
    var i := Longest(c, m);
    FirstShorter(c, z, m, x);
    hide Ranked, Matches;
    MovedMatches(c, z, m, x);
    MovedRanked(z, m, x);
    MovedRoom(z, m, x);
  }

  /** The first shorter one has the length that the trade picks. */
  lemma FirstShorter(c: seq<nat>, z: seq<nat>, m: nat, x: nat)
    requires Ranked(z, m) && Matches(c, z, m) && CanTrade(c, m) && x == c[m]
    ensures 1 <= x < |z| && z[x] == Longest(c, m) && forall r :: 0 <= r < |z| ==> (z[r] == m <==> r < x)
  {
    hide CountLen, Longest;
    forall r | 0 <= r < |z| ensures z[r] == m <==> r < x { FrontCount(z, m, r); }
    var i := Longest(c, m);
    var r := SomeRank(z, i);
    assert x <= r && z[x] >= i;
    if z[x] > i { HasRank(z, x); }
  }

  lemma HasRank(z: seq<nat>, r: nat)
    requires r < |z|
    ensures CountLen(z, z[r]) > 0
  {
    hide CountLen;
    CountSplit(z[..r], z[r..], z[r]);
    CountSplit([z[r]], z[r + 1..], z[r]);
    CountOne(z[r], z[r]);
    assert z == z[..r] + z[r..] && z[r..] == [z[r]] + z[r + 1..];
  }

  lemma MovedMatches(c: seq<nat>, z: seq<nat>, m: nat, x: nat)
    requires Matches(c, z, m) && CanTrade(c, m) && 1 <= x < |z| && z[x] == Longest(c, m) && z[x - 1] == m
    ensures Matches(Traded(c, m, Longest(c, m)), Moved(z, m, x), m)
  {
    hide CountLen, Longest;
    var i := z[x];
    var z1 := z[x := i + 1];
    var c', z' := Traded(c, m, i), Moved(z, m, x);
    forall l | 1 <= l <= m ensures c'[l] == CountLen(z', l) {
      CountUpdate(z, x, i + 1, l);
      if i + 1 < m { CountUpdate(z1, x - 1, i + 1, l); }
    }
  }

  lemma MovedRanked(z: seq<nat>, m: nat, x: nat)
    requires Ranked(z, m) && 1 <= x < |z| && z[x] < m && forall r :: 0 <= r < x ==> z[r] == m
    ensures Ranked(Moved(z, m, x), m)
  {}

  lemma MovedRoom(z: seq<nat>, m: nat, x: nat)
    requires Ranked(z, m) && 1 <= x < |z| && z[x] < m && z[x - 1] == m && Ranked(Moved(z, m, x), m)
    ensures Room(Moved(z, m, x), m) == Room(z, m) - 1
  {
    hide Room, Sum, Pow2;
    var i := z[x];
    RoomUpdate(z, x, i + 1, m);
    HalfSpace(m, i);
    if i + 1 < m { RoomUpdate(z[x := i + 1], x - 1, i + 1, m); }
  }

  lemma HalfSpace(m: nat, i: nat)
    requires i < m
    ensures Pow2(m - i) == 2 * Pow2(m - (i + 1)) && Pow2(m - m) == 1
  {}

  // ---------------------------------------------------------------- all trades

  /** The first `x0` ranks have codes of length `m` or more, the others shorter ones. */
  ghost predicate Deep(z0: seq<nat>, x0: nat, m: nat)
  {
    && x0 <= |z0| && Descending(z0) && (forall r :: 0 <= r < |z0| ==> z0[r] >= 1)
    && (forall r :: 0 <= r < x0 ==> z0[r] >= m) && forall r :: x0 <= r < |z0| ==> z0[r] < m
  }

  /** The first loop of the limiter, rank by rank. */
  function Short(z0: seq<nat>, m: nat): (z: seq<nat>)
    ensures |z| == |z0| && forall r :: 0 <= r < |z| ==> z[r] == if z0[r] < m then z0[r] else m
  {
    seq(|z0|, r requires 0 <= r < |z0| => if z0[r] < m then z0[r] else m)
  }

  /** Ranks from `s` on are as they were. To get there, every shorter one before the last had to become
      as long as possible, with a trade for each unit of room. */
  ghost predicate Spent(z0: seq<nat>, x0: nat, s: nat, done: nat, m: nat)
    requires Deep(z0, x0, m)
  {
    && x0 <= s <= |z0|
    && (s > x0 ==> Room(z0[x0..s - 1], m) < done + (s - 1 - x0) && Pow2(m - z0[s - 1]) <= |z0|)
  }

  ghost predicate Frontier(z0: seq<nat>, x0: nat, z: seq<nat>, s: nat, done: nat, m: nat)
  {
    && Deep(z0, x0, m) && Spent(z0, x0, s, done, m) && Ranked(z, m) && |z| == |z0|
    && (forall r :: s <= r < |z| ==> z[r] == z0[r])
    && Room(z, m) + done == Room(Short(z0, m), m)
  }

  /** Before a rank is split for the first time, all ranks before it have length `m`: the trades so far
      have used up exactly the room that they had more than that. */
  lemma SpentSoFar(z0: seq<nat>, x0: nat, z: seq<nat>, s: nat, done: nat, m: nat)
    requires Frontier(z0, x0, z, s, done, m) && forall r :: 0 <= r < s ==> z[r] == m
    ensures Room(z, m) == s + Room(z0[s..], m) && Room(z0[x0..s], m) == done + (s - x0)
  {
    hide Room;
    var short := Short(z0, m);
    assert z == z[..s] + z0[s..];
    RoomSplit(z[..s], z0[s..], m);
    RoomOfLongest(z[..s], m);
    assert short == short[..x0] + (z0[x0..s] + z0[s..]);
    RoomSplit(short[..x0], z0[x0..s] + z0[s..], m);
    RoomSplit(z0[x0..s], z0[s..], m);
    RoomOfLongest(short[..x0], m);
  }

  /** A rank is split only if the longest codes are more than what splitting it gains. */
  lemma SplitDeep(z0: seq<nat>, x0: nat, z: seq<nat>, s: nat, done: nat, m: nat, k: nat)
    requires Frontier(z0, x0, z, s, done, m) && s < |z| && forall r :: 0 <= r < s ==> z[r] == m
    requires Room(z, m) == Pow2(m) + k && s > k
    ensures Pow2(m - z0[s]) <= s
  {
    hide Room, Pow2;
    SpentSoFar(z0, x0, z, s, done, m);
    var i := z0[s];
    var q := RoomMultiple(z0[s..], i, m);
    Pow2Add(i, m - i);
    Multiples(s, k, q, Pow2(i), Pow2(m - i));
  }

  lemma Multiples(s: nat, k: nat, q: nat, a: nat, p: nat)
    requires s + q * p == a * p + k && s > k
    ensures p <= s
  {
    MulLess(q, a, p);
    MulMono(q + 1, a, p);
    MulAdd(q, 1, p);
  }

  lemma NotBeyond(z0: seq<nat>, x0: nat, z: seq<nat>, s: nat, done: nat, m: nat, x: nat)
    requires Frontier(z0, x0, z, s, done, m) && x < |z| && forall r :: 0 <= r < x ==> z[r] == m
    ensures x <= s
  {
    hide Room;
    assert s < |z| ==> z[s] == z0[s];
  }

  lemma FrontierMoves(z0: seq<nat>, x0: nat, c: seq<nat>, z: seq<nat>, s: nat, done: nat, m: nat, k: nat) returns (z': seq<nat>, s': nat)
    requires Frontier(z0, x0, z, s, done, m) && Matches(c, z, m) && CanTrade(c, m)
    requires Room(z, m) == Pow2(m) + k && c[m] > k
    ensures Matches(Traded(c, m, Longest(c, m)), z', m) && Frontier(z0, x0, z', s', done + 1, m)
    ensures Room(z', m) == Room(z, m) - 1
  {
    hide Room, Matches, Longest, Pow2;
    var x := TradeMoves(c, z, m);
    z', s' := Moved(z, m, x), s;
    NotBeyond(z0, x0, z, s, done, m, x);
    if x == s {
      SpentSoFar(z0, x0, z, s, done, m);
      SplitDeep(z0, x0, z, s, done, m, k);
      s' := s + 1;
    }
  }

  /** All `k` trades. */
  lemma {:induction false} TradesMove(z0: seq<nat>, x0: nat, c: seq<nat>, z: seq<nat>, s: nat, done: nat, m: nat, k: nat) returns (z': seq<nat>, s': nat)
    requires Frontier(z0, x0, z, s, done, m) && Matches(c, z, m) && 1 <= m < |c|
    requires Share(c, 1, m + 1, m) == Pow2(m) + k && Total(c, 1, m + 1) <= Pow2(m) && (k > 0 ==> c[m] > k)
    ensures Matches(TradeMany(c, m, k), z', m) && Frontier(z0, x0, z', s', done + k, m)
    decreases k
  {
    hide Room, Matches, Longest, Pow2, Share, Total, Frontier;
    z', s' := z, s;
    if k == 0 {
      NoTrade(c, m);
    } else {
      var i := ExcessMeansShorter(c, m);
      assert Longest(c, m) >= i;
      FrontierRoom(z0, x0, c, z, s, done, m);
      z', s' := FrontierMoves(z0, x0, c, z, s, done, m, k);
      TradeEffect(c, m, Longest(c, m));
      OneTrade(c, m, k - 1);
      z', s' := TradesMove(z0, x0, Traded(c, m, Longest(c, m)), z', s', done + 1, m, k - 1);
    }
  }

  lemma FrontierRoom(z0: seq<nat>, x0: nat, c: seq<nat>, z: seq<nat>, s: nat, done: nat, m: nat)
    requires Frontier(z0, x0, z, s, done, m) && Matches(c, z, m) && m >= 1
    ensures Ranked(z, m) && Room(z, m) == Share(c, 1, m + 1, m)
  {
    hide Room, Share, Matches;
    RoomByCounts(c, z, m);
  }

  // ---------------------------------------------------------------- what limiting costs

  /** The cost of `f` with the lengths `z`. */
  function RankCost(f: seq<nat>, z: seq<nat>): nat
    requires |f| == |z|
  {
    Sum(Products(f, z))
  }

  /** What it would cost to make the ranks from `x0` to `s - 1` as long as possible. */
  function Penalty(f: seq<nat>, z0: seq<nat>, x0: nat, s: nat, m: nat): nat
    requires |f| == |z0| && x0 <= s <= |f| && forall r :: x0 <= r < s ==> z0[r] <= m
  {
    if s == x0 then 0 else Penalty(f, z0, x0, s - 1, m) + f[s - 1] * (m - z0[s - 1])
  }

  lemma PenaltyNext(f: seq<nat>, z0: seq<nat>, x0: nat, s: nat, m: nat)
    requires |f| == |z0| && x0 < s <= |f| && forall r :: x0 <= r < s ==> z0[r] <= m
    ensures Penalty(f, z0, x0, s, m) == Penalty(f, z0, x0, s - 1, m) + f[s - 1] * (m - z0[s - 1])
  {}

  lemma NoPenalty(f: seq<nat>, z0: seq<nat>, x0: nat, m: nat)
    requires |f| == |z0| && x0 <= |f|
    ensures Penalty(f, z0, x0, x0, m) == 0
  {}

  /** Of the first `k` ranks, those that can have become longer end here. */
  function UpTo(x0: nat, s: nat, k: nat): (e: nat)
    requires x0 <= s
    ensures x0 <= e <= s
  {
    if k < x0 then x0 else if k < s then k else s
  }

  lemma {:induction false} CostRises(f: seq<nat>, z0: seq<nat>, x0: nat, z: seq<nat>, s: nat, m: nat, k: nat)
    requires |f| == |z0| == |z| && x0 <= s <= |f| && k <= |f|
    requires (forall r :: 0 <= r < |z| ==> z[r] <= m) && (forall r :: s <= r < |z| ==> z[r] == z0[r])
    requires (forall r :: 0 <= r < x0 ==> z0[r] >= m) && forall r :: x0 <= r < |z0| ==> z0[r] < m
    ensures RankCost(f[..k], z[..k]) <= RankCost(f[..k], z0[..k]) + Penalty(f, z0, x0, UpTo(x0, s, k), m)
  {
    hide RankCost, Penalty;
    if k == 0 {
      NoCost(f[..0], z[..0]);
    } else {
      CostRises(f, z0, x0, z, s, m, k - 1);
      CostNext(f, z, k);
      CostNext(f, z0, k);
      var r := k - 1;
      if r < x0 {
        MulMono(z[r], z0[r], f[r]);
      } else if r < s {
        PenaltyNext(f, z0, x0, k, m);
        MulMono(z[r], m, f[r]);
        MulAdd(m - z0[r], z0[r], f[r]);
      }
    }
  }

  lemma NoCost(f: seq<nat>, z: seq<nat>)
    requires f == [] && z == []
    ensures RankCost(f, z) == 0
  {
    assert Products(f, z) == [];
  }

  lemma CostNext(f: seq<nat>, z: seq<nat>, k: nat)
    requires |f| == |z| && 1 <= k <= |f|
    ensures RankCost(f[..k], z[..k]) == RankCost(f[..k - 1], z[..k - 1]) + f[k - 1] * z[k - 1]
  {
    hide Sum;
    assert Products(f[..k], z[..k]) == Products(f[..k - 1], z[..k - 1]) + [f[k - 1] * z[k - 1]];
    SumLast(Products(f[..k - 1], z[..k - 1]), f[k - 1] * z[k - 1]);
  }

  // ---------------------------------------------------------------- what it costs at most

  lemma GrowValues(f: nat)
    ensures Grow(6, f, f) == 21 * f && Grow(7, f, f) == 34 * f && Grow(8, f, f) == 55 * f && Grow(9, f, f) == 89 * f
    ensures Grow(10, f, f) == 144 * f && Grow(11, f, f) == 233 * f && Grow(12, f, f) == 377 * f && Grow(13, f, f) == 610 * f
  {
    hide Grow;
    Grow4(2, f, f);
    Grow4(3, f, f);
    GrowFew(8 * f, 5 * f);
    GrowTwice(0, f);
    GrowTwice(1, f);
    GrowTwice(2, f);
    GrowTwice(3, f);
    GrowFew(55 * f, 34 * f);
    GrowTwice(4, f);
    GrowTwice(5, f);
    Grow4(0, 55 * f, 34 * f);
    Grow4(1, 55 * f, 34 * f);
    GrowFew(377 * f, 233 * f);
  }

  lemma GrowTwice(d: nat, f: nat)
    ensures Grow(d + 8, f, f) == Grow(d, 55 * f, 34 * f)
  {
    Grow4(d + 4, f, f);
    Grow4(d, 8 * f, 5 * f);
  }

  lemma GrowFew(x: nat, y: nat)
    ensures Grow(0, x, y) == x && Grow(1, x, y) == x + y && Grow(2, x, y) == 2 * x + y && Grow(3, x, y) == 3 * x + 2 * y
  {
    assert Grow(1, x, y) == Grow(0, x + y, x);
    assert Grow(2, x, y) == Grow(1, x + y, x) == Grow(0, 2 * x + y, x + y);
    assert Grow(3, x, y) == Grow(2, x + y, x) == Grow(1, 2 * x + y, x + y) == Grow(0, 3 * x + 2 * y, 2 * x + y);
  }

  lemma Powers()
    ensures Pow2(1) == 2 && Pow2(2) == 4 && Pow2(3) == 8 && Pow2(4) == 16 && Pow2(5) == 32 && Pow2(6) == 64 && Pow2(7) == 128
    ensures Pow2(8) == 256 && Pow2(9) == 512
  {}

  /** What one rank costs, against what it gains: the longer its code, the rarer it is. */
  lemma OneRank(w: nat, f: nat, l: nat)
    requires 1 <= l < 15 && Grow(l - 1, f, f) <= w && Pow2(15 - l) <= 511
    ensures l >= 7 && 540 * (f * (15 - l)) <= (Pow2(15 - l) - 1) * w && 21 * (f * (15 - l)) <= 8 * w
    ensures Pow2(15 - l) <= 63 ==> 17 * (f * (15 - l)) <= w
  {
    Powers();
    GrowValues(f);
    if l < 7 { Pow2Mono(9, 15 - l); }
    hide Pow2, Grow;
    match l {
      case 7 => case 8 => case 9 => case 10 => case 11 => case 12 => case 13 => case 14 =>
      case _ =>
    }
  }

  /** Ranks that have become as long as possible gained at least so much room. */
  lemma {:induction false} PenaltyByRoom(f: seq<nat>, z0: seq<nat>, x0: nat, e: nat)
    requires |f| == |z0| && x0 <= e <= |f| && Rare(f, z0)
    requires forall r :: x0 <= r < e ==> z0[r] < 15 && Pow2(15 - z0[r]) <= 511
    ensures e - x0 <= Room(z0[x0..e], 15)
    ensures 540 * Penalty(f, z0, x0, e, 15) <= (Room(z0[x0..e], 15) - (e - x0)) * Sum(f)
    decreases e
  {
    hide Room, Sum, Grow, Penalty, Pow2;
    if e == x0 {
      NoPenalty(f, z0, x0, 15);
      RoomOfLongest(z0[x0..x0], 15);
    } else {
      var l := z0[e - 1];
      PenaltyByRoom(f, z0, x0, e - 1);
      PenaltyNext(f, z0, x0, e, 15);
      OneRank(Sum(f), f[e - 1], l);
      assert z0[x0..e] == z0[x0..e - 1] + [l];
      RoomSplit(z0[x0..e - 1], [l], 15);
      RoomOne(l, 15);
      MulAdd(Room(z0[x0..e - 1], 15) - (e - 1 - x0), Pow2(15 - l) - 1, Sum(f));
    }
  }

  /** The frontier leaves at most this for the ranks before it. */
  lemma PenaltyBound(f: seq<nat>, z0: seq<nat>, x0: nat, s: nat, done: nat)
    requires |f| == |z0| <= 288 && Rare(f, z0) && Deep(z0, x0, 15) && Spent(z0, x0, s, done, 15) && done <= |z0|
    ensures Penalty(f, z0, x0, s, 15) <= Sum(f)
    ensures |z0| <= 32 ==> 4 * Penalty(f, z0, x0, s, 15) <= Sum(f)
  {
    hide Room, Sum, Grow, Penalty, Pow2;
    if s == x0 {
      NoPenalty(f, z0, x0, 15);
    } else {
      forall r | x0 <= r < s ensures Pow2(15 - z0[r]) <= |z0| { Pow2Mono(15 - z0[r], 15 - z0[s - 1]); }
      PenaltyByRoom(f, z0, x0, s - 1);
      PenaltyNext(f, z0, x0, s, 15);
      OneRank(Sum(f), f[s - 1], z0[s - 1]);
      MulMono(Room(z0[x0..s - 1], 15) - (s - 1 - x0), |z0|, Sum(f));
      if |z0| <= 32 { MulMono(|z0|, 32, Sum(f)); } else { MulMono(|z0|, 288, Sum(f)); }
    }
  }

  // ---------------------------------------------------------------- the limiter

  lemma {:induction false} DeepRanks(z0: seq<nat>, m: nat, k: nat) returns (x0: nat)
    requires Descending(z0) && (forall r :: 0 <= r < |z0| ==> z0[r] >= 1) && k <= |z0| && forall r :: 0 <= r < k ==> z0[r] >= m
    ensures Deep(z0, x0, m)
    decreases |z0| - k
  {
    x0 := k;
    if k < |z0| && z0[k] >= m { x0 := DeepRanks(z0, m, k + 1); }
  }

  function CountRange(z: seq<nat>, lo: nat, hi: nat): nat
    requires lo <= hi
    decreases hi
  {
    if lo == hi then 0 else CountRange(z, lo, hi - 1) + CountLen(z, hi - 1)
  }

  lemma {:induction false} CountRangeNext(z: seq<nat>, v: nat, lo: nat, hi: nat)
    requires lo <= hi
    ensures CountRange(z + [v], lo, hi) == CountRange(z, lo, hi) + if lo <= v < hi then 1 else 0
    decreases hi
  {
    if lo < hi {
      CountRangeNext(z, v, lo, hi - 1);
      assert (z + [v])[..|z|] == z;
    }
  }

  lemma {:induction false} CountRangeNone(lo: nat, hi: nat)
    requires lo <= hi
    ensures CountRange([], lo, hi) == 0
    decreases hi
  {
    if lo < hi { CountRangeNone(lo, hi - 1); }
  }

  lemma {:induction false} CountRangeTotal(c: seq<nat>, z: seq<nat>, lo: nat, hi: nat)
    requires lo <= hi <= |c| && forall l :: lo <= l < hi ==> c[l] == CountLen(z, l)
    ensures CountRange(z, lo, hi) == Total(c, lo, hi)
    decreases hi
  {
    hide CountLen;
    if lo < hi { CountRangeTotal(c, z, lo, hi - 1); }
  }

  lemma {:induction false} ShortCounts(z0: seq<nat>, m: nat, hi: nat, l: nat)
    requires 1 <= l <= m < hi && forall r :: 0 <= r < |z0| ==> z0[r] < hi
    ensures CountLen(Short(z0, m), l) == CountLen(z0, l) + if l == m then CountRange(z0, m + 1, hi) else 0
    decreases |z0|
  {
    if z0 == [] {
      CountRangeNone(m + 1, hi);
    } else {
      var init, v := z0[..|z0| - 1], z0[|z0| - 1];
      ShortCounts(init, m, hi, l);
      assert z0 == init + [v] && Short(z0, m)[..|z0| - 1] == Short(init, m);
      CountRangeNext(init, v, m + 1, hi);
    }
  }

  lemma ClampedMatches(c: seq<nat>, z0: seq<nat>, m: nat)
    requires |c| == MAX_SUPPORTED + 1 && 1 <= m < |c| && Matches(c, z0, MAX_SUPPORTED)
    requires forall r :: 0 <= r < |z0| ==> z0[r] <= MAX_SUPPORTED
    ensures Matches(Clamped(c, m), Short(z0, m), m)
  {
    hide CountLen, Total, CountRange;
    CountRangeTotal(c, z0, m + 1, |c|);
    forall l | 1 <= l <= m ensures Clamped(c, m)[l] == CountLen(Short(z0, m), l) { ShortCounts(z0, m, |c|, l); }
  }

  lemma ClampedTotal(c: seq<nat>, m: nat)
    requires 1 <= m < |c|
    ensures Total(Clamped(c, m), 1, m + 1) == Total(c, 1, |c|) && Total(c, m + 1, |c|) <= Total(c, 1, |c|)
  {
    hide Total;
    TotalUpdate(c, 1, m + 1, m, Clamped(c, m)[m]);
    ShareSplit(c, 1, m + 1, |c|, |c|);
  }

  /** The ranks behind the numbers of codes that the limiter leaves, and what they cost: at most one bit
      more for each symbol sent, or a quarter of one if there are few symbols. */
  lemma LimitedRanks(f: seq<nat>, z0: seq<nat>, c: seq<nat>, c': seq<nat>, m: nat) returns (z: seq<nat>)
    requires |f| == |z0| && Ranked(z0, MAX_SUPPORTED) && |c| == MAX_SUPPORTED + 1 && Matches(c, z0, MAX_SUPPORTED)
    requires Exact(c, MAX_SUPPORTED) && Total(c, 1, |c|) == |z0| <= Pow2(m) && Limited(c, c', m) && m <= MAX_SUPPORTED && Rare(f, z0)
    ensures |z| == |f| && Ranked(z, m) && Matches(c', z, m)
    ensures m == 15 && |f| <= 288 ==> RankCost(f, z) <= RankCost(f, z0) + Sum(f)
    ensures m == 15 && |f| <= 32 ==> 4 * RankCost(f, z) <= 4 * RankCost(f, z0) + Sum(f)
  {
    hide Room, Matches, Pow2, Share, Total, Exact, TradeMany, RankCost, Penalty, Sum, Rare, Spent;
    var x0 := DeepRanks(z0, m, 0);
    var c1, z1 := Clamped(c, m), Short(z0, m);
    var k := Share(c1, 1, m + 1, m) - Pow2(m);
    ClampExcess(c, m);
    ClampedMatches(c, z0, m);
    ClampedTotal(c, m);
    StartsThere(z0, x0, m);
    var s;
    z, s := TradesMove(z0, x0, c1, z1, x0, 0, m, k);
    AtTheEnd(f, z0, x0, z, s, k, m);
  }

  lemma StartsThere(z0: seq<nat>, x0: nat, m: nat)
    requires Deep(z0, x0, m) && m >= 1
    ensures Frontier(z0, x0, Short(z0, m), x0, 0, m)
  {
    hide Room;
  }

  lemma AtTheEnd(f: seq<nat>, z0: seq<nat>, x0: nat, z: seq<nat>, s: nat, done: nat, m: nat)
    requires Frontier(z0, x0, z, s, done, m) && |f| == |z0| && done <= |z0| && Rare(f, z0)
    ensures |z| == |f| && Ranked(z, m)
    ensures m == 15 && |f| <= 288 ==> RankCost(f, z) <= RankCost(f, z0) + Sum(f)
    ensures m == 15 && |f| <= 32 ==> 4 * RankCost(f, z) <= 4 * RankCost(f, z0) + Sum(f)
  {
    hide Room, Penalty, Sum, Rare, RankCost, Spent;
    if m == 15 && |f| <= 288 {
      SpentBounds(z0, x0, s, done, m);
      CostRises(f, z0, x0, z, s, m, |f|);
      assert f[..|f|] == f && z[..|f|] == z && z0[..|f|] == z0;
      PenaltyBound(f, z0, x0, s, done);
    }
  }

  lemma SpentBounds(z0: seq<nat>, x0: nat, s: nat, done: nat, m: nat)
    requires Deep(z0, x0, m) && Spent(z0, x0, s, done, m)
    ensures x0 <= s <= |z0|
  {}
}
