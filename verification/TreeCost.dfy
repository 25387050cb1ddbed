/** What a complete run of the two-queue algorithm is worth: the code lengths read off the tree
    satisfy Kraft's equality, cost as little as any prefix code, and stay short. */
module TreeCost {
  import opened Bits
  import opened OptimalCode
  import opened HuffmanTree

  /** The children of node `k`, internal nodes and leaves, lie one level below it. */
  ghost predicate ChildrenDeeper(r: seq<nat>, d: seq<nat>, lens: seq<nat>, k: nat)
    requires Complete(r, |lens|) && |d| == |lens| - 1 && k < |d|
  {
    && (forall i :: r[k] <= i < r[k + 1] && i < |d| ==> d[i] == d[k] + 1)
    && (forall l :: LeafAt(r, k) <= l < LeafAt(r, k + 1) && 0 <= l < |lens| ==> lens[l] == d[k] + 1)
  }

  /** `d` and `lens` are the depths of the internal nodes and of the leaves. */
  ghost predicate TreeDepths(r: seq<nat>, d: seq<nat>, lens: seq<nat>)
  {
    && Complete(r, |lens|) && |d| == |lens| - 1 && d[|d| - 1] == 0
    && forall k :: 0 <= k < |d| ==> ChildrenDeeper(r, d, lens, k)
  }

  /** Codes for the weights `f` with the lengths `lens`. */
  function Items(f: seq<nat>, lens: seq<nat>): (q: seq<Item>)
    requires |f| == |lens|
    ensures |q| == |f| && forall i :: 0 <= i < |q| ==> q[i] == Item(f[i], lens[i])
  {
    seq(|f|, i requires 0 <= i < |f| => Item(f[i], lens[i]))
  }

  // ---------------------------------------------------------------- telescoping over the merges

  ghost predicate Gains(gl: seq<nat>, gi: seq<nat>, h: seq<nat>, r: seq<nat>, k: nat)
    requires Shape(r, |gl|) && |r| == |gi| + 1 && |gi| == |h| && k < |gi|
  {
    ChildWeight(gl, gi, r, k) == gi[k] + h[k]
  }

  /** If replacing node `k` by its children adds `h[k]`, replacing all nodes adds them all. */
  lemma {:induction false} Telescope(gl: seq<nat>, gi: seq<nat>, h: seq<nat>, r: seq<nat>, k: nat)
    requires Shape(r, |gl|) && |r| == |gi| + 1 && |gi| == |h| && k < |r|
    requires forall j :: 0 <= j < k ==> Gains(gl, gi, h, r, j)
    ensures r[k] <= k && Sum(gl) == Sum(Available(gl, gi[..k], r[k], LeafAt(r, k))) + Sum(h[..k])
  {
    hide Sum, Shape;
    ShapeAt(r, |gl|, k);
    if k == 0 {
      SumNothing(h[..0]);
      assert Available(gl, gi[..0], 0, 0) == gl;
    } else {
      var j := k - 1;
      ShapeAt(r, |gl|, j);
      Telescope(gl, gi, h, r, j);
      assert Gains(gl, gi, h, r, j);
      hide Gains;
      TelescopeStep(gl, gi, h, r[j], r[k], j);
      assert h[..k] == h[..j] + [h[j]];
      SumLast(h[..j], h[j]);
    }
  }

  lemma SumNothing(s: seq<nat>)
    requires s == []
    ensures Sum(s) == 0
  {}

  lemma SumLast(s: seq<nat>, x: nat)
    ensures Sum(s + [x]) == Sum(s) + x
  {
    SumSplit(s, [x]);
  }

  lemma TelescopeStep(gl: seq<nat>, gi: seq<nat>, h: seq<nat>, r0: nat, r1: nat, j: nat)
    requires r0 <= r1 <= r0 + 2 && r1 <= j < |gi| == |h| && r0 <= 2 * j && r1 <= 2 * j + 2 <= |gl| + r1
    requires Merged(gl, gi, j, r0, r1) == gi[j] + h[j]
    ensures Sum(Available(gl, gi[..j], r0, 2 * j - r0)) + h[j] == Sum(Available(gl, gi[..j + 1], r1, 2 * j + 2 - r1)) + 2 * h[j]
  {
    hide Sum;
    SumMerge(gl, gi[..j], r0, r1);
    var v := Merged(gl, gi, j, r0, r1);
    assert v == Merged(gl, gi[..j], j, r0, r1);
    ReplaceInSum(gi[..j], v, gi[j], r1, gl[2 * j + 2 - r1..]);
    assert gi[..j] + [gi[j]] == gi[..j + 1];
  }

  lemma ReplaceInSum(x: seq<nat>, v: nat, u: nat, root: nat, y: seq<nat>)
    requires root <= |x|
    ensures Sum((x + [v])[root..] + y) + u == Sum((x + [u])[root..] + y) + v
  {
    SumWith(x, v, root, y);
    SumWith(x, u, root, y);
  }

  lemma SumWith(x: seq<nat>, v: nat, root: nat, y: seq<nat>)
    requires root <= |x|
    ensures Sum((x + [v])[root..] + y) == Sum(x[root..]) + v + Sum(y)
  {
    assert (x + [v])[root..] == x[root..] + [v];
    SumSplit(x[root..] + [v], y);
    SumSplit(x[root..], [v]);
  }

  lemma TelescopeAll(gl: seq<nat>, gi: seq<nat>, h: seq<nat>, r: seq<nat>)
    requires Complete(r, |gl|) && |gi| == |h| == |gl| - 1
    requires forall j :: 0 <= j < |gi| ==> Gains(gl, gi, h, r, j)
    ensures Sum(gl) == gi[|gi| - 1] + Sum(h)
  {
    var k := |gi|;
    Telescope(gl, gi, h, r, k);
    assert Available(gl, gi[..k], r[k], LeafAt(r, k)) == [gi[k - 1]];
    assert h[..k] == h;
  }

  // ---------------------------------------------------------------- cost of the tree

  function Products(f: seq<nat>, d: seq<nat>): (s: seq<nat>)
    requires |f| == |d|
    ensures |s| == |f| && forall i :: 0 <= i < |s| ==> s[i] == f[i] * d[i]
  {
    seq(|f|, i requires 0 <= i < |f| => f[i] * d[i])
  }

  lemma {:induction false} CostIsSum(f: seq<nat>, lens: seq<nat>)
    requires |f| == |lens|
    ensures Cost(Items(f, lens)) == Sum(Products(f, lens))
  {
    if f != [] {
      CostIsSum(f[1..], lens[1..]);
      assert Items(f, lens)[1..] == Items(f[1..], lens[1..]);
      assert Products(f, lens)[1..] == Products(f[1..], lens[1..]);
    }
  }

  /** The children of node `k`: two leaves, one of each kind, or two internal nodes. */
  lemma ChildDepths(r: seq<nat>, d: seq<nat>, lens: seq<nat>, k: nat)
    requires TreeDepths(r, d, lens) && k < |d|
    ensures Shape(r, |lens|) && |r| == |lens| && 0 <= LeafAt(r, k) <= LeafAt(r, k + 1) <= |lens|
    ensures r[k] <= r[k + 1] <= r[k] + 2 && r[k + 1] <= |d|
    ensures forall i :: r[k] <= i < r[k + 1] ==> d[i] == d[k] + 1
    ensures forall l :: LeafAt(r, k) <= l < LeafAt(r, k + 1) ==> lens[l] == d[k] + 1
  {
    assert ChildrenDeeper(r, d, lens, k);
    hide ChildrenDeeper;
    ShapeAt(r, |lens|, k);
    ChildDepthsAt(r, d, lens, k);
  }

  lemma ChildDepthsAt(r: seq<nat>, d: seq<nat>, lens: seq<nat>, k: nat)
    requires Complete(r, |lens|) && |d| == |lens| - 1 && k < |d| && ChildrenDeeper(r, d, lens, k)
    requires r[k + 1] <= k && 0 <= LeafAt(r, k) <= LeafAt(r, k + 1) <= |lens|
    ensures forall i :: r[k] <= i < r[k + 1] ==> d[i] == d[k] + 1
    ensures forall l :: LeafAt(r, k) <= l < LeafAt(r, k + 1) ==> lens[l] == d[k] + 1
  {
    hide Shape;
  }

  lemma NodeCost(f: seq<nat>, w: seq<nat>, r: seq<nat>, d: seq<nat>, lens: seq<nat>, k: nat)
    requires |f| == |lens| && TreeDepths(r, d, lens) && |w| == |d| && Weights(f, w, r) && k < |w|
    ensures Gains(Products(f, lens), Products(w, d), w, r, k)
  {
    ChildDepths(r, d, lens, k);
    assert Weighed(f, w, r, k);
    hide Weights, TreeDepths, Shape, Complete, ChildrenDeeper;
    PairCost(f, w, d, lens, k, r[k], r[k + 1]);
  }

  lemma PairCost(f: seq<nat>, w: seq<nat>, d: seq<nat>, lens: seq<nat>, k: nat, r0: nat, r1: nat)
    requires |f| == |lens| && |w| == |d| && k < |w| && r0 <= r1 <= r0 + 2 && r1 <= |w| && r0 <= 2 * k && r1 <= 2 * k + 2 <= |f| + r1
    requires forall i :: r0 <= i < r1 ==> d[i] == d[k] + 1
    requires forall l :: 2 * k - r0 <= l < 2 * k + 2 - r1 ==> lens[l] == d[k] + 1
    requires w[k] == Merged(f, w, k, r0, r1)
    ensures Merged(Products(f, lens), Products(w, d), k, r0, r1) == w[k] * d[k] + w[k]
  {
    var e, leaf := d[k] + 1, 2 * k - r0;
    if r1 == r0 {
      MulAdd(f[leaf], f[leaf + 1], e);
    } else if r1 == r0 + 1 {
      MulAdd(w[r0], f[leaf], e);
    } else {
      MulAdd(w[r0], w[r0 + 1], e);
    }
    NextMultiple(w[k], d[k]);
  }

  lemma NextMultiple(x: nat, y: nat)
    ensures x * (y + 1) == x * y + x
  {}

  /** The cost of the tree is the sum of the weights of its internal nodes. */
  lemma TreeCostIsWeights(f: seq<nat>, w: seq<nat>, r: seq<nat>, d: seq<nat>, lens: seq<nat>)
    requires |f| == |lens| && TreeDepths(r, d, lens) && |w| == |d| && Weights(f, w, r)
    ensures Cost(Items(f, lens)) == Sum(w)
  {
    CostIsSum(f, lens);
    forall k | 0 <= k < |w| ensures Gains(Products(f, lens), Products(w, d), w, r, k) {
      NodeCost(f, w, r, d, lens, k);
    }
    TelescopeAll(Products(f, lens), Products(w, d), w, r);
  }

  // ---------------------------------------------------------------- Kraft's equality

  function Shares(d: seq<nat>, n: nat): (s: seq<nat>)
    requires forall i :: 0 <= i < |d| ==> d[i] <= n
    ensures |s| == |d| && forall i :: 0 <= i < |s| ==> s[i] == Pow2(n - d[i])
  {
    seq(|d|, i requires 0 <= i < |d| => Pow2(n - d[i]))
  }

  lemma {:induction false} KraftIsSum(f: seq<nat>, lens: seq<nat>, n: nat)
    requires |f| == |lens| && forall i :: 0 <= i < |lens| ==> lens[i] <= n
    ensures Within(Items(f, lens), n) && Kraft(Items(f, lens), n) == Sum(Shares(lens, n))
  {
    if f != [] {
      var q, s := Items(f, lens), Shares(lens, n);
      assert q[1..] == Items(f[1..], lens[1..]) && s[1..] == Shares(lens[1..], n);
      assert s[0] == Pow2(n - q[0].len);
      hide *;
      KraftIsSum(f[1..], lens[1..], n);
      ItemsWithin(f, lens, n);
      KraftHead(q, n);
      SumHead(s);
    }
  }

  lemma ItemsWithin(f: seq<nat>, lens: seq<nat>, n: nat)
    requires |f| == |lens| && forall i :: 0 <= i < |lens| ==> lens[i] <= n
    ensures Within(Items(f, lens), n)
  {}

  lemma KraftHead(q: seq<Item>, n: nat)
    requires Within(q, n) && q != []
    ensures Kraft(q, n) == Pow2(n - q[0].len) + Kraft(q[1..], n)
  {}

  lemma ShareSplits(r: seq<nat>, d: seq<nat>, lens: seq<nat>, n: nat, zeros: seq<nat>, k: nat)
    requires TreeDepths(r, d, lens) && k < |d| == |zeros| && zeros[k] == 0
    requires forall i :: 0 <= i < |d| ==> d[i] < n
    requires forall i :: 0 <= i < |lens| ==> lens[i] <= n
    ensures Gains(Shares(lens, n), Shares(d, n), zeros, r, k)
  {
    ChildDepths(r, d, lens, k);
    hide TreeDepths, Shape, Complete, ChildrenDeeper;
    PairShare(d, lens, n, k, r[k], r[k + 1]);
  }

  lemma PairShare(d: seq<nat>, lens: seq<nat>, n: nat, k: nat, r0: nat, r1: nat)
    requires k < |d| && r0 <= r1 <= r0 + 2 && r1 <= |d| && r0 <= 2 * k && r1 <= 2 * k + 2 <= |lens| + r1
    requires (forall i :: 0 <= i < |d| ==> d[i] < n) && (forall i :: 0 <= i < |lens| ==> lens[i] <= n)
    requires forall i :: r0 <= i < r1 ==> d[i] == d[k] + 1
    requires forall l :: 2 * k - r0 <= l < 2 * k + 2 - r1 ==> lens[l] == d[k] + 1
    ensures Merged(Shares(lens, n), Shares(d, n), k, r0, r1) == Pow2(n - d[k])
  {
    assert Pow2(n - d[k]) == 2 * Pow2(n - (d[k] + 1));
    hide Pow2;
  }

  lemma {:induction false} SumZeros(h: seq<nat>)
    requires forall i :: 0 <= i < |h| ==> h[i] == 0
    ensures Sum(h) == 0
  {
    if h != [] { SumZeros(h[1..]); }
  }

  lemma TreeIsComplete(r: seq<nat>, d: seq<nat>, lens: seq<nat>)
    requires TreeDepths(r, d, lens)
    ensures Complete(r, |lens|) && |d| == |lens| - 1 && d[|d| - 1] == 0
  {}

  /** The code lengths of a complete tree use up the code space exactly. */
  lemma TreeKraft(f: seq<nat>, r: seq<nat>, d: seq<nat>, lens: seq<nat>, n: nat)
    requires |f| == |lens| && TreeDepths(r, d, lens)
    requires forall i :: 0 <= i < |d| ==> d[i] < n
    requires forall i :: 0 <= i < |lens| ==> lens[i] <= n
    ensures Within(Items(f, lens), n) && Kraft(Items(f, lens), n) == Pow2(n)
  {
    hide Kraft, Sum, Pow2, TreeDepths, Gains;
    TreeIsComplete(r, d, lens);
    KraftIsSum(f, lens, n);
    var zeros: seq<nat> := seq(|d|, i => 0);
    forall k | 0 <= k < |d| ensures Gains(Shares(lens, n), Shares(d, n), zeros, r, k) {
      ShareSplits(r, d, lens, n, zeros, k);
    }
    TelescopeAll(Shares(lens, n), Shares(d, n), zeros, r);
    SumZeros(zeros);
  }

  // ---------------------------------------------------------------- optimality

  lemma {:induction false} ItemWeights(f: seq<nat>, lens: seq<nat>)
    requires |f| == |lens|
    ensures WeightsOf(Items(f, lens)) == multiset(f)
  {
    if f != [] {
      ItemWeights(f[1..], lens[1..]);
      assert Items(f, lens)[1..] == Items(f[1..], lens[1..]);
      assert f == [f[0]] + f[1..];
    }
  }

  /** `x` is the weight of one of the first `root` internal nodes or of the first `leaf` leaves. */
  ghost predicate Consumed(f: seq<nat>, w: seq<nat>, root: nat, leaf: int, x: nat)
  {
    || (exists i :: 0 <= i < root && i < |w| && x == w[i])
    || (exists l :: 0 <= l < leaf && l < |f| && x == f[l])
  }

  /** The two nodes merged at step `k`. */
  lemma Children(f: seq<nat>, w: seq<nat>, r: seq<nat>, k: nat) returns (p: nat, q: nat)
    requires Run(f, w, r) && k < |w|
    ensures 0 <= LeafAt(r, k) <= LeafAt(r, k + 1) <= |f| && r[k] <= r[k + 1] <= k
    ensures p + q == w[k]
    ensures w[r[k]..r[k + 1]] + f[LeafAt(r, k)..LeafAt(r, k + 1)] == [p, q]
    ensures Consumed(f, w, r[k + 1], LeafAt(r, k + 1), p) && Consumed(f, w, r[k + 1], LeafAt(r, k + 1), q)
  {
    assert Weighed(f, w, r, k) && TwoChildren(r, k);
    assert 0 <= LeafAt(r, k) && 0 <= LeafAt(r, k + 1) <= |f| && (k > 0 ==> r[k] < k) && r[k + 1] < k + 1;
    hide *;
    p, q := PairOf(f, w, k, r[k], r[k + 1]);
  }

  lemma PairOf(f: seq<nat>, w: seq<nat>, k: nat, r0: nat, r1: nat) returns (p: nat, q: nat)
    requires r0 <= r1 <= r0 + 2 && r1 <= k < |w| && r0 <= 2 * k && r1 <= 2 * k + 2 <= |f| + r1
    ensures p + q == Merged(f, w, k, r0, r1)
    ensures w[r0..r1] + f[2 * k - r0..2 * k + 2 - r1] == [p, q]
    ensures Consumed(f, w, r1, 2 * k + 2 - r1, p) && Consumed(f, w, r1, 2 * k + 2 - r1, q)
  {
    var leaf := 2 * k - r0;
    if r1 == r0 {
      p, q := f[leaf], f[leaf + 1];
      assert f[leaf..2 * k + 2 - r1] == [p, q] && w[r0..r1] == [];
    } else if r1 == r0 + 1 {
      p, q := w[r0], f[leaf];
      assert f[leaf..2 * k + 2 - r1] == [q] && w[r0..r1] == [p];
    } else {
      p, q := w[r0], w[r0 + 1];
      assert f[leaf..2 * k + 2 - r1] == [] && w[r0..r1] == [p, q];
    }
  }

  /** What has been consumed before step `k` is at most what is still available. */
  lemma ConsumedIsLight(f: seq<nat>, w: seq<nat>, r: seq<nat>, k: nat, m: nat, p: nat)
    requires Run(f, w, r) && k < |r| && m <= |w| && r[k] <= m && 0 <= LeafAt(r, k) <= |f|
    requires Consumed(f, w, r[k], LeafAt(r, k), p)
    ensures forall x :: x in w[r[k]..m] + f[LeafAt(r, k)..] ==> p <= x
  {
    assert Cross(f, w, r, k);
    var s := w[r[k]..m] + f[LeafAt(r, k)..];
    forall x | x in s ensures p <= x {
      var i :| 0 <= i < |s| && s[i] == x;
      if i < m - r[k] {
        assert x == w[r[k] + i];
      } else {
        assert x == f[LeafAt(r, k) + i - (m - r[k])];
      }
    }
  }

  /** What is available before step `k`. */
  ghost function Pool(f: seq<nat>, w: seq<nat>, r: seq<nat>, k: nat): multiset<nat>
    requires Run(f, w, r) && k < |r|
  {
    RunShape(f, w, r);
    ShapeAt(r, |f|, k);
    multiset(Available(f, w[..k], r[k], LeafAt(r, k)))
  }

  /** The two nodes merged at step `k`, lighter first, and what stays available. */
  lemma MergedPair(f: seq<nat>, w: seq<nat>, r: seq<nat>, k: nat) returns (a: nat, b: nat, rest: multiset<nat>)
    requires Run(f, w, r) && k < |w|
    ensures |r| == |w| + 1 && a <= b && a + b == w[k] && AtLeast(rest, b)
    ensures Pool(f, w, r, k) == rest + multiset{a, b} && Pool(f, w, r, k + 1) == rest + multiset{a + b}
  {
    hide *;
    var p, q;
    p, q, rest := SomePair(f, w, r, k);
    if p <= q { a, b := p, q; } else { a, b := q, p; }
  }

  lemma SomePair(f: seq<nat>, w: seq<nat>, r: seq<nat>, k: nat) returns (p: nat, q: nat, rest: multiset<nat>)
    requires Run(f, w, r) && k < |w|
    ensures |r| == |w| + 1 && p + q == w[k] && AtLeast(rest, p) && AtLeast(rest, q)
    ensures Pool(f, w, r, k) == rest + multiset{p, q} && Pool(f, w, r, k) == rest + multiset{q, p}
    ensures Pool(f, w, r, k + 1) == rest + multiset{p + q}
  {
    RunShape(f, w, r);
    hide *;
    p, q := Children(f, w, r, k);
    rest := multiset(w[r[k + 1]..k] + f[LeafAt(r, k + 1)..]);
    RestIsHeavy(f, w, r, k, p);
    RestIsHeavy(f, w, r, k, q);
    PoolSteps(f, w, r, k, p, q);
  }

  ghost predicate AtLeast(m: multiset<nat>, b: nat)
  {
    forall x :: x in m ==> b <= x
  }

  lemma RestIsHeavy(f: seq<nat>, w: seq<nat>, r: seq<nat>, k: nat, p: nat)
    requires Run(f, w, r) && k < |w| && |r| == |w| + 1 && r[k + 1] <= k && 0 <= LeafAt(r, k + 1) <= |f|
    requires Consumed(f, w, r[k + 1], LeafAt(r, k + 1), p)
    ensures AtLeast(multiset(w[r[k + 1]..k] + f[LeafAt(r, k + 1)..]), p)
  {
    hide Run, Consumed;
    ConsumedIsLight(f, w, r, k + 1, k, p);
    var s := w[r[k + 1]..k] + f[LeafAt(r, k + 1)..];
    forall x | x in multiset(s) ensures p <= x {
      assert x in s;
    }
  }

  lemma PoolSteps(f: seq<nat>, w: seq<nat>, r: seq<nat>, k: nat, p: nat, q: nat)
    requires Run(f, w, r) && k < |w| && |r| == |w| + 1 && 0 <= LeafAt(r, k) <= LeafAt(r, k + 1) <= |f| && r[k] <= r[k + 1] <= k
    requires w[r[k]..r[k + 1]] + f[LeafAt(r, k)..LeafAt(r, k + 1)] == [p, q] && p + q == w[k]
    ensures var rest := multiset(w[r[k + 1]..k] + f[LeafAt(r, k + 1)..]);
      Pool(f, w, r, k) == rest + multiset{p, q} == rest + multiset{q, p} && Pool(f, w, r, k + 1) == rest + multiset{p + q}
  {
    hide Run, Available;
    Around(f, w, r[k], r[k + 1], k, LeafAt(r, k), LeafAt(r, k + 1), p, q, p + q);
  }

  lemma Around(f: seq<nat>, w: seq<nat>, r0: nat, r1: nat, k: nat, l0: nat, l1: nat, p: nat, q: nat, v: nat)
    requires r0 <= r1 <= k < |w| && l0 <= l1 <= |f|
    requires w[r0..r1] + f[l0..l1] == [p, q] && v == w[k]
    ensures multiset(Available(f, w[..k], r0, l0)) == multiset(w[r1..k] + f[l1..]) + multiset{p, q}
    ensures multiset(Available(f, w[..k], r0, l0)) == multiset(w[r1..k] + f[l1..]) + multiset{q, p}
    ensures multiset(Available(f, w[..k + 1], r1, l1)) == multiset(w[r1..k] + f[l1..]) + multiset{v}
  {
    assert w[..k][r0..] == w[r0..r1] + w[r1..k];
    assert f[l0..] == f[l0..l1] + f[l1..];
    assert w[..k + 1][r1..] == w[r1..k] + [v];
    hide *;
    PairOut(w[r0..r1], w[r1..k], f[l0..l1], f[l1..], p, q);
    OneOut(w[r1..k], v, f[l1..]);
  }

  lemma PairOut(a: seq<nat>, x: seq<nat>, c: seq<nat>, y: seq<nat>, p: nat, q: nat)
    requires a + c == [p, q]
    ensures multiset((a + x) + (c + y)) == multiset(x + y) + multiset{p, q} == multiset(x + y) + multiset{q, p}
  {
    assert multiset((a + x) + (c + y)) == multiset(a) + multiset(x) + multiset(c) + multiset(y);
    assert multiset(a + c) == multiset{p, q};
  }

  lemma OneOut(x: seq<nat>, v: nat, y: seq<nat>)
    ensures multiset((x + [v]) + y) == multiset(x + y) + multiset{v}
  {
    assert multiset((x + [v]) + y) == multiset(x) + multiset{v} + multiset(y);
  }

  /** A bound for what is available after a merge gives one for what was available before it. */
  lemma BeforeMerge(f: seq<nat>, w: seq<nat>, r: seq<nat>, k: nat, bound: nat)
    requires Run(f, w, r) && k < |w| && |r| == |w| + 1 && LowerBound(Pool(f, w, r, k + 1), bound)
    ensures LowerBound(Pool(f, w, r, k), bound + w[k])
  {
    hide Run, Pool, LowerBound;
    var a, b, rest := MergedPair(f, w, r, k);
    MergeBound(rest, a, b, bound);
  }

  lemma {:induction false} GreedyBound(f: seq<nat>, w: seq<nat>, r: seq<nat>, k: nat)
    requires Run(f, w, r) && |w| == |f| - 1 && |r| == |w| + 1 && k <= |w|
    ensures LowerBound(Pool(f, w, r, k), Sum(w[k..]))
    decreases |w| - k
  {
    hide Run, Pool, LowerBound;
    if k == |w| {
      SumNothing(w[k..]);
      LowerZero(Pool(f, w, r, k));
    } else {
      GreedyBound(f, w, r, k + 1);
      BeforeMerge(f, w, r, k, Sum(w[k + 1..]));
      SumHead(w[k..]);
      assert w[k..][1..] == w[k + 1..];
    }
  }

  lemma SumHead(s: seq<nat>)
    requires s != []
    ensures Sum(s) == s[0] + Sum(s[1..])
  {}

  lemma LowerZero(m: multiset<nat>)
    ensures LowerBound(m, 0)
  {}

  /** Every code for the leaf weights costs at least the sum of the internal weights. */
  lemma GreedyIsOptimal(f: seq<nat>, w: seq<nat>, r: seq<nat>)
    requires Run(f, w, r) && |w| == |f| - 1 && Complete(r, |f|)
    ensures LowerBound(multiset(f), Sum(w))
  {
    RunShape(f, w, r);
    ShapeAt(r, |f|, 0);
    assert Available(f, w[..0], 0, 0) == f;
    assert Pool(f, w, r, 0) == multiset(f);
    hide Run, Pool, LowerBound, Sum;
    GreedyBound(f, w, r, 0);
    assert w[0..] == w;
  }

  // ---------------------------------------------------------------- the tree is shallow

  /** Fibonacci-like growth of the weights along a path of `d` edges. */
  function Grow(d: nat, x: nat, y: nat): nat
  {
    if d == 0 then x else Grow(d - 1, x + y, x)
  }

  lemma {:induction false} GrowMono(d: nat, x: nat, y: nat, x': nat, y': nat)
    requires x <= x' && y <= y'
    ensures Grow(d, x, y) <= Grow(d, x', y')
  {
    if d > 0 { GrowMono(d - 1, x + y, x, x' + y', x'); }
  }

  lemma {:induction false} GrowDeeper(d: nat, e: nat, x: nat, y: nat)
    requires e <= d
    ensures Grow(e, x, y) <= Grow(d, x, y)
    decreases d
  {
    if e > 0 { GrowDeeper(d - 1, e - 1, x + y, x); }
    else if d > 0 { GrowDeeper(d - 1, 0, x + y, x); }
  }

  lemma Grow4(d: nat, x: nat, y: nat)
    ensures Grow(d + 4, x, y) == Grow(d, 5 * x + 3 * y, 3 * x + 2 * y)
  {
    assert Grow(d + 4, x, y) == Grow(d + 2, 2 * x + y, x + y);
  }

  lemma Grow22()
    ensures Grow(22, 2, 1) == 75025
  {
    Grow4(18, 2, 1);
    Grow4(14, 13, 8);
    Grow4(10, 89, 55);
    Grow4(6, 610, 377);
    Grow4(2, 4181, 2584);
    assert Grow(2, 28657, 17711) == Grow(1, 46368, 28657);
  }

  /** A node outweighs its child together with any grandchild below that child. */
  lemma WeightAbove(f: seq<nat>, w: seq<nat>, r: seq<nat>, i: nat, q: nat, c: nat)
    requires Run(f, w, r) && IsParent(r, i, q) && q < |w| && i < q
    requires (exists j :: r[i] <= j < r[i + 1] && j < |w| && c == w[j])
          || (exists l: nat :: LeafAt(r, i) <= l < LeafAt(r, i + 1) && l < |f| && c == f[l])
    ensures w[q] >= w[i] + c
  {
    assert Weighed(f, w, r, q) && TwoChildren(r, q) && Cross(f, w, r, i + 1);
    LeafMono(r, |f|, i + 1, q);
    assert 0 <= LeafAt(r, q + 1) <= |f| && 0 <= LeafAt(r, i + 1);
  }

  lemma {:induction false} PathGrowth(f: seq<nat>, w: seq<nat>, r: seq<nat>, p: seq<nat>, d: seq<nat>, i: nat, c: nat)
    requires Run(f, w, r) && |w| == |f| - 1 && Complete(r, |f|) && i < |w|
    requires Parents(r, p) && |p| == |f| - 2 && Depths(p, d)
    requires (exists j :: r[i] <= j < r[i + 1] && j < |w| && c == w[j])
          || (exists l: nat :: LeafAt(r, i) <= l < LeafAt(r, i + 1) && l < |f| && c == f[l])
    ensures Grow(d[i], w[i], c) <= w[|w| - 1]
    decreases |w| - i
  {
    if i < |w| - 1 {
      var q := p[i];
      assert IsParent(r, i, q) && OneDeeper(p, d, i);
      WeightAbove(f, w, r, i, q, c);
      PathGrowth(f, w, r, p, d, q, w[i]);
      GrowMono(d[q], w[i] + c, w[i], w[q], w[i]);
    }
  }

  /** Total frequencies that fit 16 bits keep every leaf at depth 22 or less. */
  lemma Shallow(f: seq<nat>, w: seq<nat>, r: seq<nat>, p: seq<nat>, d: seq<nat>, q: nat)
    requires Run(f, w, r) && |w| == |f| - 1 && Complete(r, |f|) && q < |w|
    requires Parents(r, p) && |p| == |f| - 2 && Depths(p, d)
    requires Sum(f) < 0x1_0000 && forall i :: 0 <= i < |f| ==> f[i] >= 1
    ensures d[q] < 22
  {
    AvailableSum(f, w, r, |w|);
    assert Available(f, w[..|w|], r[|w|], LeafAt(r, |w|)) == [w[|w| - 1]];
    var c := LightChild(f, w, r, q);
    PathGrowth(f, w, r, p, d, q, c);
    if d[q] >= 22 {
      GrowDeeper(d[q], 22, w[q], c);
      GrowMono(22, 2, 1, w[q], c);
      Grow22();
    }
  }

  /** A leaf weighs no more than its parent. */
  lemma LeafBelowParent(f: seq<nat>, w: seq<nat>, r: seq<nat>, l: nat, q: nat)
    requires Run(f, w, r) && q < |w| && l < |f| && IsLeafParent(r, l, q)
    ensures f[l] <= w[q]
  {
    assert Weighed(f, w, r, q) && TwoChildren(r, q);
    assert 0 <= LeafAt(r, q + 1) <= |f|;
  }

  /** A leaf of depth `d` weighs at most the total over the `d`-th Fibonacci number. */
  lemma LeafGrowth(f: seq<nat>, w: seq<nat>, r: seq<nat>, p: seq<nat>, d: seq<nat>, l: nat, q: nat)
    requires Run(f, w, r) && |w| == |f| - 1 && Complete(r, |f|) && q < |w| && l < |f| && IsLeafParent(r, l, q)
    requires Parents(r, p) && |p| == |f| - 2 && Depths(p, d)
    ensures Grow(d[q], f[l], f[l]) <= Sum(f)
  {
    AvailableSum(f, w, r, |w|);
    assert Available(f, w[..|w|], r[|w|], LeafAt(r, |w|)) == [w[|w| - 1]];
    LeafBelowParent(f, w, r, l, q);
    PathGrowth(f, w, r, p, d, q, f[l]);
    GrowMono(d[q], f[l], f[l], w[q], f[l]);
  }

  lemma {:induction false} WeightsPositive(f: seq<nat>, w: seq<nat>, r: seq<nat>, k: nat)
    requires Run(f, w, r) && k < |w| && forall i :: 0 <= i < |f| ==> f[i] >= 1
    ensures w[k] >= 2
  {
    assert Weighed(f, w, r, k) && TwoChildren(r, k);
    assert 0 <= LeafAt(r, k + 1) <= |f| && r[k + 1] < k + 1;
    if r[k] < r[k + 1] {
      WeightsPositive(f, w, r, r[k]);
      if r[k] + 1 < r[k + 1] { WeightsPositive(f, w, r, r[k] + 1); }
    }
  }

  lemma LightChild(f: seq<nat>, w: seq<nat>, r: seq<nat>, q: nat) returns (c: nat)
    requires Run(f, w, r) && q < |w| && forall i :: 0 <= i < |f| ==> f[i] >= 1
    ensures c >= 1 && w[q] >= 2
    ensures (exists j :: r[q] <= j < r[q + 1] && j < |w| && c == w[j])
          || (exists l: nat :: LeafAt(r, q) <= l < LeafAt(r, q + 1) && l < |f| && c == f[l])
  {
    WeightsPositive(f, w, r, q);
    assert TwoChildren(r, q) && 0 <= LeafAt(r, q + 1) <= |f| && r[q + 1] < q + 1;
    if r[q] < r[q + 1] {
      c := w[r[q]];
      WeightsPositive(f, w, r, r[q]);
    } else {
      c := f[LeafAt(r, q)];
    }
  }
}
