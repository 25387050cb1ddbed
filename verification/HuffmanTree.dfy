/** Huffman's greedy algorithm seen as two queues, the way the in-place algorithm runs it: leaves
    and internal nodes are both consumed in order, so the whole tree is given by how many internal
    nodes were consumed before each merge. */
module HuffmanTree {

  function Sum(s: seq<nat>): nat
  {
    if s == [] then 0 else s[0] + Sum(s[1..])
  }

  ghost predicate Ascending(s: seq<nat>)
  {
    forall i, j :: 0 <= i <= j < |s| ==> s[i] <= s[j]
  }

  ghost predicate Descending(s: seq<nat>)
  {
    forall i, j :: 0 <= i <= j < |s| ==> s[i] >= s[j]
  }
  // ---------------------------------------------------------------- the tree behind the array

  /** Internal node `k` is built from the internal nodes `r[k]..r[k+1]` and the leaves
      `LeafAt(r,k)..LeafAt(r,k+1)`: two children in all. `w[k]` is its weight. */
  function LeafAt(r: seq<nat>, k: nat): int
    requires k < |r|
  {
    2 * k - r[k]
  }

  ghost predicate Shape(r: seq<nat>, n: nat)
  {
    && 1 <= |r| <= n
    && r[0] == 0
    && (forall k :: 0 <= k < |r| ==> 0 <= LeafAt(r, k) <= n)
    && (forall k :: 1 <= k < |r| ==> r[k] < k)
    && (forall k :: 0 <= k < |r| - 1 ==> TwoChildren(r, k))
  }

  predicate TwoChildren(r: seq<nat>, k: nat)
    requires k + 1 < |r|
  {
    r[k] <= r[k + 1] <= r[k] + 2
  }

  /** What the shape says about one step. */
  lemma ShapeAt(r: seq<nat>, n: nat, k: nat)
    requires Shape(r, n) && k < |r|
    ensures 0 <= LeafAt(r, k) <= n && |r| <= n && (if k == 0 then r[k] == 0 else r[k] < k)
    ensures k + 1 < |r| ==> r[k] <= r[k + 1] <= r[k] + 2 && r[k + 1] <= k && 0 <= LeafAt(r, k + 1) <= n
  {
    if k + 1 < |r| { assert TwoChildren(r, k); }
  }

  ghost predicate Weights(f: seq<nat>, w: seq<nat>, r: seq<nat>)
    requires Shape(r, |f|) && |r| == |w| + 1
  {
    forall k :: 0 <= k < |w| ==> Weighed(f, w, r, k)
  }

  ghost predicate Weighed(f: seq<nat>, w: seq<nat>, r: seq<nat>, k: nat)
    requires Shape(r, |f|) && |r| == |w| + 1 && k < |w|
  {
    w[k] == ChildWeight(f, w, r, k)
  }

  function ChildWeight(f: seq<nat>, w: seq<nat>, r: seq<nat>, k: nat): nat
    requires Shape(r, |f|) && |r| == |w| + 1 && k < |w|
  {
    assert LeafAt(r, k) >= 0 && LeafAt(r, k + 1) <= |f| && TwoChildren(r, k);
    Merged(f, w, k, r[k], r[k + 1])
  }

  /** At step `k` everything already consumed is at most everything still available. */
  ghost predicate Cross(f: seq<nat>, w: seq<nat>, r: seq<nat>, k: nat)
    requires Shape(r, |f|) && |r| == |w| + 1 && k < |r|
  {
    && (forall i, l :: 0 <= i < r[k] && LeafAt(r, k) <= l < |f| ==> w[i] <= f[l])
    && (forall i, l :: r[k] <= i < |w| && 0 <= l < LeafAt(r, k) ==> f[l] <= w[i])
  }

  /** `w` and `r` record a run of Huffman's greedy algorithm on the ascending leaf weights `f`,
      `|w|` merges long. */
  ghost predicate Run(f: seq<nat>, w: seq<nat>, r: seq<nat>)
  {
    && Ascending(f) && Ascending(w)
    && Shape(r, |f|) && |r| == |w| + 1
    && Weights(f, w, r)
    && Crossed(f, w, r)
  }

  lemma RunShape(f: seq<nat>, w: seq<nat>, r: seq<nat>)
    requires Run(f, w, r)
    ensures Shape(r, |f|) && |r| == |w| + 1 && Weights(f, w, r)
  {}

  ghost predicate Crossed(f: seq<nat>, w: seq<nat>, r: seq<nat>)
    requires Shape(r, |f|) && |r| == |w| + 1
  {
    forall k :: 0 <= k < |r| ==> Cross(f, w, r, k)
  }

  /** Parents as the first phase leaves them in the array. */
  ghost predicate IsParent(r: seq<nat>, i: nat, p: nat)
  {
    p + 1 < |r| && r[p] <= i < r[p + 1]
  }

  lemma {:induction false} SumSplit(a: seq<nat>, b: seq<nat>)
    ensures Sum(a + b) == Sum(a) + Sum(b)
  {
    if a == [] {
      assert a + b == b;
    } else {
      assert (a + b)[1..] == a[1..] + b;
      SumSplit(a[1..], b);
    }
  }

  /** Weight of a node that consumes up to internal node `root` after `k` merges. */
  function Merged(f: seq<nat>, w: seq<nat>, k: nat, from: nat, root: nat): nat
    requires from <= root <= from + 2 && root <= |w| && from <= 2 * k && root <= 2 * k + 2 <= |f| + root
  {
    if root == from then f[2 * k - from] + f[2 * k - from + 1]
    else if root == from + 1 then w[from] + f[2 * k - from]
    else w[from] + w[from + 1]
  }

  /** Extending a run by the merge of two nodes, the heavier weighing `q`, when everything
      consumed weighs at most `q` and everything left at least `q`. */
  lemma Extend(f: seq<nat>, w: seq<nat>, r: seq<nat>, root: nat, q: nat)
    requires Run(f, w, r) && |w| + 1 < |f|
    requires r[|w|] <= root <= r[|w|] + 2 && root <= |w|
    requires 0 <= 2 * (|w| + 1) - root <= |f|
    requires q <= Merged(f, w, |w|, r[|w|], root)
    requires forall i :: 0 <= i < |w| ==> w[i] <= Merged(f, w, |w|, r[|w|], root)
    requires forall i :: 0 <= i < root ==> w[i] <= q
    requires forall i :: root <= i < |w| ==> q <= w[i]
    requires forall l :: 0 <= l < 2 * (|w| + 1) - root ==> f[l] <= q
    requires forall l :: 2 * (|w| + 1) - root <= l < |f| ==> q <= f[l]
    ensures Run(f, w + [Merged(f, w, |w|, r[|w|], root)], r + [root])
  {
    var k := |w|;
    var v := Merged(f, w, k, r[k], root);
    var w', r' := w + [v], r + [root];
    ExtendShape(r, |f|, root);
    ExtendWeights(f, w, r, root);
    assert Ascending(w') by {
      forall i, j | 0 <= i <= j < |w'| ensures w'[i] <= w'[j] {
      }
    }
    forall j | 0 <= j < |r'| ensures Cross(f, w', r', j) {
      if j < |r| {
        assert Cross(f, w, r, j);
        ExtendCross(f, w, r, root, v, j);
      } else {
        CrossLast(f, w', r', q);
      }
    }
  }

  lemma ExtendWeights(f: seq<nat>, w: seq<nat>, r: seq<nat>, root: nat)
    requires Shape(r, |f|) && |r| == |w| + 1 && Weights(f, w, r)
    requires Shape(r + [root], |f|)
    ensures var k := |w|; 0 <= 2 * k + 2 - root <= |f| && r[k] <= root <= r[k] + 2 && root <= k
    ensures Weights(f, w + [Merged(f, w, |w|, r[|w|], root)], r + [root])
  {
    var k := |w|;
    var r' := r + [root];
    assert TwoChildren(r', k) && r'[k] == r[k] && r'[k + 1] == root;
    assert 0 <= LeafAt(r', k + 1) <= |f|;
    var w' := w + [Merged(f, w, k, r[k], root)];
    forall j | 0 <= j < |w'| ensures Weighed(f, w', r', j) {
      if j < k {
        assert r'[j] == r[j] && r'[j + 1] == r[j + 1];
        assert Weighed(f, w, r, j);
        assert TwoChildren(r, j) && r[j + 1] < j + 1;
      }
    }
  }

  lemma ExtendCross(f: seq<nat>, w: seq<nat>, r: seq<nat>, root: nat, v: nat, j: nat)
    requires Shape(r, |f|) && |r| == |w| + 1 && Shape(r + [root], |f|)
    requires j < |r| && Cross(f, w, r, j)
    requires 0 <= 2 * |r| - root <= |f|
    requires forall l :: 0 <= l < 2 * |r| - root ==> f[l] <= v
    ensures Cross(f, w + [v], r + [root], j)
  {
    var r' := r + [root];
    LeafMono(r', |f|, j, |r|);
    assert LeafAt(r', j) == LeafAt(r, j);
    assert j > 0 ==> r[j] < j;
  }

  lemma CrossLast(f: seq<nat>, w: seq<nat>, r: seq<nat>, q: nat)
    requires Shape(r, |f|) && |r| == |w| + 1
    requires var k := |w|;
      && (forall i :: 0 <= i < r[k] && i < |w| ==> w[i] <= q)
      && (forall i :: r[k] <= i < |w| ==> q <= w[i])
      && (forall l :: 0 <= l < LeafAt(r, k) && l < |f| ==> f[l] <= q)
      && (forall l :: LeafAt(r, k) <= l < |f| && 0 <= l ==> q <= f[l])
    ensures Cross(f, w, r, |w|)
  {
    assert |w| > 0 ==> r[|w|] < |w|;
    assert 0 <= LeafAt(r, |w|) <= |f|;
  }

  lemma ExtendShape(r: seq<nat>, n: nat, root: nat)
    requires Shape(r, n) && |r| < n
    requires r[|r| - 1] <= root <= r[|r| - 1] + 2 && root < |r|
    requires 0 <= 2 * |r| - root <= n
    ensures Shape(r + [root], n)
  {
    var r' := r + [root];
    forall j | 0 <= j < |r'| - 1 ensures TwoChildren(r', j) {
      assert j + 1 < |r| ==> TwoChildren(r, j);
    }
    forall j | 0 <= j < |r'| ensures 0 <= LeafAt(r', j) <= n {
      if j < |r| { assert LeafAt(r', j) == LeafAt(r, j); }
    }
  }

  lemma {:induction false} LeafMono(r: seq<nat>, n: nat, j: nat, k: nat)
    requires Shape(r, n) && j <= k < |r|
    ensures LeafAt(r, j) <= LeafAt(r, k) && r[j] <= r[k]
    decreases k - j
  {
    if j < k { LeafMono(r, n, j, k - 1); assert TwoChildren(r, k - 1); }
  }

  /** Weights still available when `root` internal nodes and `leaf` leaves are consumed. */
  function Available(f: seq<nat>, w: seq<nat>, root: nat, leaf: nat): seq<nat>
    requires root <= |w| && leaf <= |f|
  {
    w[root..] + f[leaf..]
  }

  lemma SumMerge(f: seq<nat>, w: seq<nat>, from: nat, root: nat)
    requires from <= root <= from + 2 && root <= |w|
    requires 0 <= 2 * |w| - from && 0 <= 2 * |w| + 2 - root <= |f|
    ensures var v := Merged(f, w, |w|, from, root);
      && v <= Sum(Available(f, w, from, 2 * |w| - from))
      && Sum(Available(f, w + [v], root, 2 * |w| + 2 - root)) == Sum(Available(f, w, from, 2 * |w| - from))
  {
    var k := |w|;
    var leaf, leaf' := 2 * k - from, 2 * k + 2 - root;
    var v := Merged(f, w, k, from, root);
    hide Sum, Merged;
    SumShort(v, 0);
    assert w[from..] == w[from..root] + w[root..];
    assert f[leaf..] == f[leaf..leaf'] + f[leaf'..];
    SumSplit(w[from..], f[leaf..]);
    SumSplit(w[from..root], w[root..]);
    SumSplit(f[leaf..leaf'], f[leaf'..]);
    assert (w + [v])[root..] == w[root..] + [v];
    SumSplit((w + [v])[root..], f[leaf'..]);
    SumSplit(w[root..], [v]);
    PairSum(f, w, k, from, root);
  }

  lemma SumShort(a: nat, b: nat)
    ensures Sum([]) == 0 && Sum([a]) == a && Sum([a, b]) == a + b
  {
    var one: seq<nat>, last: seq<nat>, two: seq<nat> := [a], [b], [a, b];
    assert one[1..] == [] && last[1..] == [] && two[1..] == last;
    assert Sum(last) == b;
  }

  lemma PairSum(f: seq<nat>, w: seq<nat>, k: nat, from: nat, root: nat)
    requires from <= root <= from + 2 && root <= |w| && from <= 2 * k && root <= 2 * k + 2 <= |f| + root
    ensures Sum(w[from..root]) + Sum(f[2 * k - from..2 * k + 2 - root]) == Merged(f, w, k, from, root)
  {
    hide Sum;
    var leaf := 2 * k - from;
    if root == from {
      SumShort(f[leaf], f[leaf + 1]);
      assert f[leaf..2 * k + 2 - root] == [f[leaf], f[leaf + 1]] && w[from..root] == [];
    } else if root == from + 1 {
      SumShort(f[leaf], 0);
      SumShort(w[from], 0);
      assert f[leaf..2 * k + 2 - root] == [f[leaf]] && w[from..root] == [w[from]];
    } else {
      SumShort(w[from], w[from + 1]);
      assert f[leaf..2 * k + 2 - root] == [] && w[from..root] == [w[from], w[from + 1]];
    }
  }

  lemma {:induction false} AvailableSum(f: seq<nat>, w: seq<nat>, r: seq<nat>, k: nat)
    requires Shape(r, |f|) && |r| == |w| + 1 && Weights(f, w, r) && k < |r|
    ensures r[k] <= k && Sum(Available(f, w[..k], r[k], LeafAt(r, k))) == Sum(f)
  {
    hide Sum;
    if k == 0 {
      assert Available(f, w[..0], 0, 0) == f;
    } else {
      AvailableSum(f, w, r, k - 1);
      assert Weighed(f, w, r, k - 1);
      ShapeAt(r, |f|, k - 1);
      hide Weights, Shape;
      assert w[..k] == w[..k - 1] + [w[k - 1]];
      SumMerge(f, w[..k - 1], r[k - 1], r[k]);
    }
  }

  /** No merge of available nodes exceeds the total frequency. */
  lemma MergesFit(f: seq<nat>, w: seq<nat>, r: seq<nat>)
    requires Shape(r, |f|) && |r| == |w| + 1 && Weights(f, w, r)
    ensures var k := |w|; forall t :: r[k] <= t <= r[k] + 2 && t <= k && 0 <= 2 * k + 2 - t <= |f| ==> Merged(f, w, k, r[k], t) <= Sum(f)
  {
    var k := |w|;
    AvailableSum(f, w, r, k);
    assert w[..k] == w;
    forall t | r[k] <= t <= r[k] + 2 && t <= k && 0 <= 2 * k + 2 - t <= |f| ensures Merged(f, w, k, r[k], t) <= Sum(f) {
      SumMerge(f, w, r[k], t);
    }
  }

  lemma FirstMerge(f: seq<nat>)
    requires |f| >= 2 && Ascending(f)
    ensures f[0] + f[1] <= Sum(f) && Run(f, [f[0] + f[1]], [0, 0])
  {
    TwoInSum(f);
    hide Sum;
    var v := f[0] + f[1];
    OneMerge(f, v, [v], [0, 0]);
  }

  lemma TwoInSum(f: seq<nat>)
    requires |f| >= 2
    ensures f[0] + f[1] <= Sum(f)
  {
    assert Sum(f) == f[0] + Sum(f[1..]) && Sum(f[1..]) == f[1..][0] + Sum(f[1..][1..]);
  }

  lemma OneMerge(f: seq<nat>, v: nat, w: seq<nat>, r: seq<nat>)
    requires |f| >= 2 && Ascending(f) && v == f[0] + f[1] && w == [v] && r == [0, 0]
    ensures Run(f, w, r)
  {
    hide Sum;
    assert Shape(r, |f|) by {
      assert TwoChildren(r, 0) && LeafAt(r, 0) == 0 && LeafAt(r, 1) == 2;
    }
    assert Weighed(f, w, r, 0);
    assert Cross(f, w, r, 0);
    assert Cross(f, w, r, 1);
  }

  lemma NextMerge(f: seq<nat>, w: seq<nat>, r: seq<nat>, root: nat, q: nat) returns (w': seq<nat>, r': seq<nat>)
    requires Run(f, w, r) && 1 <= |w| && |w| + 1 < |f|
    requires r[|w|] <= root <= r[|w|] + 2 && root <= |w|
    requires 0 <= 2 * (|w| + 1) - root <= |f|
    requires q <= Merged(f, w, |w|, r[|w|], root)
    requires w[|w| - 1] <= Merged(f, w, |w|, r[|w|], root)
    requires forall i :: r[|w|] <= i < root ==> w[i] <= q
    requires forall l :: LeafAt(r, |w|) <= l < 2 * (|w| + 1) - root ==> f[l] <= q
    requires forall i :: root <= i < |w| ==> q <= w[i]
    requires forall l :: 2 * (|w| + 1) - root <= l < |f| ==> q <= f[l]
    ensures w' == w + [Merged(f, w, |w|, r[|w|], root)] && r' == r + [root] && Run(f, w', r')
  {
    assert Cross(f, w, r, |w|);
    Extend(f, w, r, root, q);
    w', r' := w + [Merged(f, w, |w|, r[|w|], root)], r + [root];
  }

  // ---------------------------------------------------------------- depths

  /** A complete run on `n` leaves: `r` has an entry for every internal node and one more. */
  ghost predicate Complete(r: seq<nat>, n: nat)
  {
    n >= 2 && Shape(r, n) && |r| == n && r[n - 1] == n - 2
  }

  lemma RunCompletes(f: seq<nat>, w: seq<nat>, r: seq<nat>)
    requires Run(f, w, r) && |w| == |f| - 1 && |f| >= 2
    ensures Complete(r, |f|)
  {
    assert LeafAt(r, |w|) <= |f| && r[|w|] < |w|;
  }

  ghost predicate Parents(r: seq<nat>, p: seq<nat>)
  {
    |r| == |p| + 2 && forall i :: 0 <= i < |p| ==> IsParent(r, i, p[i])
  }

  ghost predicate Depths(p: seq<nat>, d: seq<nat>)
  {
    && |d| == |p| + 1 && d[|p|] == 0
    && forall i :: 0 <= i < |p| ==> OneDeeper(p, d, i)
  }

  ghost predicate OneDeeper(p: seq<nat>, d: seq<nat>, i: nat)
    requires i < |p|
  {
    i < p[i] < |d| && i < |d| && d[i] == d[p[i]] + 1
  }

  lemma ParentAbove(r: seq<nat>, n: nat, i: nat, q: nat)
    requires Complete(r, n) && i < n - 2 && IsParent(r, i, q)
    ensures i < q <= n - 2
  {}

  lemma ParentOrder(r: seq<nat>, n: nat, i: nat, q: nat, k: nat)
    requires Complete(r, n) && IsParent(r, i, q) && k < n
    ensures q >= k <==> i >= r[k]
  {
    if q >= k { LeafMono(r, n, k, q); } else { LeafMono(r, n, q + 1, k); }
  }

  lemma {:induction false} DepthsDescend(r: seq<nat>, n: nat, p: seq<nat>, d: seq<nat>, i: nat, j: nat)
    requires Complete(r, n) && Parents(r, p) && |p| == n - 2 && Depths(p, d)
    requires i <= j <= n - 2
    ensures d[i] >= d[j] && d[i] <= n - 2 - i
    decreases n - i
  {
    if i < n - 2 {
      assert OneDeeper(p, d, i) && IsParent(r, i, p[i]);
      if j < n - 2 {
        assert OneDeeper(p, d, j) && IsParent(r, j, p[j]);
        assert p[i] <= p[j] by { ParentOrder(r, n, j, p[j], p[i]); }
        DepthsDescend(r, n, p, d, p[i], p[j]);
      } else {
        DepthsDescend(r, n, p, d, p[i], j);
      }
    }
  }

  ghost predicate IsLeafParent(r: seq<nat>, l: nat, q: nat)
  {
    q + 1 < |r| && LeafAt(r, q) <= l < LeafAt(r, q + 1)
  }

  /** The internal nodes less than `level` deep are exactly those from `k` on. */
  ghost predicate Boundary(d: seq<nat>, level: nat, k: nat)
  {
    k <= |d| && forall i :: 0 <= i < |d| ==> (d[i] < level <==> k <= i)
  }

  lemma NextBoundary(r: seq<nat>, n: nat, p: seq<nat>, d: seq<nat>, level: nat, k: nat)
    requires Complete(r, n) && Parents(r, p) && |p| == n - 2 && Depths(p, d) && Boundary(d, level, k)
    ensures Boundary(d, level + 1, r[k])
  {
    LeafMono(r, n, k, n - 1);
    forall i | 0 <= i < |d| ensures d[i] < level + 1 <==> r[k] <= i {
      if i < n - 2 {
        assert OneDeeper(p, d, i) && IsParent(r, i, p[i]);
        ParentOrder(r, n, i, p[i], k);
      }
    }
  }

  lemma {:induction false} LeafParentExists(r: seq<nat>, n: nat, lo: nat, hi: nat, l: nat) returns (q: nat)
    requires Shape(r, n) && lo <= hi < |r| && LeafAt(r, lo) <= l < LeafAt(r, hi)
    ensures lo <= q < hi && IsLeafParent(r, l, q)
    decreases hi - lo
  {
    if l < LeafAt(r, lo + 1) { q := lo; } else { q := LeafParentExists(r, n, lo + 1, hi, l); }
  }
}
