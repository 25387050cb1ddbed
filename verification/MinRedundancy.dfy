/** The in-place minimum-redundancy algorithm of Moffat and Katajainen
    (`tdefl_calculate_minimum_redundancy`): from ascending symbol frequencies it computes, in the
    same array, the code lengths of an optimal prefix code. */
module MinRedundancy {
  import opened Bits
  import opened Symbols
  import opened HuffmanTree
  import opened OptimalCode
  import opened TreeCost

  /** Symbols stay with their slots and nothing from `n` on is touched. */
  ghost predicate SameSymbols(s: seq<SymFreq>, s': seq<SymFreq>, n: nat)
  {
    && |s| == |s'| && n <= |s|
    && (forall i :: 0 <= i < n ==> s'[i].sym == s[i].sym)
    && s'[n..] == s[n..]
  }

  // ---------------------------------------------------------------- first phase

  /** The body of the first loop: merges the two lightest available nodes into node `next`. */
  method MergeNext(a: array<SymFreq>, n: nat, next: nat, root: nat, leaf: nat, ghost f: seq<nat>, ghost w: seq<nat>, ghost h: nat)
    returns (root': nat, leaf': nat, ghost q: nat)
    requires n <= a.Length && n < 0x1_0000 && |f| == n && |w| == next && Ascending(f) && Ascending(w)
    requires root < next < n - 1 && leaf == 2 * next - root <= n
    requires forall i :: root <= i < next ==> a[i].key == w[i]
    requires forall l :: leaf <= l < n ==> a[l].key == f[l]
    requires forall t :: root <= t <= root + 2 && t <= next && 2 * next + 2 - t <= n ==> Merged(f, w, next, root, t) < 0x1_0000
    requires h <= w[root] && (leaf < n ==> h <= f[leaf])
    modifies a
    ensures root <= root' <= root + 2 && root' <= next && 0 <= leaf' == 2 * next + 2 - root' <= n
    ensures a[next].key == Merged(f, w, next, root, root') && a[next].sym == old(a[next].sym)
    ensures forall i :: root <= i < root' ==> a[i] == old(a[i]).(key := next)
    ensures forall i :: 0 <= i < a.Length && i != next && !(root <= i < root') ==> a[i] == old(a[i])
    ensures forall i :: root <= i < root' ==> w[i] <= q
    ensures forall l :: leaf <= l < leaf' ==> f[l] <= q
    ensures forall i :: root' <= i < next ==> q <= w[i]
    ensures forall l :: leaf' <= l < n ==> q <= f[l]
    ensures q <= a[next].key <= 2 * q
    ensures 2 * h <= a[next].key
  {
    hide Sum, Merged;
    var x, y;
    root', leaf', x := PickLighter(a, n, next, root, leaf, f, w);
    a[next] := a[next].(key := x);
    root', leaf', y := PickLighter(a, n, next, root', leaf', f, w);
    q := y;
    PickedPair(f, w, next, root, leaf, root', leaf', x, y);
    a[next] := a[next].(key := (a[next].key + y) % 0x1_0000);
  }

  /** The lighter of the first waiting internal node and the next leaf; the node gets its parent. */
  method PickLighter(a: array<SymFreq>, n: nat, next: nat, root: nat, leaf: nat, ghost f: seq<nat>, ghost w: seq<nat>)
    returns (root': nat, leaf': nat, x: u16)
    requires n <= a.Length && n < 0x1_0000 && |f| == n && |w| == next < n && Ascending(f) && Ascending(w)
    requires root <= next && leaf <= n && (root < next || leaf < n)
    requires forall i :: root <= i < next ==> a[i].key == w[i]
    requires forall l :: leaf <= l < n ==> a[l].key == f[l]
    modifies a
    ensures (root' == root + 1 <= next && leaf' == leaf && x == w[root]) || (root' == root && leaf' == leaf + 1 <= n && x == f[leaf])
    ensures forall i :: 0 <= i < a.Length ==> a[i] == if root <= i < root' then old(a[i]).(key := next) else old(a[i])
    ensures forall i :: root' <= i < next ==> x <= w[i]
    ensures forall l :: leaf' <= l < n ==> x <= f[l]
  {
    hide Sum;
    root', leaf' := root, leaf;
    if leaf >= n || (root < next && a[root].key < a[leaf].key) {
      x := a[root].key;
      a[root] := a[root].(key := next);
      root' := root + 1;
    } else {
      x := a[leaf].key;
      leaf' := leaf + 1;
    }
  }

  lemma PickedPair(f: seq<nat>, w: seq<nat>, k: nat, root: nat, leaf: nat, root': nat, leaf': nat, x: nat, y: nat)
    requires root < k == |w| && leaf == 2 * k - root && leaf + root + 2 == leaf' + root' && leaf <= leaf' <= |f| && root <= root' <= k
    requires Ascending(f) && Ascending(w)
    requires root' == root ==> x == f[leaf] && y == f[leaf + 1]
    requires root' == root + 1 ==> (x == w[root] && y == f[leaf] && x <= y) || (x == f[leaf] && y == w[root] && x <= y)
    requires root' == root + 2 ==> x == w[root] && y == w[root + 1]
    ensures x + y == Merged(f, w, k, root, root') && x <= y
    ensures (forall i :: root <= i < root' ==> w[i] <= y) && (forall l :: leaf <= l < leaf' ==> f[l] <= y)
  {
    hide Sum;
  }

  /** What the array holds after `|w|` merges: parents, then the weights of the internal nodes
      that wait, then, from the next leaf on, the remaining frequencies. All that waits weighs at
      least `h`. */
  ghost predicate Queue(s: seq<SymFreq>, f: seq<nat>, w: seq<nat>, r: seq<nat>, h: nat)
  {
    var k := |w|;
    && |r| == k + 1 && 1 <= k <= |f| <= |s| && r[k] < k && 0 <= LeafAt(r, k)
    && (forall i :: 0 <= i < r[k] ==> IsParent(r, i, s[i].key))
    && (forall i :: r[k] <= i < k ==> s[i].key == w[i] && h <= w[i])
    && (forall l :: LeafAt(r, k) <= l < |f| ==> s[l].key == f[l] && h <= f[l])
    && w[k - 1] <= 2 * h
  }

  lemma QueueNext(s: seq<SymFreq>, s': seq<SymFreq>, f: seq<nat>, w: seq<nat>, r: seq<nat>, h: nat, root: nat, q: nat)
    requires Queue(s, f, w, r, h) && |s'| == |s|
    requires |w| + 1 < |f|
    requires var k := |w|; r[k] <= root <= r[k] + 2 && root <= k && 0 <= 2 * k + 2 - root <= |f| && k < 2 * k + 2 - root
    requires s'[|w|].key == Merged(f, w, |w|, r[|w|], root)
    requires forall i :: 0 <= i < |s| && i != |w| ==> s'[i].key == if r[|w|] <= i < root then |w| else s[i].key
    requires forall i :: root <= i < |w| ==> q <= w[i]
    requires forall l :: 2 * |w| + 2 - root <= l < |f| ==> q <= f[l]
    requires q <= s'[|w|].key <= 2 * q
    ensures Queue(s', f, w + [Merged(f, w, |w|, r[|w|], root)], r + [root], q)
  {
    var k := |w|;
    var r' := r + [root];
    assert LeafAt(r', k + 1) == 2 * k + 2 - root;
    forall i | 0 <= i < root ensures IsParent(r', i, s'[i].key) {
      if i < r[k] { assert IsParent(r, i, s[i].key); }
    }
  }

  lemma QueueParts(s: seq<SymFreq>, f: seq<nat>, w: seq<nat>, r: seq<nat>, h: nat)
    requires Run(f, w, r) && Queue(s, f, w, r, h) && |w| + 1 < |f|
    ensures Ascending(f) && Ascending(w) && |r| == |w| + 1 && |w| >= 1
    ensures var k := |w|; var root, leaf := r[k], 2 * k - r[k];
      && root < k && 0 <= leaf <= |f| && w[k - 1] <= 2 * h
      && (forall i :: root <= i < k ==> s[i].key == w[i])
      && (forall l :: leaf <= l < |f| ==> s[l].key == f[l])
      && h <= w[root] && (leaf < |f| ==> h <= f[leaf])
  {
    hide Sum;
    ShapeAt(r, |f|, |w|);
  }

  method MergeStep(a: array<SymFreq>, n: nat, next: nat, root: nat, leaf: nat,
                   ghost f: seq<nat>, ghost w: seq<nat>, ghost r: seq<nat>, ghost h: nat)
    returns (root': nat, leaf': nat, ghost w': seq<nat>, ghost r': seq<nat>, ghost h': nat)
    requires n <= a.Length && n < 0x1_0000 && |f| == n && Sum(f) < 0x1_0000
    requires next == |w| && |w| + 1 < n && Run(f, w, r) && Queue(a[..], f, w, r, h)
    requires root == r[|w|] && leaf == 2 * next - root
    modifies a
    ensures Run(f, w', r') && Queue(a[..], f, w', r', h')
    ensures |w'| == next + 1 && root' == r'[next + 1] && leaf' == 2 * (next + 1) - root'
    ensures SameSymbols(old(a[..]), a[..], n)
  {
    MergesFit(f, w, r);
    QueueParts(a[..], f, w, r, h);
    ghost var s := a[..];
    hide Sum, Run, Queue, Merged, Shape;
    root', leaf', h' := MergeNext(a, n, next, root, leaf, f, w, h);
    QueueNext(s, a[..], f, w, r, h, root', h');
    w', r' := NextMerge(f, w, r, root', h');
  }

  method BuildTree(a: array<SymFreq>, n: nat, ghost f: seq<nat>) returns (ghost w: seq<nat>, ghost r: seq<nat>)
    requires 2 <= n <= a.Length && n < 0x1_0000 && f == Keys(a[..n])
    requires Ascending(f) && Sum(f) < 0x1_0000
    modifies a
    ensures Run(f, w, r) && |w| == n - 1
    ensures forall i :: 0 <= i < n - 2 ==> IsParent(r, i, a[i].key)
    ensures SameSymbols(old(a[..]), a[..], n)
  {
    FirstMerge(f);
    a[0] := a[0].(key := (a[0].key + a[1].key) % 0x1_0000);
    w, r := [f[0] + f[1]], [0, 0];
    ghost var hi := f[1];
    var root, leaf, next := 0, 2, 1;
    while next < n - 1
      invariant 1 <= next <= n - 1 && |w| == next && Run(f, w, r) && Queue(a[..], f, w, r, hi)
      invariant root == r[next] && leaf == 2 * next - root
      invariant SameSymbols(old(a[..]), a[..], n)
    {
      root, leaf, w, r, hi := MergeStep(a, n, next, root, leaf, f, w, r, hi);
      next := next + 1;
    }
  }

  // ---------------------------------------------------------------- second phase

  /** Slots after `next` hold depths, the others still parents. */
  ghost predicate Converted(s: seq<SymFreq>, p: seq<nat>, next: int)
  {
    && |p| < |s| < 0x1_0000 && -1 <= next < |p| && s[|p|].key == 0
    && (forall i :: 0 <= i <= next ==> s[i].key == p[i])
    && (forall i :: next < i < |p| ==> KeyDeeper(s, p, i))
    && (forall i :: next < i <= |p| ==> s[i].key <= |p| - i)
  }

  ghost predicate KeyDeeper(s: seq<SymFreq>, p: seq<nat>, i: nat)
    requires i < |p|
  {
    i < p[i] <= |p| < |s| && s[i].key == s[p[i]].key + 1
  }

  lemma ConvertNext(s: seq<SymFreq>, s': seq<SymFreq>, p: seq<nat>, next: nat)
    requires Converted(s, p, next) && next < p[next] <= |p|
    requires s[p[next]].key + 1 < 0x1_0000 ==> s' == s[next := s[next].(key := s[p[next]].key + 1)]
    ensures s[p[next]].key + 1 < 0x1_0000 && Converted(s', p, next - 1)
  {
    forall i | next <= i < |p| ensures KeyDeeper(s', p, i) {
      if i > next { assert KeyDeeper(s, p, i); }
    }
  }

  /** The second phase turns parent indices into depths, from the root down. */
  method ParentsToDepths(a: array<SymFreq>, n: nat, ghost r: seq<nat>) returns (ghost p: seq<nat>)
    requires 2 <= n <= a.Length < 0x1_0000 && Complete(r, n)
    requires forall i :: 0 <= i < n - 2 ==> IsParent(r, i, a[i].key)
    modifies a
    ensures |p| == n - 2 && Parents(r, p) && Depths(p, Keys(a[..n - 1]))
    ensures SameSymbols(old(a[..]), a[..], n)
  {
    p := Keys(a[..n - 2]);
    a[n - 2] := a[n - 2].(key := 0);
    var next := n - 3;
    while next >= 0
      invariant Converted(a[..], p, next)
      invariant SameSymbols(old(a[..]), a[..], n)
    {
      ghost var s := a[..];
      assert IsParent(r, next, p[next]);
      ParentAbove(r, n, next, p[next]);
      assert s[p[next]].key <= |p| - p[next];
      a[next] := a[next].(key := a[a[next].key].key + 1);
      ConvertNext(s, a[..], p, next);
      next := next - 1;
    }
    ghost var d := Keys(a[..n - 1]);
    forall i | 0 <= i < |p| ensures OneDeeper(p, d, i) {
      assert KeyDeeper(a[..], p, i);
    }
  }

  // ---------------------------------------------------------------- third phase

  /** State at the start of a level of the third phase: slots below `k` hold the depths `d`, the
      leaves after `next` have their final length, one more than the depth of their parent. */
  ghost predicate Level(s: seq<SymFreq>, r: seq<nat>, d: seq<nat>, n: nat, k: nat, next: int)
  {
    && n <= |s| && |d| == n - 1 && Shape(r, n) && k <= n - 1 && k - 1 <= next < n
    && (forall i :: 0 <= i < k ==> s[i].key == d[i])
    && (forall l: nat, q: nat :: next < l < n && IsLeafParent(r, l, q) ==> q < |d| && s[l].key == d[q] + 1)
  }

  /** The first inner loop: counts the internal nodes of depth `dpth`. */
  method CountLevel(a: array<SymFreq>, root: int, dpth: nat, ghost d: seq<nat>, ghost k': nat) returns (root': int, used: nat)
    requires -1 <= root < a.Length && root < |d| && k' <= root + 1
    requires forall i :: 0 <= i <= root ==> a[i].key == d[i]
    requires forall i :: k' <= i <= root ==> d[i] == dpth
    requires forall i :: 0 <= i < k' ==> d[i] != dpth
    ensures root' == k' - 1 && used == root - root'
  {
    root', used := root, 0;
    while root' >= 0 && a[root'].key == dpth
      invariant k' - 1 <= root' <= root && used == root - root'
    {
      used := used + 1;
      root' := root' - 1;
    }
  }

  /** The second inner loop: gives the next `avbl - used` leaves the length `dpth`. */
  method FillLevel(a: array<SymFreq>, next: int, avbl: nat, used: nat, dpth: nat) returns (next': int)
    requires used <= avbl && avbl - used <= next + 1 <= a.Length && dpth < 0x1_0000
    modifies a
    ensures next' == next - (avbl - used)
    ensures forall i :: 0 <= i < a.Length ==> a[i] == if next' < i <= next then old(a[i]).(key := dpth) else old(a[i])
  {
    var left := avbl;
    next' := next;
    while left > used
      invariant used <= left <= avbl && next' == next - (avbl - left)
      invariant forall i :: 0 <= i < a.Length ==> a[i] == if next' < i <= next then old(a[i]).(key := dpth) else old(a[i])
    {
      a[next'] := a[next'].(key := dpth);
      next' := next' - 1;
      left := left - 1;
    }
  }

  lemma LevelDone(s: seq<SymFreq>, s': seq<SymFreq>, r: seq<nat>, d: seq<nat>, n: nat, level: nat, pk: nat, k: nat, next: int, next': int)
    requires Level(s, r, d, n, k, next) && |r| == n && k <= pk < n
    requires Boundary(d, level, k) && (level > 0 ==> Boundary(d, level - 1, pk)) && (level == 0 ==> pk == k)
    requires next + 1 == LeafAt(r, pk) && next' + 1 == LeafAt(r, k)
    requires r[k] <= k <= next' + 1 && next' <= next
    requires |s'| == |s| && forall i :: 0 <= i < |s| ==> s'[i].key == if next' < i <= next then level else s[i].key
    ensures Level(s', r, d, n, r[k], next')
  {
    forall l: nat, q: nat | next' < l < n && IsLeafParent(r, l, q) ensures q < |d| && s'[l].key == d[q] + 1 {
      if l <= next {
        if q >= pk { LeafMono(r, n, pk, q); assert false; }
        if q < k { LeafMono(r, n, q + 1, k); assert false; }
      }
    }
  }

  /** Between two levels: `k` internal nodes lie deeper than level `dpth - 1`, `avbl` nodes of level
      `dpth` still have to be told apart. */
  ghost predicate LevelState(s: seq<SymFreq>, r: seq<nat>, d: seq<nat>, n: nat, pk: nat, k: nat, root: int, next: int, avbl: nat, dpth: nat)
  {
    && |r| == n && k <= pk < n && root == k - 1 && next == avbl + root && next + 1 == LeafAt(r, pk)
    && Level(s, r, d, n, k, next) && Boundary(d, dpth, k)
    && (if dpth == 0 then pk == k == n - 1 else r[pk] == k && Boundary(d, dpth - 1, pk))
    && (dpth + k <= n - 1 || (avbl == 0 && dpth <= n))
  }

  /** One level. */
  method LevelStep(a: array<SymFreq>, n: nat, root: int, next: int, avbl: nat, dpth: nat, ghost r: seq<nat>, ghost p: seq<nat>,
                   ghost d: seq<nat>, ghost pk: nat, ghost k: nat) returns (root': int, next': int, used: nat)
    requires 2 <= n <= a.Length < 0x1_0000 && Complete(r, n) && |p| == n - 2 && Parents(r, p) && Depths(p, d)
    requires LevelState(a[..], r, d, n, pk, k, root, next, avbl, dpth) && avbl > 0
    modifies a
    ensures r[k] <= k && LevelState(a[..], r, d, n, k, r[k], root', next', 2 * used, dpth + 1)
    ensures SameSymbols(old(a[..]), a[..], n) && (r[k] == k ==> used == 0)
  {
    hide Parents, Depths, Shape, IsLeafParent;
    LevelBounds(a[..], r, d, n, pk, k, root, next, avbl, dpth);
    NextBoundary(r, n, p, d, dpth, k);
    LeafMono(r, n, k, pk);
    ghost var s := a[..];
    root', used := CountLevel(a, root, dpth, d, r[k]);
    next' := FillLevel(a, next, avbl, used, dpth);
    LevelDone(s, a[..], r, d, n, dpth, pk, k, next, next');
  }

  lemma LevelBounds(s: seq<SymFreq>, r: seq<nat>, d: seq<nat>, n: nat, pk: nat, k: nat, root: int, next: int, avbl: nat, dpth: nat)
    requires Complete(r, n) && LevelState(s, r, d, n, pk, k, root, next, avbl, dpth)
    ensures Shape(r, n) && r[k] <= k && (k > 0 ==> r[k] < k) && 0 <= LeafAt(r, k) <= n && 0 <= LeafAt(r, pk) <= n && |d| == n - 1 && n <= |s|
  {
    ShapeAt(r, n, k);
    ShapeAt(r, n, pk);
  }

  /** The third phase: from depths of internal nodes to lengths of leaves. */
  method DepthsToLengths(a: array<SymFreq>, n: nat, ghost r: seq<nat>, ghost p: seq<nat>)
    requires 2 <= n <= a.Length < 0x1_0000 && Complete(r, n)
    requires |p| == n - 2 && Parents(r, p) && Depths(p, Keys(a[..n - 1]))
    modifies a
    ensures SameSymbols(old(a[..]), a[..], n)
    ensures forall l: nat, q: nat :: l < n && IsLeafParent(r, l, q) ==> q < n - 1 && a[l].key == old(a[q].key) + 1
  {
    ghost var d := Keys(a[..n - 1]);
    ghost var pk: nat, k: nat := n - 1, n - 1;
    var avbl, dpth := 1, 0;
    var root, next := n - 2, n - 1;
    FirstLevel(a[..], r, d, n);
    hide Complete, Parents, Depths, LevelState, Keys, IsLeafParent;
    while avbl > 0
      invariant 0 <= avbl && 0 <= dpth && k < n && LevelState(a[..], r, d, n, pk, k, root, next, avbl, dpth)
      invariant SameSymbols(old(a[..]), a[..], n)
      decreases k, avbl
    {
      var used;
      root, next, used := LevelStep(a, n, root, next, avbl, dpth, r, p, d, pk, k);
      avbl := 2 * used;
      dpth := dpth + 1;
      pk, k := k, r[k];
    }
    AllLevels(a[..], r, d, n, pk, k, root, next, dpth);
  }

  lemma FirstLevel(s: seq<SymFreq>, r: seq<nat>, d: seq<nat>, n: nat)
    requires 2 <= n <= |s| && Complete(r, n) && |d| == n - 1 && forall i :: 0 <= i < n - 1 ==> d[i] == s[i].key
    ensures LevelState(s, r, d, n, n - 1, n - 1, n - 2, n - 1, 1, 0)
  {
    ShapeAt(r, n, n - 1);
    forall i | 0 <= i < |d| ensures d[i] >= 0 {}
  }

  lemma AllLevels(s: seq<SymFreq>, r: seq<nat>, d: seq<nat>, n: nat, pk: nat, k: nat, root: int, next: int, dpth: nat)
    requires 2 <= n <= |s| && |d| == n - 1 && LevelState(s, r, d, n, pk, k, root, next, 0, dpth)
    ensures forall l: nat, q: nat :: l < n && IsLeafParent(r, l, q) ==> q < n - 1 && s[l].key == d[q] + 1
  {
  }

  // ---------------------------------------------------------------- the whole algorithm

  /** No code for the weights `f`, in the sense of Kraft's inequality, is cheaper than `lens`. */
  ghost predicate Optimal(f: seq<nat>, lens: seq<nat>)
    requires |f| == |lens|
  {
    forall other: seq<nat>, n: nat :: |other| == |f| && Within(Items(f, other), n) && Kraft(Items(f, other), n) <= Pow2(n)
      ==> Cost(Items(f, lens)) <= Cost(Items(f, other))
  }

  /** The lengths use up the code space exactly. */
  ghost predicate Tight(f: seq<nat>, lens: seq<nat>)
    requires |f| == |lens|
  {
    forall n :: Within(Items(f, lens), n) ==> Kraft(Items(f, lens), n) == Pow2(n)
  }

  /** Long codes are for rare symbols: a frequency times a Fibonacci number stays below the total. */
  ghost predicate Rare(f: seq<nat>, lens: seq<nat>)
    requires |f| == |lens|
  {
    forall l :: 0 <= l < |f| ==> lens[l] >= 1 && Grow(lens[l] - 1, f[l], f[l]) <= Sum(f)
  }

  lemma LeafDepths(f: seq<nat>, w: seq<nat>, r: seq<nat>, p: seq<nat>, d: seq<nat>, lens: seq<nat>)
    requires Run(f, w, r) && |w| == |f| - 1 == |lens| - 1 && |f| >= 2
    requires |p| == |f| - 2 && Parents(r, p) && Depths(p, d)
    requires forall l: nat, q: nat :: l < |f| && IsLeafParent(r, l, q) ==> q < |d| && lens[l] == d[q] + 1
    ensures TreeDepths(r, d, lens)
  {
    RunCompletes(f, w, r);
    forall k | 0 <= k < |d| ensures ChildrenDeeper(r, d, lens, k) {
      forall i | r[k] <= i < r[k + 1] && i < |d| ensures d[i] == d[k] + 1 {
        assert IsParent(r, i, k) && TwoChildren(r, k) && r[k + 1] < k + 1;
        assert IsParent(r, i, p[i]) && OneDeeper(p, d, i);
        ParentOrder(r, |f|, i, k, p[i]);
        ParentOrder(r, |f|, i, p[i], k);
      }
      forall l | LeafAt(r, k) <= l < LeafAt(r, k + 1) && 0 <= l < |lens| ensures lens[l] == d[k] + 1 {
        assert IsLeafParent(r, l, k);
      }
    }
  }

  lemma LengthsDescend(r: seq<nat>, p: seq<nat>, d: seq<nat>, lens: seq<nat>, l: nat, m: nat) returns (q: nat)
    requires TreeDepths(r, d, lens) && |p| == |lens| - 2 && Parents(r, p) && Depths(p, d) && l <= m < |lens|
    ensures lens[l] >= lens[m] && q < |d| && lens[l] == d[q] + 1 && IsLeafParent(r, l, q)
  {
    var n := |lens|;
    q := LeafParentExists(r, n, 0, n - 1, l);
    var t := LeafParentExists(r, n, 0, n - 1, m);
    assert ChildrenDeeper(r, d, lens, q) && ChildrenDeeper(r, d, lens, t);
    if t < q { LeafMono(r, n, t + 1, q); assert false; }
    DepthsDescend(r, n, p, d, q, t);
  }

  lemma OptimalTree(f: seq<nat>, w: seq<nat>, r: seq<nat>, d: seq<nat>, lens: seq<nat>)
    requires Run(f, w, r) && |w| == |f| - 1 && |f| == |lens| && TreeDepths(r, d, lens)
    ensures Optimal(f, lens)
  {
    GreedyIsOptimal(f, w, r);
    TreeCostIsWeights(f, w, r, d, lens);
    forall other: seq<nat>, n: nat | |other| == |f| && Within(Items(f, other), n) && Kraft(Items(f, other), n) <= Pow2(n)
      ensures Cost(Items(f, lens)) <= Cost(Items(f, other))
    {
      ItemWeights(f, other);
    }
  }

  lemma TightTree(f: seq<nat>, r: seq<nat>, d: seq<nat>, lens: seq<nat>)
    requires |f| == |lens| && TreeDepths(r, d, lens)
    ensures Tight(f, lens)
  {
    forall n | Within(Items(f, lens), n) ensures Kraft(Items(f, lens), n) == Pow2(n) {
      forall l | 0 <= l < |lens| ensures lens[l] <= n {
        assert Items(f, lens)[l].len <= n;
      }
      forall k | 0 <= k < |d| ensures d[k] < n { ChildBelow(r, d, lens, k, n); }
      TreeKraft(f, r, d, lens, n);
    }
  }

  lemma {:induction false} ChildBelow(r: seq<nat>, d: seq<nat>, lens: seq<nat>, k: nat, n: nat)
    requires TreeDepths(r, d, lens) && k < |d| && forall l :: 0 <= l < |lens| ==> lens[l] <= n
    ensures d[k] < n
  {
    assert ChildrenDeeper(r, d, lens, k) && TwoChildren(r, k) && r[k + 1] < k + 1;
    assert 0 <= LeafAt(r, k) && 0 <= LeafAt(r, k + 1) <= |lens|;
    if r[k] < r[k + 1] {
      ChildBelow(r, d, lens, r[k], n);
    } else {
      assert lens[LeafAt(r, k)] == d[k] + 1;
    }
  }

  /** Everything the caller relies on, from the tree built on the frequencies. */
  lemma TreeLengths(f: seq<nat>, w: seq<nat>, r: seq<nat>, p: seq<nat>, d: seq<nat>, lens: seq<nat>)
    requires Run(f, w, r) && |w| == |f| - 1 && |f| == |lens| >= 2
    requires |p| == |f| - 2 && Parents(r, p) && Depths(p, d)
    requires forall l: nat, q: nat :: l < |f| && IsLeafParent(r, l, q) ==> q < |d| && lens[l] == d[q] + 1
    requires Sum(f) < 0x1_0000 && forall i :: 0 <= i < |f| ==> f[i] >= 1
    ensures Optimal(f, lens) && Tight(f, lens) && Rare(f, lens) && Descending(lens)
    ensures forall l :: 0 <= l < |f| ==> 1 <= lens[l] <= 22
  {
    LeafDepths(f, w, r, p, d, lens);
    OptimalTree(f, w, r, d, lens);
    TightTree(f, r, d, lens);
    forall l, m | 0 <= l <= m < |lens| ensures lens[l] >= lens[m] && 1 <= lens[l] <= 22 {
      var q := LengthsDescend(r, p, d, lens, l, m);
      Shallow(f, w, r, p, d, q);
    }
    forall l | 0 <= l < |lens| ensures lens[l] >= 1 && Grow(lens[l] - 1, f[l], f[l]) <= Sum(f) {
      var q := LengthsDescend(r, p, d, lens, l, l);
      LeafGrowth(f, w, r, p, d, l, q);
    }
  }

  /** Replaces ascending positive frequencies by the lengths of an optimal prefix code, longest
      first. A single symbol gets length 1. */
  method CalculateMinimumRedundancy(a: array<SymFreq>, n: nat)
    requires n <= a.Length < 0x1_0000
    requires Ascending(Keys(a[..n])) && Sum(Keys(a[..n])) < 0x1_0000
    requires forall i :: 0 <= i < n ==> a[i].key >= 1
    modifies a
    ensures SameSymbols(old(a[..]), a[..], n)
    ensures n == 1 ==> a[0].key == 1
    ensures n >= 2 ==> Optimal(old(Keys(a[..n])), Keys(a[..n]))
    ensures n >= 2 ==> Tight(old(Keys(a[..n])), Keys(a[..n]))
    ensures Rare(old(Keys(a[..n])), Keys(a[..n]))
    ensures Descending(Keys(a[..n])) && forall i :: 0 <= i < n ==> 1 <= a[i].key <= 22
  {
    if n == 0 {
      return;
    } else if n == 1 {
      a[0] := a[0].(key := 1);
      return;
    }
    ghost var f := Keys(a[..n]);
    ghost var w, r := BuildTree(a, n, f);
    RunCompletes(f, w, r);
    ghost var p := ParentsToDepths(a, n, r);
    ghost var d := Keys(a[..n - 1]);
    DepthsToLengths(a, n, r, p);
    TreeLengths(f, w, r, p, d, Keys(a[..n]));
  }
}
