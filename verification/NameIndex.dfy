/** The index of an archive's file names: indices sorted by name without regard to case, in place with
    a heap, and searched by bisection (`mz_zip_reader_sort_central_dir_offsets_by_filename`,
    `mz_zip_locate_file_binary_search`, `mz_zip_reader_locate_file_v2`). */
module NameIndex {
  import opened Options
  import opened Bits

  type Name = seq<u8>

  /** `MZ_TOLOWER` */
  function Lower(c: u8): u8
  {
    if 65 <= c <= 90 then c + 32 else c
  }

  // ---------------------------------------------------------------- the order of names

  /** The same name but for the case of letters. */
  predicate Same(a: Name, b: Name)
  {
    |a| == |b| && forall i :: 0 <= i < |a| ==> Lower(a[i]) == Lower(b[i])
  }

  /** `a` comes strictly before `b`. */
  predicate Before(a: Name, b: Name)
  {
    if b == [] then false
    else if a == [] then true
    else if Lower(a[0]) != Lower(b[0]) then Lower(a[0]) < Lower(b[0])
    else Before(a[1..], b[1..])
  }

  lemma {:induction false} Trichotomy(a: Name, b: Name)
    ensures !(Before(a, b) && Before(b, a))
    ensures Same(a, b) <==> !Before(a, b) && !Before(b, a)
  {
    hide Lower;
    if a != [] && b != [] && Lower(a[0]) == Lower(b[0]) {
      Trichotomy(a[1..], b[1..]);
      if Same(a[1..], b[1..]) { SameCons(a, b); }
    }
  }

  lemma SameCons(a: Name, b: Name)
    requires a != [] && b != [] && Lower(a[0]) == Lower(b[0]) && Same(a[1..], b[1..])
    ensures Same(a, b)
  {
    hide Lower;
    forall i | 0 <= i < |a| ensures Lower(a[i]) == Lower(b[i]) {
      if i > 0 { assert a[i] == a[1..][i - 1] && b[i] == b[1..][i - 1]; }
    }
  }

  // ---------------------------------------------------------------- what that means for bytes

  /** The same byte, or the two forms of one of the 26 letters. */
  predicate SameLetter(x: u8, y: u8)
  {
    x == y || (65 <= x <= 90 && y == x + 32) || (97 <= x <= 122 && y == x - 32)
  }

  /** Byte for byte the same but for the case of letters. */
  predicate SameName(a: Name, b: Name)
  {
    |a| == |b| && forall i :: 0 <= i < |a| ==> SameLetter(a[i], b[i])
  }

  lemma SameIsByLetter(a: Name, b: Name)
    ensures Same(a, b) <==> SameName(a, b)
  {
    if |a| == |b| {
      forall i | 0 <= i < |a| ensures Lower(a[i]) == Lower(b[i]) <==> SameLetter(a[i], b[i]) {}
      if Same(a, b) {
        forall i | 0 <= i < |a| ensures SameLetter(a[i], b[i]) { assert Lower(a[i]) == Lower(b[i]); }
      }
      if SameName(a, b) {
        forall i | 0 <= i < |a| ensures Lower(a[i]) == Lower(b[i]) { assert SameLetter(a[i], b[i]); }
      }
    }
  }

  /** The lexicographic order of the bytes themselves. */
  predicate BytesBefore(a: Name, b: Name)
  {
    b != [] && (a == [] || a[0] < b[0] || (a[0] == b[0] && BytesBefore(a[1..], b[1..])))
  }

  /** No capital letters. */
  predicate Small(a: Name)
  {
    forall i :: 0 <= i < |a| ==> !(65 <= a[i] <= 90)
  }

  /** `b` is `a` with small letters for capital ones. */
  predicate SmallCopy(a: Name, b: Name)
  {
    |a| == |b| && forall i :: 0 <= i < |a| ==> b[i] == if 65 <= a[i] <= 90 then a[i] + 32 else a[i]
  }

  /** Names without capital letters stand in the order of their bytes. */
  lemma {:induction false} SmallByBytes(a: Name, b: Name)
    requires Small(a) && Small(b)
    ensures Before(a, b) <==> BytesBefore(a, b)
  {
    if a != [] && b != [] && a[0] == b[0] { SmallByBytes(a[1..], b[1..]); }
  }

  /** A name and its copy in small letters stand in the same order to any name. */
  lemma {:induction false} SmallCopyStands(a: Name, b: Name, c: Name)
    requires SmallCopy(a, b)
    ensures Before(a, c) <==> Before(b, c)
    ensures Before(c, a) <==> Before(c, b)
  {
    if a != [] && c != [] { SmallCopyStands(a[1..], b[1..], c[1..]); }
  }

  /** So any two names stand in the order of the bytes of their copies in small letters. */
  lemma OrderIsByBytes(a: Name, a': Name, b: Name, b': Name)
    requires SmallCopy(a, a') && SmallCopy(b, b')
    ensures Before(a, b) <==> BytesBefore(a', b')
  {
    hide Before, BytesBefore;
    SmallCopyStands(a, a', b);
    SmallCopyStands(b, b', a');
    SmallByBytes(a', b');
  }

  /** Not after: a total preorder. */
  predicate Le(a: Name, b: Name)
  {
    !Before(b, a)
  }

  lemma {:induction false} LeTransitive(a: Name, b: Name, c: Name)
    requires Le(a, b) && Le(b, c)
    ensures Le(a, c)
    decreases |c|
  {
    hide Lower;
    if a != [] && c != [] && b != [] && Lower(c[0]) == Lower(a[0]) && Lower(b[0]) == Lower(a[0]) {
      LeTransitive(a[1..], b[1..], c[1..]);
    }
  }

  lemma LeTotal(a: Name, b: Name)
    ensures Le(a, a) && (Le(a, b) || Le(b, a)) && (Before(a, b) ==> Le(a, b))
  {
    Trichotomy(a, b);
    Trichotomy(a, a);
  }

  /** Names that agree up to a point are compared by what comes next. */
  lemma {:induction false} BeforeAt(a: Name, b: Name, k: nat)
    requires k <= |a| && k <= |b| && forall i :: 0 <= i < k ==> Lower(a[i]) == Lower(b[i])
    ensures Before(a, b) <==> Before(a[k..], b[k..])
    ensures Same(a, b) <==> Same(a[k..], b[k..])
    decreases k
  {
    hide Lower;
    if k > 0 {
      BeforeAt(a[1..], b[1..], k - 1);
      assert a[1..][k - 1..] == a[k..] && b[1..][k - 1..] == b[k..];
      if Same(a[1..], b[1..]) { SameCons(a, b); }
      if Same(a, b) { assert Same(a[1..], b[1..]); }
    } else {
      assert a[0..] == a && b[0..] == b;
    }
  }

  /** The loop of both comparison functions: where the names differ first, or the shorter one ends. */
  method CommonPrefix(a: Name, b: Name) returns (k: nat)
    ensures k <= |a| && k <= |b| && forall i :: 0 <= i < k ==> Lower(a[i]) == Lower(b[i])
    ensures k == |a| || k == |b| || Lower(a[k]) != Lower(b[k])
  {
    k := 0;
    while k < (if |a| < |b| then |a| else |b|) && Lower(a[k]) == Lower(b[k])
      invariant k <= |a| && k <= |b| && forall i :: 0 <= i < k ==> Lower(a[i]) == Lower(b[i])
    {
      k := k + 1;
    }
  }

  /** `mz_zip_reader_filename_less` */
  method FilenameLess(a: Name, b: Name) returns (less: bool)
    ensures less == Before(a, b)
    ensures forall a', b' :: SmallCopy(a, a') && SmallCopy(b, b') ==> less == BytesBefore(a', b')
  {
    hide Lower;
    var k := CommonPrefix(a, b);
    BeforeAt(a, b, k);
    forall a', b' | SmallCopy(a, a') && SmallCopy(b, b') ensures Before(a, b) == BytesBefore(a', b') {
      OrderIsByBytes(a, a', b, b');
    }
    less := if k == (if |a| < |b| then |a| else |b|) then |a| < |b| else Lower(a[k]) < Lower(b[k]);
  }

  /** `mz_zip_filename_compare` */
  method FilenameCompare(a: Name, b: Name) returns (comp: int)
    ensures comp < 0 <==> Before(a, b)
    ensures comp == 0 <==> SameName(a, b)
    ensures forall a', b' :: SmallCopy(a, a') && SmallCopy(b, b') ==> (comp < 0 <==> BytesBefore(a', b'))
  {
    hide Lower;
    var k := CommonPrefix(a, b);
    BeforeAt(a, b, k);
    SameIsByLetter(a, b);
    forall a', b' | SmallCopy(a, a') && SmallCopy(b, b') ensures Before(a, b) == BytesBefore(a', b') {
      OrderIsByBytes(a, a', b, b');
    }
    comp := if k == (if |a| < |b| then |a| else |b|) then |a| - |b| else Lower(a[k]) - Lower(b[k]);
  }

  /** `mz_zip_string_equal`, without regard to case. */
  method StringEqual(a: Name, b: Name) returns (equal: bool)
    requires |a| == |b|
    ensures equal == Same(a, b)
  {
    hide Lower;
    for i := 0 to |a|
      invariant forall k :: 0 <= k < i ==> Lower(a[k]) == Lower(b[k])
    {
      if Lower(a[i]) != Lower(b[i]) {
        return false;
      }
    }
    equal := true;
  }

  // ---------------------------------------------------------------- heaps

  ghost predicate AllIn(names: seq<Name>, s: seq<nat>)
  {
    forall i :: 0 <= i < |s| ==> s[i] < |names|
  }

  /** The name at one place of the index does not come after the one at another. */
  predicate LeAt(names: seq<Name>, s: seq<nat>, i: nat, j: nat)
    requires i < |s| && j < |s| && s[i] < |names| && s[j] < |names|
  {
    Le(names[s[i]], names[s[j]])
  }

  /** A place is not before its children, as far as they are below `size`. */
  ghost predicate Dominates(names: seq<Name>, s: seq<nat>, i: nat, size: nat)
    requires AllIn(names, s) && size <= |s| && i < size
  {
    (2 * i + 1 < size ==> LeAt(names, s, 2 * i + 1, i)) && (2 * i + 2 < size ==> LeAt(names, s, 2 * i + 2, i))
  }

  /** All places from `k` on, except perhaps one. */
  ghost predicate HeapBut(names: seq<Name>, s: seq<nat>, k: nat, size: nat, hole: int)
    requires AllIn(names, s) && size <= |s|
  {
    forall i: nat :: k <= i < size && i != hole ==> Dominates(names, s, i, size)
  }

  /** The children of the hole are not after its parent. */
  ghost predicate Passes(names: seq<Name>, s: seq<nat>, k: nat, size: nat, hole: nat)
    requires AllIn(names, s) && size <= |s|
  {
    forall p: nat, c: nat :: k <= p && (hole == 2 * p + 1 || hole == 2 * p + 2) && (c == 2 * hole + 1 || c == 2 * hole + 2) && c < size && p < size
      ==> LeAt(names, s, c, p)
  }

  function Swap(s: seq<nat>, i: nat, j: nat): (r: seq<nat>)
    requires i < |s| && j < |s|
    ensures |r| == |s|
  {
    s[i := s[j]][j := s[i]]
  }

  /** The greater child `c` goes up and the hole down. */
  lemma SiftStep(names: seq<Name>, s: seq<nat>, k: nat, size: nat, root: nat, c: nat)
    requires AllIn(names, s) && size <= |s| && k <= root && c < size && (c == 2 * root + 1 || c == 2 * root + 2)
    requires HeapBut(names, s, k, size, root) && Passes(names, s, k, size, root)
    requires LeAt(names, s, root, c)
    requires 2 * root + 1 < size ==> LeAt(names, s, 2 * root + 1, c)
    requires 2 * root + 2 < size ==> LeAt(names, s, 2 * root + 2, c)
    ensures var s' := Swap(s, root, c); AllIn(names, s') && HeapBut(names, s', k, size, c) && Passes(names, s', k, size, c)
  {
    hide Le;
    var s' := Swap(s, root, c);
    forall i: nat | k <= i < size && i != c ensures Dominates(names, s', i, size) {
      if i != root {
        assert Dominates(names, s, i, size);
        if root == 2 * i + 1 || root == 2 * i + 2 { assert LeAt(names, s, c, i); }
      }
    }
    assert Dominates(names, s, c, size);
  }

  /** Nothing to do at the hole any more. */
  lemma SiftEnd(names: seq<Name>, s: seq<nat>, k: nat, size: nat, root: nat)
    requires AllIn(names, s) && size <= |s| && root < size && HeapBut(names, s, k, size, root) && Dominates(names, s, root, size)
    ensures HeapBut(names, s, k, size, -1)
  {
    hide Le;
  }

  /** The first place of a heap is not before any other. */
  lemma {:induction false} HeapTop(names: seq<Name>, s: seq<nat>, size: nat, j: nat)
    requires AllIn(names, s) && j < size <= |s| && HeapBut(names, s, 0, size, -1)
    ensures LeAt(names, s, j, 0)
    decreases j
  {
    if j == 0 {
      LeTotal(names[s[0]], names[s[0]]);
    } else {
      var p := (j - 1) / 2;
      hide Le;
      HeapTop(names, s, size, p);
      assert Dominates(names, s, p, size);
      LeTransitive(names[s[j]], names[s[p]], names[s[0]]);
    }
  }

  // ---------------------------------------------------------------- permutations

  /** The same indices in another order. */
  ghost predicate Permutes(s: seq<nat>, s': seq<nat>)
  {
    |s| == |s'| && multiset(s) == multiset(s')
  }

  lemma SwapPermutes(s: seq<nat>, i: nat, j: nat)
    requires i < |s| && j < |s|
    ensures Permutes(s, Swap(s, i, j))
  {}

  /** Swapping within a part permutes that part. */
  lemma SwapPart(s: seq<nat>, i: nat, j: nat, size: nat)
    requires i < size && j < size && size <= |s|
    ensures Permutes(s[..size], Swap(s, i, j)[..size]) && Swap(s, i, j)[size..] == s[size..]
  {
    SwapPermutes(s[..size], i, j);
    assert Swap(s, i, j)[..size] == Swap(s[..size], i, j);
  }

  /** What holds of all elements holds of them in any order. */
  lemma SameElements(s: seq<nat>, s': seq<nat>)
    requires Permutes(s, s')
    ensures forall x :: x in s <==> x in s'
  {
    forall x ensures x in s <==> x in s' {
      assert x in multiset(s) <==> x in multiset(s');
    }
  }

  lemma PermutesJoin(a: seq<nat>, a': seq<nat>, b: seq<nat>)
    requires Permutes(a, a')
    ensures Permutes(a + b, a' + b)
  {}

  /** One more swap below `size`, after others. */
  lemma MoreSwaps(old_: seq<nat>, s: seq<nat>, i: nat, j: nat, size: nat)
    requires |s| == |old_| && i < size && j < size && size <= |s|
    requires Permutes(old_[..size], s[..size]) && s[size..] == old_[size..]
    ensures Permutes(old_[..size], Swap(s, i, j)[..size]) && Swap(s, i, j)[size..] == old_[size..]
  {
    SwapPart(s, i, j, size);
  }

  // ---------------------------------------------------------------- the sort

  /** The greater child, and whether the hole has to move. */
  method GreaterChild(names: seq<Name>, indices: array<nat>, root: nat, size: nat) returns (child: nat, less: bool)
    requires AllIn(names, indices[..]) && size <= indices.Length && 2 * root + 1 < size
    ensures (child == 2 * root + 1 || child == 2 * root + 2) && child < size
    ensures LeAt(names, indices[..], 2 * root + 1, child) && (2 * root + 2 < size ==> LeAt(names, indices[..], 2 * root + 2, child))
    ensures if less then LeAt(names, indices[..], root, child) else LeAt(names, indices[..], child, root)
  {
    ghost var s := indices[..];
    child := 2 * root + 1;
    assert s[root] < |names| && s[child] < |names|;
    LeTotal(names[s[child]], names[s[child]]);
    if child + 1 < size {
      assert s[child + 1] < |names|;
      LeTotal(names[s[child]], names[s[child + 1]]);
      LeTotal(names[s[child + 1]], names[s[child + 1]]);
      var next := FilenameLess(names[indices[child]], names[indices[child + 1]]);
      if next { child := child + 1; }
    }
    LeTotal(names[s[root]], names[s[child]]);
    less := FilenameLess(names[indices[root]], names[indices[child]]);
  }

  /** The inner loop, used by both phases: from a heap but for its first place to a heap. */
  method SiftDown(names: seq<Name>, indices: array<nat>, start: nat, size: nat)
    requires AllIn(names, indices[..]) && start < size <= indices.Length && HeapBut(names, indices[..], start, size, start)
    modifies indices
    ensures AllIn(names, indices[..]) && HeapBut(names, indices[..], start, size, -1)
    ensures Permutes(old(indices[..])[..size], indices[..][..size]) && indices[..][size..] == old(indices[..])[size..]
  {
    hide Permutes, HeapBut, Passes, LeAt;
    ghost var s0 := indices[..];
    var root := start;
    AtFirst(names, s0, start, size);
    while 2 * root + 1 < size
      invariant start <= root < size && AllIn(names, indices[..])
      invariant HeapBut(names, indices[..], start, size, root) && Passes(names, indices[..], start, size, root)
      invariant |indices[..]| == |s0| && Permutes(s0[..size], indices[..][..size]) && indices[..][size..] == s0[size..]
      decreases size - root
    {
      ghost var s := indices[..];
      var child, less := GreaterChild(names, indices, root, size);
      if !less {
        AtRest(names, s, root, child, size);
        break;
      }
      SiftStep(names, s, start, size, root, child);
      MoreSwaps(s0, s, root, child, size);
      indices[root], indices[child] := indices[child], indices[root];
      assert indices[..] == Swap(s, root, child);
      root := child;
    }
    SiftEnd(names, indices[..], start, size, root);
  }

  lemma AtRest(names: seq<Name>, s: seq<nat>, root: nat, c: nat, size: nat)
    requires AllIn(names, s) && size <= |s| && 2 * root + 1 < size && c < size && LeAt(names, s, c, root)
    requires LeAt(names, s, 2 * root + 1, c) && (2 * root + 2 < size ==> LeAt(names, s, 2 * root + 2, c))
    ensures Dominates(names, s, root, size)
  {
    hide Le;
    LeTransitive(names[s[2 * root + 1]], names[s[c]], names[s[root]]);
    if 2 * root + 2 < size { LeTransitive(names[s[2 * root + 2]], names[s[c]], names[s[root]]); }
  }

  lemma AtFirst(names: seq<Name>, s: seq<nat>, k: nat, size: nat)
    requires AllIn(names, s) && size <= |s|
    ensures Passes(names, s, k, size, k) && Permutes(s[..size], s[..size])
  {}

  /** In order of names from place `k` on. */
  ghost predicate SortedFrom(names: seq<Name>, s: seq<nat>, k: nat)
    requires AllIn(names, s)
  {
    forall i: nat, j: nat :: k <= i < j < |s| ==> LeAt(names, s, i, j)
  }

  /** Everything below `end` comes before everything from there on. */
  ghost predicate Split(names: seq<Name>, s: seq<nat>, end: nat)
    requires AllIn(names, s)
  {
    forall i: nat, j: nat :: i < end <= j < |s| ==> LeAt(names, s, i, j)
  }

  ghost predicate Sorted(names: seq<Name>, s: seq<nat>)
  {
    AllIn(names, s) && SortedFrom(names, s, 0)
  }

  /** Places without children are heaps. */
  lemma LeavesAreHeaps(names: seq<Name>, s: seq<nat>, k: nat)
    requires AllIn(names, s) && |s| >= 2 && k == (|s| - 2) / 2 + 1
    ensures HeapBut(names, s, k, |s|, -1)
  {
    hide Le;
  }

  /** The next place up is the only one that may be out of order. */
  lemma HoleAbove(names: seq<Name>, s: seq<nat>, k: nat, size: nat)
    requires AllIn(names, s) && size <= |s| && HeapBut(names, s, k + 1, size, -1)
    ensures HeapBut(names, s, k, size, k)
  {
    hide Dominates;
  }

  /** The top of the heap goes to the end. */
  lemma TopToEnd(names: seq<Name>, s: seq<nat>, end: nat)
    requires AllIn(names, s) && 0 < end < |s| && HeapBut(names, s, 0, end + 1, -1)
    requires SortedFrom(names, s, end + 1) && Split(names, s, end + 1)
    ensures var s' := Swap(s, end, 0); AllIn(names, s') && HeapBut(names, s', 0, end, 0) && SortedFrom(names, s', end) && Split(names, s', end)
  {
    hide Le;
    var s' := Swap(s, end, 0);
    forall i: nat | i < end && i != 0 ensures Dominates(names, s', i, end) {
      assert Dominates(names, s, i, end + 1);
    }
    TopSplit(names, s, end);
  }

  lemma TopSplit(names: seq<Name>, s: seq<nat>, end: nat)
    requires AllIn(names, s) && 0 < end < |s| && HeapBut(names, s, 0, end + 1, -1)
    requires SortedFrom(names, s, end + 1) && Split(names, s, end + 1)
    ensures var s' := Swap(s, end, 0); AllIn(names, s') && SortedFrom(names, s', end) && Split(names, s', end)
  {
    hide Le, HeapBut;
    var s' := Swap(s, end, 0);
    forall i: nat, j: nat | end <= i < j < |s| ensures LeAt(names, s', i, j) {
      assert LeAt(names, s, if i == end then 0 else i, j);
    }
    forall i: nat, j: nat | i < end <= j < |s| ensures LeAt(names, s', i, j) {
      var i' := if i == 0 then end else i;
      if j == end { HeapTop(names, s, end + 1, i'); } else { assert LeAt(names, s, i', j); }
    }
  }

  /** Permuting what is below `end` keeps the order from there on. */
  lemma KeepsOrder(names: seq<Name>, s: seq<nat>, s': seq<nat>, end: nat)
    requires AllIn(names, s) && AllIn(names, s') && |s| == |s'| && end <= |s|
    requires Permutes(s[..end], s'[..end]) && s[end..] == s'[end..]
    requires SortedFrom(names, s, end) && Split(names, s, end)
    ensures SortedFrom(names, s', end) && Split(names, s', end)
  {
    hide Le;
    forall j | end <= j < |s| ensures s[j] == s'[j] { SuffixAt(s, s', end, j); }
    SameElements(s[..end], s'[..end]);
    forall i: nat, j: nat | end <= i < j < |s| ensures LeAt(names, s', i, j) {
      assert LeAt(names, s, i, j);
    }
    forall i: nat, j: nat | i < end <= j < |s| ensures LeAt(names, s', i, j) {
      assert s'[..end][i] in s[..end];
      var k :| 0 <= k < end && s[..end][k] == s'[i];
      assert LeAt(names, s, k, j);
    }
  }

  lemma SuffixAt(s: seq<nat>, s': seq<nat>, end: nat, j: nat)
    requires |s| == |s'| && end <= j < |s| && s[end..] == s'[end..]
    ensures s[j] == s'[j]
  {
    assert s[end..][j - end] == s'[end..][j - end];
  }

  lemma PartIsWhole(s: seq<nat>, s': seq<nat>, end: nat)
    requires |s| == |s'| && end <= |s| && Permutes(s[..end], s'[..end]) && s[end..] == s'[end..]
    ensures Permutes(s, s')
  {
    PermutesJoin(s[..end], s'[..end], s[end..]);
    assert s == s[..end] + s[end..] && s' == s'[..end] + s'[end..];
  }

  lemma PermutesTrans(a: seq<nat>, b: seq<nat>, c: seq<nat>)
    requires Permutes(a, b) && Permutes(b, c)
    ensures Permutes(a, c)
  {}

  /** The first phase: a heap. */
  method MakeHeap(names: seq<Name>, indices: array<nat>)
    requires AllIn(names, indices[..]) && indices.Length >= 2
    modifies indices
    ensures AllIn(names, indices[..]) && HeapBut(names, indices[..], 0, indices.Length, -1) && Permutes(old(indices[..]), indices[..])
  {
    hide Permutes, HeapBut;
    ghost var s0 := indices[..];
    var size := indices.Length;
    var start := (size - 2) / 2 + 1;
    LeavesAreHeaps(names, s0, start);
    AtFirst(names, s0, 0, size);
    assert s0[..size] == s0;
    while start > 0
      invariant 0 <= start < size && AllIn(names, indices[..]) && HeapBut(names, indices[..], start, size, -1)
      invariant Permutes(s0, indices[..])
    {
      start := start - 1;
      ghost var s := indices[..];
      HoleAbove(names, s, start, size);
      SiftDown(names, indices, start, size);
      PartIsWhole(s, indices[..], size);
      PermutesTrans(s0, s, indices[..]);
    }
  }

  /** The heap sort. */
  method SortIndex(names: seq<Name>, indices: array<nat>)
    requires AllIn(names, indices[..])
    modifies indices
    ensures Sorted(names, indices[..]) && Permutes(old(indices[..]), indices[..])
  {
    hide Permutes, HeapBut, LeAt;
    ghost var s0 := indices[..];
    var size := indices.Length;
    if size <= 1 {
      AtFirst(names, s0, 0, size);
      assert s0[..size] == s0;
      return;
    }
    MakeHeap(names, indices);
    var end := size - 1;
    while end > 0
      invariant 0 <= end < size && AllIn(names, indices[..]) && HeapBut(names, indices[..], 0, end + 1, -1)
      invariant SortedFrom(names, indices[..], end + 1) && Split(names, indices[..], end + 1)
      invariant Permutes(s0, indices[..])
    {
      ghost var s := indices[..];
      TopToEnd(names, s, end);
      SwapPermutes(s, end, 0);
      indices[end], indices[0] := indices[0], indices[end];
      ghost var t := indices[..];
      assert t == Swap(s, end, 0);
      PermutesTrans(s0, s, t);
      SiftDown(names, indices, 0, end);
      KeepsOrder(names, t, indices[..], end);
      PartIsWhole(t, indices[..], end);
      PermutesTrans(s0, t, indices[..]);
      end := end - 1;
    }
    AllSorted(names, indices[..]);
  }

  lemma AllSorted(names: seq<Name>, s: seq<nat>)
    requires AllIn(names, s) && SortedFrom(names, s, 1) && Split(names, s, 1)
    ensures Sorted(names, s)
  {}

  // ---------------------------------------------------------------- looking names up

  /** The index has every entry of the archive once. */
  ghost predicate IsIndex(s: seq<nat>, n: nat)
  {
    Permutes(Identity(n), s)
  }

  function Identity(n: nat): (s: seq<nat>)
    ensures |s| == n && forall i :: 0 <= i < n ==> s[i] == i
  {
    seq(n, i => i)
  }

  lemma IndexHasAll(s: seq<nat>, n: nat)
    requires IsIndex(s, n)
    ensures (forall i :: 0 <= i < |s| ==> s[i] < n) && forall x: nat :: x < n ==> x in s
  {
    SameElements(Identity(n), s);
    forall i | 0 <= i < |s| ensures s[i] < n { assert s[i] in Identity(n); }
    forall x: nat | x < n ensures x in s { assert Identity(n)[x] in Identity(n); }
  }

  /** A search finds an entry with the name, up to case, exactly if there is one. */
  ghost predicate Finds(names: seq<Name>, name: Name, r: Option<nat>)
  {
    match r
    case Some(i) => i < |names| && SameName(names[i], name)
    case None => forall i :: 0 <= i < |names| ==> !SameName(names[i], name)
  }

  /** Everything at or before an entry that is before the name is before it, too; and so on. */
  lemma Below(names: seq<Name>, s: seq<nat>, name: Name, i: nat, m: nat)
    requires Sorted(names, s) && i < |s| && m < |s|
    ensures i <= m && Before(names[s[m]], name) ==> Before(names[s[i]], name)
    ensures m <= i && Before(name, names[s[m]]) ==> Before(name, names[s[i]])
  {
    hide SameName;
    var a, b := names[s[i]], names[s[m]];
    if i < m { assert LeAt(names, s, i, m); }
    if m < i { assert LeAt(names, s, m, i); }
    if i < m && Before(b, name) && !Before(a, name) { LeTransitive(name, a, b); }
    if m < i && Before(name, b) && !Before(name, a) { LeTransitive(b, a, name); }
  }

  /** `mz_zip_locate_file_binary_search` */
  method BinarySearch(names: seq<Name>, indices: array<nat>, name: Name) returns (r: Option<nat>)
    requires Sorted(names, indices[..]) && IsIndex(indices[..], |names|)
    ensures Finds(names, name, r)
  {
    hide SameName, Before, Sorted, IsIndex;
    ghost var s := indices[..];
    IndexHasAll(s, |names|);
    var l, h := 0, indices.Length - 1;
    while l <= h
      invariant 0 <= l <= h + 1 <= indices.Length
      invariant forall i :: 0 <= i < l ==> Before(names[s[i]], name)
      invariant forall i :: h < i < |s| ==> Before(name, names[s[i]])
      decreases h - l
    {
      var m := l + (h - l) / 2;
      var fileIndex := indices[m];
      var comp := FilenameCompare(names[fileIndex], name);
      if comp == 0 {
        return Some(fileIndex);
      }
      Trichotomy(names[s[m]], name);
      SameIsByLetter(names[s[m]], name);
      if comp < 0 {
        forall i | 0 <= i <= m ensures Before(names[s[i]], name) { Below(names, s, name, i, m); }
        l := m + 1;
      } else {
        forall i | m <= i < |s| ensures Before(name, names[s[i]]) { Below(names, s, name, i, m); }
        h := m - 1;
      }
    }
    forall x: nat | x < |names| ensures !SameName(names[x], name) {
      assert x in s;
      var i :| 0 <= i < |s| && s[i] == x;
      Trichotomy(names[x], name);
      SameIsByLetter(names[x], name);
    }
    r := None;
  }

  /** The scan of the whole directory. Names of entries have at most 65535 bytes. */
  method Scan(names: seq<Name>, name: Name) returns (r: Option<nat>)
    requires forall i :: 0 <= i < |names| ==> |names[i]| <= 0xFFFF
    ensures Finds(names, name, r)
    ensures r.Some? ==> forall i :: 0 <= i < r.value ==> !SameName(names[i], name)
  {
    if |name| > 0xFFFF {
      return None;
    }
    for fileIndex := 0 to |names|
      invariant forall i :: 0 <= i < fileIndex ==> !SameName(names[i], name)
    {
      if |names[fileIndex]| == |name| {
        var equal := StringEqual(name, names[fileIndex]);
        if equal {
          return Some(fileIndex);
        }
      }
    }
    r := None;
  }

  /** Indexing an archive and then looking a name up, with the index or without it: both ways find
      something exactly for the same names, and entries with the same name up to case. */
  method Locate(names: seq<Name>, name: Name) returns (byIndex: Option<nat>, byScan: Option<nat>)
    requires forall i :: 0 <= i < |names| ==> |names[i]| <= 0xFFFF
    ensures Finds(names, name, byIndex) && Finds(names, name, byScan)
    ensures byIndex.Some? <==> byScan.Some?
    ensures byIndex.Some? ==> SameName(names[byIndex.value], names[byScan.value])
  {
    hide Sorted, Permutes;
    var indices := new nat[|names|](i => i);
    assert indices[..] == Identity(|names|);
    SortIndex(names, indices);
    byIndex := BinarySearch(names, indices, name);
    byScan := Scan(names, name);
  }
}
