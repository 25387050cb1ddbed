/** The decoder's Huffman tables (`tinfl_decompress`, table construction): a 1024-entry lookup on
    the next ten bits and, for longer codes, a tree of bit-indexed pairs of slots in one array. */
module DecodeTable {
  import opened Bits
  import opened Canonical

  const FAST_BITS := 10
  const FAST_SIZE := 1024

  // ---------------------------------------------------------------- walking the tables

  /** Links of the tree point to later slots, so that every walk ends. */
  predicate Linked(tree: seq<int>)
  {
    forall x :: 0 <= x < |tree| && tree[x] < 0 ==> x < -tree[x] - 1 && -tree[x] < |tree|
  }

  predicate IsNode(tree: seq<int>, node: int)
  {
    node < 0 && -node < |tree|
  }

  function Bit(w: nat, k: nat): (b: nat)
    ensures b < 2
  {
    Shr(w, k) % 2
  }

  /** Follows the tree from `node` along the bits of `w` from bit `len` on. */
  function Walk(tree: seq<int>, node: int, w: nat, len: nat): (nat, nat)
    requires Linked(tree) && IsNode(tree, node)
    decreases |tree| + node
  {
    var v := tree[-node - 1 + Bit(w, len)];
    if v >= 0 then (v, len + 1) else Walk(tree, v, w, len + 1)
  }

  /** The symbol decoded from the bits of `w`, low bit first, and the number of bits it takes. */
  function Decode(lookup: seq<int>, tree: seq<int>, w: nat): (nat, nat)
    requires |lookup| == FAST_SIZE && Linked(tree)
    requires lookup[w % FAST_SIZE] >= 0 || IsNode(tree, lookup[w % FAST_SIZE])
  {
    var v := lookup[w % FAST_SIZE];
    if v >= 0 then (v % 512, v / 512) else Walk(tree, v, w, FAST_BITS)
  }

  ghost predicate WellFormed(lookup: seq<int>, tree: seq<int>)
  {
    && |lookup| == FAST_SIZE && Linked(tree)
    && forall x :: 0 <= x < FAST_SIZE ==> lookup[x] >= 0 || IsNode(tree, lookup[x])
  }

  /** A nonzero entry of the lookup belongs to a symbol whose code its index starts with. */
  ghost predicate Entry(sizes: seq<nat>, v: int, x: nat)
  {
    var s := v % 512;
    Used(sizes, s) && v / 512 == sizes[s] && CodeBits(sizes, s) <= ToBits(x, FAST_BITS)
  }

  /** The tables decode every code of `sizes` to its symbol and length, whatever bits follow, and
      the lookup holds nothing else. */
  ghost predicate Decodes(sizes: seq<nat>, lookup: seq<int>, tree: seq<int>)
  {
    && WellFormed(lookup, tree) && |sizes| <= 512
    && (forall s: nat, w: nat, n: nat :: Used(sizes, s) && CodeBits(sizes, s) <= ToBits(w, n) ==> Decode(lookup, tree, w) == (s, sizes[s]))
    && (forall x :: 0 <= x < FAST_SIZE && lookup[x] > 0 ==> Entry(sizes, lookup[x], x))
  }

  // ---------------------------------------------------------------- the invariant of the construction

  /** No code is a prefix of another. */
  ghost predicate PrefixCode(sizes: seq<nat>)
  {
    forall s: nat, t: nat :: Used(sizes, s) && Used(sizes, t) && CodeBits(sizes, s) <= CodeBits(sizes, t) ==> s == t
  }

  /** The first bits of some longer code. */
  ghost predicate Inner(sizes: seq<nat>, u: seq<bool>)
  {
    exists t: nat :: Used(sizes, t) && |u| < sizes[t] && u <= CodeBits(sizes, t)
  }

  /** `idx` numbers the tree nodes by the bits that lead to them. Node `k` has the slots `2k` and
      `2k + 1` and is referred to as `-(2k + 1)`. */
  type Nodes = map<seq<bool>, nat>

  function Ref(k: nat): int
  {
    -(2 * k + 1)
  }

  /** The bits `u` lead to a slot: of the lookup if there are ten, else of the node one bit up. */
  predicate HasSlot(idx: Nodes, u: seq<bool>)
  {
    |u| == FAST_BITS || (|u| > FAST_BITS && u[..|u| - 1] in idx)
  }

  function TreeSlot(idx: Nodes, u: seq<bool>): nat
    requires |u| > FAST_BITS && HasSlot(idx, u)
  {
    2 * idx[u[..|u| - 1]] + if u[|u| - 1] then 1 else 0
  }

  predicate InRange(idx: Nodes, lookup: seq<int>, tree: seq<int>)
  {
    |lookup| == FAST_SIZE && 2 * |idx| <= |tree| && forall u :: u in idx ==> idx[u] < |idx|
  }

  function Content(lookup: seq<int>, tree: seq<int>, idx: Nodes, u: seq<bool>): int
    requires InRange(idx, lookup, tree) && HasSlot(idx, u)
  {
    if |u| == FAST_BITS then
      FromBitsBound(u); assert Pow2(FAST_BITS) == FAST_SIZE;
      lookup[FromBits(u)]
    else
      assert idx[u[..|u| - 1]] < |idx|;
      tree[TreeSlot(idx, u)]
  }

  /** A slot refers to a node exactly if its bits are numbered; a symbol found in it is right. */
  ghost predicate SlotOk(sizes: seq<nat>, i: nat, lookup: seq<int>, tree: seq<int>, idx: Nodes, u: seq<bool>)
    requires InRange(idx, lookup, tree) && HasSlot(idx, u)
  {
    var v := Content(lookup, tree, idx, u);
    && (v < 0 <==> u in idx)
    && (u in idx ==> v == Ref(idx[u]))
    && (v > 0 ==> exists s: nat :: s < i && Used(sizes, s) && CodeBits(sizes, s) <= u)
  }

  /** The entry of a symbol in the tables. */
  ghost predicate LeafOk(sizes: seq<nat>, lookup: seq<int>, tree: seq<int>, idx: Nodes, s: nat)
    requires InRange(idx, lookup, tree) && Used(sizes, s)
  {
    var c := CodeBits(sizes, s);
    if |c| <= FAST_BITS then
      forall u: seq<bool> :: |u| == FAST_BITS && c <= u ==> Content(lookup, tree, idx, u) == 512 * |c| + s
    else
      HasSlot(idx, c) && Content(lookup, tree, idx, c) == s
  }

  ghost predicate NodeOk(sizes: seq<nat>, idx: Nodes, u: seq<bool>)
  {
    FAST_BITS <= |u| < MAX_LEN && Inner(sizes, u) && HasSlot(idx, u)
  }

  ghost predicate Injective(idx: Nodes)
  {
    forall u, v :: u in idx && v in idx && idx[u] == idx[v] ==> u == v
  }

  /** The tables after the symbols below `i` have been entered. */
  ghost predicate Trie(sizes: seq<nat>, i: nat, lookup: seq<int>, tree: seq<int>, idx: Nodes)
  {
    && |sizes| <= 512 && InRange(idx, lookup, tree) && Injective(idx)
    && AllNodes(sizes, idx) && AllSlots(sizes, i, lookup, tree, idx) && AllLeaves(sizes, i, lookup, tree, idx)
    && (forall x :: 2 * |idx| <= x < |tree| ==> tree[x] == 0)
  }

  ghost predicate AllNodes(sizes: seq<nat>, idx: Nodes)
  {
    forall u :: u in idx ==> NodeOk(sizes, idx, u)
  }

  ghost predicate AllSlots(sizes: seq<nat>, i: nat, lookup: seq<int>, tree: seq<int>, idx: Nodes)
    requires InRange(idx, lookup, tree)
  {
    forall u :: HasSlot(idx, u) ==> SlotOk(sizes, i, lookup, tree, idx, u)
  }

  ghost predicate AllLeaves(sizes: seq<nat>, i: nat, lookup: seq<int>, tree: seq<int>, idx: Nodes)
    requires InRange(idx, lookup, tree)
  {
    forall s: nat :: s < i && Used(sizes, s) ==> LeafOk(sizes, lookup, tree, idx, s)
  }

  // The parts of the invariant, one at a time.

  lemma SlotOf(sizes: seq<nat>, i: nat, lookup: seq<int>, tree: seq<int>, idx: Nodes, u: seq<bool>)
    requires Trie(sizes, i, lookup, tree, idx) && HasSlot(idx, u)
    ensures InRange(idx, lookup, tree) && SlotOk(sizes, i, lookup, tree, idx, u)
  {}

  lemma LeafOf(sizes: seq<nat>, i: nat, lookup: seq<int>, tree: seq<int>, idx: Nodes, s: nat)
    requires Trie(sizes, i, lookup, tree, idx) && s < i && Used(sizes, s)
    ensures InRange(idx, lookup, tree) && LeafOk(sizes, lookup, tree, idx, s)
  {}

  lemma NodeOf(sizes: seq<nat>, i: nat, lookup: seq<int>, tree: seq<int>, idx: Nodes, u: seq<bool>)
    requires Trie(sizes, i, lookup, tree, idx) && u in idx
    ensures InRange(idx, lookup, tree) && NodeOk(sizes, idx, u)
  {}

  // ---------------------------------------------------------------- bit strings and numbers

  /** A code matches the low bits of `x` exactly if the residue of `x` is the reversed code. */
  lemma MatchBits(c: seq<bool>, x: nat, n: nat)
    requires |c| <= n
    ensures c <= ToBits(x, n) <==> x % Pow2(|c|) == FromBits(c)
  {
    hide ToBits, FromBits, Pow2;
    ToBitsPrefix(x, n, |c|);
    FromToBits(x, |c|);
    ToFromBits(c);
    ToBitsMod(x, |c|);
    assert c <= ToBits(x, n) <==> c == ToBits(x, |c|);
  }

  lemma LookupIndex(w: nat)
    ensures FromBits(ToBits(w, FAST_BITS)) == w % FAST_SIZE
  {
    FromToBits(w, FAST_BITS);
    assert Pow2(FAST_BITS) == FAST_SIZE;
  }

  lemma BitOfToBits(w: nat, n: nat, k: nat)
    requires k < n
    ensures ToBits(w, n)[k] == (Bit(w, k) == 1)
  {
    ToBitsPrefix(w, n, k);
    assert ToBits(w, n)[k] == ToBits(w, n)[k..][0];
  }

  /** One bit more. */
  lemma NextBit(w: nat, d: nat)
    ensures var u := ToBits(w, d + 1); u[..d] == ToBits(w, d) && u[d] == (Bit(w, d) == 1)
  {
    ToBitsPrefix(w, d + 1, d);
    BitOfToBits(w, d + 1, d);
  }

  // ---------------------------------------------------------------- the tables decode

  lemma TrieWellFormed(sizes: seq<nat>, i: nat, lookup: seq<int>, tree: seq<int>, idx: Nodes)
    requires Trie(sizes, i, lookup, tree, idx)
    ensures |lookup| == FAST_SIZE && forall x :: 0 <= x < FAST_SIZE ==> lookup[x] >= 0 || IsNode(tree, lookup[x])
  {
    hide Trie, ToBits, FromBits, CodeBits, Pow2, Content;
    LookupEntry(sizes, i, lookup, tree, idx, 0);
    forall x | 0 <= x < FAST_SIZE ensures lookup[x] >= 0 || IsNode(tree, lookup[x]) {
      LookupEntry(sizes, i, lookup, tree, idx, x);
    }
  }

  lemma LookupEntry(sizes: seq<nat>, i: nat, lookup: seq<int>, tree: seq<int>, idx: Nodes, w: nat)
    requires Trie(sizes, i, lookup, tree, idx)
    ensures InRange(idx, lookup, tree)
    ensures var u, v := ToBits(w, FAST_BITS), lookup[w % FAST_SIZE];
      && Content(lookup, tree, idx, u) == v
      && (v < 0 <==> u in idx) && (v < 0 ==> v == Ref(idx[u]) && IsNode(tree, v))
      && (v > 0 ==> exists s: nat :: s < i && Used(sizes, s) && CodeBits(sizes, s) <= u)
  {
    hide ToBits, FromBits, CodeBits, Pow2;
    LookupIndex(w);
    SlotOf(sizes, i, lookup, tree, idx, ToBits(w, FAST_BITS));
  }

  /** From the node of its first `d` bits the walk reaches the symbol at the end of its code. */
  lemma {:induction false} WalkReaches(sizes: seq<nat>, i: nat, lookup: seq<int>, tree: seq<int>, idx: Nodes, s: nat, w: nat, d: nat)
    requires Trie(sizes, i, lookup, tree, idx) && Linked(tree) && s < i && Used(sizes, s)
    requires FAST_BITS <= d < sizes[s] && CodeBits(sizes, s) == ToBits(w, sizes[s])
    requires ToBits(w, d) in idx
    ensures IsNode(tree, Ref(idx[ToBits(w, d)])) && Walk(tree, Ref(idx[ToBits(w, d)]), w, d) == (s, sizes[s])
    decreases sizes[s] - d
  {
    hide ToBits, FromBits, CodeBits, Pow2, Trie, Bit;
    var u, u' := ToBits(w, d), ToBits(w, d + 1);
    NextBit(w, d);
    NodeOf(sizes, i, lookup, tree, idx, u);
    SlotOf(sizes, i, lookup, tree, idx, u');
    LeafOf(sizes, i, lookup, tree, idx, s);
    assert Content(lookup, tree, idx, u') == tree[2 * idx[u] + Bit(w, d)];
    if d + 1 < sizes[s] {
      PrefixNode(sizes, i, lookup, tree, idx, CodeBits(sizes, s), d + 1);
      ToBitsPrefix(w, sizes[s], d + 1);
      WalkReaches(sizes, i, lookup, tree, idx, s, w, d + 1);
    }
  }

  /** Every inner prefix of an entered code is a node. */
  lemma {:induction false} PrefixNode(sizes: seq<nat>, i: nat, lookup: seq<int>, tree: seq<int>, idx: Nodes, c: seq<bool>, d: nat)
    requires Trie(sizes, i, lookup, tree, idx) && FAST_BITS <= d < |c| && HasSlot(idx, c)
    ensures c[..d] in idx
    decreases |c|
  {
    hide Trie;
    var u := c[..|c| - 1];
    if d < |c| - 1 {
      NodeOf(sizes, i, lookup, tree, idx, u);
      PrefixNode(sizes, i, lookup, tree, idx, u, d);
      assert u[..d] == c[..d];
    }
  }

  /** Completed tables decode every code. */
  lemma TrieDecodes(sizes: seq<nat>, lookup: seq<int>, tree: seq<int>, idx: Nodes)
    requires Trie(sizes, |sizes|, lookup, tree, idx) && Linked(tree)
    ensures Decodes(sizes, lookup, tree)
  {
    TrieWellFormed(sizes, |sizes|, lookup, tree, idx);
    SizeLimit(sizes, |sizes|, lookup, tree, idx);
    forall s: nat, w: nat, n: nat | Used(sizes, s) && CodeBits(sizes, s) <= ToBits(w, n)
      ensures Decode(lookup, tree, w) == (s, sizes[s])
    {
      ToBitsPrefix(w, n, sizes[s]);
      DecodeOne(sizes, lookup, tree, idx, s, w);
    }
    forall x | 0 <= x < FAST_SIZE && lookup[x] > 0 ensures Entry(sizes, lookup[x], x) {
      EntryOne(sizes, lookup, tree, idx, x);
    }
  }

  lemma EntryOne(sizes: seq<nat>, lookup: seq<int>, tree: seq<int>, idx: Nodes, x: nat)
    requires Trie(sizes, |sizes|, lookup, tree, idx) && x < FAST_SIZE == |lookup| && lookup[x] > 0
    ensures Entry(sizes, lookup[x], x)
  {
    hide ToBits, FromBits, CodeBits, Pow2, Trie;
    hide Content;
    LookupEntry(sizes, |sizes|, lookup, tree, idx, x);
    SizeLimit(sizes, |sizes|, lookup, tree, idx);
    var u := ToBits(x, FAST_BITS);
    var s: nat :| s < |sizes| && Used(sizes, s) && CodeBits(sizes, s) <= u;
    LeafOf(sizes, |sizes|, lookup, tree, idx, s);
    assert Content(lookup, tree, idx, u) == 512 * sizes[s] + s;
  }

  lemma DecodeOneWell(lookup: seq<int>, tree: seq<int>)
    requires WellFormed(lookup, tree)
    ensures |lookup| == FAST_SIZE && Linked(tree)
  {}

  lemma DecodeOne(sizes: seq<nat>, lookup: seq<int>, tree: seq<int>, idx: Nodes, s: nat, w: nat)
    requires Trie(sizes, |sizes|, lookup, tree, idx) && WellFormed(lookup, tree)
    requires Used(sizes, s) && CodeBits(sizes, s) == ToBits(w, sizes[s])
    ensures Decode(lookup, tree, w) == (s, sizes[s])
  {
    hide ToBits, FromBits, CodeBits, Pow2, Trie, WellFormed, Walk, Linked;
    DecodeOneWell(lookup, tree);
    SizeLimit(sizes, |sizes|, lookup, tree, idx);
    if sizes[s] <= FAST_BITS {
      ShortEntry(sizes, lookup, tree, idx, s, w);
    } else {
      LongEntry(sizes, lookup, tree, idx, s, w);
    }
  }

  lemma ShortEntry(sizes: seq<nat>, lookup: seq<int>, tree: seq<int>, idx: Nodes, s: nat, w: nat)
    requires Trie(sizes, |sizes|, lookup, tree, idx) && |lookup| == FAST_SIZE
    requires Used(sizes, s) && CodeBits(sizes, s) == ToBits(w, sizes[s]) && sizes[s] <= FAST_BITS
    ensures lookup[w % FAST_SIZE] == 512 * sizes[s] + s
  {
    hide ToBits, FromBits, CodeBits, Pow2, Trie, Content;
    var u := ToBits(w, FAST_BITS);
    LookupEntry(sizes, |sizes|, lookup, tree, idx, w);
    LeafOf(sizes, |sizes|, lookup, tree, idx, s);
    ToBitsPrefix(w, FAST_BITS, sizes[s]);
    assert CodeBits(sizes, s) <= u;
  }

  lemma LongEntry(sizes: seq<nat>, lookup: seq<int>, tree: seq<int>, idx: Nodes, s: nat, w: nat)
    requires Trie(sizes, |sizes|, lookup, tree, idx) && |lookup| == FAST_SIZE && Linked(tree)
    requires Used(sizes, s) && CodeBits(sizes, s) == ToBits(w, sizes[s]) && sizes[s] > FAST_BITS
    ensures lookup[w % FAST_SIZE] < 0 && IsNode(tree, lookup[w % FAST_SIZE])
    ensures Walk(tree, lookup[w % FAST_SIZE], w, FAST_BITS) == (s, sizes[s])
  {
    hide ToBits, FromBits, CodeBits, Pow2, Trie, Content, Walk, Linked;
    LookupEntry(sizes, |sizes|, lookup, tree, idx, w);
    LeafOf(sizes, |sizes|, lookup, tree, idx, s);
    PrefixNode(sizes, |sizes|, lookup, tree, idx, CodeBits(sizes, s), FAST_BITS);
    ToBitsPrefix(w, sizes[s], FAST_BITS);
    WalkReaches(sizes, |sizes|, lookup, tree, idx, s, w, FAST_BITS);
  }

  lemma SizeLimit(sizes: seq<nat>, i: nat, lookup: seq<int>, tree: seq<int>, idx: Nodes)
    requires Trie(sizes, i, lookup, tree, idx)
    ensures |sizes| <= 512
  {}

  // ---------------------------------------------------------------- entering nodes and symbols

  lemma OtherTreeSlot(idx: Nodes, u: seq<bool>, v: seq<bool>)
    requires Injective(idx) && |u| > FAST_BITS && |v| > FAST_BITS && HasSlot(idx, u) && HasSlot(idx, v) && u != v
    ensures TreeSlot(idx, u) != TreeSlot(idx, v)
  {
    var a, b := u[..|u| - 1], v[..|v| - 1];
    assert u == a + [u[|u| - 1]] && v == b + [v[|v| - 1]];
  }

  lemma TenBits(u: seq<bool>)
    requires |u| == FAST_BITS
    ensures FromBits(u) < FAST_SIZE && ToBits(FromBits(u), FAST_BITS) == u
  {
    FromBitsBound(u);
    ToFromBits(u);
    assert Pow2(FAST_BITS) == FAST_SIZE;
  }

  /** Storing `x` in the slot that the bits `u` lead to. */
  function Put(lookup: seq<int>, tree: seq<int>, idx: Nodes, u: seq<bool>, x: int): (r: (seq<int>, seq<int>))
    requires InRange(idx, lookup, tree) && HasSlot(idx, u)
    ensures InRange(idx, r.0, r.1)
  {
    if |u| == FAST_BITS then
      FromBitsBound(u); assert Pow2(FAST_BITS) == FAST_SIZE;
      (lookup[FromBits(u) := x], tree)
    else
      assert idx[u[..|u| - 1]] < |idx|;
      (lookup, tree[TreeSlot(idx, u) := x])
  }

  lemma PutContent(lookup: seq<int>, tree: seq<int>, idx: Nodes, u: seq<bool>, x: int, v: seq<bool>)
    requires InRange(idx, lookup, tree) && Injective(idx) && HasSlot(idx, u) && HasSlot(idx, v)
    ensures var (l, t) := Put(lookup, tree, idx, u, x);
      Content(l, t, idx, v) == if v == u then x else Content(lookup, tree, idx, v)
  {
    hide FromBits, Pow2;
    if |u| == FAST_BITS { TenBits(u); }
    if |v| == FAST_BITS { TenBits(v); }
    if v != u && |u| > FAST_BITS && |v| > FAST_BITS {
      OtherTreeSlot(idx, u, v);
    }
  }

  /** A new node keeps every other slot; its own two slots are empty. */
  lemma GrownContent(lookup: seq<int>, tree: seq<int>, idx: Nodes, u: seq<bool>, v: seq<bool>)
    requires InRange(idx, lookup, tree) && u !in idx && 2 * |idx| + 2 <= |tree|
    requires forall x :: 2 * |idx| <= x < |tree| ==> tree[x] == 0
    requires HasSlot(idx[u := |idx|], v)
    ensures |idx[u := |idx|]| == |idx| + 1 && InRange(idx[u := |idx|], lookup, tree)
    ensures Content(lookup, tree, idx[u := |idx|], v) == if HasSlot(idx, v) then Content(lookup, tree, idx, v) else 0
  {
    var idx' := idx[u := |idx|];
    assert idx'.Keys == idx.Keys + {u};
    assert |idx'| == |idx'.Keys| && |idx| == |idx.Keys|;
  }

  ghost predicate TreeRoom(sizes: seq<nat>, n: nat)
  {
    forall keys: set<seq<bool>> ::
      (forall u :: u in keys ==> FAST_BITS <= |u| < MAX_LEN && Inner(sizes, u)) ==> 2 * |keys| <= n
  }

  lemma NodeFits(sizes: seq<nat>, i: nat, lookup: seq<int>, tree: seq<int>, idx: Nodes, u: seq<bool>)
    requires Trie(sizes, i, lookup, tree, idx) && TreeRoom(sizes, |tree|)
    requires u !in idx && FAST_BITS <= |u| < MAX_LEN && Inner(sizes, u)
    ensures 2 * |idx| + 2 <= |tree|
  {
    hide Inner, InRange, SlotOk, LeafOk, HasSlot;
    var keys := idx.Keys + {u};
    assert |keys| == |idx| + 1 by { assert |idx| == |idx.Keys|; }
    forall v | v in keys ensures FAST_BITS <= |v| < MAX_LEN && Inner(sizes, v) {
      if v in idx { NodeOf(sizes, i, lookup, tree, idx, v); }
    }
  }

  /** Entering a node at an empty slot. */
  lemma AddNode(sizes: seq<nat>, i: nat, lookup: seq<int>, tree: seq<int>, idx: Nodes, u: seq<bool>)
    requires Trie(sizes, i, lookup, tree, idx) && PrefixCode(sizes)
    requires FAST_BITS <= |u| < MAX_LEN && HasSlot(idx, u) && Inner(sizes, u) && 2 * |idx| + 2 <= |tree|
    requires Content(lookup, tree, idx, u) == 0
    ensures u !in idx
    ensures var (l, t) := Put(lookup, tree, idx, u, Ref(|idx|)); Trie(sizes, i, l, t, idx[u := |idx|])
  {
    hide FromBits, Pow2, CodeBits, Content, Put, TreeSlot, AllNodes, AllSlots, AllLeaves, Inner;
    var k := |idx|;
    var (l, t) := Put(lookup, tree, idx, u, Ref(k));
    FreshNode(sizes, i, lookup, tree, idx, u);
    PutSize(lookup, tree, idx, u, Ref(k));
    OneMoreNode(sizes, i, lookup, tree, idx, u);
    AddNodeSlots(sizes, i, lookup, tree, idx, u);
  }

  lemma OneMoreNode(sizes: seq<nat>, i: nat, lookup: seq<int>, tree: seq<int>, idx: Nodes, u: seq<bool>)
    requires InRange(idx, lookup, tree) && Injective(idx) && AllNodes(sizes, idx)
    requires u !in idx && NodeOk(sizes, idx, u) && 2 * |idx| + 2 <= |tree|
    ensures var idx' := idx[u := |idx|];
      |idx'| == |idx| + 1 && InRange(idx', lookup, tree) && Injective(idx') && AllNodes(sizes, idx')
  {
    hide Inner, CodeBits, Injective, InRange, NodeOk;
    var idx' := idx[u := |idx|];
    OneMoreKey(idx, u, |idx|);
    OneMoreInRange(idx, lookup, tree, u);
    forall v | v in idx' ensures NodeOk(sizes, idx', v) {
      assert v != u ==> NodeOk(sizes, idx, v);
      NodeStays(sizes, idx, v, u, |idx|);
    }
  }

  lemma NodeStays(sizes: seq<nat>, idx: Nodes, v: seq<bool>, u: seq<bool>, k: nat)
    requires NodeOk(sizes, idx, v)
    ensures NodeOk(sizes, idx[u := k], v)
  {
    hide Inner;
  }

  lemma OneMoreKey(idx: Nodes, u: seq<bool>, k: nat)
    requires u !in idx
    ensures |idx[u := k]| == |idx| + 1
  {
    var idx' := idx[u := k];
    assert idx'.Keys == idx.Keys + {u};
    assert |idx'| == |idx'.Keys| && |idx| == |idx.Keys|;
  }

  lemma OneMoreInRange(idx: Nodes, lookup: seq<int>, tree: seq<int>, u: seq<bool>)
    requires InRange(idx, lookup, tree) && Injective(idx) && u !in idx && 2 * |idx| + 2 <= |tree|
    ensures InRange(idx[u := |idx|], lookup, tree) && Injective(idx[u := |idx|])
  {
    OneMoreKey(idx, u, |idx|);
  }

  lemma AddNodeSlots(sizes: seq<nat>, i: nat, lookup: seq<int>, tree: seq<int>, idx: Nodes, u: seq<bool>)
    requires Trie(sizes, i, lookup, tree, idx) && PrefixCode(sizes) && u !in idx
    requires FAST_BITS <= |u| < MAX_LEN && HasSlot(idx, u) && Inner(sizes, u) && 2 * |idx| + 2 <= |tree|
    requires Content(lookup, tree, idx, u) == 0
    ensures var (l, t) := Put(lookup, tree, idx, u, Ref(|idx|)); var idx' := idx[u := |idx|];
      InRange(idx', l, t) && AllSlots(sizes, i, l, t, idx') && AllLeaves(sizes, i, l, t, idx')
  {
    hide FromBits, Pow2, CodeBits, Content, Put, TreeSlot, Trie, SlotOk, LeafOk, Inner;
    SlotOf(sizes, i, lookup, tree, idx, u);
    var (l, t) := Put(lookup, tree, idx, u, Ref(|idx|));
    var idx' := idx[u := |idx|];
    AddNodeSlot(sizes, i, lookup, tree, idx, u, u);
    forall v | HasSlot(idx', v) ensures SlotOk(sizes, i, l, t, idx', v) {
      AddNodeSlot(sizes, i, lookup, tree, idx, u, v);
    }
    forall s: nat | s < i && Used(sizes, s) ensures LeafOk(sizes, l, t, idx', s) {
      AddNodeLeaf(sizes, i, lookup, tree, idx, u, s);
    }
  }

  lemma FreshNode(sizes: seq<nat>, i: nat, lookup: seq<int>, tree: seq<int>, idx: Nodes, u: seq<bool>)
    requires Trie(sizes, i, lookup, tree, idx) && HasSlot(idx, u) && Content(lookup, tree, idx, u) == 0
    ensures u !in idx
  {
    hide Content;
    SlotOf(sizes, i, lookup, tree, idx, u);
  }

  lemma PutSize(lookup: seq<int>, tree: seq<int>, idx: Nodes, u: seq<bool>, x: int)
    requires InRange(idx, lookup, tree) && HasSlot(idx, u)
    ensures var (l, t) := Put(lookup, tree, idx, u, x);
      |l| == |lookup| && |t| == |tree| && forall y :: 2 * |idx| <= y < |t| ==> t[y] == tree[y]
  {
    if |u| > FAST_BITS { assert idx[u[..|u| - 1]] < |idx|; }
  }

  lemma AddNodeSlot(sizes: seq<nat>, i: nat, lookup: seq<int>, tree: seq<int>, idx: Nodes, u: seq<bool>, v: seq<bool>)
    requires Trie(sizes, i, lookup, tree, idx) && u !in idx
    requires FAST_BITS <= |u| && HasSlot(idx, u) && 2 * |idx| + 2 <= |tree|
    requires HasSlot(idx[u := |idx|], v)
    ensures var (l, t) := Put(lookup, tree, idx, u, Ref(|idx|));
      InRange(idx[u := |idx|], l, t) && SlotOk(sizes, i, l, t, idx[u := |idx|], v)
  {
    hide FromBits, Pow2, CodeBits, Content, Put, TreeSlot;
    var (l, t) := Put(lookup, tree, idx, u, Ref(|idx|));
    PutSize(lookup, tree, idx, u, Ref(|idx|));
    GrownContent(l, t, idx, u, v);
    if HasSlot(idx, v) {
      PutContent(lookup, tree, idx, u, Ref(|idx|), v);
      SlotOf(sizes, i, lookup, tree, idx, v);
    } else if v in idx {
      NodeOf(sizes, i, lookup, tree, idx, v);
    }
  }

  lemma AddNodeLeaf(sizes: seq<nat>, i: nat, lookup: seq<int>, tree: seq<int>, idx: Nodes, u: seq<bool>, s: nat)
    requires Trie(sizes, i, lookup, tree, idx) && u !in idx && PrefixCode(sizes)
    requires FAST_BITS <= |u| && HasSlot(idx, u) && Inner(sizes, u) && 2 * |idx| + 2 <= |tree|
    requires Content(lookup, tree, idx, u) == 0 && s < i && Used(sizes, s)
    ensures var (l, t) := Put(lookup, tree, idx, u, Ref(|idx|));
      InRange(idx[u := |idx|], l, t) && LeafOk(sizes, l, t, idx[u := |idx|], s)
  {
    hide FromBits, Pow2, CodeBits, Content, Put, TreeSlot;
    var (l, t) := Put(lookup, tree, idx, u, Ref(|idx|));
    var idx', c := idx[u := |idx|], CodeBits(sizes, s);
    PutSize(lookup, tree, idx, u, Ref(|idx|));
    LeafOf(sizes, i, lookup, tree, idx, s);
    GrownContent(l, t, idx, u, u);
    if |c| <= FAST_BITS {
      forall v: seq<bool> | |v| == FAST_BITS && c <= v ensures Content(l, t, idx', v) == 512 * |c| + s {
        assert HasSlot(idx, v) && HasSlot(idx', v);
        PutContent(lookup, tree, idx, u, Ref(|idx|), v);
        GrownContent(l, t, idx, u, v);
      }
    } else {
      if c == u { assert false; }
      PutContent(lookup, tree, idx, u, Ref(|idx|), c);
      GrownContent(l, t, idx, u, c);
    }
  }

  lemma NotInner(sizes: seq<nat>, i: nat, lookup: seq<int>, tree: seq<int>, idx: Nodes, s: nat, u: seq<bool>)
    requires Trie(sizes, i, lookup, tree, idx) && PrefixCode(sizes) && Used(sizes, s) && CodeBits(sizes, s) <= u
    ensures u !in idx
  {
    hide CodeBits, Trie;
    if u in idx {
      NodeOf(sizes, i, lookup, tree, idx, u);
      InnerNotCode(sizes, s, u);
    }
  }

  lemma InnerNotCode(sizes: seq<nat>, s: nat, u: seq<bool>)
    requires PrefixCode(sizes) && Used(sizes, s) && CodeBits(sizes, s) <= u
    ensures !Inner(sizes, u)
  {
    hide CodeBits;
    forall t: nat | Used(sizes, t) && |u| < sizes[t] ensures !(u <= CodeBits(sizes, t)) {
      PrefixChain(CodeBits(sizes, s), u, CodeBits(sizes, t));
    }
  }

  lemma PrefixChain(a: seq<bool>, u: seq<bool>, b: seq<bool>)
    requires a <= u
    ensures u <= b ==> a <= b
  {}

  /** Two symbols whose codes both start `u` are the same. */
  lemma SameSymbol(sizes: seq<nat>, s: nat, t: nat, u: seq<bool>)
    requires PrefixCode(sizes) && Used(sizes, s) && Used(sizes, t)
    requires CodeBits(sizes, s) <= u && CodeBits(sizes, t) <= u
    ensures s == t
  {
    hide CodeBits;
    if |CodeBits(sizes, s)| <= |CodeBits(sizes, t)| {
      assert CodeBits(sizes, s) <= CodeBits(sizes, t);
    } else {
      assert CodeBits(sizes, t) <= CodeBits(sizes, s);
    }
  }

  /** Entering a symbol whose code ends in the tree. */
  lemma AddLong(sizes: seq<nat>, i: nat, lookup: seq<int>, tree: seq<int>, idx: Nodes)
    requires Trie(sizes, i, lookup, tree, idx) && PrefixCode(sizes) && Used(sizes, i) && sizes[i] > FAST_BITS
    requires HasSlot(idx, CodeBits(sizes, i))
    ensures var (l, t) := Put(lookup, tree, idx, CodeBits(sizes, i), i); Trie(sizes, i + 1, l, t, idx)
  {
    hide FromBits, Pow2, CodeBits, Content, Put, TreeSlot, Inner;
    var c := CodeBits(sizes, i);
    var (l, t) := Put(lookup, tree, idx, c, i);
    PutSize(lookup, tree, idx, c, i);
    forall v | HasSlot(idx, v) ensures SlotOk(sizes, i + 1, l, t, idx, v) {
      PutContent(lookup, tree, idx, c, i, v);
      SlotOf(sizes, i, lookup, tree, idx, v);
      if v == c { NotInner(sizes, i, lookup, tree, idx, i, c); }
    }
    forall s: nat | s < i + 1 && Used(sizes, s) ensures LeafOk(sizes, l, t, idx, s) {
      AddLongLeaf(sizes, i, lookup, tree, idx, s);
    }
  }

  lemma AddLongLeaf(sizes: seq<nat>, i: nat, lookup: seq<int>, tree: seq<int>, idx: Nodes, s: nat)
    requires Trie(sizes, i, lookup, tree, idx) && PrefixCode(sizes) && Used(sizes, i) && sizes[i] > FAST_BITS
    requires HasSlot(idx, CodeBits(sizes, i)) && s <= i && Used(sizes, s)
    ensures var (l, t) := Put(lookup, tree, idx, CodeBits(sizes, i), i); LeafOk(sizes, l, t, idx, s)
  {
    hide FromBits, Pow2, CodeBits, Content, Put, TreeSlot, Inner;
    var c, e := CodeBits(sizes, i), CodeBits(sizes, s);
    var (l, t) := Put(lookup, tree, idx, c, i);
    if s < i { LeafOf(sizes, i, lookup, tree, idx, s); }
    if |e| <= FAST_BITS {
      forall v: seq<bool> | |v| == FAST_BITS && e <= v ensures Content(l, t, idx, v) == 512 * |e| + s {
        PutContent(lookup, tree, idx, c, i, v);
      }
    } else {
      PutContent(lookup, tree, idx, c, i, e);
    }
  }

  /** `l` is `lookup` with symbol `i` in every entry that starts with its code. */
  ghost predicate Painted(sizes: seq<nat>, i: nat, lookup: seq<int>, l: seq<int>)
    requires Used(sizes, i)
  {
    && |l| == |lookup| == FAST_SIZE
    && forall x :: 0 <= x < FAST_SIZE ==> l[x] == (if CodeBits(sizes, i) <= ToBits(x, FAST_BITS) then 512 * sizes[i] + i else lookup[x])
  }

  lemma PaintedContent(sizes: seq<nat>, i: nat, lookup: seq<int>, l: seq<int>, tree: seq<int>, idx: Nodes, v: seq<bool>)
    requires Used(sizes, i) && Painted(sizes, i, lookup, l) && InRange(idx, lookup, tree) && HasSlot(idx, v)
    ensures InRange(idx, l, tree)
    ensures Content(l, tree, idx, v) ==
      if |v| == FAST_BITS && CodeBits(sizes, i) <= v then 512 * sizes[i] + i else Content(lookup, tree, idx, v)
  {
    hide FromBits, Pow2, CodeBits, ToBits;
    if |v| == FAST_BITS { TenBits(v); }
  }

  /** Entering a symbol with a short code. */
  lemma AddShort(sizes: seq<nat>, i: nat, lookup: seq<int>, l: seq<int>, tree: seq<int>, idx: Nodes)
    requires Trie(sizes, i, lookup, tree, idx) && PrefixCode(sizes) && Used(sizes, i) && sizes[i] <= FAST_BITS
    requires Painted(sizes, i, lookup, l)
    ensures Trie(sizes, i + 1, l, tree, idx)
  {
    hide FromBits, Pow2, CodeBits, Content, TreeSlot, Inner, Painted;
    var c := CodeBits(sizes, i);
    PaintedSize(sizes, i, lookup, l);
    forall v | HasSlot(idx, v) ensures SlotOk(sizes, i + 1, l, tree, idx, v) {
      PaintedContent(sizes, i, lookup, l, tree, idx, v);
      SlotOf(sizes, i, lookup, tree, idx, v);
      if |v| == FAST_BITS && c <= v { NotInner(sizes, i, lookup, tree, idx, i, v); }
    }
    forall s: nat | s < i + 1 && Used(sizes, s) ensures LeafOk(sizes, l, tree, idx, s) {
      AddShortLeaf(sizes, i, lookup, l, tree, idx, s);
    }
  }

  lemma PaintedSize(sizes: seq<nat>, i: nat, lookup: seq<int>, l: seq<int>)
    requires Used(sizes, i) && Painted(sizes, i, lookup, l)
    ensures |l| == |lookup|
  {}

  lemma AddShortLeaf(sizes: seq<nat>, i: nat, lookup: seq<int>, l: seq<int>, tree: seq<int>, idx: Nodes, s: nat)
    requires Trie(sizes, i, lookup, tree, idx) && PrefixCode(sizes) && Used(sizes, i) && sizes[i] <= FAST_BITS
    requires Painted(sizes, i, lookup, l) && InRange(idx, l, tree) && s <= i && Used(sizes, s)
    ensures LeafOk(sizes, l, tree, idx, s)
  {
    hide FromBits, Pow2, CodeBits, Content, TreeSlot, Inner, Painted;
    var c, e := CodeBits(sizes, i), CodeBits(sizes, s);
    if s < i { LeafOf(sizes, i, lookup, tree, idx, s); }
    if |e| <= FAST_BITS {
      forall v: seq<bool> | |v| == FAST_BITS && e <= v ensures Content(l, tree, idx, v) == 512 * |e| + s {
        PaintedContent(sizes, i, lookup, l, tree, idx, v);
        if c <= v { SameSymbol(sizes, i, s, v); }
      }
    } else {
      PaintedContent(sizes, i, lookup, l, tree, idx, e);
    }
  }

  lemma SkipUnused(sizes: seq<nat>, i: nat, lookup: seq<int>, tree: seq<int>, idx: Nodes)
    requires Trie(sizes, i, lookup, tree, idx) && !Used(sizes, i)
    ensures Trie(sizes, i + 1, lookup, tree, idx)
  {
    hide FromBits, Pow2, CodeBits, Content, TreeSlot, Inner;
    forall v | HasSlot(idx, v) ensures SlotOk(sizes, i + 1, lookup, tree, idx, v) {
      SlotOf(sizes, i, lookup, tree, idx, v);
    }
    forall s: nat | s < i + 1 && Used(sizes, s) ensures LeafOk(sizes, lookup, tree, idx, s) {
      LeafOf(sizes, i, lookup, tree, idx, s);
    }
  }

  lemma EmptyTrie(sizes: seq<nat>, lookup: seq<int>, tree: seq<int>)
    requires |sizes| <= 512 && |lookup| == FAST_SIZE
    requires (forall x :: 0 <= x < |lookup| ==> lookup[x] == 0) && (forall x :: 0 <= x < |tree| ==> tree[x] == 0)
    ensures Trie(sizes, 0, lookup, tree, map[])
  {
    var idx: Nodes := map[];
    forall v | HasSlot(idx, v) ensures SlotOk(sizes, 0, lookup, tree, idx, v) {
      TenBits(v);
    }
  }

  // ---------------------------------------------------------------- how many nodes there are

  /** The bit strings of length `d` with values from `EndCode` up to but not including `n`. */
  function InnerSet(sizes: seq<nat>, d: nat, n: nat): (r: set<seq<bool>>)
    ensures |r| <= if n <= EndCode(sizes, d) then 0 else n - EndCode(sizes, d)
    decreases n
  {
    if n <= EndCode(sizes, d) then {} else InnerSet(sizes, d, n - 1) + {BigEndian(n - 1, d)}
  }

  lemma {:induction false} InnerSetHas(sizes: seq<nat>, d: nat, n: nat, v: nat)
    requires EndCode(sizes, d) <= v < n
    ensures BigEndian(v, d) in InnerSet(sizes, d, n)
  {
    if v < n - 1 { InnerSetHas(sizes, d, n - 1, v); }
  }

  lemma InnerIsHigh(sizes: seq<nat>, u: seq<bool>)
    requires Roomy(sizes) && Inner(sizes, u) && 1 <= |u|
    ensures u in InnerSet(sizes, |u|, Pow2(|u|))
  {
    hide EndCode, FirstCode, Code, InnerSet, Pow2, BigEndian, Shr;
    var t: nat :| Used(sizes, t) && |u| < sizes[t] && u <= CodeBits(sizes, t);
    var d, m := |u|, sizes[t];
    LongerCode(sizes, t, d);
    BigEndianSplit(Code(sizes, t), m, m - d);
    assert u == CodeBits(sizes, t)[..d] == BigEndian(Shr(Code(sizes, t), m - d), d);
    InnerSetHas(sizes, d, Pow2(d), Shr(Code(sizes, t), m - d));
  }

  lemma {:induction false} LongCounts(sizes: seq<nat>)
    ensures CountLen(sizes, 11) + CountLen(sizes, 12) + CountLen(sizes, 13) + CountLen(sizes, 14) + CountLen(sizes, 15) <= |sizes|
  {
    if sizes != [] { LongCounts(sizes[..|sizes| - 1]); }
  }

  lemma SubsetSize(a: set<seq<bool>>, b: set<seq<bool>>)
    requires a <= b
    ensures |a| <= |b|
  {
    if a != {} {
      var x :| x in a;
      SubsetSize(a - {x}, b - {x});
    }
  }

  function InnerAll(sizes: seq<nat>): set<seq<bool>>
  {
    InnerSet(sizes, 10, Pow2(10)) + InnerSet(sizes, 11, Pow2(11)) + InnerSet(sizes, 12, Pow2(12))
    + InnerSet(sizes, 13, Pow2(13)) + InnerSet(sizes, 14, Pow2(14))
  }

  lemma InnerAllSize(sizes: seq<nat>)
    requires Full(sizes)
    ensures |InnerAll(sizes)| <= |sizes|
  {
    hide InnerSet, CountLen, EndCode, FirstCode, Pow2, Roomy;
    LevelSize(sizes, 10);
    LevelSize(sizes, 11);
    LevelSize(sizes, 12);
    LevelSize(sizes, 13);
    LevelSize(sizes, 14);
    LongCounts(sizes);
    UnionSize(InnerSet(sizes, 10, Pow2(10)), InnerSet(sizes, 11, Pow2(11)), InnerSet(sizes, 12, Pow2(12)),
              InnerSet(sizes, 13, Pow2(13)), InnerSet(sizes, 14, Pow2(14)));
    FiveLevels(Pow2(10) - EndCode(sizes, 10), Pow2(11) - EndCode(sizes, 11), Pow2(12) - EndCode(sizes, 12),
               Pow2(13) - EndCode(sizes, 13), Pow2(14) - EndCode(sizes, 14), Pow2(15) - EndCode(sizes, 15),
               CountLen(sizes, 11), CountLen(sizes, 12), CountLen(sizes, 13), CountLen(sizes, 14), CountLen(sizes, 15));
  }

  lemma LevelSize(sizes: seq<nat>, d: nat)
    requires Full(sizes) && 1 <= d < MAX_LEN
    ensures 0 <= Pow2(d) - EndCode(sizes, d) && |InnerSet(sizes, d, Pow2(d))| <= Pow2(d) - EndCode(sizes, d)
    ensures 2 * (Pow2(d) - EndCode(sizes, d)) == (Pow2(d + 1) - EndCode(sizes, d + 1)) + CountLen(sizes, d + 1)
  {
    hide InnerSet, CountLen, EndCode, FirstCode, Pow2;
    EndFits(sizes, d);
    NodesPerLevel(sizes, d);
  }

  lemma FiveLevels(a: int, b: int, c: int, d: int, e: int, f: int, b': int, c': int, d': int, e': int, f': int)
    requires 2 * a == b + b' && 2 * b == c + c' && 2 * c == d + d' && 2 * d == e + e' && 2 * e == f + f' && f == 0
    requires a >= 0
    ensures a + b + c + d + e <= b' + c' + d' + e' + f'
  {}

  lemma UnionSize(a: set<seq<bool>>, b: set<seq<bool>>, c: set<seq<bool>>, d: set<seq<bool>>, e: set<seq<bool>>)
    ensures |a + b + c + d + e| <= |a| + |b| + |c| + |d| + |e|
  {}

  /** Two slots per node: they hold the nodes and the codes of the next level. */
  lemma NodesPerLevel(sizes: seq<nat>, d: nat)
    requires 1 <= d
    ensures 2 * (Pow2(d) - EndCode(sizes, d)) == (Pow2(d + 1) - EndCode(sizes, d + 1)) + CountLen(sizes, d + 1)
  {}

  lemma InnerInAll(sizes: seq<nat>, u: seq<bool>)
    requires Full(sizes) && Inner(sizes, u) && FAST_BITS <= |u| < MAX_LEN
    ensures u in InnerAll(sizes)
  {
    hide Inner, InnerSet, Pow2, EndCode;
    InnerIsHigh(sizes, u);
  }

  /** A complete code needs at most one node per symbol. */
  lemma FullTreeRoom(sizes: seq<nat>, n: nat)
    requires Full(sizes) && n >= 2 * |sizes|
    ensures TreeRoom(sizes, n)
  {
    hide Inner, InnerAll, Pow2, EndCode;
    InnerAllSize(sizes);
    forall keys: set<seq<bool>> | forall u :: u in keys ==> FAST_BITS <= |u| < MAX_LEN && Inner(sizes, u)
      ensures 2 * |keys| <= n
    {
      forall u | u in keys ensures u in InnerAll(sizes) {
        InnerInAll(sizes, u);
      }
      SubsetSize(keys, InnerAll(sizes));
    }
  }

  /** Number of symbols that have a code. */
  function NumUsed(sizes: seq<nat>): nat
  {
    if sizes == [] then 0 else
      NumUsed(sizes[..|sizes| - 1]) + if sizes[|sizes| - 1] != 0 then 1 else 0
  }

  lemma {:induction false} UsedIsCounted(sizes: seq<nat>, s: nat)
    requires s < |sizes| && sizes[s] != 0
    ensures NumUsed(sizes) >= 1
  {
    if s < |sizes| - 1 { UsedIsCounted(sizes[..|sizes| - 1], s); }
  }

  lemma {:induction false} AtMostOneUsed(sizes: seq<nat>, s: nat, t: nat)
    requires NumUsed(sizes) <= 1 && s < |sizes| && t < |sizes| && sizes[s] != 0 && sizes[t] != 0
    ensures s == t
  {
    var last := |sizes| - 1;
    if s < last && t < last {
      AtMostOneUsed(sizes[..last], s, t);
    } else if s < last {
      UsedIsCounted(sizes[..last], s);
    } else if t < last {
      UsedIsCounted(sizes[..last], t);
    }
  }

  /** The prefixes of `c` of length ten and, in all, `n` lengths. */
  function PrefixSet(c: seq<bool>, n: nat): (r: set<seq<bool>>)
    ensures |r| <= n
  {
    if n == 0 then {} else
      PrefixSet(c, n - 1) + if FAST_BITS + n - 1 <= |c| then {c[..FAST_BITS + n - 1]} else {}
  }

  lemma PrefixSetNext(c: seq<bool>, n: nat)
    requires n > 0
    ensures PrefixSet(c, n - 1) <= PrefixSet(c, n) && (FAST_BITS + n - 1 <= |c| ==> c[..FAST_BITS + n - 1] in PrefixSet(c, n))
  {}

  lemma {:induction false} PrefixSetHas(c: seq<bool>, n: nat, u: seq<bool>)
    requires FAST_BITS <= |u| < FAST_BITS + n && u <= c
    ensures u in PrefixSet(c, n)
  {
    hide PrefixSet;
    assert u == c[..|u|];
    PrefixSetNext(c, n);
    if |u| < FAST_BITS + n - 1 { PrefixSetHas(c, n - 1, u); }
  }

  lemma FewTreeRoom(sizes: seq<nat>, n: nat)
    requires NumUsed(sizes) <= 1 && n >= 10
    ensures TreeRoom(sizes, n)
  {
    hide NumUsed, CodeBits, PrefixSet;
    forall keys: set<seq<bool>> | forall u :: u in keys ==> FAST_BITS <= |u| < MAX_LEN && Inner(sizes, u)
      ensures 2 * |keys| <= n
    {
      if keys != {} {
        var v :| v in keys;
        var s: nat :| Used(sizes, s) && |v| < sizes[s] && v <= CodeBits(sizes, s);
        forall u | u in keys ensures u in PrefixSet(CodeBits(sizes, s), 5) {
          var t: nat :| Used(sizes, t) && |u| < sizes[t] && u <= CodeBits(sizes, t);
          AtMostOneUsed(sizes, s, t);
          PrefixSetHas(CodeBits(sizes, s), 5, u);
        }
        SubsetSize(keys, PrefixSet(CodeBits(sizes, s), 5));
      }
    }
  }

  // ---------------------------------------------------------------- the code

  function SumCounts(sizes: seq<nat>, hi: nat): nat
  {
    if hi == 0 then 0 else SumCounts(sizes, hi - 1) + CountLen(sizes, hi)
  }

  lemma {:induction false} SumCountsStep(sizes: seq<nat>, hi: nat)
    requires sizes != []
    ensures var last := sizes[|sizes| - 1];
      SumCounts(sizes, hi) == SumCounts(sizes[..|sizes| - 1], hi) + if 1 <= last <= hi then 1 else 0
  {
    if hi > 0 { SumCountsStep(sizes, hi - 1); }
  }

  lemma {:induction false} SumCountsEmpty(hi: nat)
    ensures SumCounts([], hi) == 0
  {
    if hi > 0 { SumCountsEmpty(hi - 1); }
  }

  lemma {:induction false} SumCountsIsUsed(sizes: seq<nat>)
    requires ValidSizes(sizes)
    ensures SumCounts(sizes, MAX_LEN) == NumUsed(sizes)
  {
    if sizes == [] {
      SumCountsEmpty(MAX_LEN);
    } else {
      SumCountsIsUsed(sizes[..|sizes| - 1]);
      SumCountsStep(sizes, MAX_LEN);
    }
  }

  method CountSizes(codeSize: array<nat>, n: nat) returns (totalSyms: array<nat>)
    requires n <= codeSize.Length && ValidSizes(codeSize[..n])
    ensures fresh(totalSyms) && totalSyms.Length == 16
    ensures forall l :: 0 <= l < 16 ==> totalSyms[l] == CountLen(codeSize[..n], l)
  {
    totalSyms := new nat[16](_ => 0);
    for i := 0 to n
      invariant forall l :: 0 <= l < 16 ==> totalSyms[l] == CountLen(codeSize[..i], l)
    {
      assert codeSize[..i + 1][..i] == codeSize[..i];
      assert codeSize[..n][i] <= MAX_LEN;
      totalSyms[codeSize[i]] := totalSyms[codeSize[i]] + 1;
    }
  }

  /** First codes by length, the number of codes, and twice the end of the code space. */
  method NextCodes(totalSyms: array<nat>, ghost sizes: seq<nat>) returns (nextCode: array<nat>, usedSyms: nat, total: nat)
    requires totalSyms.Length == 16 && forall l :: 0 <= l < 16 ==> totalSyms[l] == CountLen(sizes, l)
    ensures fresh(nextCode) && nextCode.Length == 17
    ensures forall l :: 1 <= l < 16 ==> nextCode[l] == FirstCode(sizes, l)
    ensures usedSyms == SumCounts(sizes, MAX_LEN) && total == 2 * EndCode(sizes, MAX_LEN)
  {
    hide CountLen, FirstCode, EndCode, SumCounts;
    CountingStarts(sizes);
    nextCode := new nat[17];
    nextCode[0], nextCode[1] := 0, 0;
    usedSyms, total := 0, 0;
    for i := 1 to 16
      invariant usedSyms == SumCounts(sizes, i - 1) && total == FirstCode(sizes, i)
      invariant forall l :: 1 <= l <= i ==> nextCode[l] == FirstCode(sizes, l)
    {
      CountingStep(sizes, i);
      usedSyms := usedSyms + totalSyms[i];
      total := 2 * (total + totalSyms[i]);
      nextCode[i + 1] := total;
    }
    CountingStep(sizes, MAX_LEN);
  }

  lemma CountingStarts(sizes: seq<nat>)
    ensures SumCounts(sizes, 0) == 0 && FirstCode(sizes, 1) == 0
  {}

  lemma CountingStep(sizes: seq<nat>, i: nat)
    requires i >= 1
    ensures SumCounts(sizes, i) == SumCounts(sizes, i - 1) + CountLen(sizes, i)
    ensures FirstCode(sizes, i + 1) == 2 * (FirstCode(sizes, i) + CountLen(sizes, i)) == 2 * EndCode(sizes, i)
  {}

  /** The loop for codes of at most ten bits: every tenth-bit pattern that starts with the code. */
  method PaintLookup(lookup: array<int>, rev: nat, size: nat, k: int, ghost sizes: seq<nat>, ghost s: nat)
    requires lookup.Length == FAST_SIZE && Used(sizes, s) && size == sizes[s] <= FAST_BITS
    requires rev == RevCode(sizes, s) && k == 512 * size + s
    modifies lookup
    ensures Painted(sizes, s, old(lookup[..]), lookup[..])
  {
    hide FromBits, ToBits, CodeBits, Pow2;
    ghost var c, l := CodeBits(sizes, s), lookup[..];
    var x, step := rev, Pow2(size);
    StepBounds(sizes, s);
    SmallMod(rev, step);
    FirstResidue(rev, step);
    hide RevCode, Hit;
    while x < FAST_SIZE
      invariant 0 <= x < FAST_SIZE + step && Hit(x, step, rev)
      invariant forall y :: 0 <= y < FAST_SIZE ==> lookup[y] == if y < x && Hit(y, step, rev) then k else l[y]
      decreases FAST_SIZE - x
    {
      lookup[x] := k;
      NextResidue(x, step, rev);
      x := x + step;
    }
    PaintedResidues(sizes, s, l, lookup[..], k);
  }

  predicate Hit(y: nat, step: nat, rev: nat)
  {
    step > 0 && y % step == rev
  }

  lemma FirstResidue(rev: nat, step: nat)
    requires rev < step
    ensures Hit(rev, step, rev) && forall y: nat :: y < rev ==> !Hit(y, step, rev)
  {
    SmallMod(rev, step);
    forall y: nat | y < rev ensures !Hit(y, step, rev) {
      SmallMod(y, step);
    }
  }

  lemma StepBounds(sizes: seq<nat>, s: nat)
    requires Used(sizes, s) && sizes[s] <= FAST_BITS
    ensures RevCode(sizes, s) < Pow2(sizes[s]) <= FAST_SIZE
  {
    FromBitsBound(CodeBits(sizes, s));
    Pow2Mono(sizes[s], FAST_BITS);
    assert Pow2(FAST_BITS) == FAST_SIZE;
  }

  lemma PaintedResidues(sizes: seq<nat>, s: nat, l: seq<int>, l': seq<int>, k: int)
    requires Used(sizes, s) && sizes[s] <= FAST_BITS && |l| == |l'| == FAST_SIZE && k == 512 * sizes[s] + s
    requires forall y :: 0 <= y < FAST_SIZE ==> l'[y] == if Hit(y, Pow2(sizes[s]), RevCode(sizes, s)) then k else l[y]
    ensures Painted(sizes, s, l, l')
  {
    hide FromBits, ToBits, CodeBits, Pow2;
    forall y | 0 <= y < FAST_SIZE ensures CodeBits(sizes, s) <= ToBits(y, FAST_BITS) <==> Hit(y, Pow2(sizes[s]), RevCode(sizes, s)) {
      MatchBits(CodeBits(sizes, s), y, FAST_BITS);
    }
  }

  lemma NextResidue(x: nat, step: nat, rev: nat)
    requires Hit(x, step, rev)
    ensures Hit(x + step, step, rev) && forall y: nat :: x < y < x + step ==> !Hit(y, step, rev)
  {
    AddMultiple(x, 1, step);
    forall y: nat | x < y < x + step ensures !Hit(y, step, rev) {
      BetweenResidues(x, y, step);
    }
  }

  lemma BetweenResidues(x: nat, y: nat, step: nat)
    requires step > 0 && x < y < x + step
    ensures y % step != x % step
  {
    if y % step == x % step {
      var p, q, r := y / step, x / step, x % step;
      assert y == p * step + r && x == q * step + r;
      if p > q { MulMono(q + 1, p, step); MulAdd(q, 1, step); } else { MulMono(p, q, step); }
    }
  }

  /** Tables under construction, with the node numbering that explains them. */
  ghost predicate Building(sizes: seq<nat>, i: nat, lookup: seq<int>, tree: seq<int>, idx: Nodes, treeNext: int)
  {
    && Trie(sizes, i, lookup, tree, idx) && Linked(tree) && PrefixCode(sizes) && TreeRoom(sizes, |tree|)
    && treeNext == Ref(|idx|)
  }

  lemma LinkNode(lookup: seq<int>, tree: seq<int>, idx: Nodes, u: seq<bool>)
    requires InRange(idx, lookup, tree) && HasSlot(idx, u) && Linked(tree) && 2 * |idx| + 2 <= |tree|
    ensures Linked(Put(lookup, tree, idx, u, Ref(|idx|)).1)
  {
    if |u| > FAST_BITS { assert idx[u[..|u| - 1]] < |idx|; }
  }

  lemma LinkLeaf(lookup: seq<int>, tree: seq<int>, idx: Nodes, u: seq<bool>, s: nat)
    requires InRange(idx, lookup, tree) && HasSlot(idx, u) && Linked(tree)
    ensures Linked(Put(lookup, tree, idx, u, s).1)
  {
    if |u| > FAST_BITS { assert idx[u[..|u| - 1]] < |idx|; }
  }

  /** What an empty slot on the way of a code becomes: a node, with the next free number. */
  lemma GrowAt(sizes: seq<nat>, i: nat, lookup: seq<int>, tree: seq<int>, idx: Nodes, treeNext: int, u: seq<bool>)
    requires Building(sizes, i, lookup, tree, idx, treeNext)
    requires FAST_BITS <= |u| < MAX_LEN && HasSlot(idx, u) && Inner(sizes, u) && Content(lookup, tree, idx, u) == 0
    ensures var (l, t) := Put(lookup, tree, idx, u, treeNext); Building(sizes, i, l, t, idx[u := |idx|], treeNext - 2)
  {
    hide Trie, Linked, PrefixCode, TreeRoom, Inner, Content, Put;
    FreshNode(sizes, i, lookup, tree, idx, u);
    NodeFits(sizes, i, lookup, tree, idx, u);
    AddNode(sizes, i, lookup, tree, idx, u);
    SlotOf(sizes, i, lookup, tree, idx, u);
    LinkNode(lookup, tree, idx, u);
    TrieSize(sizes, i, lookup, tree, idx, u);
  }

  lemma TrieSize(sizes: seq<nat>, i: nat, lookup: seq<int>, tree: seq<int>, idx: Nodes, u: seq<bool>)
    requires InRange(idx, lookup, tree) && HasSlot(idx, u) && u !in idx
    ensures |idx[u := |idx|]| == |idx| + 1
    ensures |Put(lookup, tree, idx, u, Ref(|idx|)).1| == |tree|
  {
    var idx' := idx[u := |idx|];
    assert idx'.Keys == idx.Keys + {u};
    assert |idx'| == |idx'.Keys| && |idx| == |idx.Keys|;
    PutSize(lookup, tree, idx, u, Ref(|idx|));
  }

  /** On the way of a code no slot holds a symbol: it is empty or leads to a node. */
  lemma OnTheWay(sizes: seq<nat>, i: nat, lookup: seq<int>, tree: seq<int>, idx: Nodes, treeNext: int, u: seq<bool>)
    requires Building(sizes, i, lookup, tree, idx, treeNext) && HasSlot(idx, u)
    requires Used(sizes, i) && |u| < sizes[i] && u <= CodeBits(sizes, i)
    ensures Inner(sizes, u) && InRange(idx, lookup, tree)
    ensures Content(lookup, tree, idx, u) == 0 || (u in idx && Content(lookup, tree, idx, u) == Ref(idx[u]))
  {
    hide CodeBits, Content, TreeSlot;
    SlotOf(sizes, i, lookup, tree, idx, u);
    assert forall s: nat :: s < i && Used(sizes, s) && CodeBits(sizes, s) <= u ==> CodeBits(sizes, s) <= CodeBits(sizes, i);
  }

  /** Enters a symbol with a code of more than ten bits. */
  method InsertLong(lookup: array<int>, tree: array<int>, treeNext: int, s: nat, rev: nat, size: nat,
                    ghost sizes: seq<nat>, ghost idx: Nodes) returns (treeNext': int, ghost idx': Nodes)
    requires lookup != tree && Building(sizes, s, lookup[..], tree[..], idx, treeNext)
    requires Used(sizes, s) && size == sizes[s] > FAST_BITS && rev == RevCode(sizes, s)
    modifies lookup, tree
    ensures Building(sizes, s + 1, lookup[..], tree[..], idx', treeNext')
  {
    hide Building, CodeBits, FromBits, ToBits, Pow2, Content, Put;
    ghost var c := CodeBits(sizes, s);
    var treeCur;
    treeCur, treeNext', idx' := EnterTree(lookup, tree, treeNext, s, rev, sizes, idx);
    var revCode := Shr(rev, FAST_BITS - 1);
    var j := size;
    while j > FAST_BITS + 1
      invariant FAST_BITS + 1 <= j <= size
      invariant Building(sizes, s, lookup[..], tree[..], idx', treeNext')
      invariant c[..FAST_BITS + size - j] in idx' && treeCur == Ref(idx'[c[..FAST_BITS + size - j]])
      invariant revCode == Shr(rev, FAST_BITS - 1 + size - j)
    {
      ghost var d := FAST_BITS + size - j;
      CodeBit(c, rev, d);
      ShrHalf(rev, d - 1);
      revCode := revCode / 2;
      treeCur, treeNext', idx' := StepDown(lookup, tree, treeCur - revCode % 2, treeNext', s, sizes, idx', d);
      j := j - 1;
    }
    CodeBit(c, rev, size - 1);
    ShrHalf(rev, size - 2);
    revCode := revCode / 2;
    PlaceLeaf(lookup, tree, treeCur - revCode % 2, treeNext', s, sizes, idx');
  }

  lemma CodeBit(c: seq<bool>, rev: nat, d: nat)
    requires rev == FromBits(c) && d < |c|
    ensures c[d] == (Shr(rev, d) % 2 == 1)
  {
    ToFromBits(c);
    BitOfToBits(rev, |c|, d);
  }

  method EnterTree(lookup: array<int>, tree: array<int>, treeNext: int, s: nat, rev: nat, ghost sizes: seq<nat>, ghost idx: Nodes)
    returns (treeCur: int, treeNext': int, ghost idx': Nodes)
    requires lookup != tree && Building(sizes, s, lookup[..], tree[..], idx, treeNext)
    requires Used(sizes, s) && sizes[s] > FAST_BITS && rev == RevCode(sizes, s)
    modifies lookup
    ensures Building(sizes, s, lookup[..], tree[..], idx', treeNext')
    ensures var u := CodeBits(sizes, s)[..FAST_BITS]; u in idx' && treeCur == Ref(idx'[u])
  {
    hide Building, CodeBits, FromBits, ToBits, Pow2, Inner;
    ghost var c := CodeBits(sizes, s);
    ghost var u := c[..FAST_BITS];
    OnTheWay(sizes, s, lookup[..], tree[..], idx, treeNext, u);
    LookupOfCode(c, rev);
    treeNext', idx' := treeNext, idx;
    treeCur := lookup[rev % FAST_SIZE];
    if treeCur == 0 {
      GrowAt(sizes, s, lookup[..], tree[..], idx, treeNext, u);
      ghost var l := lookup[..];
      lookup[rev % FAST_SIZE] := treeNext;
      assert lookup[..] == l[rev % FAST_SIZE := treeNext];
      RefOfNext(sizes, s, l, tree[..], idx, treeNext);
      treeCur := treeNext;
      treeNext' := treeNext - 2;
      idx' := idx[u := |idx|];
    }
  }

  lemma RefOfNext(sizes: seq<nat>, i: nat, lookup: seq<int>, tree: seq<int>, idx: Nodes, treeNext: int)
    requires Building(sizes, i, lookup, tree, idx, treeNext)
    ensures treeNext == Ref(|idx|)
  {}

  lemma LookupOfCode(c: seq<bool>, rev: nat)
    requires |c| > FAST_BITS && rev == FromBits(c)
    ensures FromBits(c[..FAST_BITS]) == rev % FAST_SIZE
  {
    ToFromBits(c);
    ToBitsPrefix(rev, |c|, FAST_BITS);
    LookupIndex(rev);
  }

  /** One level down: `slot` is the reference to the node of the first `d` bits, less the next bit. */
  method StepDown(lookup: array<int>, tree: array<int>, slot: int, treeNext: int, s: nat, ghost sizes: seq<nat>, ghost idx: Nodes, ghost d: nat)
    returns (treeCur: int, treeNext': int, ghost idx': Nodes)
    requires lookup != tree && Building(sizes, s, lookup[..], tree[..], idx, treeNext)
    requires Used(sizes, s) && FAST_BITS <= d && d + 1 < sizes[s]
    requires var c := CodeBits(sizes, s); c[..d] in idx && slot == Ref(idx[c[..d]]) - if c[d] then 1 else 0
    modifies tree
    ensures Building(sizes, s, lookup[..], tree[..], idx', treeNext')
    ensures var u := CodeBits(sizes, s)[..d + 1]; u in idx' && treeCur == Ref(idx'[u])
  {
    hide Building, CodeBits, FromBits, ToBits, Pow2, Inner;
    ghost var u := CodeBits(sizes, s)[..d + 1];
    assert u[..d] == CodeBits(sizes, s)[..d];
    OnTheWay(sizes, s, lookup[..], tree[..], idx, treeNext, u);
    assert -slot - 1 == TreeSlot(idx, u);
    treeNext', idx' := treeNext, idx;
    if tree[-slot - 1] == 0 {
      GrowAt(sizes, s, lookup[..], tree[..], idx, treeNext, u);
      ghost var t := tree[..];
      RefOfNext(sizes, s, lookup[..], t, idx, treeNext);
      tree[-slot - 1] := treeNext;
      assert tree[..] == t[TreeSlot(idx, u) := treeNext];
      treeCur := treeNext;
      treeNext' := treeNext - 2;
      idx' := idx[u := |idx|];
    } else {
      treeCur := tree[-slot - 1];
    }
  }

  method PlaceLeaf(lookup: array<int>, tree: array<int>, slot: int, treeNext: int, s: nat, ghost sizes: seq<nat>, ghost idx: Nodes)
    requires lookup != tree && Building(sizes, s, lookup[..], tree[..], idx, treeNext)
    requires Used(sizes, s) && sizes[s] > FAST_BITS
    requires var c := CodeBits(sizes, s); var d := |c| - 1; c[..d] in idx && slot == Ref(idx[c[..d]]) - if c[d] then 1 else 0
    modifies tree
    ensures Building(sizes, s + 1, lookup[..], tree[..], idx, treeNext)
  {
    hide CodeBits, FromBits, ToBits, Pow2, Trie, Linked, PrefixCode, TreeRoom;
    ghost var c, t := CodeBits(sizes, s), tree[..];
    SlotOf(sizes, s, lookup[..], t, idx, c);
    AddLong(sizes, s, lookup[..], t, idx);
    LinkLeaf(lookup[..], t, idx, c, s);
    assert idx[c[..|c| - 1]] < |idx|;
    tree[-slot - 1] := s;
    assert tree[..] == t[TreeSlot(idx, c) := s];
  }

  /** Enters one symbol. */
  method InsertSymbol(lookup: array<int>, tree: array<int>, treeNext: int, s: nat, nextCode: array<nat>, codeSize: nat,
                      ghost sizes: seq<nat>, ghost idx: Nodes) returns (treeNext': int, ghost idx': Nodes)
    requires lookup != tree && Building(sizes, s, lookup[..], tree[..], idx, treeNext) && lookup.Length == FAST_SIZE
    requires s < |sizes| && ValidSizes(sizes) && codeSize == sizes[s]
    requires nextCode.Length == 17
    requires forall l :: 1 <= l < 16 ==> nextCode[l] == FirstCode(sizes, l) + CountLen(sizes[..s], l)
    modifies lookup, tree, nextCode
    ensures Building(sizes, s + 1, lookup[..], tree[..], idx', treeNext')
    ensures forall l :: 1 <= l < 16 ==> nextCode[l] == FirstCode(sizes, l) + CountLen(sizes[..s + 1], l)
  {
    hide Building, CodeBits, FromBits, ToBits, Pow2, CountLen, FirstCode, BigEndian;
    RankStep(sizes, s);
    treeNext', idx' := treeNext, idx;
    if codeSize == 0 {
      SkipSymbol(sizes, s, lookup[..], tree[..], idx, treeNext);
      return;
    }
    var code := nextCode[codeSize];
    nextCode[codeSize] := nextCode[codeSize] + 1;
    var rev := Reverse(code, codeSize);
    RevOfCode(sizes, s, rev);
    if codeSize <= FAST_BITS {
      ghost var l := lookup[..];
      PaintLookup(lookup, rev, codeSize, 512 * codeSize + s, sizes, s);
      ShortSymbol(sizes, s, l, lookup[..], tree[..], idx, treeNext);
    } else {
      treeNext', idx' := InsertLong(lookup, tree, treeNext, s, rev, codeSize, sizes, idx);
    }
  }

  lemma RevOfCode(sizes: seq<nat>, s: nat, rev: nat)
    requires Used(sizes, s) && rev == FromBits(BigEndian(Code(sizes, s), sizes[s]))
    ensures rev == RevCode(sizes, s)
  {}

  lemma SkipSymbol(sizes: seq<nat>, s: nat, lookup: seq<int>, tree: seq<int>, idx: Nodes, treeNext: int)
    requires Building(sizes, s, lookup, tree, idx, treeNext) && !Used(sizes, s)
    ensures Building(sizes, s + 1, lookup, tree, idx, treeNext)
  {
    hide Trie, Linked, PrefixCode, TreeRoom;
    SkipUnused(sizes, s, lookup, tree, idx);
  }

  lemma ShortSymbol(sizes: seq<nat>, s: nat, lookup: seq<int>, l: seq<int>, tree: seq<int>, idx: Nodes, treeNext: int)
    requires Building(sizes, s, lookup, tree, idx, treeNext) && Used(sizes, s) && sizes[s] <= FAST_BITS
    requires Painted(sizes, s, lookup, l)
    ensures Building(sizes, s + 1, l, tree, idx, treeNext)
  {
    hide Trie, Linked, PrefixCode, TreeRoom;
    AddShort(sizes, s, lookup, l, tree, idx);
  }

  /** Tables are built for complete codes and for at most one symbol; anything else is refused. */
  predicate Acceptable(sizes: seq<nat>)
  {
    Full(sizes) || NumUsed(sizes) <= 1
  }

  lemma StartBuilding(sizes: seq<nat>, lookup: seq<int>, tree: seq<int>)
    requires |sizes| <= 512 && ValidSizes(sizes) && Acceptable(sizes) && |lookup| == FAST_SIZE
    requires |tree| >= 2 * |sizes| && |tree| >= 10
    requires (forall x :: 0 <= x < |lookup| ==> lookup[x] == 0) && (forall x :: 0 <= x < |tree| ==> tree[x] == 0)
    ensures Building(sizes, 0, lookup, tree, map[], -1)
  {
    hide CodeBits, NumUsed, Pow2, EndCode;
    EmptyTrie(sizes, lookup, tree);
    if Full(sizes) {
      FullTreeRoom(sizes, |tree|);
    } else {
      FewTreeRoom(sizes, |tree|);
    }
    forall s: nat, t: nat | Used(sizes, s) && Used(sizes, t) && CodeBits(sizes, s) <= CodeBits(sizes, t) ensures s == t {
      if Full(sizes) { PrefixFree(sizes, s, t); } else { AtMostOneUsed(sizes, s, t); }
    }
  }

  /** Builds lookup and tree for the first `n` code sizes. */
  method BuildTables(codeSize: array<nat>, n: nat, lookup: array<int>, tree: array<int>) returns (ok: bool)
    requires n <= codeSize.Length && n <= 512 && ValidSizes(codeSize[..n])
    requires lookup != tree && lookup.Length == FAST_SIZE && tree.Length >= 2 * n && tree.Length >= 10
    modifies lookup, tree
    ensures ok <==> Acceptable(codeSize[..n])
    ensures ok ==> Decodes(codeSize[..n], lookup[..], tree[..])
  {
    hide Building, CodeBits, FromBits, ToBits, Pow2, CountLen, FirstCode, EndCode, NumUsed, SumCounts, Decodes;
    ghost var sizes := codeSize[..n];
    forall x | 0 <= x < lookup.Length { lookup[x] := 0; }
    forall x | 0 <= x < tree.Length { tree[x] := 0; }
    assert codeSize[..n] == sizes;
    var totalSyms := CountSizes(codeSize, n);
    var nextCode, usedSyms, total := NextCodes(totalSyms, sizes);
    SumCountsIsUsed(sizes);
    FullTotal(sizes, total);
    if total != 65536 && usedSyms > 1 {
      return false;
    }
    assert codeSize[..n] == sizes;
    ok := FillTables(codeSize, n, lookup, tree, nextCode, sizes);
  }

  lemma FullTotal(sizes: seq<nat>, total: nat)
    requires total == 2 * EndCode(sizes, MAX_LEN)
    ensures Full(sizes) <==> total == 65536
  {
    assert Pow2(MAX_LEN) == 32768;
  }

  method FillTables(codeSize: array<nat>, n: nat, lookup: array<int>, tree: array<int>, nextCode: array<nat>, ghost sizes: seq<nat>)
    returns (ok: bool)
    requires n <= codeSize.Length && n <= 512 && sizes == codeSize[..n] && ValidSizes(sizes) && Acceptable(sizes)
    requires lookup != tree && lookup.Length == FAST_SIZE && tree.Length >= 2 * n && tree.Length >= 10
    requires codeSize != nextCode && nextCode.Length == 17
    requires forall l :: 1 <= l < 16 ==> nextCode[l] == FirstCode(sizes, l)
    requires (forall x :: 0 <= x < lookup.Length ==> lookup[x] == 0) && (forall x :: 0 <= x < tree.Length ==> tree[x] == 0)
    modifies lookup, tree, nextCode
    ensures ok && Decodes(sizes, lookup[..], tree[..])
  {
    hide Building, CodeBits, FromBits, ToBits, Pow2, CountLen, FirstCode, EndCode, NumUsed, Decodes;
    StartBuilding(sizes, lookup[..], tree[..]);
    NoRank(sizes);
    ghost var idx: Nodes := map[];
    var treeNext := -1;
    for s := 0 to n
      invariant Building(sizes, s, lookup[..], tree[..], idx, treeNext)
      invariant forall l :: 1 <= l < 16 ==> nextCode[l] == FirstCode(sizes, l) + CountLen(sizes[..s], l)
      invariant codeSize[..n] == sizes
    {
      assert codeSize[s] == sizes[s];
      treeNext, idx := InsertSymbol(lookup, tree, treeNext, s, nextCode, codeSize[s], sizes, idx);
    }
    BuiltDecodes(sizes, lookup[..], tree[..], idx, treeNext);
    ok := true;
  }

  lemma BuiltDecodes(sizes: seq<nat>, lookup: seq<int>, tree: seq<int>, idx: Nodes, treeNext: int)
    requires Building(sizes, |sizes|, lookup, tree, idx, treeNext)
    ensures Decodes(sizes, lookup, tree)
  {
    hide Trie;
    TrieDecodes(sizes, lookup, tree, idx);
  }
}
