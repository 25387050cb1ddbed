/** Building one Huffman table (`tdefl_optimize_huffman_table`): from symbol counts, or from given
    lengths, to canonical codes in transmission order. */
module HuffTable {
  import opened Bits
  import opened Symbols
  import opened RadixSort
  import opened HuffmanTree
  import opened TreeCost
  import opened MinRedundancy
  import opened LengthLimit
  import opened Canonical
  import opened RankLengths

  // ---------------------------------------------------------------- lengths and their counts

  /** `c[l]` symbols have length `l`, for every length from 1 to `limit`. */
  ghost predicate Counts(c: seq<nat>, sizes: seq<nat>, limit: nat)
  {
    limit < |c| && forall l :: 1 <= l <= limit ==> c[l] == CountLen(sizes, l)
  }

  lemma {:induction false} EndCodeIsShare(c: seq<nat>, sizes: seq<nat>, limit: nat, l: nat)
    requires Counts(c, sizes, limit) && 1 <= l <= limit
    ensures EndCode(sizes, l) == Share(c, 1, l + 1, l)
    decreases l
  {
    if l == 1 {
      ShareOne(c, 1, 1);
    } else {
      EndCodeIsShare(c, sizes, limit, l - 1);
      ShareScale(c, 1, l, l - 1, l);
      assert Pow2(l - (l - 1)) == 2 && Pow2(l - l) == 1;
    }
  }

  /** With nothing longer than `limit` the code space fills up at length `limit` already. */
  lemma {:induction false} EndCodeGrows(sizes: seq<nat>, limit: nat, l: nat)
    requires 1 <= limit <= l && forall s :: 0 <= s < |sizes| ==> sizes[s] <= limit
    ensures EndCode(sizes, l) == EndCode(sizes, limit) * Pow2(l - limit)
    decreases l
  {
    if limit < l {
      EndCodeGrows(sizes, limit, l - 1);
      NoneOfLength(sizes, l);
      EndStep(sizes, l);
      Doubling(l - limit);
      hide *;
      DoubleMul(EndCode(sizes, limit), Pow2(l - 1 - limit));
    }
  }

  lemma EndStep(sizes: seq<nat>, l: nat)
    requires l >= 2
    ensures EndCode(sizes, l) == 2 * EndCode(sizes, l - 1) + CountLen(sizes, l)
  {
    hide CountLen;
  }

  lemma Doubling(n: nat)
    requires n > 0
    ensures Pow2(n) == 2 * Pow2(n - 1)
  {}

  lemma ExactIsFull(c: seq<nat>, sizes: seq<nat>, limit: nat)
    requires Counts(c, sizes, limit) && 1 <= limit <= MAX_LEN && Exact(c, limit)
    requires forall s :: 0 <= s < |sizes| ==> sizes[s] <= limit
    ensures Full(sizes)
  {
    hide Pow2, EndCode, Share, CountLen;
    EndCodeIsShare(c, sizes, limit, limit);
    EndCodeGrows(sizes, limit, MAX_LEN);
    Pow2Add(limit, MAX_LEN - limit);
  }

  /** One code of length 1 takes half of the code space. */
  lemma SingleIsRoomy(sizes: seq<nat>)
    requires (forall s :: 0 <= s < |sizes| ==> sizes[s] <= 1) && CountLen(sizes, 1) <= 1
    ensures Roomy(sizes)
  {
    hide EndCode, CountLen, Pow2;
    EndCodeGrows(sizes, 1, MAX_LEN);
    EndOfOne(sizes);
    MulMono(EndCode(sizes, 1), 1, Pow2(MAX_LEN - 1));
    Pow2Mono(MAX_LEN - 1, MAX_LEN);
  }

  lemma EndOfOne(sizes: seq<nat>)
    ensures EndCode(sizes, 1) == CountLen(sizes, 1)
  {}

  // ---------------------------------------------------------------- handing out the lengths

  /** Slots `j..n` of the sorted symbols have their length: not below that of any later slot,
      between 1 and `i`; every other symbol has length 0. */
  ghost predicate Handed(t: seq<SymFreq>, sizes: seq<nat>, j: nat, i: nat)
  {
    && j <= |t| && (forall k :: 0 <= k < |t| ==> t[k].sym < |sizes|)
    && HandedRange(t, sizes, j, i) && HandedOrder(t, sizes, j) && HandedNoMore(t, sizes, j)
  }

  ghost predicate HandedRange(t: seq<SymFreq>, sizes: seq<nat>, j: nat, i: nat)
    requires forall k :: 0 <= k < |t| ==> t[k].sym < |sizes|
  {
    forall k :: j <= k < |t| ==> 1 <= sizes[t[k].sym] <= i
  }

  ghost predicate HandedOrder(t: seq<SymFreq>, sizes: seq<nat>, j: nat)
    requires forall k :: 0 <= k < |t| ==> t[k].sym < |sizes|
  {
    forall k, m :: j <= k <= m < |t| ==> sizes[t[k].sym] >= sizes[t[m].sym]
  }

  ghost predicate HandedNoMore(t: seq<SymFreq>, sizes: seq<nat>, j: nat)
  {
    forall x :: 0 <= x < |sizes| && (forall k :: j <= k < |t| ==> t[k].sym != x) ==> sizes[x] == 0
  }

  ghost predicate DistinctSymbols(t: seq<SymFreq>)
  {
    forall k, m :: 0 <= k < m < |t| ==> t[k].sym != t[m].sym
  }

  lemma HandNext(t: seq<SymFreq>, sizes: seq<nat>, j: nat, i: nat)
    requires 1 <= j <= |t| && 1 <= i && DistinctSymbols(t) && Handed(t, sizes, j, i)
    ensures t[j - 1].sym < |sizes| && sizes[t[j - 1].sym] == 0
    ensures Handed(t, sizes[t[j - 1].sym := i], j - 1, i)
  {
    hide HandedOrder, HandedRange;
    var x := t[j - 1].sym;
    assert sizes[x] == 0;
    NoMoreNext(t, sizes, j, i);
    hide HandedNoMore;
    RangeNext(t, sizes, j, i);
    OrderNext(t, sizes, j, i);
  }

  lemma NoMoreNext(t: seq<SymFreq>, sizes: seq<nat>, j: nat, i: nat)
    requires 1 <= j <= |t| && t[j - 1].sym < |sizes| && HandedNoMore(t, sizes, j)
    ensures HandedNoMore(t, sizes[t[j - 1].sym := i], j - 1)
  {
    var s' := sizes[t[j - 1].sym := i];
    forall y | 0 <= y < |s'| && (forall k :: j - 1 <= k < |t| ==> t[k].sym != y) ensures s'[y] == 0 {
      assert t[j - 1].sym != y;
    }
  }

  lemma RangeNext(t: seq<SymFreq>, sizes: seq<nat>, j: nat, i: nat)
    requires 1 <= j <= |t| && 1 <= i && (forall k :: 0 <= k < |t| ==> t[k].sym < |sizes|) && HandedRange(t, sizes, j, i)
    ensures HandedRange(t, sizes[t[j - 1].sym := i], j - 1, i)
  {}

  lemma OrderNext(t: seq<SymFreq>, sizes: seq<nat>, j: nat, i: nat)
    requires 1 <= j <= |t| && (forall k :: 0 <= k < |t| ==> t[k].sym < |sizes|) && DistinctSymbols(t)
    requires HandedRange(t, sizes, j, i) && HandedOrder(t, sizes, j)
    ensures HandedOrder(t, sizes[t[j - 1].sym := i], j - 1)
  {
    var s' := sizes[t[j - 1].sym := i];
    forall k, m | j - 1 <= k <= m < |t| ensures s'[t[k].sym] >= s'[t[m].sym] {
      if m > j - 1 { assert t[j - 1].sym != t[m].sym; }
      if k > j - 1 { assert t[j - 1].sym != t[k].sym; }
    }
  }

  /** How many lengths have been handed out when `left` codes of length `i` are still to go. */
  ghost predicate Progress(c: seq<nat>, sizes: seq<nat>, limit: nat, i: nat, left: nat)
  {
    && 1 <= i <= limit + 1 && limit + 1 < |c| && (i <= limit ==> left <= c[i]) && (i == limit + 1 ==> left == c[i])
    && forall l :: 1 <= l <= limit ==> CountLen(sizes, l) == if l < i then c[l] else if l == i then c[i] - left else 0
  }

  lemma ProgressNext(c: seq<nat>, sizes: seq<nat>, limit: nat, i: nat, left: nat, x: nat)
    requires Progress(c, sizes, limit, i, left) && i <= limit && left > 0 && x < |sizes| && sizes[x] == 0
    ensures Progress(c, sizes[x := i], limit, i, left - 1)
  {
    forall l | 1 <= l <= limit
      ensures CountLen(sizes[x := i], l) == if l < i then c[l] else if l == i then c[i] - (left - 1) else 0
    {
      CountUpdate(sizes, x, i, l);
    }
  }

  /** The loop over the lengths: the most frequent symbols, last in the sorted order, get the
      shortest codes. */
  method AssignSizes(sorted: array<SymFreq>, n: nat, num: array<nat>, limit: nat, sizes: array<nat>)
    requires n <= sorted.Length && 1 <= limit && limit + 1 < num.Length && num != sizes
    requires DistinctSymbols(sorted[..n]) && Total(num[..], 1, limit + 1) == n
    requires forall k :: 0 <= k < n ==> sorted[k].sym < sizes.Length
    requires forall x :: 0 <= x < sizes.Length ==> sizes[x] == 0
    modifies sizes
    ensures Handed(sorted[..n], sizes[..], 0, limit) && Counts(num[..], sizes[..], limit)
  {
    hide CountLen, Total, Share, Handed, Progress;
    ghost var t, c := sorted[..n], num[..];
    NoneHanded(t, sizes[..], c, limit);
    var j := n;
    var i := 1;
    while i <= limit
      invariant 1 <= i <= limit + 1 && j == n - Total(c, 1, i)
      invariant Handed(t, sizes[..], j, i - 1) && Progress(c, sizes[..], limit, i, c[i])
    {
      TotalStep(c, i, limit);
      j := AssignLength(sorted, n, num, limit, sizes, i, j);
      ProgressLevel(c, sizes[..], limit, i);
      i := i + 1;
    }
    AllCounted(sizes[..], c, limit);
  }

  lemma TotalStep(c: seq<nat>, i: nat, limit: nat)
    requires 1 <= i <= limit && limit + 1 < |c|
    ensures Total(c, 1, i + 1) == Total(c, 1, i) + c[i] <= Total(c, 1, limit + 1)
  {
    ShareSplit(c, 1, i + 1, limit + 1, limit);
  }

  lemma AllCounted(sizes: seq<nat>, c: seq<nat>, limit: nat)
    requires limit + 1 < |c| && Progress(c, sizes, limit, limit + 1, c[limit + 1])
    ensures Counts(c, sizes, limit)
  {}

  lemma {:induction false} NoneHanded(t: seq<SymFreq>, sizes: seq<nat>, c: seq<nat>, limit: nat)
    requires 1 <= limit && limit + 1 < |c| && forall k :: 0 <= k < |t| ==> t[k].sym < |sizes|
    requires forall x :: 0 <= x < |sizes| ==> sizes[x] == 0
    ensures Handed(t, sizes, |t|, 0) && Progress(c, sizes, limit, 1, c[1]) && Total(c, 1, 1) == 0
  {
    forall l | 1 <= l <= limit ensures CountLen(sizes, l) == 0 { NoneOfLength(sizes, l); }
  }

  lemma ProgressLevel(c: seq<nat>, sizes: seq<nat>, limit: nat, i: nat)
    requires Progress(c, sizes, limit, i, 0) && i <= limit
    ensures Progress(c, sizes, limit, i + 1, c[i + 1])
  {}

  method AssignLength(sorted: array<SymFreq>, n: nat, num: array<nat>, limit: nat, sizes: array<nat>, i: nat, j: nat)
    returns (j': nat)
    requires n <= sorted.Length && 1 <= i <= limit && limit + 1 < num.Length && num != sizes
    requires DistinctSymbols(sorted[..n]) && num[i] <= j <= n
    requires Handed(sorted[..n], sizes[..], j, i - 1) && Progress(num[..], sizes[..], limit, i, num[i])
    modifies sizes
    ensures j' == j - num[i]
    ensures Handed(sorted[..n], sizes[..], j', i) && Progress(num[..], sizes[..], limit, i, 0)
  {
    hide CountLen, Handed, Progress;
    ghost var t, c := sorted[..n], num[..];
    HandedLonger(t, sizes[..], j, i - 1);
    j' := j;
    var l := num[i];
    while l > 0
      invariant 0 <= l <= c[i] && j' == j - (c[i] - l)
      invariant Handed(t, sizes[..], j', i) && Progress(c, sizes[..], limit, i, l)
    {
      ghost var s := sizes[..];
      HandNext(t, s, j', i);
      j' := j' - 1;
      ProgressNext(c, s, limit, i, l, t[j'].sym);
      sizes[sorted[j'].sym] := i;
      assert sizes[..] == s[t[j'].sym := i];
      l := l - 1;
    }
  }

  lemma HandedLonger(t: seq<SymFreq>, sizes: seq<nat>, j: nat, i: nat)
    requires Handed(t, sizes, j, i)
    ensures Handed(t, sizes, j, i + 1)
  {}

  // ---------------------------------------------------------------- lengths by rank

  /** The lengths of the sorted symbols. */
  function Picked(t: seq<SymFreq>, sizes: seq<nat>): (z: seq<nat>)
    requires forall k :: 0 <= k < |t| ==> t[k].sym < |sizes|
    ensures |z| == |t| && forall k :: 0 <= k < |t| ==> z[k] == sizes[t[k].sym]
  {
    seq(|t|, k requires 0 <= k < |t| => sizes[t[k].sym])
  }

  /** Other symbols have no lengths. */
  lemma {:induction false} PickedCounts(t: seq<SymFreq>, sizes: seq<nat>, l: nat)
    requires (forall k :: 0 <= k < |t| ==> t[k].sym < |sizes|) && DistinctSymbols(t) && HandedNoMore(t, sizes, 0) && l >= 1
    ensures CountLen(Picked(t, sizes), l) == CountLen(sizes, l)
    decreases |t|
  {
    hide CountLen;
    if t == [] {
      NoneOfLength(sizes, l);
      NoneOfLength(Picked(t, sizes), l);
    } else {
      var init, x := t[..|t| - 1], t[|t| - 1].sym;
      var sizes' := sizes[x := 0];
      forall y | 0 <= y < |sizes'| && (forall k :: 0 <= k < |init| ==> init[k].sym != y) ensures sizes'[y] == 0 {
        if y != x { assert forall k :: 0 <= k < |t| ==> t[k].sym != y; }
      }
      PickedCounts(init, sizes', l);
      CountUpdate(sizes, x, 0, l);
      assert Picked(t, sizes) == Picked(init, sizes') + [sizes[x]];
      CountSplit(Picked(init, sizes'), [sizes[x]], l);
      CountOne(sizes[x], l);
    }
  }

  /** Numbers of codes determine the lengths by rank. */
  lemma {:induction false} RanksUnique(a: seq<nat>, b: seq<nat>, m: nat)
    requires |a| == |b| && Ranked(a, m) && Ranked(b, m) && forall l :: 1 <= l <= m ==> CountLen(a, l) == CountLen(b, l)
    ensures a == b
  {
    if a != [] {
      FirstRank(a, b, m);
      FirstRank(b, a, m);
      CountFront(a);
      CountFront(b);
      hide CountLen;
      RanksUnique(a[1..], b[1..], m);
      assert a == [a[0]] + a[1..] && b == [b[0]] + b[1..];
    }
  }

  lemma FirstRank(a: seq<nat>, b: seq<nat>, m: nat)
    requires a != [] && b != [] && Ranked(a, m) && Ranked(b, m) && forall l :: 1 <= l <= m ==> CountLen(a, l) == CountLen(b, l)
    ensures a[0] <= b[0]
  {
    hide CountLen;
    HasRank(a, 0);
    var r := SomeRank(b, a[0]);
  }

  /** What is handed out along the sorted symbols is the lengths by rank. */
  lemma HandedByRank(t: seq<SymFreq>, sizes: seq<nat>, c: seq<nat>, z: seq<nat>, limit: nat)
    requires DistinctSymbols(t) && Handed(t, sizes, 0, limit) && Counts(c, sizes, limit)
    requires |z| == |t| && Ranked(z, limit) && Matches(c, z, limit)
    ensures Picked(t, sizes) == z
  {
    hide CountLen;
    forall l | 1 <= l <= limit ensures CountLen(Picked(t, sizes), l) == CountLen(z, l) { PickedCounts(t, sizes, l); }
    RanksUnique(Picked(t, sizes), z, limit);
  }

  // ---------------------------------------------------------------- numbering the codes

  /** The two last loops: first codes by length, then one code after the other. */
  method AssignCodes(sizes: array<nat>, codes: array<nat>, num: array<nat>, limit: nat)
    requires sizes != codes && num != codes && sizes.Length == codes.Length
    requires 1 <= limit <= MAX_LEN && num.Length == MAX_SUPPORTED + 1
    requires Counts(num[..], sizes[..], limit) && forall s :: 0 <= s < sizes.Length ==> sizes[s] <= limit
    modifies codes
    ensures forall s :: 0 <= s < sizes.Length ==> codes[s] == if sizes[s] == 0 then old(codes[s]) else RevCode(sizes[..], s)
  {
    hide CountLen, FirstCode, BigEndian, FromBits;
    ghost var z := sizes[..];
    NoRank(z);
    var nextCode := FirstCodes(num, limit, z);
    for i := 0 to sizes.Length
      invariant nextCode.Length == MAX_SUPPORTED + 1
      invariant forall l :: 1 <= l <= limit ==> nextCode[l] == FirstCode(z, l) + CountLen(z[..i], l)
      invariant forall s :: 0 <= s < sizes.Length ==>
        codes[s] == if s < i && z[s] != 0 then RevCode(z, s) else old(codes[s])
    {
      RankStep(z, i);
      var size := sizes[i];
      if size != 0 {
        var code := nextCode[size];
        nextCode[size] := nextCode[size] + 1;
        codes[i] := Reverse(code, size);
      }
    }
  }

  method FirstCodes(num: array<nat>, limit: nat, ghost z: seq<nat>) returns (nextCode: array<nat>)
    requires 1 <= limit <= MAX_LEN && num.Length == MAX_SUPPORTED + 1 && Counts(num[..], z, limit)
    ensures fresh(nextCode) && nextCode.Length == MAX_SUPPORTED + 1
    ensures forall l :: 1 <= l <= limit ==> nextCode[l] == FirstCode(z, l)
  {
    hide CountLen;
    nextCode := new nat[MAX_SUPPORTED + 1];
    nextCode[1] := 0;
    var j := 0;
    for i := 2 to limit + 1
      invariant j == FirstCode(z, i - 1)
      invariant forall l :: 1 <= l < i ==> nextCode[l] == FirstCode(z, l)
    {
      j := 2 * (j + num[i - 1]);
      nextCode[i] := j;
    }
  }

  // ---------------------------------------------------------------- the symbols in use

  /** One element per symbol with a nonzero count, in symbol order. */
  function UsedSyms(counts: seq<u16>): (s: seq<SymFreq>)
    requires |counts| < 0x1_0000
    ensures |s| <= |counts|
  {
    if counts == [] then [] else
      var last := |counts| - 1;
      UsedSyms(counts[..last]) + if counts[last] > 0 then [SymFreq(counts[last], last)] else []
  }

  lemma {:induction false} UsedElements(counts: seq<u16>, e: SymFreq)
    requires |counts| < 0x1_0000
    ensures multiset(UsedSyms(counts))[e] == if e.sym < |counts| && counts[e.sym] == e.key > 0 then 1 else 0
  {
    if counts != [] {
      var last := |counts| - 1;
      UsedElements(counts[..last], e);
      UsedLast(counts);
      hide UsedSyms;
      if counts[last] > 0 { OneElement(UsedSyms(counts[..last]), SymFreq(counts[last], last), e); }
    }
  }

  lemma UsedLast(counts: seq<u16>)
    requires counts != [] && |counts| < 0x1_0000
    ensures var last := |counts| - 1;
      if counts[last] > 0 then UsedSyms(counts) == UsedSyms(counts[..last]) + [SymFreq(counts[last], last)]
      else UsedSyms(counts) == UsedSyms(counts[..last])
  {}

  lemma OneElement(s: seq<SymFreq>, x: SymFreq, e: SymFreq)
    ensures multiset(s + [x])[e] == multiset(s)[e] + if e == x then 1 else 0
  {}

  /** What the sorted symbols inherit from the counts. */
  ghost predicate FromCounts(t: seq<SymFreq>, counts: seq<u16>)
    requires |counts| < 0x1_0000
  {
    && (forall k :: 0 <= k < |t| ==> t[k].sym < |counts| && counts[t[k].sym] == t[k].key > 0)
    && (forall x :: 0 <= x < |counts| && counts[x] > 0 ==> SymFreq(counts[x], x) in t)
    && DistinctSymbols(t)
  }

  lemma PermutedCounts(counts: seq<u16>, t: seq<SymFreq>)
    requires |counts| < 0x1_0000 && multiset(t) == multiset(UsedSyms(counts))
    ensures FromCounts(t, counts)
  {
    hide UsedSyms;
    forall k | 0 <= k < |t| ensures t[k].sym < |counts| && counts[t[k].sym] == t[k].key > 0 {
      UsedElements(counts, t[k]);
      assert t[k] in multiset(t);
    }
    forall x | 0 <= x < |counts| && counts[x] > 0 ensures SymFreq(counts[x], x) in t {
      UsedElements(counts, SymFreq(counts[x], x));
      assert SymFreq(counts[x], x) in multiset(t);
    }
    forall k, m | 0 <= k < m < |t| ensures t[k].sym != t[m].sym {
      if t[k].sym == t[m].sym {
        Twice(t, k, m);
        UsedElements(counts, t[k]);
      }
    }
  }

  lemma Twice(t: seq<SymFreq>, k: nat, m: nat)
    requires k < m < |t| && t[k] == t[m]
    ensures multiset(t)[t[k]] >= 2
  {
    assert t == t[..k] + [t[k]] + t[k + 1..m] + [t[m]] + t[m + 1..];
  }

  /** A number for each element. */
  function Values(g: SymFreq -> nat, a: seq<SymFreq>): (v: seq<nat>)
    ensures |v| == |a| && forall i :: 0 <= i < |a| ==> v[i] == g(a[i])
  {
    seq(|a|, i requires 0 <= i < |a| => g(a[i]))
  }

  /** Their sum does not depend on the order. */
  lemma {:induction false} ValuesPermute(g: SymFreq -> nat, a: seq<SymFreq>, b: seq<SymFreq>)
    requires multiset(a) == multiset(b)
    ensures |a| == |b| && Sum(Values(g, a)) == Sum(Values(g, b))
    decreases |a|
  {
    hide Sum, Values;
    SameSize(a, b);
    if a != [] {
      var j := SameElement(a, b);
      ValuesPermute(g, a[1..], b[..j] + b[j + 1..]);
      TakeOut(g, a, 0);
      TakeOut(g, b, j);
      assert a[..0] + a[1..] == a[1..];
    }
  }

  lemma SameSize(a: seq<SymFreq>, b: seq<SymFreq>)
    requires multiset(a) == multiset(b)
    ensures |a| == |b|
  {
    assert |multiset(a)| == |a| && |multiset(b)| == |b|;
  }

  lemma SameElement(a: seq<SymFreq>, b: seq<SymFreq>) returns (j: nat)
    requires a != [] && multiset(a) == multiset(b)
    ensures j < |b| && b[j] == a[0] && multiset(a[1..]) == multiset(b[..j] + b[j + 1..])
  {
    assert a[0] in multiset(b);
    j :| 0 <= j < |b| && b[j] == a[0];
    Removed(a, 0);
    Removed(b, j);
    assert a[..0] + a[1..] == a[1..];
    hide *;
    Cancel(a[0], multiset(a[1..]), multiset(b[..j] + b[j + 1..]));
  }

  lemma Cancel(x: SymFreq, p: multiset<SymFreq>, q: multiset<SymFreq>)
    requires multiset{x} + p == multiset{x} + q
    ensures p == q
  {
    forall y ensures p[y] == q[y] {
      assert (multiset{x} + p)[y] == (multiset{x} + q)[y];
    }
  }

  lemma Removed(b: seq<SymFreq>, j: nat)
    requires j < |b|
    ensures multiset(b) == multiset{b[j]} + multiset(b[..j] + b[j + 1..])
  {
    assert b == b[..j] + [b[j]] + b[j + 1..];
  }

  lemma TakeOut(g: SymFreq -> nat, b: seq<SymFreq>, j: nat)
    requires j < |b|
    ensures Sum(Values(g, b)) == g(b[j]) + Sum(Values(g, b[..j] + b[j + 1..]))
  {
    var x, y := Values(g, b[..j]), Values(g, b[j + 1..]);
    assert Values(g, b) == x + ([g(b[j])] + y);
    assert Values(g, b[..j] + b[j + 1..]) == x + y;
    SumSplit(x, [g(b[j])] + y);
    SumSplit(x, y);
    assert ([g(b[j])] + y)[1..] == y;
  }

  lemma KeySumPermutes(a: seq<SymFreq>, b: seq<SymFreq>)
    requires multiset(a) == multiset(b)
    ensures |a| == |b| && Sum(Keys(a)) == Sum(Keys(b))
  {
    hide Sum;
    var g := (e: SymFreq) => e.key as nat;
    ValuesPermute(g, a, b);
    assert Values(g, a) == Keys(a) && Values(g, b) == Keys(b);
  }

  // ---------------------------------------------------------------- costs by symbol

  /** What an element costs if symbols have these lengths. */
  function CostOf(sizes: seq<nat>): SymFreq -> nat
  {
    (e: SymFreq) => if e.sym < |sizes| then e.key * sizes[e.sym] else 0
  }

  /** What room an element's code takes. */
  function RoomOf(sizes: seq<nat>, n: nat): SymFreq -> nat
  {
    (e: SymFreq) => if e.sym < |sizes| && sizes[e.sym] <= n then Pow2(n - sizes[e.sym]) else 0
  }

  lemma {:induction false} CostBySymbol(counts: seq<u16>, sizes: seq<nat>)
    requires |counts| <= |sizes| && |counts| < 0x1_0000
    ensures Sum(Values(CostOf(sizes), UsedSyms(counts))) == RankCost(counts, sizes[..|counts|])
  {
    hide Sum, UsedSyms;
    var g, n := CostOf(sizes), |counts|;
    if counts == [] {
      NothingUsed();
      assert Values(g, []) == [] && Products(counts, sizes[..0]) == [];
    } else {
      var init, last := counts[..n - 1], counts[n - 1];
      CostBySymbol(init, sizes);
      UsedLast(counts);
      CostNext(counts, sizes[..n], n);
      assert sizes[..n][..n - 1] == sizes[..n - 1] && counts[..n] == counts && sizes[..n][..n] == sizes[..n];
      if last > 0 {
        var e := SymFreq(last, n - 1);
        assert Values(g, UsedSyms(init) + [e]) == Values(g, UsedSyms(init)) + [g(e)];
        SumLast(Values(g, UsedSyms(init)), g(e));
      }
    }
  }

  lemma NothingUsed()
    ensures UsedSyms([]) == []
  {}

  lemma {:induction false} RoomBySymbol(counts: seq<u16>, sizes: seq<nat>, n: nat)
    requires |counts| <= |sizes| && |counts| < 0x1_0000 && forall s :: 0 <= s < |sizes| ==> sizes[s] <= n
    ensures Sum(Values(RoomOf(sizes, n), UsedSyms(counts))) <= Room(sizes[..|counts|], n)
  {
    hide Sum, UsedSyms, Room, Pow2;
    var g, m := RoomOf(sizes, n), |counts|;
    if counts == [] {
      NothingUsed();
      NoValues(g);
    } else {
      var init, last := counts[..m - 1], counts[m - 1];
      RoomBySymbol(init, sizes, n);
      UsedLast(counts);
      RoomSplit(sizes[..m - 1], [sizes[m - 1]], n);
      RoomOne(sizes[m - 1], n);
      assert sizes[..m] == sizes[..m - 1] + [sizes[m - 1]];
      if last > 0 {
        var e := SymFreq(last, m - 1);
        assert Values(g, UsedSyms(init) + [e]) == Values(g, UsedSyms(init)) + [g(e)];
        SumLast(Values(g, UsedSyms(init)), g(e));
      }
    }
  }

  lemma NoValues(g: SymFreq -> nat)
    ensures Sum(Values(g, [])) == 0
  {}

  lemma {:induction false} UsedSum(counts: seq<u16>)
    requires |counts| < 0x1_0000
    ensures Sum(Keys(UsedSyms(counts))) == Sum(counts)
  {
    if counts == [] {
      assert Keys(UsedSyms(counts)) == [];
    } else {
      var last := |counts| - 1;
      UsedSum(counts[..last]);
      var x, u := UsedSyms(counts[..last]), [counts[last]];
      assert counts == counts[..last] + u;
      SumSplit(counts[..last], u);
      assert Sum(u) == counts[last];
      if counts[last] > 0 {
        var e := [SymFreq(counts[last], last)];
        assert Keys(x + e) == Keys(x) + u;
        SumSplit(Keys(x), u);
      } else {
        assert x + [] == x;
      }
    }
  }

  /** The gathering loop. */
  method GatherUsed(counts: array<u16>, syms: array<SymFreq>) returns (n: nat)
    requires counts.Length <= syms.Length < 0x1_0000
    modifies syms
    ensures n <= counts.Length && syms[..n] == UsedSyms(counts[..])
  {
    n := 0;
    for i := 0 to counts.Length
      invariant n <= i && syms[..n] == UsedSyms(counts[..i])
    {
      assert counts[..i + 1][..i] == counts[..i];
      if counts[i] != 0 {
        syms[n] := SymFreq(counts[i], i);
        assert syms[..n + 1] == syms[..n] + [syms[n]];
        n := n + 1;
      }
    }
    assert counts[..counts.Length] == counts[..];
  }

  /** Counting the code lengths. */
  method CountLengths(sorted: array<SymFreq>, n: nat) returns (num: array<nat>)
    requires n <= sorted.Length && forall i :: 0 <= i < n ==> 1 <= sorted[i].key <= MAX_SUPPORTED
    ensures fresh(num) && num.Length == MAX_SUPPORTED + 1
    ensures forall l :: 1 <= l <= MAX_SUPPORTED ==> num[l] == CountLen(Keys(sorted[..n]), l)
  {
    num := new nat[MAX_SUPPORTED + 1](_ => 0);
    for i := 0 to n
      invariant forall l :: 1 <= l <= MAX_SUPPORTED ==> num[l] == CountLen(Keys(sorted[..i]), l)
    {
      assert Keys(sorted[..i + 1])[..i] == Keys(sorted[..i]);
      num[sorted[i].key] := num[sorted[i].key] + 1;
    }
  }

  // ---------------------------------------------------------------- the table

  /** Code lengths fit for the counts: a code for every symbol in use and for no other, nothing
      longer than `limit`, no more frequent symbol with a longer code, and a complete code as soon
      as two symbols are in use. */
  ghost predicate LengthsFor(counts: seq<u16>, sizes: seq<nat>, limit: nat)
  {
    && |sizes| == |counts| < 0x1_0000
    && (forall i :: 0 <= i < |counts| ==> (sizes[i] == 0 <==> counts[i] == 0) && sizes[i] <= limit)
    && (forall i, j :: 0 <= i < |counts| && 0 <= j < |counts| && counts[i] > counts[j] > 0 ==> sizes[i] <= sizes[j])
    && Roomy(sizes)
    && (|UsedSyms(counts)| >= 2 ==> Full(sizes))
    && (|UsedSyms(counts)| == 1 ==> forall i :: 0 <= i < |counts| ==> sizes[i] <= 1)
  }

  lemma LengthsFit(counts: seq<u16>, t: seq<SymFreq>, t': seq<SymFreq>, c: seq<nat>, sizes: seq<nat>, limit: nat)
    requires |sizes| == |counts| < 0x1_0000 && 1 <= limit <= MAX_LEN
    requires StableSort(UsedSyms(counts), t) && SameSymbols(t, t', |t|)
    requires Handed(t', sizes, 0, limit) && Counts(c, sizes, limit)
    requires |t| >= 2 ==> Exact(c, limit)
    requires |t| <= 1 ==> CountLen(sizes, 1) <= 1 && forall i :: 0 <= i < |sizes| ==> sizes[i] <= 1
    ensures LengthsFor(counts, sizes, limit)
  {
    hide Pow2, CountLen, FirstCode, EndCode, Share, UsedSyms;
    PermutedCounts(counts, t);
    assert |t| == |multiset(t)| && |UsedSyms(counts)| == |multiset(UsedSyms(counts))|;
    LengthsOrdered(counts, t, t', sizes, limit);
    if |t| >= 2 {
      ExactIsFull(c, sizes, limit);
      FullIsRoomy(sizes);
    } else {
      SingleIsRoomy(sizes);
    }
  }

  lemma FullIsRoomy(sizes: seq<nat>)
    requires Full(sizes)
    ensures Roomy(sizes)
  {}

  lemma LengthsOrdered(counts: seq<u16>, t: seq<SymFreq>, t': seq<SymFreq>, sizes: seq<nat>, limit: nat)
    requires |sizes| == |counts| < 0x1_0000 && 1 <= limit
    requires FromCounts(t, counts) && SortedByKey(t) && SameSymbols(t, t', |t|) && Handed(t', sizes, 0, limit)
    ensures forall i :: 0 <= i < |counts| ==> (sizes[i] == 0 <==> counts[i] == 0) && sizes[i] <= limit
    ensures forall i, j :: 0 <= i < |counts| && 0 <= j < |counts| && counts[i] > counts[j] > 0 ==> sizes[i] <= sizes[j]
  {
    forall i | 0 <= i < |counts| ensures (sizes[i] == 0 <==> counts[i] == 0) && sizes[i] <= limit {
      if counts[i] > 0 {
        var k := SlotOf(counts, t, t', i);
      } else {
        assert forall k :: 0 <= k < |t'| ==> t'[k].sym == t[k].sym;
      }
    }
    forall i, j | 0 <= i < |counts| && 0 <= j < |counts| && counts[i] > counts[j] > 0 ensures sizes[i] <= sizes[j] {
      var k := SlotOf(counts, t, t', i);
      var m := SlotOf(counts, t, t', j);
      assert m < k;
    }
  }

  lemma SlotOf(counts: seq<u16>, t: seq<SymFreq>, t': seq<SymFreq>, i: nat) returns (k: nat)
    requires i < |counts| < 0x1_0000 && counts[i] > 0 && FromCounts(t, counts) && SameSymbols(t, t', |t|)
    ensures k < |t| && t[k].sym == t'[k].sym == i && t[k].key == counts[i]
  {
    k :| 0 <= k < |t| && t[k] == SymFreq(counts[i], i);
  }

  lemma FewCodes(lens: seq<nat>, c: seq<nat>, limit: nat)
    requires |lens| <= 1 && (forall i :: 0 <= i < |lens| ==> lens[i] == 1)
    requires |c| == MAX_SUPPORTED + 1 && 1 <= limit <= MAX_SUPPORTED
    requires forall l :: 1 <= l <= MAX_SUPPORTED ==> c[l] == CountLen(lens, l)
    ensures Total(c, 1, limit + 1) == |lens| && c[1] == |lens|
    ensures forall l :: 2 <= l <= MAX_SUPPORTED ==> c[l] == 0
  {
    assert |lens| == 1 ==> lens == [1] && lens[..0] == [];
    forall l | 2 <= l <= MAX_SUPPORTED ensures c[l] == 0 { NoneOfLength(lens, l); }
    OnlyFirst(c, limit + 1);
  }

  lemma {:induction false} OnlyFirst(c: seq<nat>, hi: nat)
    requires 2 <= hi <= |c| && forall l :: 2 <= l < |c| ==> c[l] == 0
    ensures Total(c, 1, hi) == c[1]
    decreases hi
  {
    if hi > 2 { OnlyFirst(c, hi - 1); } else { assert Total(c, 1, 1) == 0; }
  }

  lemma SortedSymbols(counts: seq<u16>, t: seq<SymFreq>)
    requires |counts| < 0x1_0000 && StableSort(UsedSyms(counts), t)
    ensures FromCounts(t, counts) && |t| <= |counts|
    ensures Ascending(Keys(t)) && Sum(Keys(t)) == Sum(counts)
  {
    hide Sum;
    PermutedCounts(counts, t);
    KeySumPermutes(t, UsedSyms(counts));
    UsedSum(counts);
  }

  /** Lengths for the counts cost at most one bit more for each symbol sent than any lengths that leave
      room for all symbols; a quarter of that with few symbols. */
  ghost predicate Frugal(counts: seq<nat>, sizes: seq<nat>)
    requires |counts| == |sizes|
  {
    forall other: seq<nat>, n: nat :: |other| == |counts| && Competes(other, n) ==>
      && RankCost(counts, sizes) <= RankCost(counts, other) + Sum(counts)
      && (|counts| <= 32 ==> 4 * RankCost(counts, sizes) <= 4 * RankCost(counts, other) + Sum(counts))
  }

  ghost predicate Competes(other: seq<nat>, n: nat)
  {
    (forall s :: 0 <= s < |other| ==> 1 <= other[s] <= n) && Room(other, n) <= Pow2(n)
  }

  /** The same by rank. */
  ghost predicate FrugalRanks(f: seq<nat>, z: seq<nat>)
    requires |f| == |z|
  {
    forall other: seq<nat>, n: nat :: |other| == |f| && Competes(other, n) ==>
      && RankCost(f, z) <= RankCost(f, other) + Sum(f)
      && (|f| <= 32 ==> 4 * RankCost(f, z) <= 4 * RankCost(f, other) + Sum(f))
  }

  /** Optimal lengths, their counts, and the limit: how many codes of each length there will be. */
  method CodeLengthCounts(sorted: array<SymFreq>, n: nat, limit: nat) returns (num: array<nat>, ghost z: seq<nat>)
    requires n <= sorted.Length < 0x1_0000 && 1 <= limit <= MAX_LEN && n <= Pow2(limit)
    requires Ascending(Keys(sorted[..n])) && Sum(Keys(sorted[..n])) < 0x1_0000
    requires forall k :: 0 <= k < n ==> sorted[k].key >= 1
    modifies sorted
    ensures SameSymbols(old(sorted[..n]), sorted[..n], n)
    ensures fresh(num) && num.Length == MAX_SUPPORTED + 1 && Total(num[..], 1, limit + 1) == n
    ensures n >= 2 ==> Exact(num[..], limit)
    ensures n <= 1 ==> num[1] <= 1 && forall l :: 2 <= l <= limit ==> num[l] == 0
    ensures |z| == n && Ranked(z, limit) && Matches(num[..], z, limit)
    ensures limit == MAX_LEN && n <= 288 ==> FrugalRanks(old(Keys(sorted[..n])), z)
  {
    hide Sum, Pow2, CountLen, Total, Share, Exact, RankCost, Optimal, Tight, Rare, Limited, FrugalRanks;
    ghost var f := Keys(sorted[..n]);
    CalculateMinimumRedundancy(sorted, n);
    num := CountLengths(sorted, n);
    ghost var z0, c := Keys(sorted[..n]), num[..];
    LengthCounts(f, z0, c, limit);
    EnforceMaxCodeSize(num, n, limit);
    if n <= 1 {
      z := z0;
      FewRanks(f, z0);
    } else {
      z := LimitedRanks(f, z0, c, num[..], limit);
      if limit == MAX_LEN && n <= 288 { RanksFrugal(f, z0, z); }
    }
  }

  lemma FewRanks(f: seq<nat>, z: seq<nat>)
    requires |f| == |z| <= 1 && forall r :: 0 <= r < |z| ==> z[r] == 1
    ensures FrugalRanks(f, z)
  {
    forall other: seq<nat>, n: nat | |other| == |f| && Competes(other, n) ensures RankCost(f, z) <= RankCost(f, other) {
      hide Room;
      if f == [] {
        NoCost(f, z);
      } else {
        OneCost(f, z);
        OneCost(f, other);
        MulMono(z[0], other[0], f[0]);
      }
    }
  }

  lemma OneCost(f: seq<nat>, z: seq<nat>)
    requires |f| == |z| == 1
    ensures RankCost(f, z) == f[0] * z[0]
  {
    assert f[..1] == f && z[..1] == z;
    CostNext(f, z, 1);
    NoCost(f[..0], z[..0]);
  }

  /** From the optimal lengths to the limited ones. */
  lemma RanksFrugal(f: seq<nat>, z0: seq<nat>, z: seq<nat>)
    requires |f| == |z0| == |z| && Optimal(f, z0)
    requires RankCost(f, z) <= RankCost(f, z0) + Sum(f) && (|f| <= 32 ==> 4 * RankCost(f, z) <= 4 * RankCost(f, z0) + Sum(f))
    ensures FrugalRanks(f, z)
  {
    hide Sum;
    forall other: seq<nat>, n: nat | |other| == |f| && Competes(other, n) ensures RankCost(f, z0) <= RankCost(f, other) {
      KraftIsSum(f, other, n);
      CostIsSum(f, other);
      CostIsSum(f, z0);
    }
  }

  /** From ranks to symbols. */
  lemma SymbolsFrugal(counts: seq<u16>, t: seq<SymFreq>, sizes: seq<nat>)
    requires |counts| == |sizes| < 0x1_0000 && StableSort(UsedSyms(counts), t)
    requires (forall k :: 0 <= k < |t| ==> t[k].sym < |sizes|) && FrugalRanks(Keys(t), Picked(t, sizes))
    ensures Frugal(counts, sizes)
  {
    hide Sum, UsedSyms, RankCost, FrugalRanks, Room;
    SortedSymbols(counts, t);
    assert |t| <= |counts|;
    forall other: seq<nat>, n: nat | |other| == |counts| && Competes(other, n)
      ensures RankCost(counts, sizes) <= RankCost(counts, other) + Sum(counts)
      ensures |counts| <= 32 ==> 4 * RankCost(counts, sizes) <= 4 * RankCost(counts, other) + Sum(counts)
    {
      CostByRank(counts, t, sizes);
      CostByRank(counts, t, other);
      PickedCompetes(counts, t, other, n);
      RanksAgainst(Keys(t), Picked(t, sizes), Picked(t, other), n);
    }
  }

  lemma RanksAgainst(f: seq<nat>, z: seq<nat>, other: seq<nat>, n: nat)
    requires |f| == |z| == |other| && FrugalRanks(f, z) && Competes(other, n)
    ensures RankCost(f, z) <= RankCost(f, other) + Sum(f)
    ensures |f| <= 32 ==> 4 * RankCost(f, z) <= 4 * RankCost(f, other) + Sum(f)
  {}

  lemma CostByRank(counts: seq<u16>, t: seq<SymFreq>, sizes: seq<nat>)
    requires |counts| == |sizes| < 0x1_0000 && multiset(t) == multiset(UsedSyms(counts))
    requires forall k :: 0 <= k < |t| ==> t[k].sym < |sizes|
    ensures RankCost(counts, sizes) == RankCost(Keys(t), Picked(t, sizes))
  {
    hide Sum, UsedSyms;
    CostBySymbol(counts, sizes);
    ValuesPermute(CostOf(sizes), t, UsedSyms(counts));
    assert sizes[..|counts|] == sizes;
    assert Values(CostOf(sizes), t) == Products(Keys(t), Picked(t, sizes));
  }

  lemma PickedCompetes(counts: seq<u16>, t: seq<SymFreq>, other: seq<nat>, n: nat)
    requires |counts| == |other| < 0x1_0000 && multiset(t) == multiset(UsedSyms(counts)) && Competes(other, n)
    requires forall k :: 0 <= k < |t| ==> t[k].sym < |other|
    ensures Competes(Picked(t, other), n)
  {
    hide Sum, UsedSyms, Pow2;
    RoomBySymbol(counts, other, n);
    ValuesPermute(RoomOf(other, n), t, UsedSyms(counts));
    assert other[..|counts|] == other;
    assert Values(RoomOf(other, n), t) == Shares(Picked(t, other), n);
  }

  /** The counts of the optimal lengths meet what the length limiter asks for. */
  lemma LengthCounts(f: seq<nat>, lens: seq<nat>, c: seq<nat>, limit: nat)
    requires |f| == |lens| && |c| == MAX_SUPPORTED + 1 && 1 <= limit <= MAX_LEN
    requires forall i :: 0 <= i < |lens| ==> 1 <= lens[i] <= 22
    requires forall l :: 1 <= l <= MAX_SUPPORTED ==> c[l] == CountLen(lens, l)
    requires |lens| >= 2 ==> Tight(f, lens)
    requires |lens| == 1 ==> lens[0] == 1
    ensures Total(c, 1, |c|) == |lens|
    ensures |lens| > 1 ==> Exact(c, MAX_SUPPORTED)
    ensures |lens| <= 1 ==> Total(c, 1, limit + 1) == |lens| && c[1] <= 1 && forall l :: 2 <= l <= limit ==> c[l] == 0
  {
    hide Pow2, CountLen, Total, Share;
    KraftByCounts(f, lens, c, MAX_SUPPORTED);
    if |lens| <= 1 {
      FewCodes(lens, c, limit);
    }
  }

  lemma FewLengths(c: seq<nat>, sizes: seq<nat>, limit: nat)
    requires Counts(c, sizes, limit) && 1 <= limit && c[1] <= 1
    requires forall i :: 0 <= i < |sizes| ==> sizes[i] <= limit
    requires forall l :: 2 <= l <= limit ==> c[l] == 0
    ensures CountLen(sizes, 1) <= 1 && forall i :: 0 <= i < |sizes| ==> sizes[i] <= 1
  {
    forall i | 0 <= i < |sizes| ensures sizes[i] <= 1 {
      RankOrder(sizes, i, |sizes|);
      assert sizes[..|sizes|] == sizes;
    }
  }

  lemma HandedBound(t: seq<SymFreq>, sizes: seq<nat>, limit: nat)
    requires Handed(t, sizes, 0, limit)
    ensures forall i :: 0 <= i < |sizes| ==> sizes[i] <= limit
  {}

  /** From counts to code lengths and codes. */
  method OptimizeHuffmanTable(counts: array<u16>, sizes: array<nat>, codes: array<nat>, limit: nat)
    requires counts.Length == sizes.Length == codes.Length < 0x1_0000 && sizes != codes
    requires 1 <= limit <= MAX_LEN && counts.Length <= Pow2(limit) && Sum(counts[..]) < 0x1_0000
    modifies sizes, codes
    ensures LengthsFor(counts[..], sizes[..], limit) && CodesFor(sizes[..], codes[..])
    ensures limit == MAX_LEN && counts.Length <= 288 ==> Frugal(counts[..], sizes[..])
  {
    hide Sum, Pow2, CountLen, Total, Share, UsedSyms, RevCode, Handed, Frugal, FrugalRanks;
    var syms0 := new SymFreq[counts.Length](_ => SymFreq(0, 0));
    var syms1 := new SymFreq[counts.Length](_ => SymFreq(0, 0));
    var n := GatherUsed(counts, syms0);
    var sorted := RadixSortSyms(n, syms0, syms1);
    ghost var t := sorted[..n];
    SortedSymbols(counts[..], t);
    ghost var z := counts[..];
    var num;
    ghost var ranks;
    num, ranks := CodeLengthCounts(sorted, n, limit);
    assert counts[..] == z;
    FillTable(sorted, n, num, limit, sizes, codes, counts[..], t, ranks);
  }

  /** The part after the length limit: lengths from the counts, then codes. */
  method FillTable(sorted: array<SymFreq>, n: nat, num: array<nat>, limit: nat, sizes: array<nat>, codes: array<nat>,
                   ghost counts: seq<u16>, ghost t: seq<SymFreq>, ghost ranks: seq<nat>)
    requires |counts| == sizes.Length == codes.Length < 0x1_0000 && sizes != codes && num != sizes && num != codes
    requires n == |t| <= sorted.Length && 1 <= limit <= MAX_LEN && num.Length == MAX_SUPPORTED + 1
    requires StableSort(UsedSyms(counts), t) && SameSymbols(t, sorted[..n], n)
    requires Total(num[..], 1, limit + 1) == n
    requires n >= 2 ==> Exact(num[..], limit)
    requires n <= 1 ==> num[1] <= 1 && forall l :: 2 <= l <= limit ==> num[l] == 0
    requires |ranks| == n && Ranked(ranks, limit) && Matches(num[..], ranks, limit)
    modifies sizes, codes
    ensures LengthsFor(counts, sizes[..], limit) && CodesFor(sizes[..], codes[..])
    ensures FrugalRanks(Keys(t), ranks) ==> Frugal(counts, sizes[..])
  {
    hide Pow2, CountLen, Total, Share, Exact, UsedSyms, RevCode, Handed, Frugal, FrugalRanks, Ranked, Matches;
    ghost var t', c := sorted[..n], num[..];
    forall i | 0 <= i < sizes.Length { sizes[i] := 0; }
    forall i | 0 <= i < codes.Length { codes[i] := 0; }
    assert num[..] == c && sorted[..n] == t';
    SymbolsCarryOver(counts, t, t');
    AssignSizes(sorted, n, num, limit, sizes);
    ghost var z := sizes[..];
    assert num[..] == c && sorted[..n] == t';
    HandedBound(t', z, limit);
    if n <= 1 {
      FewLengths(c, z, limit);
    }
    LengthsFit(counts, t, t', c, z, limit);
    HandedByRank(t', z, c, ranks, limit);
    if FrugalRanks(Keys(t), ranks) { FrugalTable(counts, t, t', z, ranks); }
    AssignCodes(sizes, codes, num, limit);
    assert sizes[..] == z;
  }

  lemma FrugalTable(counts: seq<u16>, t: seq<SymFreq>, t': seq<SymFreq>, sizes: seq<nat>, ranks: seq<nat>)
    requires |counts| == |sizes| < 0x1_0000 && StableSort(UsedSyms(counts), t) && SameSymbols(t, t', |t|)
    requires (forall k :: 0 <= k < |t'| ==> t'[k].sym < |sizes|) && Picked(t', sizes) == ranks && FrugalRanks(Keys(t), ranks)
    ensures Frugal(counts, sizes)
  {
    hide UsedSyms, Frugal, FrugalRanks;
    assert Picked(t, sizes) == Picked(t', sizes);
    SymbolsFrugal(counts, t, sizes);
  }

  lemma SymbolsCarryOver(counts: seq<u16>, t: seq<SymFreq>, t': seq<SymFreq>)
    requires |counts| < 0x1_0000 && StableSort(UsedSyms(counts), t) && SameSymbols(t, t', |t|)
    ensures DistinctSymbols(t') && forall k :: 0 <= k < |t'| ==> t'[k].sym < |counts|
  {
    PermutedCounts(counts, t);
    forall k, m | 0 <= k < m < |t'| ensures t'[k].sym != t'[m].sym {
      assert t[k].sym != t[m].sym;
    }
  }
}
