/** Limiting the code lengths (`tdefl_huffman_enforce_max_code_size`): from the number of codes of
    each length, an over-long code is traded for splitting a shorter one until the code space is
    used up exactly again. */
module LengthLimit {
  import opened Bits

  const MAX_SUPPORTED := 32

  /** Number of codes of length `lo` up to but not including `hi`. */
  function Total(c: seq<nat>, lo: nat, hi: nat): nat
    requires lo <= hi <= |c|
    decreases hi
  {
    if lo == hi then 0 else Total(c, lo, hi - 1) + c[hi - 1]
  }

  /** Kraft's sum of the codes of length `lo` up to but not including `hi`, scaled by `2^n`. */
  function Share(c: seq<nat>, lo: nat, hi: nat, n: nat): nat
    requires lo <= hi <= |c| && hi <= n + 1
    decreases hi
  {
    if lo == hi then 0 else Share(c, lo, hi - 1, n) + c[hi - 1] * Pow2(n - (hi - 1))
  }

  /** The counts describe a complete code: lengths 1 to `n` use up the code space exactly. */
  predicate Exact(c: seq<nat>, n: nat)
    requires n < |c|
  {
    Share(c, 1, n + 1, n) == Pow2(n)
  }

  lemma {:induction false} TotalUpdate(c: seq<nat>, lo: nat, hi: nat, j: nat, v: nat)
    requires lo <= hi <= |c| && j < |c|
    ensures Total(c[j := v], lo, hi) == Total(c, lo, hi) + if lo <= j < hi then v - c[j] else 0
    decreases hi
  {
    if lo < hi { TotalUpdate(c, lo, hi - 1, j, v); }
  }

  lemma {:induction false} ShareUpdate(c: seq<nat>, lo: nat, hi: nat, n: nat, j: nat, v: nat)
    requires lo <= hi <= |c| && hi <= n + 1 && j < |c|
    ensures Share(c[j := v], lo, hi, n) == Share(c, lo, hi, n) + if lo <= j < hi then (v - c[j]) * Pow2(n - j) else 0
    decreases hi
  {
    if lo < hi {
      ShareUpdate(c, lo, hi - 1, n, j, v);
      if j == hi - 1 {
        MulAdd(v - c[j], c[j], Pow2(n - j));
      }
    }
  }

  lemma {:induction false} ShareScale(c: seq<nat>, lo: nat, hi: nat, m: nat, n: nat)
    requires lo <= hi <= |c| && hi <= m + 1 && m <= n
    ensures Share(c, lo, hi, n) == Share(c, lo, hi, m) * Pow2(n - m)
    decreases hi
  {
    if lo < hi {
      ShareScale(c, lo, hi - 1, m, n);
      Pow2Add(m - (hi - 1), n - m);
      ScaleStep(Share(c, lo, hi - 1, m), c[hi - 1], Pow2(m - (hi - 1)), Pow2(n - m));
    }
  }

  lemma ScaleStep(s: nat, x: nat, p: nat, u: nat)
    ensures (s + x * p) * u == s * u + x * (p * u)
  {
    MulAdd(s, x * p, u);
    assert (x * p) * u == x * (p * u);
  }

  lemma {:induction false} ShareSplit(c: seq<nat>, lo: nat, mid: nat, hi: nat, n: nat)
    requires lo <= mid <= hi <= |c| && hi <= n + 1
    ensures Share(c, lo, hi, n) == Share(c, lo, mid, n) + Share(c, mid, hi, n)
    ensures Total(c, lo, hi) == Total(c, lo, mid) + Total(c, mid, hi)
    decreases hi
  {
    if mid < hi { ShareSplit(c, lo, mid, hi - 1, n); }
  }

  /** Codes longer than `m` each take between nothing and half of what a code of length `m` takes. */
  lemma {:induction false} LongShare(c: seq<nat>, m: nat, hi: nat, n: nat)
    requires m < hi <= |c| && hi <= n + 1
    ensures 2 * Share(c, m + 1, hi, n) <= Total(c, m + 1, hi) * Pow2(n - m)
    ensures Total(c, m + 1, hi) <= Share(c, m + 1, hi, n)
    decreases hi
  {
    if m + 1 < hi {
      LongShare(c, m, hi - 1, n);
      Pow2Mono(n - (hi - 1), n - m - 1);
      LongStep(Share(c, m + 1, hi - 1, n), Total(c, m + 1, hi - 1), c[hi - 1], Pow2(n - (hi - 1)), Pow2(n - m));
    }
  }

  lemma LongStep(s: nat, t: nat, x: nat, p: nat, u: nat)
    requires 2 * s <= t * u && t <= s && 1 <= p && 2 * p <= u
    ensures 2 * (s + x * p) <= (t + x) * u && t + x <= s + x * p
  {
    MulAdd(t, x, u);
    MulMono(2 * p, u, x);
    MulMono(1, p, x);
  }

  lemma {:induction false} ShareBound(c: seq<nat>, hi: nat, m: nat)
    requires 1 <= hi <= |c| && hi <= m + 1 && m >= 1
    ensures Share(c, 1, hi, m) <= Total(c, 1, hi) * Pow2(m - 1)
    decreases hi
  {
    if 1 < hi {
      ShareBound(c, hi - 1, m);
      MulAdd(Total(c, 1, hi - 1), c[hi - 1], Pow2(m - 1));
      Pow2Mono(m - (hi - 1), m - 1);
      MulMono(Pow2(m - (hi - 1)), Pow2(m - 1), c[hi - 1]);
    }
  }

  /** After the clamp the excess is less than the number of clamped codes. */
  lemma ClampExcess(c: seq<nat>, m: nat)
    requires |c| == MAX_SUPPORTED + 1 && 1 <= m <= MAX_SUPPORTED && Exact(c, MAX_SUPPORTED)
    ensures var t := Total(c, m + 1, |c|);
      var total := Share(c[m := c[m] + t], 1, m + 1, m);
      && Pow2(m) <= total && (t > 0 ==> total - Pow2(m) < t) && (t == 0 ==> total == Pow2(m) && c[m := c[m] + t] == c)
  {
    hide Share, Total;
    var t := Total(c, m + 1, |c|);
    SplitCodeSpace(c, m);
    LongShare(c, m, |c|, MAX_SUPPORTED);
    ShareAdd(c, m, m, t);
    ExcessArithmetic(Share(c, 1, m + 1, m), t, Share(c, m + 1, |c|, MAX_SUPPORTED), Pow2(m), Pow2(MAX_SUPPORTED - m));
  }

  lemma SplitCodeSpace(c: seq<nat>, m: nat)
    requires |c| == MAX_SUPPORTED + 1 && 1 <= m <= MAX_SUPPORTED && Exact(c, MAX_SUPPORTED)
    ensures Share(c, 1, m + 1, m) * Pow2(MAX_SUPPORTED - m) + Share(c, m + 1, |c|, MAX_SUPPORTED)
         == Pow2(m) * Pow2(MAX_SUPPORTED - m)
  {
    ShareSplit(c, 1, m + 1, |c|, MAX_SUPPORTED);
    ShareScale(c, 1, m + 1, m, MAX_SUPPORTED);
    Pow2Add(m, MAX_SUPPORTED - m);
  }

  lemma ExcessArithmetic(s: nat, t: nat, x: nat, full: nat, unit: nat)
    requires unit >= 1 && s * unit + x == full * unit && 2 * x <= t * unit && t <= x
    ensures full <= s + t && (t > 0 ==> s + t - full < t) && (t == 0 ==> s == full)
  {
    MulAdd(s, t, unit);
    MulLess(full, s + t + 1, unit) by {
      MulAdd(s + t, 1, unit);
    }
    if t > 0 {
      MulLess(s, full, unit);
    } else {
      assert t * unit == 0;
      MulLess(s, full + 1, unit) by { MulAdd(full, 1, unit); }
    }
  }

  /** Trading a code of length `m` and one of length `i < m` for two of length `i + 1`. */
  function Traded(c: seq<nat>, m: nat, i: nat): seq<nat>
    requires 1 <= i < m < |c| && c[m] >= 1 && c[i] >= 1
  {
    var c1 := c[m := c[m] - 1];
    var c2 := c1[i := c1[i] - 1];
    c2[i + 1 := c2[i + 1] + 2]
  }

  lemma TradeEffect(c: seq<nat>, m: nat, i: nat)
    requires 1 <= i < m < |c| && c[m] >= 1 && c[i] >= 1
    ensures var c' := Traded(c, m, i);
      Total(c', 1, m + 1) == Total(c, 1, m + 1) && Share(c', 1, m + 1, m) == Share(c, 1, m + 1, m) - 1
  {
    TradeTotal(c, m, i);
    TradeShare(c, m, i);
  }

  lemma TradeTotal(c: seq<nat>, m: nat, i: nat)
    requires 1 <= i < m < |c| && c[m] >= 1 && c[i] >= 1
    ensures Total(Traded(c, m, i), 1, m + 1) == Total(c, 1, m + 1)
  {
    hide Total;
    var c1 := c[m := c[m] - 1];
    var c2 := c1[i := c1[i] - 1];
    TotalUpdate(c, 1, m + 1, m, c[m] - 1);
    TotalUpdate(c1, 1, m + 1, i, c1[i] - 1);
    TotalUpdate(c2, 1, m + 1, i + 1, c2[i + 1] + 2);
  }

  lemma TradeShare(c: seq<nat>, m: nat, i: nat)
    requires 1 <= i < m < |c| && c[m] >= 1 && c[i] >= 1
    ensures Share(Traded(c, m, i), 1, m + 1, m) == Share(c, 1, m + 1, m) - 1
  {
    hide Share;
    var c1 := c[m := c[m] - 1];
    var c2 := c1[i := c1[i] - 1];
    ShareAdd(c, m, m, -1);
    ShareAdd(c1, m, i, -1);
    ShareAdd(c2, m, i + 1, 2);
    assert Pow2(m - i) == 2 * Pow2(m - (i + 1));
    assert Pow2(m - m) == 1;
  }

  lemma ShareAdd(c: seq<nat>, m: nat, j: nat, x: int)
    requires 1 <= j <= m < |c| && c[j] + x >= 0
    ensures Share(c[j := c[j] + x], 1, m + 1, m) == Share(c, 1, m + 1, m) + x * Pow2(m - j)
  {
    ShareUpdate(c, 1, m + 1, m, j, c[j] + x);
  }

  /** While there is an excess, some code is shorter than `m`. */
  lemma {:induction false} ShorterExists(c: seq<nat>, hi: nat, m: nat) returns (i: nat)
    requires 1 <= hi <= m < |c| && Share(c, 1, hi, m) > 0
    ensures 1 <= i < hi && c[i] > 0
    decreases hi
  {
    i := hi - 1;
    if c[hi - 1] == 0 { i := ShorterExists(c, hi - 1, m); }
  }

  lemma ExcessMeansShorter(c: seq<nat>, m: nat) returns (i: nat)
    requires 1 <= m < |c| && Total(c, 1, m + 1) <= Pow2(m) < Share(c, 1, m + 1, m)
    ensures 1 <= i < m && c[i] > 0
  {
    assert Share(c, 1, m + 1, m) == Share(c, 1, m, m) + c[m] * Pow2(0);
    i := ShorterExists(c, m, m);
  }

  // ---------------------------------------------------------------- the sequence of trades

  /** The length that the inner loop picks: the longest one below `hi` that has a code. */
  function Longest(c: seq<nat>, hi: nat): (i: nat)
    requires hi <= |c|
    ensures i == 0 || (1 <= i < hi && c[i] > 0)
    ensures forall k :: i < k < hi ==> c[k] == 0
  {
    if hi <= 1 then 0 else if c[hi - 1] > 0 then hi - 1 else Longest(c, hi - 1)
  }

  predicate CanTrade(c: seq<nat>, m: nat)
  {
    1 <= m < |c| && c[m] >= 1 && Longest(c, m) >= 1
  }

  /** What `k` rounds of the outer loop make of the counts. */
  function TradeMany(c: seq<nat>, m: nat, k: nat): seq<nat>
    decreases k
  {
    if k == 0 || !CanTrade(c, m) then c else TradeMany(Traded(c, m, Longest(c, m)), m, k - 1)
  }

  /** What the first loop makes of them. */
  function Clamped(c: seq<nat>, m: nat): seq<nat>
    requires m < |c|
  {
    c[m := c[m] + Total(c, m + 1, |c|)]
  }

  /** The inner loop: splits the longest code shorter than `max`. */
  method SplitShorter(num: array<nat>, max: nat, ghost w: nat) returns (ghost i: nat)
    requires 1 <= w < max < num.Length && num[w] > 0
    modifies num
    ensures var c := old(num[..]); 1 <= i < max && c[i] > 0 && forall k :: i < k < max ==> c[k] == 0
    ensures var c := old(num[..]); num[..] == c[i := c[i] - 1][i + 1 := c[i + 1] + 2]
  {
    var k := max - 1;
    i := k;
    while k > 0
      invariant w <= k < max && i == k
      invariant num[..] == old(num[..]) && forall l :: k < l < max ==> num[l] == 0
    {
      if num[k] != 0 {
        num[k] := num[k] - 1;
        num[k + 1] := num[k + 1] + 2;
        assert num[..] == old(num[..])[k := old(num[k]) - 1][k + 1 := old(num[k + 1]) + 2];
        break;
      }
      k := k - 1;
      i := k;
    }
  }

  /** The codes that are too long become codes of length `m`, and one trade for each unit of the
      excess follows. */
  ghost predicate Limited(c: seq<nat>, c': seq<nat>, m: nat)
  {
    && 1 <= m < |c| && Share(Clamped(c, m), 1, m + 1, m) >= Pow2(m)
    && c' == TradeMany(Clamped(c, m), m, Share(Clamped(c, m), 1, m + 1, m) - Pow2(m))
  }

  method EnforceMaxCodeSize(num: array<nat>, codeListLen: nat, max: nat)
    requires num.Length == MAX_SUPPORTED + 1 && 1 <= max <= 15
    requires Total(num[..], 1, num.Length) == codeListLen <= Pow2(max)
    requires codeListLen > 1 ==> Exact(num[..], MAX_SUPPORTED)
    modifies num
    ensures codeListLen <= 1 ==> num[..] == old(num[..])
    ensures codeListLen > 1 ==> Exact(num[..], max) && Total(num[..], 1, max + 1) == codeListLen
    ensures codeListLen > 1 ==> Limited(old(num[..]), num[..], max)
    ensures codeListLen > 1 && old(Total(num[..], max + 1, num.Length)) == 0 ==> num[..] == old(num[..])
  {
    hide Share, Total, Pow2, TradeMany, Longest;
    if codeListLen <= 1 {
      return;
    }
    ghost var c0 := num[..];
    ClampExcess(c0, max);
    Clamp(num, max);
    ghost var c1 := num[..];
    var total := KraftTotal(num, max, codeListLen);
    while total != Pow2(max)
      invariant total == Share(num[..], 1, max + 1, max) >= Pow2(max)
      invariant Total(num[..], 1, max + 1) == codeListLen
      invariant total > Pow2(max) ==> num[max] > total - Pow2(max)
      invariant Exact(c1, max) ==> num[..] == c1
      invariant TradeMany(num[..], max, total - Pow2(max)) == TradeMany(c1, max, Share(c1, 1, max + 1, max) - Pow2(max))
      decreases total
    {
      ghost var c := num[..];
      TradeOne(num, max, total);
      total := total - 1;
      OneTrade(c, max, total - Pow2(max));
    }
    NoTrade(num[..], max);
  }

  /** One round of the outer loop. */
  method TradeOne(num: array<nat>, max: nat, ghost total: nat)
    requires 1 <= max < num.Length && total == Share(num[..], 1, max + 1, max) > Pow2(max)
    requires Total(num[..], 1, max + 1) <= Pow2(max) && num[max] > total - Pow2(max)
    modifies num
    ensures Total(num[..], 1, max + 1) == old(Total(num[..], 1, max + 1))
    ensures Share(num[..], 1, max + 1, max) == total - 1
    ensures num[max] >= old(num[max]) - 1
    ensures CanTrade(old(num[..]), max) && num[..] == Traded(old(num[..]), max, Longest(old(num[..]), max))
  {
    hide Total, Share, Longest;
    ghost var c := num[..];
    ghost var w := ExcessMeansShorter(c, max);
    num[max] := num[max] - 1;
    assert num[..] == c[max := c[max] - 1];
    ghost var i := SplitShorter(num, max, w);
    assert forall k :: 0 <= k < max ==> c[max := c[max] - 1][k] == c[k];
    IsLongest(c, max, i);
    assert num[..] == Traded(c, max, i);
    TradeEffect(c, max, i);
  }

  lemma IsLongest(c: seq<nat>, hi: nat, i: nat)
    requires 1 <= i < hi <= |c| && c[i] > 0 && forall k :: i < k < hi ==> c[k] == 0
    ensures Longest(c, hi) == i
  {
    hide Longest;
    assert Longest(c, hi) >= i;
  }

  lemma NoTrade(c: seq<nat>, m: nat)
    ensures TradeMany(c, m, 0) == c
  {}

  lemma OneTrade(c: seq<nat>, m: nat, k: nat)
    requires CanTrade(c, m)
    ensures TradeMany(c, m, k + 1) == TradeMany(Traded(c, m, Longest(c, m)), m, k)
  {}

  lemma TotalSteps(c: seq<nat>, lo: nat, i: nat)
    requires lo <= i < |c|
    ensures Total(c, lo, i + 1) == Total(c, lo, i) + c[i]
  {}

  lemma NoTotal(c: seq<nat>, lo: nat)
    requires lo <= |c|
    ensures Total(c, lo, lo) == 0
  {}

  /** The first loop: every longer code becomes a code of length `max`. */
  method Clamp(num: array<nat>, max: nat)
    requires num.Length == MAX_SUPPORTED + 1 && 1 <= max <= MAX_SUPPORTED
    modifies num
    ensures var c := old(num[..]); num[..] == c[max := c[max] + Total(c, max + 1, |c|)]
    ensures var c := old(num[..]); Total(num[..], 1, max + 1) == Total(c, 1, |c|)
  {
    hide Total, Share;
    ghost var c := num[..];
    NoTotal(c, max + 1);
    for i := max + 1 to num.Length
      invariant num[..] == c[max := c[max] + Total(c, max + 1, i)]
    {
      TotalSteps(c, max + 1, i);
      num[max] := num[max] + num[i];
    }
    TotalUpdate(c, 1, max + 1, max, num[max]);
    ShareSplit(c, 1, max + 1, |c|, MAX_SUPPORTED);
  }

  /** The second loop: Kraft's sum, which fits 32 bits. */
  method KraftTotal(num: array<nat>, max: nat, codeListLen: nat) returns (total: u32)
    requires 1 <= max <= 15 && max < num.Length && Total(num[..], 1, max + 1) == codeListLen <= Pow2(max)
    ensures total == Share(num[..], 1, max + 1, max)
  {
    hide Share, Total, Pow2;
    ghost var c := num[..];
    FitsU32(c, max);
    ShareNone(c, max);
    total := 0;
    var i := max;
    while i > 0
      invariant 0 <= i <= max
      invariant total == Share(c, i + 1, max + 1, max)
    {
      ShareSplit(c, i, i + 1, max + 1, max);
      ShareSplit(c, 1, i, max + 1, max);
      ShareOne(c, i, max);
      total := total + num[i] * Pow2(max - i);
      i := i - 1;
    }
  }

  lemma ShareNone(c: seq<nat>, m: nat)
    requires m < |c|
    ensures Share(c, m + 1, m + 1, m) == 0
  {}

  lemma ShareOne(c: seq<nat>, i: nat, m: nat)
    requires 1 <= i <= m < |c|
    ensures Share(c, i, i + 1, m) == c[i] * Pow2(m - i)
  {
    assert Share(c, i, i, m) == 0;
  }

  lemma FitsU32(c: seq<nat>, m: nat)
    requires 1 <= m <= 15 && m < |c| && Total(c, 1, m + 1) <= Pow2(m)
    ensures Share(c, 1, m + 1, m) < 0x1_0000_0000
  {
    ShareBound(c, m + 1, m);
    SquareFits(Total(c, 1, m + 1), m);
  }

  lemma SquareFits(t: nat, m: nat)
    requires 1 <= m <= 15 && t <= Pow2(m)
    ensures t * Pow2(m - 1) < 0x1_0000_0000
  {
    Pow2Mono(m, 15);
    Pow2Mono(m - 1, 15);
    assert Pow2(15) == 0x8000;
    MulMono(t, 0x8000, Pow2(m - 1));
  }
}
