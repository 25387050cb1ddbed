/** Canonical Huffman codes (section 3.2.2 of RFC 1951): the lengths alone determine the codes, and
    both the compressor and the decompressor number them the same way. */
module Canonical {
  import opened Bits

  const MAX_LEN := 15

  /** How many symbols have code length `l`. */
  function CountLen(sizes: seq<nat>, l: nat): (c: nat)
    ensures c <= |sizes|
  {
    if sizes == [] then 0 else
      CountLen(sizes[..|sizes| - 1], l) + if sizes[|sizes| - 1] == l then 1 else 0
  }

  /** The smallest code of length `l`. */
  function FirstCode(sizes: seq<nat>, l: nat): nat
  {
    if l <= 1 then 0 else 2 * (FirstCode(sizes, l - 1) + CountLen(sizes, l - 1))
  }

  /** One more than the greatest code of length `l`: the number of bit strings of that length
      that start with a code of length at most `l`. */
  function EndCode(sizes: seq<nat>, l: nat): nat
  {
    FirstCode(sizes, l) + CountLen(sizes, l)
  }

  predicate Used(sizes: seq<nat>, s: nat)
  {
    s < |sizes| && 1 <= sizes[s] <= MAX_LEN
  }

  predicate ValidSizes(sizes: seq<nat>)
  {
    forall s :: 0 <= s < |sizes| ==> sizes[s] <= MAX_LEN
  }

  /** The code space is used up exactly. */
  predicate Full(sizes: seq<nat>)
  {
    EndCode(sizes, MAX_LEN) == Pow2(MAX_LEN)
  }

  /** No more codes than there is room for. */
  predicate Roomy(sizes: seq<nat>)
  {
    EndCode(sizes, MAX_LEN) <= Pow2(MAX_LEN)
  }

  /** Codes of equal length are numbered in symbol order. */
  function Code(sizes: seq<nat>, s: nat): nat
    requires Used(sizes, s)
  {
    FirstCode(sizes, sizes[s]) + CountLen(sizes[..s], sizes[s])
  }

  /** The code of `s` in the order it is transmitted, most significant bit first. */
  function CodeBits(sizes: seq<nat>, s: nat): (b: seq<bool>)
    requires Used(sizes, s)
    ensures |b| == sizes[s]
  {
    BigEndian(Code(sizes, s), sizes[s])
  }

  /** The same code as the integer whose low bit is sent first. */
  function RevCode(sizes: seq<nat>, s: nat): nat
    requires Used(sizes, s)
  {
    FromBits(CodeBits(sizes, s))
  }

  /** The codes that go with the lengths. */
  ghost predicate CodesFor(sizes: seq<nat>, codes: seq<nat>)
  {
    && |codes| == |sizes| && ValidSizes(sizes)
    && forall i :: 0 <= i < |sizes| ==> codes[i] == if sizes[i] == 0 then 0 else RevCode(sizes, i)
  }

  /** Sending the low bits of a stored code sends the code. */
  lemma StoredCode(sizes: seq<nat>, codes: seq<nat>, s: nat)
    requires CodesFor(sizes, codes) && Used(sizes, s)
    ensures codes[s] < Pow2(sizes[s]) && ToBits(codes[s], sizes[s]) == CodeBits(sizes, s)
  {
    FromBitsBound(CodeBits(sizes, s));
    ToFromBits(CodeBits(sizes, s));
  }

  // ---------------------------------------------------------------- counting

  lemma {:induction false} CountSplit(a: seq<nat>, b: seq<nat>, l: nat)
    ensures CountLen(a + b, l) == CountLen(a, l) + CountLen(b, l)
  {
    if b == [] {
      assert a + b == a;
    } else {
      assert (a + b)[..|a + b| - 1] == a + b[..|b| - 1];
      CountSplit(a, b[..|b| - 1], l);
    }
  }

  lemma RankOrder(sizes: seq<nat>, s: nat, t: nat)
    requires s < t <= |sizes|
    ensures CountLen(sizes[..s], sizes[s]) < CountLen(sizes[..t], sizes[s])
  {
    var l := sizes[s];
    CountSplit(sizes[..s], sizes[s..t], l);
    assert sizes[..t] == sizes[..s] + sizes[s..t];
    CountSplit([sizes[s]], sizes[s + 1..t], l);
    assert sizes[s..t] == [sizes[s]] + sizes[s + 1..t];
    assert [sizes[s]][..0] == [];
  }

  lemma {:induction false} NthOfLength(sizes: seq<nat>, l: nat, r: nat) returns (s: nat)
    requires r < CountLen(sizes, l)
    ensures s < |sizes| && sizes[s] == l && CountLen(sizes[..s], l) == r
  {
    var init := sizes[..|sizes| - 1];
    if r < CountLen(init, l) {
      s := NthOfLength(init, l, r);
      assert sizes[..s] == init[..s];
    } else {
      s := |sizes| - 1;
    }
  }

  // ---------------------------------------------------------------- order of codes

  /** Longer codes start after everything a shorter length takes. */
  lemma {:induction false} LengthGap(sizes: seq<nat>, l: nat, m: nat)
    requires 1 <= l < m
    ensures EndCode(sizes, l) * Pow2(m - l) <= FirstCode(sizes, m)
    decreases m
  {
    if m == l + 1 {
      assert Pow2(1) == 2;
    } else {
      LengthGap(sizes, l, m - 1);
      assert Pow2(m - l) == 2 * Pow2(m - 1 - l);
      assert EndCode(sizes, l) * Pow2(m - l) == 2 * (EndCode(sizes, l) * Pow2(m - 1 - l));
    }
  }

  lemma EndFits(sizes: seq<nat>, l: nat)
    requires Roomy(sizes) && 1 <= l <= MAX_LEN
    ensures EndCode(sizes, l) <= Pow2(l)
  {
    hide FirstCode, CountLen, Pow2;
    assert FirstCode(sizes, MAX_LEN) <= EndCode(sizes, MAX_LEN);
    hide EndCode;
    if l < MAX_LEN {
      LengthGap(sizes, l, MAX_LEN);
      Pow2Add(l, MAX_LEN - l);
      MulAdd(Pow2(l), 1, Pow2(MAX_LEN - l));
      MulLess(EndCode(sizes, l), Pow2(l) + 1, Pow2(MAX_LEN - l));
    }
  }

  lemma CodeRange(sizes: seq<nat>, s: nat)
    requires Roomy(sizes) && Used(sizes, s)
    ensures FirstCode(sizes, sizes[s]) <= Code(sizes, s) < EndCode(sizes, sizes[s]) <= Pow2(sizes[s])
  {
    EndFits(sizes, sizes[s]);
    RankOrder(sizes, s, |sizes|);
    assert sizes[..|sizes|] == sizes;
  }

  /** The first `l` bits of a longer code are at least `EndCode(l)`: no code is a prefix of it. */
  lemma LongerCode(sizes: seq<nat>, t: nat, l: nat)
    requires Roomy(sizes) && Used(sizes, t) && 1 <= l < sizes[t]
    ensures EndCode(sizes, l) <= Shr(Code(sizes, t), sizes[t] - l) < Pow2(l)
  {
    hide EndCode, FirstCode, Code;
    var m := sizes[t];
    var c, u := Code(sizes, t), Pow2(m - l);
    CodeRange(sizes, t);
    LengthGap(sizes, l, m);
    Pow2Add(l, m - l);
    ShrBounds(c, m - l, EndCode(sizes, l), Pow2(l));
  }

  lemma ShrBounds(c: nat, k: nat, lo: nat, hi: nat)
    requires lo * Pow2(k) <= c < hi * Pow2(k)
    ensures lo <= Shr(c, k) < hi
  {
    DivBounds(c, Pow2(k), lo, hi);
  }

  lemma DivBounds(c: nat, u: nat, lo: nat, hi: nat)
    requires u > 0 && lo * u <= c < hi * u
    ensures lo <= c / u < hi
  {
    var q := c / u;
    assert c == q * u + c % u;
    MulAdd(q, 1, u);
    MulLess(lo, q + 1, u);
    MulLess(q, hi, u);
  }

  /** No code is a prefix of another. */
  lemma PrefixFree(sizes: seq<nat>, s: nat, t: nat)
    requires Roomy(sizes) && Used(sizes, s) && Used(sizes, t) && CodeBits(sizes, s) <= CodeBits(sizes, t)
    ensures s == t
  {
    hide EndCode, FirstCode, CountLen, Pow2, Shr, BigEndian, Code;
    var l, m := sizes[s], sizes[t];
    CodeRange(sizes, s);
    CodeRange(sizes, t);
    BigEndianSplit(Code(sizes, t), m, m - l);
    assert CodeBits(sizes, t)[..l] == CodeBits(sizes, s);
    if l < m {
      LongerCode(sizes, t, l);
      BigEndianInjective(Code(sizes, s), Shr(Code(sizes, t), m - l), l);
    } else {
      BigEndianInjective(Code(sizes, s), Code(sizes, t), l);
      SameLength(sizes, s, t);
    }
  }

  lemma SameLength(sizes: seq<nat>, s: nat, t: nat)
    requires Used(sizes, s) && Used(sizes, t) && sizes[s] == sizes[t] && Code(sizes, s) == Code(sizes, t)
    ensures s == t
  {
    if s < t { RankOrder(sizes, s, t); }
    if t < s { RankOrder(sizes, t, s); }
  }

  lemma BigEndianInjective(v: nat, w: nat, n: nat)
    requires v < Pow2(n) && w < Pow2(n) && BigEndian(v, n) == BigEndian(w, n)
    ensures v == w
  {
    FromToBigEndian(v, n);
    FromToBigEndian(w, n);
    SmallMod(v, Pow2(n));
    SmallMod(w, Pow2(n));
  }

  /** In a full code every sufficiently long bit string starts with a code. */
  lemma Decodable(sizes: seq<nat>, bits: seq<bool>) returns (s: nat)
    requires Full(sizes) && |bits| >= MAX_LEN
    ensures Used(sizes, s) && CodeBits(sizes, s) <= bits
  {
    hide FirstCode, CountLen, Pow2, FromBigEndian, BigEndian;
    var l := ShortestCovered(sizes, bits, MAX_LEN);
    var v := FromBigEndian(bits[..l]);
    ToFromBigEndian(bits[..l]);
    s := NthOfLength(sizes, l, v - FirstCode(sizes, l));
  }

  /** The shortest length at which the bits lie below `EndCode`; there they are a code. */
  lemma {:induction false} ShortestCovered(sizes: seq<nat>, bits: seq<bool>, m: nat) returns (l: nat)
    requires Full(sizes) && 1 <= m <= MAX_LEN <= |bits|
    requires FromBigEndian(bits[..m]) < EndCode(sizes, m) || m == MAX_LEN
    ensures 1 <= l <= MAX_LEN && FirstCode(sizes, l) <= FromBigEndian(bits[..l]) < EndCode(sizes, l)
    decreases m
  {
    ToFromBigEndian(bits[..m]);
    var v := FromBigEndian(bits[..m]);
    if v >= FirstCode(sizes, m) {
      l := m;
    } else {
      var v' := FromBigEndian(bits[..m - 1]);
      assert bits[..m][..m - 1] == bits[..m - 1];
      l := ShortestCovered(sizes, bits, m - 1);
    }
  }

  // ---------------------------------------------------------------- what the codes are

  /** The code space, in units of the longest codes, that is taken by the symbols before symbol `k`
      among those of length `l`: all with shorter codes, and those of the same length before it. */
  function SpaceBefore(sizes: seq<nat>, l: nat, k: nat): nat
    requires l <= MAX_LEN
  {
    if sizes == [] then 0 else
      var t := |sizes| - 1;
      SpaceBefore(sizes[..t], l, k) + if 0 < sizes[t] < l || (0 < sizes[t] == l && t < k) then Pow2(MAX_LEN - sizes[t]) else 0
  }

  /** Each code is the code space before it, and its bits are sent from the greatest down. */
  lemma CodeIsSpace(sizes: seq<nat>, s: nat)
    requires Used(sizes, s)
    ensures Code(sizes, s) * Pow2(MAX_LEN - sizes[s]) == SpaceBefore(sizes, sizes[s], s)
    ensures forall i :: 0 <= i < sizes[s] ==> (CodeBits(sizes, s)[i] <==> (SpaceBefore(sizes, sizes[s], s) / Pow2(14 - i)) % 2 == 1)
  {
    hide Code, CodeBits, FirstCode, CountLen, SpaceBefore, BigEndian, Pow2;
    var l := sizes[s];
    SpaceParts(sizes, l, s);
    FirstIsShorter(sizes, l);
    MulAdd(FirstCode(sizes, l), CountLen(sizes[..s], l), Pow2(MAX_LEN - l));
    CodeIs(sizes, s);
    forall i | 0 <= i < l ensures CodeBits(sizes, s)[i] <==> (SpaceBefore(sizes, l, s) / Pow2(14 - i)) % 2 == 1 {
      CodeBitIs(sizes, s, i);
    }
  }

  lemma CodeBitIs(sizes: seq<nat>, s: nat, i: nat)
    requires Used(sizes, s) && i < sizes[s] && Code(sizes, s) * Pow2(MAX_LEN - sizes[s]) == SpaceBefore(sizes, sizes[s], s)
    ensures CodeBits(sizes, s)[i] <==> (SpaceBefore(sizes, sizes[s], s) / Pow2(14 - i)) % 2 == 1
  {
    hide Code, FirstCode, CountLen, SpaceBefore, BigEndian, Pow2;
    var l := sizes[s];
    BigEndianAt(Code(sizes, s), l, i);
    Pow2Add(l - 1 - i, MAX_LEN - l);
    Unscale(Code(sizes, s), Pow2(MAX_LEN - l), Pow2(l - 1 - i));
  }

  lemma CodeIs(sizes: seq<nat>, s: nat)
    requires Used(sizes, s)
    ensures Code(sizes, s) == FirstCode(sizes, sizes[s]) + CountLen(sizes[..s], sizes[s])
  {}

  lemma Unscale(v: nat, u: nat, d: nat)
    requires u > 0 && d > 0
    ensures d * u > 0 && (v * u) / (d * u) == v / d
  {
    DivModUnique(v * u, u, v, 0);
    DivDiv(v * u, u, d);
  }

  lemma {:induction false} BigEndianAt(v: nat, n: nat, i: nat)
    requires i < n
    ensures BigEndian(v, n)[i] <==> (v / Pow2(n - 1 - i)) % 2 == 1
    decreases n
  {
    if i < n - 1 {
      BigEndianAt(v / 2, n - 1, i);
      HalfDiv(v, n - 1 - i);
    }
  }

  /** Shorter codes, and codes of the same length. */
  lemma {:induction false} SpaceParts(sizes: seq<nat>, l: nat, k: nat)
    requires 1 <= l <= MAX_LEN && k <= |sizes|
    ensures SpaceBefore(sizes, l, k) == SpaceBefore(sizes, l, 0) + CountLen(sizes[..k], l) * Pow2(MAX_LEN - l)
  {
    hide Pow2;
    if sizes == [] {
      assert sizes[..k] == [];
    } else {
      var t := |sizes| - 1;
      var u := Pow2(MAX_LEN - l);
      if k <= t {
        SpaceParts(sizes[..t], l, k);
        assert sizes[..t][..k] == sizes[..k];
      } else {
        SpaceParts(sizes[..t], l, t);
        SpaceAll(sizes[..t], l, k);
        assert sizes[..t][..t] == sizes[..t] && sizes[..k] == sizes;
        MulAdd(CountLen(sizes[..t], l), 1, u);
      }
    }
  }

  lemma {:induction false} SpaceAll(sizes: seq<nat>, l: nat, k: nat)
    requires l <= MAX_LEN && k >= |sizes|
    ensures SpaceBefore(sizes, l, k) == SpaceBefore(sizes, l, |sizes|)
  {
    if sizes != [] {
      var t := |sizes| - 1;
      SpaceAll(sizes[..t], l, k);
      SpaceAll(sizes[..t], l, |sizes|);
    }
  }

  lemma {:induction false} FirstIsShorter(sizes: seq<nat>, l: nat)
    requires 1 <= l <= MAX_LEN
    ensures FirstCode(sizes, l) * Pow2(MAX_LEN - l) == SpaceBefore(sizes, l, 0)
    decreases l
  {
    hide Pow2, CountLen, SpaceBefore;
    if l == 1 {
      SpaceNone(sizes);
    } else {
      FirstIsShorter(sizes, l - 1);
      SpaceNext(sizes, l);
      SpaceParts(sizes, l - 1, |sizes|);
      assert sizes[..|sizes|] == sizes;
      var f, c, u := FirstCode(sizes, l - 1), CountLen(sizes, l - 1), Pow2(MAX_LEN - l);
      Doubled(MAX_LEN - l + 1);
      DoubleMul(f + c, u);
      MulAdd(f, c, 2 * u);
      TwiceTimes(f + c, u);
    }
  }

  lemma TwiceTimes(a: nat, u: nat)
    ensures (2 * a) * u == a * (2 * u)
  {}

  lemma {:induction false} SpaceNone(sizes: seq<nat>)
    ensures SpaceBefore(sizes, 1, 0) == 0
  {
    if sizes != [] { SpaceNone(sizes[..|sizes| - 1]); }
  }

  lemma {:induction false} SpaceNext(sizes: seq<nat>, l: nat)
    requires 2 <= l <= MAX_LEN
    ensures SpaceBefore(sizes, l, 0) == SpaceBefore(sizes, l - 1, |sizes|)
  {
    hide Pow2;
    if sizes != [] {
      var t := |sizes| - 1;
      SpaceNext(sizes[..t], l);
      SpaceAll(sizes[..t], l - 1, |sizes|);
    }
  }

  // ---------------------------------------------------------------- shared by both table builders

  /** Nothing is numbered before the first symbol. */
  lemma NoRank(z: seq<nat>)
    ensures forall l :: CountLen(z[..0], l) == 0
  {
    assert z[..0] == [];
  }

  lemma RankStep(z: seq<nat>, i: nat)
    requires i < |z|
    ensures forall l :: CountLen(z[..i + 1], l) == CountLen(z[..i], l) + if z[i] == l then 1 else 0
  {
    assert z[..i + 1][..i] == z[..i];
  }

  /** The bit-reversing loop that compressor and decompressor both contain. */
  method Reverse(code: nat, size: nat) returns (rev: nat)
    ensures rev == FromBits(BigEndian(code, size))
  {
    rev := 0;
    var c, l := code, size;
    while l > 0
      invariant 0 <= l <= size && c == Shr(code, size - l)
      invariant rev == FromBits(BigEndian(code, size - l))
    {
      var k := size - l;
      BigEndianSplit(code, k + 1, k);
      assert BigEndian(c, 1) == [c % 2 == 1] by { assert BigEndian(c / 2, 0) == []; }
      assert BigEndian(code, k + 1)[1..] == BigEndian(code, k);
      rev := 2 * rev + c % 2;
      c := c / 2;
      ShrHalf(code, k);
      l := l - 1;
    }
  }
}
