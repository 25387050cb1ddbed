/** Lower bound on the cost of prefix codes: merging the two lightest weights, as Huffman's
    algorithm does, never loses optimality. Codes are represented by their lengths, and every
    length vector that satisfies Kraft's inequality counts as a competitor. */
module OptimalCode {
  import opened Bits

  /** A weight together with the code length given to it. */
  datatype Item = Item(weight: nat, len: nat)

  function Cost(q: seq<Item>): nat
  {
    if q == [] then 0 else q[0].weight * q[0].len + Cost(q[1..])
  }

  predicate Within(q: seq<Item>, n: nat)
  {
    forall i :: 0 <= i < |q| ==> q[i].len <= n
  }

  /** Kraft's sum, scaled by `2^n`. */
  function Kraft(q: seq<Item>, n: nat): nat
    requires Within(q, n)
  {
    if q == [] then 0 else Pow2(n - q[0].len) + Kraft(q[1..], n)
  }

  ghost function WeightsOf(q: seq<Item>): multiset<nat>
  {
    if q == [] then multiset{} else multiset{q[0].weight} + WeightsOf(q[1..])
  }

  /** `c` bounds from below the cost of every code for the weights `m`. */
  ghost predicate LowerBound(m: multiset<nat>, c: nat)
  {
    forall q, n :: WeightsOf(q) == m && Within(q, n) && Kraft(q, n) <= Pow2(n) ==> Cost(q) >= c
  }

  /** `q` with item `i` moved to the front. */
  function ToFront(q: seq<Item>, i: nat): (t: seq<Item>)
    requires i < |q|
    ensures |t| == |q| && t[0] == q[i]
    ensures forall x :: x in t ==> x in q
  {
    [q[i]] + q[..i] + q[i + 1..]
  }

  /** One item in front. */
  lemma Consed(x: Item, q: seq<Item>, n: nat)
    requires x.len <= n && Within(q, n)
    ensures Within([x] + q, n) && Kraft([x] + q, n) == Pow2(n - x.len) + Kraft(q, n)
    ensures WeightsOf([x] + q) == multiset{x.weight} + WeightsOf(q) && Cost([x] + q) == x.weight * x.len + Cost(q)
  {
    hide Pow2;
    assert ([x] + q)[1..] == q;
  }

  lemma MultiSwap(a: nat, b: nat, w: multiset<nat>)
    ensures multiset{a} + (multiset{b} + w) == multiset{b} + (multiset{a} + w)
  {}

  lemma WithinParts(q: seq<Item>, n: nat)
    requires q != [] && Within(q, n)
    ensures q[0].len <= n && Within(q[1..], n) && q == [q[0]] + q[1..]
  {}

  lemma FrontShape(q: seq<Item>, i: nat)
    requires 0 < i < |q|
    ensures var r := ToFront(q[1..], i - 1)[1..];
      ToFront(q[1..], i - 1) == [q[i]] + r && ToFront(q, i) == [q[i]] + ([q[0]] + r)
  {}

  lemma {:induction false} ToFrontKeeps(q: seq<Item>, i: nat, n: nat)
    requires i < |q| && Within(q, n)
    ensures var t := ToFront(q, i);
      Within(t, n) && Cost(t) == Cost(q) && Kraft(t, n) == Kraft(q, n) && WeightsOf(t) == WeightsOf(q)
  {
    var t := ToFront(q, i);
    if i == 0 {
      assert t == q;
    } else {
      var x, y, q' := q[0], q[i], q[1..];
      var u := ToFront(q', i - 1);
      var r := u[1..];
      hide *;
      FrontShape(q, i);
      WithinParts(q, n);
      ToFrontKeeps(q', i - 1, n);
      WithinParts(u, n);
      Consed(x, q', n);
      Consed(y, r, n);
      Consed(x, r, n);
      Consed(y, [x] + r, n);
      MultiSwap(x.weight, y.weight, WeightsOf(r));
    }
  }

  lemma {:induction false} FindWeight(q: seq<Item>, a: nat) returns (i: nat)
    requires a in WeightsOf(q)
    ensures i < |q| && q[i].weight == a
  {
    if q[0].weight == a { i := 0; } else { i := FindWeight(q[1..], a); i := i + 1; }
  }

  lemma {:induction false} WeightIn(q: seq<Item>, i: nat)
    requires i < |q|
    ensures q[i].weight in WeightsOf(q)
  {
    if i > 0 { WeightIn(q[1..], i - 1); }
  }

  lemma {:induction false} FindLongest(q: seq<Item>) returns (i: nat)
    requires q != []
    ensures i < |q| && forall j :: 0 <= j < |q| ==> q[j].len <= q[i].len
  {
    i := 0;
    if |q| > 1 {
      var k := FindLongest(q[1..]);
      forall j | 0 <= j < |q| ensures q[j].len <= if q[k + 1].len > q[0].len then q[k + 1].len else q[0].len {
        if j > 0 { assert q[j] == q[1..][j - 1]; }
      }
      if q[k + 1].len > q[0].len { i := k + 1; }
    }
  }

  /** The lightest item can be given the greatest length without raising the cost. */
  lemma LightestLongest(q: seq<Item>, n: nat, m: nat) returns (t: seq<Item>)
    requires q != [] && Within(q, n) && Within(q, m)
    requires forall j :: 0 <= j < |q| ==> q[0].weight <= q[j].weight
    ensures |t| == |q| && t[0].weight == q[0].weight && WeightsOf(t[1..]) == WeightsOf(q[1..])
    ensures Within(t, n) && Kraft(t, n) == Kraft(q, n) && Cost(t) <= Cost(q)
    ensures Within(t, t[0].len) && t[0].len <= m
  {
    hide Kraft, Cost, WeightsOf, Pow2;
    var k := FindLongest(q);
    if k == 0 {
      t := q;
    } else {
      t := Exchange(q, k, n);
      ExchangeShort(q, k, n, t);
    }
  }

  /** The first item and item `k` exchange their lengths. */
  lemma Exchange(q: seq<Item>, k: nat, n: nat) returns (t: seq<Item>)
    requires 0 < k < |q| && Within(q, n) && q[0].weight <= q[k].weight && q[0].len <= q[k].len
    ensures t == [Item(q[0].weight, q[k].len), Item(q[k].weight, q[0].len)] + ToFront(q[1..], k - 1)[1..]
    ensures WeightsOf(t[1..]) == WeightsOf(q[1..]) && Within(t, n) && Kraft(t, n) == Kraft(q, n) && Cost(t) <= Cost(q)
  {
    var a, b, q' := q[0], q[k], q[1..];
    var u := ToFront(q', k - 1);
    var rest := u[1..];
    assert b == q'[k - 1] && u[0] == b && b.len <= n;
    hide *;
    WithinParts(q, n);
    ToFrontKeeps(q', k - 1, n);
    WithinParts(u, n);
    Consed(a, q', n);
    Consed(b, rest, n);
    t := Swapped(a, b, rest, n);
  }

  /** No length is above the greatest, which now comes first. */
  lemma ExchangeShort(q: seq<Item>, k: nat, n: nat, t: seq<Item>)
    requires 0 < k < |q| && forall j :: 0 <= j < |q| ==> q[j].len <= q[k].len
    requires t == [Item(q[0].weight, q[k].len), Item(q[k].weight, q[0].len)] + ToFront(q[1..], k - 1)[1..]
    ensures |t| == |q| && Within(t, t[0].len)
  {
    var u := ToFront(q[1..], k - 1);
    forall j | 0 <= j < |t| ensures t[j].len <= t[0].len {
      if j >= 2 {
        assert t[j] == u[j - 1];
        assert u[j - 1] in q[1..];
      }
    }
  }

  lemma Swapped(a: Item, b: Item, rest: seq<Item>, n: nat) returns (t: seq<Item>)
    requires a.weight <= b.weight && a.len <= b.len <= n && Within(rest, n)
    ensures t == [Item(a.weight, b.len), Item(b.weight, a.len)] + rest
    ensures WeightsOf(t[1..]) == multiset{b.weight} + WeightsOf(rest)
    ensures Within(t, n) && Kraft(t, n) == Pow2(n - a.len) + (Pow2(n - b.len) + Kraft(rest, n))
    ensures Cost(t) <= a.weight * a.len + (b.weight * b.len + Cost(rest))
  {
    var x, y := Item(a.weight, b.len), Item(b.weight, a.len);
    t := [x, y] + rest;
    assert t[1..] == [y] + rest && t == [x] + t[1..];
    hide *;
    Consed(y, rest, n);
    Consed(x, t[1..], n);
    SwapCost(a.weight, b.weight, a.len, b.len);
  }

  lemma SwapCost(a: nat, b: nat, la: nat, lb: nat)
    requires a <= b && la <= lb
    ensures a * lb + b * la <= a * la + b * lb
  {
    assert (b - a) * (lb - la) >= 0;
    assert (b - a) * (lb - la) == b * lb - b * la - a * lb + a * la;
  }

  /** With all lengths at most `l`, Kraft's sum is a multiple of `2^(n-l)`. */
  lemma {:induction false} KraftScale(q: seq<Item>, l: nat, n: nat)
    requires l <= n && Within(q, l) && Within(q, n)
    ensures Kraft(q, n) == Kraft(q, l) * Pow2(n - l)
  {
    if q != [] {
      assert Within(q[1..], l) && Within(q[1..], n);
      KraftScale(q[1..], l, n);
      Pow2Add(l - q[0].len, n - l);
      assert Pow2(n - q[0].len) == Pow2(l - q[0].len) * Pow2(n - l);
      MulAdd(Pow2(l - q[0].len), Kraft(q[1..], l), Pow2(n - l));
    }
  }

  /** Two longest codewords of lengths `la >= l` leave room for a third of length `l`. */
  lemma RoomForSibling(u: seq<Item>, l: nat, la: nat, n: nat)
    requires l <= la <= n && Within(u, n) && Within(u, l)
    requires Pow2(n - la) + Pow2(n - l) + Kraft(u, n) <= Pow2(n)
    ensures 2 * Pow2(n - l) + Kraft(u, n) <= Pow2(n) && l >= 1
  {
    var k, x := Kraft(u, l), Pow2(n - l);
    KraftScale(u, l, n);
    Pow2Add(l, n - l);
    MulAdd(k, 1, x);
    MulLess(k + 1, Pow2(l), x);
    MulMono(k + 2, Pow2(l), x);
    MulAdd(k, 2, x);
  }

  /** Huffman's step: a bound for the weights with `a` and `b` merged gives one for the weights. */
  lemma MergeBound(rest: multiset<nat>, a: nat, b: nat, c: nat)
    requires a <= b && forall x :: x in rest ==> b <= x
    requires LowerBound(rest + multiset{a + b}, c)
    ensures LowerBound(rest + multiset{a, b}, c + a + b)
  {
    forall q, n | WeightsOf(q) == rest + multiset{a, b} && Within(q, n) && Kraft(q, n) <= Pow2(n)
      ensures Cost(q) >= c + a + b
    {
      var t := MergeItems(rest, a, b, q, n);
      assert Cost(t) >= c;
    }
  }

  /** A code in which the two lightest weights are merged, cheaper by their sum. */
  lemma MergeItems(rest: multiset<nat>, a: nat, b: nat, q: seq<Item>, n: nat) returns (t: seq<Item>)
    requires a <= b && forall x :: x in rest ==> b <= x
    requires WeightsOf(q) == rest + multiset{a, b} && Within(q, n) && Kraft(q, n) <= Pow2(n)
    ensures WeightsOf(t) == rest + multiset{a + b} && Within(t, n) && Kraft(t, n) <= Pow2(n)
    ensures Cost(t) + a + b <= Cost(q)
  {
    hide *;
    var x, y, v := TwoLightest(rest, a, b, q, n);
    CostOfMerge(a, b, x.len, y.len, Cost(q), Cost(v));
    t := MergedCode(a + b, y.len, v, rest, n);
  }

  lemma TwoLightest(rest: multiset<nat>, a: nat, b: nat, q: seq<Item>, n: nat) returns (x: Item, y: Item, v: seq<Item>)
    requires a <= b && forall x :: x in rest ==> b <= x
    requires WeightsOf(q) == rest + multiset{a, b} && Within(q, n) && Kraft(q, n) <= Pow2(n)
    ensures WeightsOf(v) == rest && 1 <= y.len <= x.len <= n && Within(v, n)
    ensures 2 * Pow2(n - y.len) + Kraft(v, n) <= Pow2(n)
    ensures a * x.len + b * y.len + Cost(v) <= Cost(q)
  {
    hide Kraft, Cost, WeightsOf, Pow2;
    Unpair(rest, a, b);
    BothAtLeast(rest, a, b);
    AllAtLeast(q, a);
    var u;
    x, u := LightestOut(q, rest + multiset{b}, a, n, n);
    AllAtLeast(u, b);
    y, v := LightestOut(u, rest, b, n, x.len);
    RoomForSibling(v, y.len, x.len, n);
  }

  lemma Unpair(rest: multiset<nat>, a: nat, b: nat)
    ensures rest + multiset{a, b} == (rest + multiset{b}) + multiset{a}
  {}

  lemma BothAtLeast(rest: multiset<nat>, a: nat, b: nat)
    requires a <= b && forall x :: x in rest ==> b <= x
    ensures forall x :: x in rest + multiset{a, b} ==> a <= x
    ensures forall x :: x in rest + multiset{b} ==> b <= x
  {}

  lemma MergedCode(w: nat, l: nat, v: seq<Item>, rest: multiset<nat>, n: nat) returns (t: seq<Item>)
    requires 1 <= l <= n && Within(v, n) && WeightsOf(v) == rest
    requires 2 * Pow2(n - l) + Kraft(v, n) <= Pow2(n)
    ensures WeightsOf(t) == rest + multiset{w} && Within(t, n)
    ensures Kraft(t, n) <= Pow2(n) && Cost(t) == w * (l - 1) + Cost(v)
  {
    assert Pow2(n - (l - 1)) == 2 * Pow2(n - l);
    hide *;
    t := [Item(w, l - 1)] + v;
    Consed(Item(w, l - 1), v, n);
    assert multiset{w} + rest == rest + multiset{w};
  }

  lemma CostOfMerge(a: nat, b: nat, la: nat, lb: nat, cq: nat, cv: nat)
    requires la >= lb >= 1 && a * la + b * lb + cv <= cq
    ensures (a + b) * (lb - 1) + cv + a + b <= cq
  {
    MulMono(lb, la, a);
    assert (a + b) * (lb - 1) == a * lb + b * lb - a - b;
  }

  /** Takes out an item of least weight `a`, which is given the greatest length. */
  lemma LightestOut(q: seq<Item>, rest: multiset<nat>, a: nat, n: nat, m: nat) returns (x: Item, t: seq<Item>)
    requires WeightsOf(q) == rest + multiset{a} && Within(q, n) && Within(q, m)
    requires forall j :: 0 <= j < |q| ==> a <= q[j].weight
    ensures x.weight == a && x.len <= n && WeightsOf(t) == rest && Within(t, n) && Within(t, x.len)
    ensures Pow2(n - x.len) + Kraft(t, n) == Kraft(q, n) && a * x.len + Cost(t) <= Cost(q)
    ensures x.len <= m
  {
    hide Kraft, Cost, WeightsOf, Pow2;
    HasWeight(q, rest, a);
    var q1 := LightestFirst(q, a, n);
    assert Within(q1, m);
    var q2 := LightestLongest(q1, n, m);
    x, t := q2[0], q2[1..];
    hide *;
    WithinParts(q1, n);
    WithinParts(q2, n);
    WithinParts(q2, x.len);
    Consed(q1[0], q1[1..], n);
    Consed(x, t, n);
    TakeOut(rest, WeightsOf(t), a);
  }

  lemma HasWeight(q: seq<Item>, rest: multiset<nat>, a: nat)
    requires WeightsOf(q) == rest + multiset{a}
    ensures a in WeightsOf(q)
  {
    hide WeightsOf;
  }

  lemma TakeOut(rest: multiset<nat>, m: multiset<nat>, a: nat)
    requires rest + multiset{a} == multiset{a} + m
    ensures m == rest
  {
    assert m == (multiset{a} + m) - multiset{a};
    assert rest == (rest + multiset{a}) - multiset{a};
  }

  lemma LightestFirst(q: seq<Item>, a: nat, n: nat) returns (t: seq<Item>)
    requires a in WeightsOf(q) && Within(q, n)
    requires forall j :: 0 <= j < |q| ==> a <= q[j].weight
    ensures |t| == |q| > 0 && t[0].weight == a && WeightsOf(t) == WeightsOf(q)
    ensures Within(t, n) && Kraft(t, n) == Kraft(q, n) && Cost(t) == Cost(q)
    ensures forall j :: 0 <= j < |t| ==> a <= t[j].weight && t[j] in q
  {
    var i := FindWeight(q, a);
    t := ToFront(q, i);
    ToFrontKeeps(q, i, n);
  }

  lemma AllAtLeast(q: seq<Item>, a: nat)
    requires forall x :: x in WeightsOf(q) ==> a <= x
    ensures forall j :: 0 <= j < |q| ==> a <= q[j].weight
  {
    forall j | 0 <= j < |q| ensures a <= q[j].weight { WeightIn(q, j); }
  }
}
