/** Bits of natural numbers, least significant first, and the bitwise operators the C code uses
    on its unsigned integers. */
module Bits {

  type u8 = x: int | 0 <= x < 0x100
  type u16 = x: int | 0 <= x < 0x1_0000
  type u32 = x: int | 0 <= x < 0x1_0000_0000

  function Pow2(n: nat): (p: nat)
    ensures p >= 1
  {
    if n == 0 then 1 else 2 * Pow2(n - 1)
  }

  lemma {:induction false} Pow2Add(a: nat, b: nat)
    ensures Pow2(a + b) == Pow2(a) * Pow2(b)
  {
    if a != 0 {
      Pow2Add(a - 1, b);
      assert Pow2(a + b) == 2 * Pow2(a - 1 + b);
    }
  }

  lemma {:induction false} Pow2Mono(a: nat, b: nat)
    requires a <= b
    ensures Pow2(a) <= Pow2(b)
  {
    if a < b {
      Pow2Mono(a, b - 1);
    }
  }

  lemma MulMono(a: nat, b: nat, x: nat)
    requires a <= b
    ensures a * x <= b * x
  {}

  lemma MulLess(a: nat, b: nat, x: nat)
    requires a * x < b * x
    ensures a < b
  {
    if b <= a {
      MulMono(b, a, x);
    }
  }

  lemma MulAdd(a: int, b: int, x: int)
    ensures (a + b) * x == a * x + b * x
  {}

  lemma QuotientNat(v: nat, d: nat)
    requires d > 0
    ensures v / d >= 0
  {}

  /** `v >> k` on unsigned integers. */
  function Shr(v: nat, k: nat): nat
  {
    QuotientNat(v, Pow2(k));
    v / Pow2(k)
  }

  // ---------------------------------------------------------------- bit strings

  /** The `n` low bits of `v`, least significant first. */
  function ToBits(v: nat, n: nat): (b: seq<bool>)
    ensures |b| == n
  {
    if n == 0 then [] else [v % 2 == 1] + ToBits(v / 2, n - 1)
  }

  /** The number whose bits, least significant first, are `b`. */
  function FromBits(b: seq<bool>): nat
  {
    if b == [] then 0 else (if b[0] then 1 else 0) + 2 * FromBits(b[1..])
  }

  /** The `n` low bits of `v`, most significant first, as Huffman codes are written. */
  function BigEndian(v: nat, n: nat): (b: seq<bool>)
    ensures |b| == n
  {
    if n == 0 then [] else BigEndian(v / 2, n - 1) + [v % 2 == 1]
  }

  lemma {:induction false} FromToBits(v: nat, n: nat)
    ensures FromBits(ToBits(v, n)) == v % Pow2(n)
  {
    if n > 0 {
      FromToBits(v / 2, n - 1);
      assert ToBits(v, n)[1..] == ToBits(v / 2, n - 1);
      ModStep(v, Pow2(n - 1));
    } else {
      assert v % 1 == 0;
    }
  }

  /** Low bit and the rest of a residue. */
  lemma ModStep(v: nat, p: nat)
    requires p >= 1
    ensures v % (2 * p) == v % 2 + 2 * ((v / 2) % p)
  {
    var h := v / 2;
    DivModUnique(v, 2 * p, h / p, v % 2 + 2 * (h % p)) by {
      assert h == p * (h / p) + h % p;
      assert v == 2 * h + v % 2;
      assert (2 * p) * (h / p) == 2 * (p * (h / p));
    }
  }

  lemma DivModUnique(v: nat, d: nat, q: nat, m: nat)
    requires d > 0 && v == d * q + m && m < d
    ensures v / d == q && v % d == m
  {
    var q', m' := v / d, v % d;
    assert v == q' * d + m' && v == q * d + m;
    if q' > q {
      MulMono(q + 1, q', d);
      MulAdd(q, 1, d);
    } else if q' < q {
      MulMono(q' + 1, q, d);
      MulAdd(q', 1, d);
    }
  }

  lemma SmallMod(a: nat, b: nat)
    requires a < b
    ensures a % b == a
  {
    DivModUnique(a, b, 0, a);
  }

  lemma {:induction false} FromBitsBound(b: seq<bool>)
    ensures FromBits(b) < Pow2(|b|)
  {
    if b != [] { FromBitsBound(b[1..]); }
  }

  lemma {:induction false} ToFromBits(b: seq<bool>)
    ensures ToBits(FromBits(b), |b|) == b
  {
    if b != [] {
      ToFromBits(b[1..]);
      var r := FromBits(b[1..]);
      assert FromBits(b) / 2 == r && (FromBits(b) % 2 == 1 <==> b[0]);
      assert b == [b[0]] + b[1..];
    }
  }

  lemma {:induction false} ToBitsPrefix(v: nat, n: nat, k: nat)
    requires k <= n
    ensures ToBits(v, n)[..k] == ToBits(v, k)
    ensures ToBits(v, n)[k..] == ToBits(Shr(v, k), n - k)
  {
    if k > 0 {
      ToBitsPrefix(v / 2, n - 1, k - 1);
      var rest, bit := ToBits(v / 2, n - 1), [v % 2 == 1];
      assert ToBits(v, n) == bit + rest && ToBits(v, k) == bit + ToBits(v / 2, k - 1);
      assert (bit + rest)[..k] == bit + rest[..k - 1] && (bit + rest)[k..] == rest[k - 1..];
      HalfDiv(v, k);
    } else {
      assert v / 1 == v;
    }
  }

  lemma HalfDiv(v: nat, k: nat)
    requires k > 0
    ensures Shr(v / 2, k - 1) == Shr(v, k)
  {
    DivDiv(v, 2, Pow2(k - 1));
  }

  lemma DivDiv(v: nat, a: nat, b: nat)
    requires a > 0 && b > 0
    ensures a * b > 0 && (v / a) / b == v / (a * b)
  {
    var q, r := v / a, v % a;
    var s, t := q / b, q % b;
    QuotientNat(v, a);
    QuotientNat(q, b);
    MulMono(1, a, b);
    TwoDigits(v, a, b, s, t, r);
    DivModUnique(v, a * b, s, t * a + r);
  }

  /** A number from its digits to two bases. */
  lemma TwoDigits(v: int, a: nat, b: nat, s: nat, t: nat, r: nat)
    requires v == (s * b + t) * a + r && t < b && r < a
    ensures v == (a * b) * s + (t * a + r) && t * a + r < a * b
  {
    MulMono(t + 1, b, a);
    MulAdd(t, 1, a);
    MulAdd(s * b, t, a);
    Commute(s, b, a);
  }

  lemma Commute(s: nat, b: nat, a: nat)
    ensures (s * b) * a == (a * b) * s
  {}

  /** Multiples of the divisor come out of the quotient. */
  lemma AddMultiple(x: nat, q: nat, p: nat)
    requires p > 0
    ensures (x + q * p) / p == x / p + q && (x + q * p) % p == x % p
  {
    MulAdd(x / p, q, p);
    DivModUnique(x + q * p, p, x / p + q, x % p);
  }

  lemma ShrHalf(v: nat, k: nat)
    ensures Shr(v, k) / 2 == Shr(v, k + 1)
  {
    DivDiv(v, Pow2(k), 2);
  }

  lemma {:induction false} ToBitsMod(v: nat, n: nat)
    ensures ToBits(v % Pow2(n), n) == ToBits(v, n)
  {
    FromToBits(v, n);
    ToFromBits(ToBits(v, n));
  }

  lemma ToBitsInjective(v: nat, w: nat, n: nat)
    requires ToBits(v, n) == ToBits(w, n)
    ensures v % Pow2(n) == w % Pow2(n)
  {
    FromToBits(v, n);
    FromToBits(w, n);
  }

  /** Writing `n` more bits above `k` bits. */
  lemma {:induction false} ToBitsAppend(a: nat, k: nat, b: nat, n: nat)
    requires a < Pow2(k)
    ensures ToBits(a + b * Pow2(k), k + n) == ToBits(a, k) + ToBits(b, n)
  {
    var v := a + b * Pow2(k);
    DivModUnique(v, Pow2(k), b, a);
    ToBitsPrefix(v, k + n, k);
    ToBitsMod(v, k);
    assert ToBits(v, k + n) == ToBits(v, k + n)[..k] + ToBits(v, k + n)[k..];
  }

  lemma {:induction false} BigEndianSplit(v: nat, n: nat, k: nat)
    requires k <= n
    ensures BigEndian(v, n) == BigEndian(Shr(v, k), n - k) + BigEndian(v, k)
  {
    if k > 0 {
      BigEndianSplit(v / 2, n - 1, k - 1);
      HalfDiv(v, k);
    } else {
      assert v / 1 == v;
    }
  }

  /** The number whose bits, most significant first, are `b`. */
  function FromBigEndian(b: seq<bool>): nat
  {
    if b == [] then 0 else 2 * FromBigEndian(b[..|b| - 1]) + if b[|b| - 1] then 1 else 0
  }

  lemma {:induction false} FromToBigEndian(v: nat, n: nat)
    ensures FromBigEndian(BigEndian(v, n)) == v % Pow2(n)
  {
    if n > 0 {
      FromToBigEndian(v / 2, n - 1);
      BigEndianLast(v, n);
      Doubled(n);
      hide *;
      ModStep(v, Pow2(n - 1));
    } else {
      assert v % 1 == 0;
    }
  }

  lemma BigEndianLast(v: nat, n: nat)
    requires n > 0
    ensures FromBigEndian(BigEndian(v, n)) == 2 * FromBigEndian(BigEndian(v / 2, n - 1)) + v % 2
  {
    hide Pow2;
    var b := BigEndian(v, n);
    assert b[..n - 1] == BigEndian(v / 2, n - 1);
  }

  lemma Doubled(n: nat)
    requires n > 0
    ensures Pow2(n) == 2 * Pow2(n - 1)
  {}

  lemma {:induction false} ToFromBigEndian(b: seq<bool>)
    ensures FromBigEndian(b) < Pow2(|b|) && BigEndian(FromBigEndian(b), |b|) == b
  {
    if b != [] {
      var init := b[..|b| - 1];
      ToFromBigEndian(init);
      var r := FromBigEndian(init);
      assert FromBigEndian(b) / 2 == r && (FromBigEndian(b) % 2 == 1 <==> b[|b| - 1]);
      assert b == init + [b[|b| - 1]];
    }
  }

  /** `a ^ b` on unsigned integers. */
  function Xor(a: nat, b: nat): nat
  {
    if a == 0 && b == 0 then 0 else (a + b) % 2 + 2 * Xor(a / 2, b / 2)
  }

  /** Flipping all of `n` bits. */
  lemma {:induction false} XorOnes(x: nat, n: nat)
    requires x < Pow2(n)
    ensures Xor(x, Pow2(n) - 1) == Pow2(n) - 1 - x
    decreases n
  {
    if n > 0 {
      var p := Pow2(n - 1);
      assert Pow2(n) == 2 * p;
      XorOnes(x / 2, n - 1);
      hide *;
      HalfOdd(p);
      XorStep(x, 2 * p - 1);
    }
  }

  lemma XorStep(x: nat, y: nat)
    requires y % 2 == 1
    ensures Xor(x, y) == 1 - x % 2 + 2 * Xor(x / 2, y / 2)
  {
    XorUnfold(x, y);
    hide *;
    OddSum(x, y);
  }

  lemma XorUnfold(x: nat, y: nat)
    requires y > 0
    ensures Xor(x, y) == (x + y) % 2 + 2 * Xor(x / 2, y / 2)
  {}

  lemma HalfOdd(p: nat)
    requires p >= 1
    ensures (2 * p - 1) / 2 == p - 1 && (2 * p - 1) % 2 == 1
  {}

  lemma OddSum(x: nat, y: nat)
    requires y % 2 == 1
    ensures (x + y) % 2 == 1 - x % 2
  {
    var a, b := x / 2, y / 2;
    assert x == 2 * a + x % 2 && y == 2 * b + 1;
    assert x + y == 2 * (a + b) + (x % 2 + 1);
  }

  lemma Assoc(a: seq<bool>, b: seq<bool>, c: seq<bool>)
    ensures (a + b) + c == a + (b + c)
  {}

  // ---------------------------------------------------------------- bytes as bits

  /** `a | b` on unsigned integers. */
  function Or(a: nat, b: nat): nat
  {
    if a == 0 && b == 0 then 0 else
      (if a % 2 == 1 || b % 2 == 1 then 1 else 0) + 2 * Or(a / 2, b / 2)
  }

  /** Bits that do not overlap add up. */
  lemma {:induction false} OrShifted(a: nat, b: nat, k: nat)
    requires a < Pow2(k)
    ensures Or(a, b * Pow2(k)) == a + b * Pow2(k)
    decreases k
  {
    if k == 0 {
      OrZero(b);
    } else {
      var c := b * Pow2(k - 1);
      assert b * Pow2(k) == 2 * c;
      OrShifted(a / 2, b, k - 1);
    }
  }

  lemma {:induction false} OrZero(b: nat)
    ensures Or(0, b) == b
  {
    if b != 0 { OrZero(b / 2); }
  }

  function BytesBits(s: seq<u8>): (b: seq<bool>)
    ensures |b| == 8 * |s|
  {
    if s == [] then [] else BytesBits(s[..|s| - 1]) + ToBits(s[|s| - 1], 8)
  }

  lemma {:induction false} BytesBitsAppend(a: seq<u8>, b: seq<u8>)
    ensures BytesBits(a + b) == BytesBits(a) + BytesBits(b)
  {
    if b == [] {
      assert a + b == a;
    } else {
      assert (a + b)[..|a + b| - 1] == a + b[..|b| - 1];
      BytesBitsAppend(a, b[..|b| - 1]);
    }
  }

  lemma {:induction false} FromBitsSplit(b: seq<bool>, k: nat)
    requires k <= |b|
    ensures FromBits(b) == FromBits(b[..k]) + FromBits(b[k..]) * Pow2(k)
  {
    if k > 0 {
      var t := b[1..];
      FromBitsSplit(t, k - 1);
      assert t[..k - 1] == b[..k][1..] && t[k - 1..] == b[k..];
      FromBitsHead(b);
      FromBitsHead(b[..k]);
      hide FromBits;
      Pow2Add(1, k - 1);
      assert Pow2(1) == 2;
      hide Pow2;
      DoubleMul(FromBits(b[k..]), Pow2(k - 1));
    } else {
      assert b[..0] == [] && b[0..] == b;
    }
  }

  lemma FromBitsHead(b: seq<bool>)
    requires b != []
    ensures FromBits(b) == (if b[0] then 1 else 0) + 2 * FromBits(b[1..])
  {}

  lemma DoubleMul(a: nat, b: nat)
    ensures a * (2 * b) == 2 * (a * b)
  {}

  /** Shifting and masking a bit string. */
  lemma FromBitsDivMod(b: seq<bool>, k: nat)
    requires k <= |b|
    ensures FromBits(b) / Pow2(k) == FromBits(b[k..]) && FromBits(b) % Pow2(k) == FromBits(b[..k])
  {
    hide FromBits, Pow2;
    FromBitsSplit(b, k);
    FromBitsBound(b[..k]);
    DivModUnique(FromBits(b), Pow2(k), FromBits(b[k..]), FromBits(b[..k]));
  }

  /** Bits written above others. */
  lemma FromBitsOr(a: seq<bool>, v: nat, n: nat)
    requires v < Pow2(n)
    ensures Or(FromBits(a), v * Pow2(|a|)) == FromBits(a + ToBits(v, n))
  {
    FromBitsBound(a);
    OrShifted(FromBits(a), v, |a|);
    var b := a + ToBits(v, n);
    FromBitsSplit(b, |a|);
    assert b[..|a|] == a && b[|a|..] == ToBits(v, n);
    FromToBits(v, n);
    SmallMod(v, Pow2(n));
  }

  lemma {:induction false} BytesBitsAt(s: seq<u8>, i: nat)
    requires i < |s|
    ensures 8 * i + 8 <= |BytesBits(s)| && BytesBits(s)[8 * i..8 * i + 8] == ToBits(s[i], 8)
  {
    var init, last := s[..|s| - 1], s[|s| - 1];
    assert BytesBits(s) == BytesBits(init) + ToBits(last, 8);
    hide *;
    if i < |s| - 1 {
      BytesBitsAt(init, i);
      KeepSlice(BytesBits(init), ToBits(last, 8), 8 * i);
    }
  }

  lemma KeepSlice(a: seq<bool>, b: seq<bool>, k: nat)
    requires k + 8 <= |a|
    ensures (a + b)[k..k + 8] == a[k..k + 8]
  {}

  // ---------------------------------------------------------------- bytes from their bits

  lemma {:induction false} BytesBitsInjective(a: seq<u8>, b: seq<u8>)
    requires BytesBits(a) == BytesBits(b)
    ensures a == b
  {
    hide ToBits;
    assert |a| == |b|;
    forall i | 0 <= i < |a| ensures a[i] == b[i] {
      BytesBitsAt(a, i);
      BytesBitsAt(b, i);
      ToBitsInjective(a[i], b[i], 8);
      assert Pow2(8) == 256;
      SmallMod(a[i], 256);
      SmallMod(b[i], 256);
    }
  }

  /** What ends in the bits of some bytes ends in those bytes. */
  lemma LastBytes(a: seq<u8>, front: seq<bool>, b: seq<u8>)
    requires BytesBits(a) == front + BytesBits(b)
    ensures |b| <= |a| && a[|a| - |b|..] == b
  {
    hide BytesBits;
    var n := |a| - |b|;
    assert |BytesBits(a)| == |front| + |BytesBits(b)|;
    var x, y := a[..n], a[n..];
    assert a == x + y;
    BytesBitsAppend(x, y);
    SameEnds(BytesBits(x), BytesBits(y), front, BytesBits(b));
    BytesBitsInjective(y, b);
  }

  lemma SameEnds(a: seq<bool>, b: seq<bool>, c: seq<bool>, d: seq<bool>)
    requires a + b == c + d && |b| == |d|
    ensures b == d
  {
    assert b == (a + b)[|a|..] && d == (c + d)[|c|..];
  }
}
