/** The hash chains of the match finder: for every position that has three bytes, where the last
    position before it with the same hash of three bytes is. */
module HashChain {
  import opened Bits
  import opened Tokens

  const HASH_SIZE := 32768

  /** The hash of the three bytes at `p`. */
  function Hash3(s: seq<u8>, p: nat): (h: nat)
    requires p + 2 < |s|
    ensures h < HASH_SIZE
  {
    Xor(Xor(s[p] as nat * 1024, s[p + 1] as nat * 32), s[p + 2]) % HASH_SIZE
  }

  // ---------------------------------------------------------------- the hash that rolls

  lemma {:induction false} XorHalves(a: nat, b: nat)
    ensures Xor(a, b) / 2 == Xor(a / 2, b / 2) && Xor(a, b) % 2 == (a + b) % 2
  {
    if a == 0 && b == 0 { assert Xor(0, 0) == 0; }
  }

  lemma {:induction false} XorTwice(a: nat, b: nat)
    ensures Xor(2 * a, 2 * b) == 2 * Xor(a, b)
  {}

  /** The low bits of the result come from the low bits of the operands. */
  lemma {:induction false} XorMod(a: nat, b: nat, n: nat)
    ensures Xor(a, b) % Pow2(n) == Xor(a % Pow2(n), b % Pow2(n)) % Pow2(n)
    decreases n
  {
    hide Xor;
    if n > 0 {
      XorMod(a / 2, b / 2, n - 1);
      Doubled(n);
      XorModStep(a, b, Pow2(n - 1));
    } else {
      assert Pow2(0) == 1;
    }
  }

  lemma XorModStep(a: nat, b: nat, p: nat)
    requires p >= 1 && Xor(a / 2, b / 2) % p == Xor(a / 2 % p, b / 2 % p) % p
    ensures Xor(a, b) % (2 * p) == Xor(a % (2 * p), b % (2 * p)) % (2 * p)
  {
    hide Xor;
    XorHalves(a, b);
    XorHalves(a % (2 * p), b % (2 * p));
    LowHalf(a, p);
    LowHalf(b, p);
    ModStep(Xor(a, b), p);
    ModStep(Xor(a % (2 * p), b % (2 * p)), p);
    SameParity(a, b, a % (2 * p), b % (2 * p));
  }

  lemma LowHalf(a: nat, p: nat)
    requires p >= 1
    ensures a % (2 * p) / 2 == a / 2 % p && a % (2 * p) % 2 == a % 2
  {
    ModStep(a, p);
    QuotientNat(a, 2);
    Halved(a % 2, a / 2 % p);
  }

  lemma Halved(x: nat, y: nat)
    requires x < 2
    ensures (x + 2 * y) / 2 == y && (x + 2 * y) % 2 == x
  {}

  lemma SameParity(a: nat, b: nat, c: nat, d: nat)
    requires a % 2 == c % 2 && b % 2 == d % 2
    ensures (a + b) % 2 == (c + d) % 2
  {}

  lemma XorZero(a: nat)
    ensures Xor(0, a) == a
  {
    if a > 0 { XorZero(a / 2); }
  }

  /** What the next hash needs of this one: the two bytes it has seen last. */
  predicate Rolls(h: nat, a: u8, b: u8)
  {
    h * 32 % HASH_SIZE == Xor(a as nat * 1024, b as nat * 32) % HASH_SIZE
  }

  lemma RollStart(a: u8, b: u8)
    ensures Rolls(Xor(a as nat * 32, b), a, b)
  {
    hide Xor;
    XorScaled(a as nat * 32, b);
  }

  lemma XorScaled(a: nat, b: nat)
    ensures Xor(a, b) * 32 == Xor(a * 32, b * 32)
  {
    hide Xor;
    XorTwice(a, b);
    XorTwice(2 * a, 2 * b);
    XorTwice(4 * a, 4 * b);
    XorTwice(8 * a, 8 * b);
    XorTwice(16 * a, 16 * b);
  }

  /** One step of five bits pushes out all but the last three bytes. */
  lemma Roll(h: nat, s: seq<u8>, p: nat)
    requires p + 2 < |s| && Rolls(h, s[p], s[p + 1])
    ensures Xor(h * 32, s[p + 2]) % HASH_SIZE == Hash3(s, p) && Rolls(Hash3(s, p), s[p + 1], s[p + 2])
  {
    hide Xor;
    var a, b, c := s[p] as nat, s[p + 1] as nat, s[p + 2] as nat;
    ModFive(h * 32, Xor(a * 1024, b * 32), c);
    // the hash times 32, without what does not fit
    var x := Xor(Xor(a * 1024, b * 32), c);
    XorScaled(Xor(a * 1024, b * 32), c);
    XorScaled(a * 1024, b * 32);
    ModScaled(x);
    ModFive(Xor(a * 32768, b * 1024), b * 1024, c * 32) by { PushedOut(a, b * 1024); }
  }

  lemma ModFive(x: nat, y: nat, c: nat)
    requires x % HASH_SIZE == y % HASH_SIZE
    ensures Xor(x, c) % HASH_SIZE == Xor(y, c) % HASH_SIZE
  {
    XorMod(x, c, 15);
    XorMod(y, c, 15);
    assert Pow2(15) == HASH_SIZE;
    hide Xor, Pow2;
  }

  lemma ModScaled(x: nat)
    ensures x % HASH_SIZE * 32 % HASH_SIZE == x * 32 % HASH_SIZE
  {}

  lemma PushedOut(a: nat, y: nat)
    ensures Xor(a * 32768, y) % HASH_SIZE == y % HASH_SIZE
  {
    hide Xor;
    assert a * 32768 % HASH_SIZE == 0;
    ModFive(a * 32768, 0, y);
    XorZero(y);
  }

  // ---------------------------------------------------------------- chains

  /** The last position before `to`, but not before `since`, with hash `h`, or -1. */
  function LastWith(s: seq<u8>, since: nat, to: nat, h: nat): (r: int)
    requires to <= since || to + 2 <= |s|
    ensures r == -1 || (since <= r < to && Hash3(s, r) == h)
    ensures forall p: nat :: since <= p < to && r < p ==> Hash3(s, p) != h
  {
    if to <= since then -1 else if Hash3(s, to - 1) == h then to - 1 else LastWith(s, since, to - 1, h)
  }

  /** How a position is stored: 16 bits of it, and 0 for none. */
  function Mark(p: int): u16
  {
    if p < 0 then 0 else p % 0x1_0000
  }

  /** The entry of a position leads to the last one before it with the same hash. */
  ghost predicate LinkedAt(links: seq<u16>, s: seq<u8>, since: nat, p: nat)
    requires |links| == DICT_SIZE && p + 2 < |s|
  {
    links[p % DICT_SIZE] == Mark(LastWith(s, since, p, Hash3(s, p)))
  }

  ghost predicate HeadAt(heads: seq<u16>, s: seq<u8>, since: nat, to: nat, h: nat)
    requires |heads| == HASH_SIZE && h < HASH_SIZE && (to <= since || to + 2 <= |s|)
  {
    heads[h] == Mark(LastWith(s, since, to, h))
  }

  /** The entries of the positions from `since` to `to`, as far as they have not been overwritten. */
  ghost predicate Links(links: seq<u16>, s: seq<u8>, since: nat, to: nat)
  {
    && |links| == DICT_SIZE && since <= to && (to == since || to + 2 <= |s|)
    && forall p: nat :: since <= p < to <= p + DICT_SIZE ==> LinkedAt(links, s, since, p)
  }

  /** The tables of the match finder when the positions from `since` to `to` have been entered. */
  ghost predicate Chained(heads: seq<u16>, links: seq<u16>, s: seq<u8>, since: nat, to: nat)
  {
    && |heads| == HASH_SIZE && Links(links, s, since, to)
    && forall h :: 0 <= h < HASH_SIZE ==> HeadAt(heads, s, since, to, h)
  }

  lemma NothingChained(heads: seq<u16>, links: seq<u16>, s: seq<u8>, since: nat)
    requires |heads| == HASH_SIZE && |links| == DICT_SIZE && forall h :: 0 <= h < HASH_SIZE ==> heads[h] == 0
    ensures Chained(heads, links, s, since, since)
  {}

  /** Another position is entered. */
  lemma ChainedMore(heads: seq<u16>, links: seq<u16>, s: seq<u8>, since: nat, to: nat)
    requires Chained(heads, links, s, since, to) && to + 2 < |s|
    ensures Chained(heads[Hash3(s, to) := to % 0x1_0000], links[to % DICT_SIZE := heads[Hash3(s, to)]], s, since, to + 1)
  {
    hide Hash3;
    var h := Hash3(s, to);
    var heads', links', next := heads[h := to % 0x1_0000], links[to % DICT_SIZE := heads[h]], to + 1;
    forall g | 0 <= g < HASH_SIZE ensures HeadAt(heads', s, since, next, g) {
      assert HeadAt(heads, s, since, to, g);
    }
    forall p: nat | since <= p < to + 1 <= p + DICT_SIZE ensures LinkedAt(links', s, since, p) {
      if p == to {
        assert HeadAt(heads, s, since, to, h);
      } else {
        assert LinkedAt(links, s, since, p);
        SlotsApart(p, to);
      }
    }
  }

  lemma SlotsApart(p: nat, q: nat)
    requires p < q < p + DICT_SIZE
    ensures p % DICT_SIZE != q % DICT_SIZE
  {
    var a, b := p / DICT_SIZE, q / DICT_SIZE;
    assert p == a * DICT_SIZE + p % DICT_SIZE && q == b * DICT_SIZE + q % DICT_SIZE;
  }

  /** More input does not change what has been entered. */
  lemma ChainedGrows(heads: seq<u16>, links: seq<u16>, s: seq<u8>, more: seq<u8>, since: nat, to: nat)
    requires Chained(heads, links, s, since, to)
    ensures Chained(heads, links, s + more, since, to)
  {
    forall h | 0 <= h < HASH_SIZE ensures HeadAt(heads, s + more, since, to, h) {
      assert HeadAt(heads, s, since, to, h);
      LastGrows(s, more, since, to, h);
    }
    forall p: nat | since <= p < to <= p + DICT_SIZE ensures LinkedAt(links, s + more, since, p) {
      assert LinkedAt(links, s, since, p);
      HashGrows(s, more, p);
      LastGrows(s, more, since, p, Hash3(s, p));
    }
  }

  lemma HashGrows(s: seq<u8>, more: seq<u8>, p: nat)
    requires p + 2 < |s|
    ensures Hash3(s + more, p) == Hash3(s, p)
  {}

  lemma {:induction false} LastGrows(s: seq<u8>, more: seq<u8>, since: nat, to: nat, h: nat)
    requires to <= since || to + 2 <= |s|
    ensures LastWith(s + more, since, to, h) == LastWith(s, since, to, h)
  {
    hide Hash3;
    if to > since {
      HashGrows(s, more, to - 1);
      LastGrows(s, more, since, to - 1, h);
    }
  }

  // ---------------------------------------------------------------- counting candidates

  /** How many positions have the hash `h`. */
  ghost function Same(s: seq<u8>, h: nat, from: nat, to: nat): nat
    requires to <= from || to + 2 <= |s|
  {
    if to <= from then 0 else Same(s, h, from, to - 1) + if Hash3(s, to - 1) == h then 1 else 0
  }

  /** One more candidate. */
  lemma {:induction false} SameMore(s: seq<u8>, h: nat, q: nat, f: nat, to: nat)
    requires q < f <= to && to + 2 <= |s| && Hash3(s, q) == h && forall p: nat :: q < p < f ==> Hash3(s, p) != h
    ensures Same(s, h, q, to) == Same(s, h, f, to) + 1
    decreases |s| + to
  {
    hide Hash3;
    if f < to {
      SameMore(s, h, q, f, to - 1);
    } else if q < f - 1 {
      SameMore(s, h, q, f - 1, f - 1);
    }
  }

  lemma {:induction false} SameFewer(s: seq<u8>, h: nat, from: nat, from': nat, to: nat)
    requires from <= from' && (to <= from || to + 2 <= |s|)
    ensures Same(s, h, from', to) <= Same(s, h, from, to)
  {
    hide Hash3;
    if to > from { SameFewer(s, h, from, from', to - 1); }
  }
}
