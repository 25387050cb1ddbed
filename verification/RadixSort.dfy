/** The two-pass radix sort of symbols by 16-bit frequency (`tdefl_radix_sort_syms`). */
module RadixSort {
  import opened Bits
  import opened Symbols

  /** The byte of the key that pass 0 or pass 1 sorts by. */
  function Digit(key: u16, pass: nat): (d: nat)
    requires pass < 2
    ensures d < 256
  {
    if pass == 0 then key % 256 else key / 256
  }

  /** The elements whose digit is `b`, in order. */
  function Bucket(s: seq<SymFreq>, pass: nat, b: nat): seq<SymFreq>
    requires pass < 2
  {
    if s == [] then [] else
      var last := s[|s| - 1];
      Bucket(s[..|s| - 1], pass, b) + if Digit(last.key, pass) == b then [last] else []
  }

  /** The elements with key `k`, in order. */
  function WithKey(s: seq<SymFreq>, k: nat): seq<SymFreq>
  {
    if s == [] then [] else
      var last := s[|s| - 1];
      WithKey(s[..|s| - 1], k) + if last.key == k then [last] else []
  }

  ghost predicate SortedByKey(s: seq<SymFreq>)
  {
    forall i, j :: 0 <= i <= j < |s| ==> s[i].key <= s[j].key
  }

  ghost predicate SortedByDigit(s: seq<SymFreq>, pass: nat)
    requires pass < 2
  {
    forall i, j :: 0 <= i <= j < |s| ==> Digit(s[i].key, pass) <= Digit(s[j].key, pass)
  }

  /** `t` lists the same elements as `s`, ascending by key, equal keys in their old order. */
  ghost predicate StableSort(s: seq<SymFreq>, t: seq<SymFreq>)
  {
    && SortedByKey(t) && multiset(t) == multiset(s)
    && forall k: nat :: WithKey(t, k) == WithKey(s, k)
  }

  ghost predicate SameBuckets(s: seq<SymFreq>, t: seq<SymFreq>, pass: nat)
    requires pass < 2
  {
    forall b: nat :: Bucket(t, pass, b) == Bucket(s, pass, b)
  }

  // ---------------------------------------------------------------- buckets

  /** Position of the first element of bucket `b` after a pass. */
  function Start(s: seq<SymFreq>, pass: nat, b: nat): nat
    requires pass < 2
  {
    if b == 0 then 0 else Start(s, pass, b - 1) + |Bucket(s, pass, b - 1)|
  }

  lemma {:induction false} BucketConcat(s: seq<SymFreq>, t: seq<SymFreq>, pass: nat, b: nat)
    requires pass < 2
    ensures Bucket(s + t, pass, b) == Bucket(s, pass, b) + Bucket(t, pass, b)
  {
    if t == [] {
      assert s + t == s;
    } else {
      assert (s + t)[..|s + t| - 1] == s + t[..|t| - 1];
      BucketConcat(s, t[..|t| - 1], pass, b);
    }
  }

  lemma {:induction false} WithKeyConcat(s: seq<SymFreq>, t: seq<SymFreq>, k: nat)
    ensures WithKey(s + t, k) == WithKey(s, k) + WithKey(t, k)
  {
    if t == [] {
      assert s + t == s;
    } else {
      assert (s + t)[..|s + t| - 1] == s + t[..|t| - 1];
      WithKeyConcat(s, t[..|t| - 1], k);
    }
  }

  lemma {:induction false} BucketElements(s: seq<SymFreq>, pass: nat, b: nat)
    requires pass < 2
    ensures forall x :: x in Bucket(s, pass, b) ==> Digit(x.key, pass) == b
  {
    if s != [] { BucketElements(s[..|s| - 1], pass, b); }
  }

  lemma {:induction false} BucketCounts(s: seq<SymFreq>, pass: nat, b: nat, x: SymFreq)
    requires pass < 2
    ensures multiset(Bucket(s, pass, b))[x] == if Digit(x.key, pass) == b then multiset(s)[x] else 0
  {
    if s != [] {
      BucketCounts(s[..|s| - 1], pass, b, x);
      assert s == s[..|s| - 1] + [s[|s| - 1]];
    }
  }

  lemma {:induction false} KeyOfBucket(s: seq<SymFreq>, pass: nat, k: u16)
    requires pass < 2
    ensures WithKey(Bucket(s, pass, Digit(k, pass)), k) == WithKey(s, k)
  {
    if s != [] {
      var last, b := s[|s| - 1], Digit(k, pass);
      KeyOfBucket(s[..|s| - 1], pass, k);
      if Digit(last.key, pass) == b {
        WithKeyConcat(Bucket(s[..|s| - 1], pass, b), [last], k);
        assert [last][..0] == [];
      } else {
        assert Bucket(s, pass, b) == Bucket(s[..|s| - 1], pass, b);
      }
    }
  }

  lemma BucketLast(s: seq<SymFreq>, pass: nat, b: nat)
    requires pass < 2 && s != []
    ensures var e := s[|s| - 1];
      Bucket(s, pass, b) == Bucket(s[..|s| - 1], pass, b) + if Digit(e.key, pass) == b then [e] else []
  {}

  /** A bucket of a sequence sorted by the other digit is sorted by that digit. */
  lemma {:induction false} BucketKeepsOrder(s: seq<SymFreq>, pass: nat, b: nat, other: nat)
    requires pass < 2 && other < 2 && SortedByDigit(s, other)
    ensures SortedByDigit(Bucket(s, pass, b), other)
    ensures forall x :: x in Bucket(s, pass, b) ==> x in s
  {
    if s != [] {
      var init := s[..|s| - 1];
      BucketKeepsOrder(init, pass, b, other);
      BucketLast(s, pass, b);
      hide Bucket, Digit;
      forall x | x in Bucket(init, pass, b) ensures Digit(x.key, other) <= Digit(s[|s| - 1].key, other) {
        var i :| 0 <= i < |init| && init[i] == x;
        assert s[i] == x;
      }
    }
  }

  /** `t` is the concatenation of the buckets of `s`. */
  ghost predicate Distributed(s: seq<SymFreq>, t: seq<SymFreq>, pass: nat)
    requires pass < 2
  {
    && |t| == |s| == Start(s, pass, 256)
    && forall b: nat :: b < 256 ==> BlockIs(s, t, pass, b)
  }

  ghost predicate BlockIs(s: seq<SymFreq>, t: seq<SymFreq>, pass: nat, b: nat)
    requires pass < 2
  {
    var lo, hi := Start(s, pass, b), Start(s, pass, b + 1);
    hi <= |t| && t[lo..hi] == Bucket(s, pass, b)
  }

  lemma {:induction false} StartMono(s: seq<SymFreq>, pass: nat, a: nat, b: nat)
    requires pass < 2 && a <= b
    ensures Start(s, pass, a) <= Start(s, pass, b)
  {
    if a < b { StartMono(s, pass, a, b - 1); }
  }

  /** The buckets of the first `m` blocks. */
  lemma {:induction false} BlocksPrefix(s: seq<SymFreq>, t: seq<SymFreq>, pass: nat, m: nat, b: nat)
    requires pass < 2 && m <= 256 && Distributed(s, t, pass)
    ensures Start(s, pass, m) <= |t|
    ensures Bucket(t[..Start(s, pass, m)], pass, b) == if b < m then Bucket(s, pass, b) else []
  {
    StartMono(s, pass, m, 256);
    if m > 0 {
      BlocksPrefix(s, t, pass, m - 1, b);
      NextBlock(s, t, pass, m - 1, b);
    }
  }

  lemma NextBlock(s: seq<SymFreq>, t: seq<SymFreq>, pass: nat, m: nat, b: nat)
    requires pass < 2 && m < 256 && Distributed(s, t, pass)
    ensures Start(s, pass, m) <= Start(s, pass, m + 1) <= |t|
    ensures Bucket(t[..Start(s, pass, m + 1)], pass, b)
         == Bucket(t[..Start(s, pass, m)], pass, b) + if b == m then Bucket(s, pass, b) else []
  {
    hide Bucket;
    var block, lo, hi := Bucket(s, pass, m), Start(s, pass, m), Start(s, pass, m + 1);
    assert BlockIs(s, t, pass, m);
    assert t[..hi] == t[..lo] + block;
    BucketConcat(t[..lo], block, pass, b);
    BucketElements(s, pass, m);
    BucketOfBlock(block, pass, m, b);
  }

  lemma {:induction false} BucketOfBlock(s: seq<SymFreq>, pass: nat, d: nat, b: nat)
    requires pass < 2 && forall x :: x in s ==> Digit(x.key, pass) == d
    ensures Bucket(s, pass, b) == if b == d then s else []
  {
    hide Digit;
    if s != [] {
      BucketOfBlock(s[..|s| - 1], pass, d, b);
      assert s[|s| - 1] in s;
      assert s == s[..|s| - 1] + [s[|s| - 1]];
    }
  }

  lemma {:induction false} FindBlock(s: seq<SymFreq>, pass: nat, m: nat, i: nat) returns (b: nat)
    requires pass < 2 && i < Start(s, pass, m)
    ensures b < m && Start(s, pass, b) <= i < Start(s, pass, b + 1)
  {
    b := m - 1;
    if i < Start(s, pass, m - 1) { b := FindBlock(s, pass, m - 1, i); }
  }

  /** A pass keeps every bucket, hence the elements, and sorts by its digit. If the input was
      sorted by the other digit, that order survives inside each bucket. */
  lemma PassEffect(s: seq<SymFreq>, t: seq<SymFreq>, pass: nat)
    requires pass < 2 && Distributed(s, t, pass)
    ensures SameBuckets(s, t, pass) && multiset(t) == multiset(s) && SortedByDigit(t, pass)
    ensures pass == 1 && SortedByDigit(s, 0) ==> SortedByKey(t)
  {
    forall b: nat ensures Bucket(t, pass, b) == Bucket(s, pass, b) {
      BlocksPrefix(s, t, pass, 256, b);
      assert t[..Start(s, pass, 256)] == t;
      if b >= 256 { NoBucket(s, pass, b); }
    }
    assert multiset(t) == multiset(s) by {
      forall x ensures multiset(t)[x] == multiset(s)[x] {
        BucketCounts(t, pass, Digit(x.key, pass), x);
        BucketCounts(s, pass, Digit(x.key, pass), x);
      }
    }
    forall i, j | 0 <= i <= j < |t|
      ensures Digit(t[i].key, pass) <= Digit(t[j].key, pass)
      ensures pass == 1 && SortedByDigit(s, 0) ==> t[i].key <= t[j].key
    {
      OrderInBlocks(s, t, pass, i, j);
    }
  }

  /** The block an element stands in. */
  lemma InBlock(s: seq<SymFreq>, t: seq<SymFreq>, pass: nat, i: nat) returns (b: nat)
    requires pass < 2 && Distributed(s, t, pass) && i < |t|
    ensures Start(s, pass, b) <= i < Start(s, pass, b + 1) && i - Start(s, pass, b) < |Bucket(s, pass, b)|
    ensures t[i] == Bucket(s, pass, b)[i - Start(s, pass, b)] && Digit(t[i].key, pass) == b
  {
    hide Bucket, Start;
    b := FindBlock(s, pass, 256, i);
    assert BlockIs(s, t, pass, b);
    var x, lo := Bucket(s, pass, b), Start(s, pass, b);
    assert t[lo..Start(s, pass, b + 1)][i - lo] == t[i];
    BucketElements(s, pass, b);
    assert x[i - lo] in x;
  }

  lemma OrderInBlocks(s: seq<SymFreq>, t: seq<SymFreq>, pass: nat, i: nat, j: nat)
    requires pass < 2 && Distributed(s, t, pass) && i <= j < |t|
    ensures Digit(t[i].key, pass) <= Digit(t[j].key, pass)
    ensures pass == 1 && SortedByDigit(s, 0) ==> t[i].key <= t[j].key
  {
    hide Bucket, Start, Distributed, SortedByDigit;
    var b := InBlock(s, t, pass, i);
    var c := InBlock(s, t, pass, j);
    if c < b { StartMono(s, pass, c + 1, b); assert false; }
    if pass == 1 && SortedByDigit(s, 0) {
      if b == c {
        BucketKeepsOrder(s, 1, b, 0);
        SortedAt(Bucket(s, 1, b), 0, i - Start(s, 1, b), j - Start(s, 1, b));
      }
      KeyOrder(t[i].key, t[j].key);
    }
  }

  lemma SortedAt(x: seq<SymFreq>, pass: nat, i: nat, j: nat)
    requires pass < 2 && SortedByDigit(x, pass) && i <= j < |x|
    ensures Digit(x[i].key, pass) <= Digit(x[j].key, pass)
  {}

  lemma KeyOrder(k: u16, l: u16)
    requires Digit(k, 1) <= Digit(l, 1) && (Digit(k, 1) == Digit(l, 1) ==> Digit(k, 0) <= Digit(l, 0))
    ensures k <= l
  {}

  lemma {:induction false} NoBucket(s: seq<SymFreq>, pass: nat, b: nat)
    requires pass < 2 && b >= 256
    ensures Bucket(s, pass, b) == []
  {
    if s != [] { NoBucket(s[..|s| - 1], pass, b); }
  }

  lemma SameKeys(s: seq<SymFreq>, t: seq<SymFreq>, pass: nat, k: nat)
    requires pass < 2 && SameBuckets(s, t, pass)
    ensures WithKey(t, k) == WithKey(s, k)
  {
    if k < 0x1_0000 {
      KeyOfBucket(s, pass, k);
      KeyOfBucket(t, pass, k);
      assert Bucket(t, pass, Digit(k, pass)) == Bucket(s, pass, Digit(k, pass));
    } else {
      NoKey(s, k);
      NoKey(t, k);
    }
  }

  lemma {:induction false} NoKey(s: seq<SymFreq>, k: nat)
    requires k >= 0x1_0000
    ensures WithKey(s, k) == []
  {
    if s != [] { NoKey(s[..|s| - 1], k); }
  }

  // ---------------------------------------------------------------- the code

  /** Both histograms in one sweep: slot `b` for the low byte, slot `256 + b` for the high byte. */
  method Histogram(syms: array<SymFreq>, n: nat) returns (hist: array<nat>)
    requires n <= syms.Length
    ensures fresh(hist) && hist.Length == 512
    ensures forall b :: 0 <= b < 256 ==> hist[b] == |Bucket(syms[..n], 0, b)|
    ensures forall b :: 0 <= b < 256 ==> hist[256 + b] == |Bucket(syms[..n], 1, b)|
  {
    hist := new nat[512](_ => 0);
    for i := 0 to n
      invariant forall b :: 0 <= b < 256 ==> hist[b] == |Bucket(syms[..i], 0, b)|
      invariant forall b :: 0 <= b < 256 ==> hist[256 + b] == |Bucket(syms[..i], 1, b)|
    {
      assert syms[..i + 1][..i] == syms[..i];
      var freq := syms[i].key;
      hist[freq % 256] := hist[freq % 256] + 1;
      hist[256 + freq / 256] := hist[256 + freq / 256] + 1;
    }
  }

  /** Prefix sums of one histogram. */
  method Offsets(hist: array<nat>, pass: nat, ghost s: seq<SymFreq>) returns (offsets: array<nat>)
    requires pass < 2 && hist.Length == 512
    requires forall b :: 0 <= b < 256 ==> hist[pass * 256 + b] == |Bucket(s, pass, b)|
    ensures fresh(offsets) && offsets.Length == 256
    ensures forall b :: 0 <= b < 256 ==> offsets[b] == Start(s, pass, b)
  {
    hide Bucket, Start;
    offsets := new nat[256];
    var curOfs := 0;
    StartSteps(s, pass, 0);
    for i := 0 to 256
      invariant curOfs == Start(s, pass, i)
      invariant forall b :: 0 <= b < i ==> offsets[b] == Start(s, pass, b)
    {
      StartSteps(s, pass, i);
      offsets[i] := curOfs;
      curOfs := curOfs + hist[pass * 256 + i];
    }
  }

  lemma StartSteps(s: seq<SymFreq>, pass: nat, b: nat)
    requires pass < 2
    ensures Start(s, pass, 0) == 0 && Start(s, pass, b + 1) == Start(s, pass, b) + |Bucket(s, pass, b)|
  {
    hide Bucket;
  }

  /** After `i` elements, each block starts with the elements of its bucket seen so far. */
  ghost predicate Filled(s: seq<SymFreq>, t: seq<SymFreq>, pass: nat, i: nat, b: nat)
    requires pass < 2 && i <= |s|
  {
    var lo, x := Start(s, pass, b), Bucket(s[..i], pass, b);
    lo + |x| <= |t| && t[lo..lo + |x|] == x
  }

  ghost predicate AllFilled(s: seq<SymFreq>, t: seq<SymFreq>, pass: nat, i: nat)
    requires pass < 2 && i <= |s|
  {
    forall b :: 0 <= b < 256 ==> Filled(s, t, pass, i, b)
  }

  /** The write positions of all blocks after `i` elements. */
  ghost predicate Cursors(offsets: seq<nat>, s: seq<SymFreq>, pass: nat, i: nat)
    requires pass < 2 && i <= |s|
  {
    |offsets| == 256 && forall b :: 0 <= b < 256 ==> offsets[b] == Start(s, pass, b) + |Bucket(s[..i], pass, b)|
  }

  lemma {:induction false} BucketGrows(s: seq<SymFreq>, pass: nat, i: nat, b: nat)
    requires pass < 2 && i <= |s|
    ensures |Bucket(s[..i], pass, b)| <= |Bucket(s, pass, b)|
  {
    BucketConcat(s[..i], s[i..], pass, b);
    assert s == s[..i] + s[i..];
  }

  lemma {:induction false} StartTotal(s: seq<SymFreq>, pass: nat)
    requires pass < 2
    ensures Start(s, pass, 256) == |s|
  {
    if s == [] {
      StartEmpty(pass, 256);
    } else {
      var init, d := s[..|s| - 1], Digit(s[|s| - 1].key, pass);
      StartTotal(init, pass);
      StartExtend(s, pass, 256);
    }
  }

  lemma {:induction false} StartEmpty(pass: nat, m: nat)
    requires pass < 2
    ensures Start([], pass, m) == 0
  {
    if m > 0 { StartEmpty(pass, m - 1); }
  }

  lemma {:induction false} StartExtend(s: seq<SymFreq>, pass: nat, m: nat)
    requires pass < 2 && s != []
    ensures Start(s, pass, m) == Start(s[..|s| - 1], pass, m) + if Digit(s[|s| - 1].key, pass) < m then 1 else 0
  {
    if m > 0 { StartExtend(s, pass, m - 1); }
  }

  lemma PlaceNext(s: seq<SymFreq>, t: seq<SymFreq>, pass: nat, i: nat, pos: nat, b: nat)
    requires pass < 2 && i < |s| && |t| == |s|
    requires var d := Digit(s[i].key, pass); pos == Start(s, pass, d) + |Bucket(s[..i], pass, d)| && pos < |t|
    requires Filled(s, t, pass, i, b)
    ensures Filled(s, t[pos := s[i]], pass, i + 1, b)
  {
    hide Start;
    var d := Digit(s[i].key, pass);
    assert s[..i + 1][..i] == s[..i];
    var x := Bucket(s[..i], pass, b);
    var lo := Start(s, pass, b);
    var t' := t[pos := s[i]];
    if b == d {
      assert Bucket(s[..i + 1], pass, b) == x + [s[i]];
      assert t'[lo..pos] == x;
      assert t'[lo..pos + 1] == x + [s[i]];
    } else {
      assert Bucket(s[..i + 1], pass, b) == x;
      BlocksApart(s, pass, i, b, d);
      assert t'[lo..lo + |x|] == t[lo..lo + |x|];
    }
  }

  /** The slot where bucket `d` grows lies outside the filled part of any other bucket. */
  lemma BlocksApart(s: seq<SymFreq>, pass: nat, i: nat, b: nat, d: nat)
    requires pass < 2 && i < |s| && b != d && Digit(s[i].key, pass) == d
    ensures var pos := Start(s, pass, d) + |Bucket(s[..i], pass, d)|;
      pos < Start(s, pass, b) || Start(s, pass, b) + |Bucket(s[..i], pass, b)| <= pos
  {
    hide Bucket;
    RoomFor(s, pass, i);
    BucketGrows(s, pass, i, b);
    if b < d { StartMono(s, pass, b + 1, d); } else { StartMono(s, pass, d + 1, b); }
  }

  lemma RoomFor(s: seq<SymFreq>, pass: nat, i: nat)
    requires pass < 2 && i < |s|
    ensures var d := Digit(s[i].key, pass);
      && |Bucket(s[..i], pass, d)| < |Bucket(s, pass, d)|
      && Start(s, pass, d) + |Bucket(s[..i], pass, d)| < |s|
  {
    var d := Digit(s[i].key, pass);
    assert s[..i + 1][..i] == s[..i];
    BucketGrows(s, pass, i + 1, d);
    StartMono(s, pass, d + 1, 256);
    StartTotal(s, pass);
  }

  /** One pass: distributes `cur` into `next` by one digit. */
  method Pass(cur: array<SymFreq>, next: array<SymFreq>, n: nat, pass: nat, hist: array<nat>)
    requires pass < 2 && n <= cur.Length && n <= next.Length && cur != next && hist.Length == 512
    requires forall b :: 0 <= b < 256 ==> hist[pass * 256 + b] == |Bucket(cur[..n], pass, b)|
    modifies next
    ensures Distributed(cur[..n], next[..n], pass)
  {
    hide Bucket, Start;
    ghost var s := cur[..n];
    var offsets := Offsets(hist, pass, s);
    NothingPlaced(s, next[..n], pass, offsets[..]);
    for i := 0 to n
      invariant Cursors(offsets[..], s, pass, i) && AllFilled(s, next[..n], pass, i)
    {
      PlaceOne(cur, next, n, pass, offsets, i, s);
    }
    EverythingPlaced(s, next[..n], pass);
  }

  lemma NothingPlaced(s: seq<SymFreq>, t: seq<SymFreq>, pass: nat, offsets: seq<nat>)
    requires pass < 2 && |t| == |s| && |offsets| == 256
    requires forall b :: 0 <= b < 256 ==> offsets[b] == Start(s, pass, b)
    ensures Cursors(offsets, s, pass, 0) && AllFilled(s, t, pass, 0)
  {
    StartTotal(s, pass);
    forall b | 0 <= b < 256 ensures Filled(s, t, pass, 0, b) {
      StartMono(s, pass, b, 256);
    }
  }

  lemma EverythingPlaced(s: seq<SymFreq>, t: seq<SymFreq>, pass: nat)
    requires pass < 2 && |t| == |s| && AllFilled(s, t, pass, |s|)
    ensures Distributed(s, t, pass)
  {
    StartTotal(s, pass);
    forall b: nat | b < 256 ensures BlockIs(s, t, pass, b) {
      assert Filled(s, t, pass, |s|, b) && s[..|s|] == s;
    }
  }

  method PlaceOne(cur: array<SymFreq>, next: array<SymFreq>, n: nat, pass: nat, offsets: array<nat>, i: nat, ghost s: seq<SymFreq>)
    requires pass < 2 && i < n <= cur.Length && n <= next.Length && cur != next
    requires s == cur[..n]
    requires Cursors(offsets[..], s, pass, i) && AllFilled(s, next[..n], pass, i)
    modifies next, offsets
    ensures Cursors(offsets[..], s, pass, i + 1) && AllFilled(s, next[..n], pass, i + 1)
  {
    hide Bucket, Start, Cursors, AllFilled;
    ghost var t, o := next[..n], offsets[..];
    var d := Digit(cur[i].key, pass);
    CursorRoom(s, pass, i, o);
    next[offsets[d]] := cur[i];
    offsets[d] := offsets[d] + 1;
    assert next[..n] == t[o[d] := s[i]];
    assert offsets[..] == o[d := o[d] + 1];
    AfterPlacing(s, t, pass, i, o);
  }

  lemma CursorRoom(s: seq<SymFreq>, pass: nat, i: nat, o: seq<nat>)
    requires pass < 2 && i < |s| && Cursors(o, s, pass, i)
    ensures |o| == 256 && Digit(s[i].key, pass) < 256 && o[Digit(s[i].key, pass)] < |s|
  {
    hide Bucket, Start;
    RoomFor(s, pass, i);
  }

  lemma AfterPlacing(s: seq<SymFreq>, t: seq<SymFreq>, pass: nat, i: nat, o: seq<nat>)
    requires pass < 2 && i < |s| == |t| && Cursors(o, s, pass, i) && AllFilled(s, t, pass, i)
    ensures var d := Digit(s[i].key, pass);
      && o[d] < |t| && AllFilled(s, t[o[d] := s[i]], pass, i + 1) && Cursors(o[d := o[d] + 1], s, pass, i + 1)
  {
    var d := Digit(s[i].key, pass);
    RoomFor(s, pass, i);
    var t' := t[o[d] := s[i]];
    var i' := i + 1;
    forall b | 0 <= b < 256 ensures Filled(s, t', pass, i', b) {
      PlaceNext(s, t, pass, i, o[d], b);
    }
    assert s[..i + 1][..i] == s[..i];
  }

  /** Sorts the first `n` elements; the second pass is skipped when no key exceeds one byte. */
  method RadixSortSyms(n: nat, syms0: array<SymFreq>, syms1: array<SymFreq>) returns (sorted: array<SymFreq>)
    requires n <= syms0.Length && n <= syms1.Length && syms0 != syms1
    modifies syms0, syms1
    ensures sorted == syms0 || sorted == syms1
    ensures StableSort(old(syms0[..n]), sorted[..n])
  {
    ghost var s := syms0[..n];
    var hist := Histogram(syms0, n);
    var totalPasses := 2;
    if n == hist[256] {
      totalPasses := 1;
    }
    Pass(syms0, syms1, n, 0, hist);
    ghost var t := syms1[..n];
    PassEffect(s, t, 0);
    sorted := syms1;
    if totalPasses == 2 {
      forall b | 0 <= b < 256 ensures hist[256 + b] == |Bucket(t, 1, b)| {
        SameSizes(s, t, 1, b);
      }
      Pass(syms1, syms0, n, 1, hist);
      PassEffect(t, syms0[..n], 1);
      forall k: nat ensures WithKey(syms0[..n], k) == WithKey(s, k) {
        SameKeys(s, t, 0, k);
        SameKeys(t, syms0[..n], 1, k);
      }
      sorted := syms0;
    } else {
      OneByteKeys(s, t);
      forall k: nat ensures WithKey(t, k) == WithKey(s, k) {
        SameKeys(s, t, 0, k);
      }
    }
  }

  lemma SameSizes(s: seq<SymFreq>, t: seq<SymFreq>, pass: nat, b: nat)
    requires pass < 2 && multiset(s) == multiset(t)
    ensures |Bucket(s, pass, b)| == |Bucket(t, pass, b)|
  {
    var x, y := Bucket(s, pass, b), Bucket(t, pass, b);
    forall e ensures multiset(x)[e] == multiset(y)[e] {
      BucketCounts(s, pass, b, e);
      BucketCounts(t, pass, b, e);
    }
    assert |x| == |multiset(x)| && |y| == |multiset(y)|;
    assert multiset(x) == multiset(y);
  }

  /** If all high bytes are zero the low digit is the key. */
  lemma OneByteKeys(s: seq<SymFreq>, t: seq<SymFreq>)
    requires |Bucket(s, 1, 0)| == |s| && multiset(s) == multiset(t) && SortedByDigit(t, 0)
    ensures SortedByKey(t)
  {
    AllInBucket(s);
    forall i | 0 <= i < |t| ensures t[i].key < 256 {
      assert t[i] in multiset(t);
      assert t[i] in s;
    }
    forall i, j | 0 <= i <= j < |t| ensures t[i].key <= t[j].key {
      assert Digit(t[i].key, 0) <= Digit(t[j].key, 0);
    }
  }

  lemma {:induction false} AllInBucket(s: seq<SymFreq>)
    ensures |Bucket(s, 1, 0)| <= |s|
    ensures |Bucket(s, 1, 0)| == |s| ==> forall x :: x in s ==> x.key < 256
  {
    if s != [] {
      AllInBucket(s[..|s| - 1]);
      assert s == s[..|s| - 1] + [s[|s| - 1]];
    }
  }
}
