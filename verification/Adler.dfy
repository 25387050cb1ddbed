/** The Adler-32 checksum (section 2.2 of RFC 1950) with the reduction put off to the end of blocks of
    5552 bytes (`mz_adler32` and its copy at the end of `tinfl_decompress`). */
module Adler {
  import opened Bits

  const BASE := 65521
  const BLOCK := 5552

  datatype Sums = Sums(a: nat, b: nat)

  /** One byte, as the standard says it: both sums reduced at once. */
  function Next(s: Sums, x: u8): Sums
  {
    var a := (s.a + x) % BASE;
    Sums(a, (s.b + a) % BASE)
  }

  function Fold(s: Sums, data: seq<u8>): Sums
  {
    if data == [] then s else Next(Fold(s, data[..|data| - 1]), data[|data| - 1])
  }

  /** The two halves of a checksum. */
  function Halves(adler: nat): Sums
  {
    Sums(adler % 65536, adler / 65536)
  }

  /** The checksum of data that continues a checksum. */
  function Checksum(adler: nat, data: seq<u8>): nat
  {
    var s := Fold(Halves(adler), data);
    65536 * s.b + s.a
  }

  // ---------------------------------------------------------------- without reduction

  function Raw(s: Sums, data: seq<u8>): Sums
  {
    if data == [] then s else
      var t := Raw(s, data[..|data| - 1]);
      var a := t.a + data[|data| - 1];
      Sums(a, t.b + a)
  }

  lemma RawNext(s: Sums, data: seq<u8>, x: u8)
    ensures var t := Raw(s, data); Raw(s, data + [x]) == Sums(t.a + x, t.b + t.a + x)
  {
    assert (data + [x])[..|data|] == data;
  }

  function Reduced(s: Sums): Sums
  {
    Sums(s.a % BASE, s.b % BASE)
  }

  /** Reducing late gives what reducing every time gives. */
  lemma {:induction false} ReduceLate(s: Sums, data: seq<u8>)
    requires data != []
    ensures Reduced(Raw(s, data)) == Fold(s, data)
  {
    var init, x := data[..|data| - 1], data[|data| - 1];
    var t := Raw(s, init);
    if init != [] {
      ReduceLate(s, init);
    }
    hide Raw, Fold;
    RawNext(s, init, x);
    FoldNext(s, init, x);
    assert init + [x] == data;
    NoBytesYet(s);
    NextOf(t, x);
    NextReduced(t, x);
  }

  lemma FoldNext(s: Sums, data: seq<u8>, x: u8)
    ensures Fold(s, data + [x]) == Next(Fold(s, data), x)
  {
    assert (data + [x])[..|data|] == data;
  }

  lemma NextOf(t: Sums, x: u8)
    ensures Next(t, x) == Reduced(Sums(t.a + x, t.b + t.a + x))
  {
    ModAdd2(t.b, t.a + x);
  }

  lemma ModAdd(a: nat, x: nat)
    ensures (a % BASE + x) % BASE == (a + x) % BASE
  {
    assert a + x == BASE * (a / BASE) + (a % BASE + x);
  }

  lemma ModAdd2(b: nat, a: nat)
    ensures (b + a % BASE) % BASE == (b + a) % BASE
  {
    ModAdd(a, b);
  }

  /** 5552 bytes are not too many: 32 bits hold the sums. */
  lemma {:induction false} RawBound(s: Sums, data: seq<u8>)
    requires s.a < 65536 && s.b < 65536
    ensures var n, r := |data|, Raw(s, data);
      r.a <= 65535 + 255 * n && 2 * r.b <= 131070 + 131070 * n + 255 * (n * (n + 1))
    decreases |data|
  {
    if data != [] {
      RawBound(s, data[..|data| - 1]);
      Squares(|data|);
    }
  }

  lemma Squares(n: nat)
    requires n > 0
    ensures n * (n + 1) == (n - 1) * n + 2 * n
  {}

  lemma BlockFits(s: Sums, data: seq<u8>)
    requires s.a < 65536 && s.b < 65536 && |data| <= BLOCK
    ensures Raw(s, data).a < 0x1_0000_0000 && Raw(s, data).b < 0x1_0000_0000
  {
    RawBound(s, data);
    SquareMono(|data|);
  }

  lemma SquareMono(n: nat)
    requires n <= BLOCK
    ensures n * (n + 1) <= BLOCK * (BLOCK + 1)
  {
    MulMono(n, BLOCK, n + 1);
    MulMono(n + 1, BLOCK + 1, BLOCK);
  }

  // ---------------------------------------------------------------- pieces

  lemma {:induction false} FoldAppend(s: Sums, a: seq<u8>, b: seq<u8>)
    ensures Fold(s, a + b) == Fold(Fold(s, a), b)
  {
    hide Next;
    if b == [] {
      assert a + b == a;
    } else {
      var init := b[..|b| - 1];
      FoldAppend(s, a, init);
      assert (a + b)[..|a + b| - 1] == a + init;
    }
  }

  lemma {:induction false} FoldBound(s: Sums, data: seq<u8>)
    requires s.a < 65536 && s.b < 65536
    ensures Fold(s, data).a < 65536 && Fold(s, data).b < 65536
  {}

  lemma HalvesOf(s: Sums)
    requires s.a < 65536
    ensures Halves(65536 * s.b + s.a) == s
  {}

  /** The checksum of the first part, continued over the second, is that of the whole. */
  lemma ChecksumAppend(adler: u32, a: seq<u8>, b: seq<u8>)
    ensures Checksum(Checksum(adler, a), b) == Checksum(adler, a + b)
  {
    var s := Halves(adler);
    FoldAppend(s, a, b);
    FoldBound(s, a);
    HalvesOf(Fold(s, a));
  }

  // ---------------------------------------------------------------- what it means

  function Sum(data: seq<u8>): nat
  {
    if data == [] then 0 else Sum(data[..|data| - 1]) + data[|data| - 1]
  }

  /** The sum of all prefix sums. */
  function SumOfSums(data: seq<u8>): nat
  {
    if data == [] then 0 else SumOfSums(data[..|data| - 1]) + Sum(data)
  }

  /** The standard's definition: from the seed 1, one plus the sum of the bytes, and the sum of the
      values this has had, both modulo 65521. */
  lemma ChecksumMeans(data: seq<u8>)
    ensures Checksum(1, data) == 65536 * ((|data| + SumOfSums(data)) % 65521) + (1 + Sum(data)) % 65521
  {
    RawMeans(data);
    if data != [] { ReduceLate(Sums(1, 0), data); }
  }

  lemma {:induction false} RawMeans(data: seq<u8>)
    ensures Raw(Sums(1, 0), data) == Sums(1 + Sum(data), |data| + SumOfSums(data))
  {
    if data != [] { RawMeans(data[..|data| - 1]); }
  }

  // ---------------------------------------------------------------- the loops

  /** `s1 += *ptr, s2 += s1` on 32-bit numbers. */
  method Add(s1: u32, s2: u32, x: u8, ghost s: Sums, ghost data: seq<u8>) returns (s1': u32, s2': u32)
    requires s.a < 65536 && s.b < 65536 && |data| < BLOCK && Sums(s1, s2) == Raw(s, data)
    ensures Sums(s1', s2') == Raw(s, data + [x])
  {
    hide Raw;
    RawNext(s, data, x);
    BlockFits(s, data + [x]);
    s1' := s1 + x;
    s2' := s2 + s1';
  }

  /** One block, eight bytes at a time and then one by one. */
  method AddBlock(ptr: array<u8>, at: nat, blockLen: nat, a: u32, b: u32) returns (s1: u32, s2: u32)
    requires a < 65536 && b < 65536 && blockLen <= BLOCK && at + blockLen <= ptr.Length
    ensures Sums(s1, s2) == Raw(Sums(a, b), ptr[at..at + blockLen])
  {
    hide Raw;
    ghost var s := Sums(a, b);
    s1, s2 := a, b;
    var i := 0;
    NoBytesYet(s);
    assert ptr[at..at] == [];
    while i + 7 < blockLen
      invariant i <= blockLen && Sums(s1, s2) == Raw(s, ptr[at..at + i])
      decreases blockLen - i
    {
      s1, s2 := AddAt(ptr, at, i, s1, s2, s);
      s1, s2 := AddAt(ptr, at, i + 1, s1, s2, s);
      s1, s2 := AddAt(ptr, at, i + 2, s1, s2, s);
      s1, s2 := AddAt(ptr, at, i + 3, s1, s2, s);
      s1, s2 := AddAt(ptr, at, i + 4, s1, s2, s);
      s1, s2 := AddAt(ptr, at, i + 5, s1, s2, s);
      s1, s2 := AddAt(ptr, at, i + 6, s1, s2, s);
      s1, s2 := AddAt(ptr, at, i + 7, s1, s2, s);
      i := i + 8;
    }
    while i < blockLen
      invariant i <= blockLen && Sums(s1, s2) == Raw(s, ptr[at..at + i])
    {
      s1, s2 := AddAt(ptr, at, i, s1, s2, s);
      i := i + 1;
    }
  }

  method AddAt(ptr: array<u8>, at: nat, i: nat, s1: u32, s2: u32, ghost s: Sums) returns (s1': u32, s2': u32)
    requires s.a < 65536 && s.b < 65536 && i < BLOCK && at + i < ptr.Length && Sums(s1, s2) == Raw(s, ptr[at..at + i])
    ensures Sums(s1', s2') == Raw(s, ptr[at..at + i + 1])
  {
    hide Raw;
    assert ptr[at..at + i + 1] == ptr[at..at + i] + [ptr[at + i]];
    s1', s2' := Add(s1, s2, ptr[at + i], s, ptr[at..at + i]);
  }

  lemma NoBytesYet(s: Sums)
    ensures Raw(s, []) == s && Fold(s, []) == s
  {}

  lemma {:induction false} FoldFrom(x: Sums, y: Sums, data: seq<u8>)
    requires data != [] && Reduced(x) == Reduced(y)
    ensures Fold(x, data) == Fold(y, data)
  {
    var init, last := data[..|data| - 1], data[|data| - 1];
    if init != [] {
      FoldFrom(x, y, init);
    } else {
      NextReduced(x, last);
      NextReduced(y, last);
    }
  }

  lemma NextReduced(s: Sums, x: u8)
    ensures Next(s, x) == Next(Reduced(s), x)
  {
    ModAdd(s.a, x);
    ModAdd(s.b, (s.a + x) % BASE);
  }

  lemma FoldSmall(s: Sums, data: seq<u8>)
    requires data != []
    ensures Fold(s, data).a < BASE && Fold(s, data).b < BASE
  {}

  /** A block's sums, reduced, agree with the sums of everything up to its end. */
  lemma BlockDone(s: Sums, before: seq<u8>, x: Sums, block: seq<u8>)
    requires Reduced(x) == Reduced(Fold(s, before))
    ensures Reduced(Raw(x, block)) == Reduced(Fold(s, before + block))
  {
    hide Raw, Fold;
    if block == [] {
      NoBytesYet(x);
      assert before + block == before;
    } else {
      ReduceLate(x, block);
      FoldFrom(x, Fold(s, before), block);
      FoldAppend(s, before, block);
      FoldSmall(x, block);
    }
  }

  /** What the sums are at the end of a block. */
  ghost predicate UpTo(s: Sums, data: seq<u8>, s1: nat, s2: nat)
  {
    Reduced(Sums(s1, s2)) == Reduced(Fold(s, data)) && s1 < 65536 && s2 < 65536
  }

  method ReducedBlock(ptr: array<u8>, at: nat, blockLen: nat, a: u32, b: u32, ghost s: Sums) returns (s1: u32, s2: u32)
    requires blockLen <= BLOCK && at + blockLen <= ptr.Length && UpTo(s, ptr[..at], a, b)
    ensures UpTo(s, ptr[..at + blockLen], s1, s2) && s1 < BASE && s2 < BASE
  {
    hide Raw, Fold;
    s1, s2 := AddBlock(ptr, at, blockLen, a, b);
    BlockDone(s, ptr[..at], Sums(a, b), ptr[at..at + blockLen]);
    assert ptr[..at] + ptr[at..at + blockLen] == ptr[..at + blockLen];
    ReducedTwice(Sums(s1, s2));
    s1, s2 := s1 % BASE, s2 % BASE;
  }

  lemma ReducedTwice(s: Sums)
    ensures Reduced(Reduced(s)) == Reduced(s) && Reduced(s).a < BASE && Reduced(s).b < BASE
  {}

  lemma ReducedSame(x: Sums, y: Sums)
    requires Reduced(x) == Reduced(y) && x.a < BASE && x.b < BASE && y.a < BASE && y.b < BASE
    ensures x == y
  {}

  predicate Whole(n: int)
  {
    n % BLOCK == 0
  }

  /** The loop over blocks; the first one takes what is over and may be empty. No sum ever leaves 32
      bits. */
  method AddAll(ptr: array<u8>, bufLen: nat, a: u32, b: u32) returns (s1: u32, s2: u32)
    requires a < 65536 && b < 65536 && bufLen <= ptr.Length
    ensures Sums(s1, s2) == Fold(Sums(a, b), ptr[..bufLen]) && s1 < 65536 && s2 < 65536
  {
    hide Raw, Fold, UpTo, Reduced, Whole;
    ghost var s := Sums(a, b);
    s1, s2 := a, b;
    var left: nat, at: nat, blockLen: nat := bufLen, 0, bufLen % BLOCK;
    NoBytesYet(s);
    FirstBlock(bufLen);
    assert ptr[..0] == [];
    AtStart(s);
    while left > 0
      invariant at + left == bufLen && blockLen <= BLOCK && Whole(left - blockLen) && UpTo(s, ptr[..at], s1, s2)
      invariant blockLen == BLOCK || at == 0
      invariant at > 0 ==> s1 < BASE && s2 < BASE
      invariant bufLen == 0 ==> Sums(s1, s2) == s
      decreases left, BLOCK - blockLen
    {
      BlockInside(left, blockLen);
      s1, s2 := ReducedBlock(ptr, at, blockLen, s1, s2, s);
      at, left := at + blockLen, left - blockLen;
      blockLen := BLOCK;
    }
    if bufLen > 0 { AtEnd(s, ptr[..bufLen], s1, s2); }
  }

  lemma FirstBlock(n: nat)
    ensures n % BLOCK < BLOCK && Whole(n - n % BLOCK)
  {}

  lemma AtStart(s: Sums)
    requires s.a < 65536 && s.b < 65536
    ensures UpTo(s, [], s.a, s.b)
  {}

  lemma AtEnd(s: Sums, data: seq<u8>, s1: nat, s2: nat)
    requires data != [] && UpTo(s, data, s1, s2) && s1 < BASE && s2 < BASE
    ensures Sums(s1, s2) == Fold(s, data)
  {
    FoldSmall(s, data);
    hide Fold, Reduced;
    ReducedSame(Sums(s1, s2), Fold(s, data));
  }

  lemma BlockInside(left: nat, blockLen: nat)
    requires left > 0 && blockLen <= BLOCK && Whole(left - blockLen)
    ensures blockLen <= left && Whole(left - blockLen - BLOCK)
  {}

  /** `mz_adler32`. A null pointer asks for the seed of an empty stream. */
  method Adler32(adler: u32, ptr: array?<u8>, bufLen: nat) returns (r: u32)
    requires ptr != null ==> bufLen <= ptr.Length
    ensures r == if ptr == null then 1 else Checksum(adler, ptr[..bufLen])
  {
    hide Fold;
    if ptr == null {
      return 1;
    }
    var s1, s2 := AddAll(ptr, bufLen, adler % 65536, adler / 65536);
    r := 65536 * s2 + s1;
  }

  /** The decompressor's check of the output of one call. */
  method UpdateCheck(check: u32, out: array<u8>, size: nat) returns (r: u32)
    requires size <= out.Length
    ensures r == Checksum(check, out[..size])
  {
    hide Fold;
    var s1, s2 := AddAll(out, size, check % 65536, check / 65536);
    r := 65536 * s2 + s1;
  }
}
