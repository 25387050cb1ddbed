/** Symbols and extra bits for match lengths and distances (section 3.2.5 of RFC 1951): the
    compressor looks symbols up by value, the decompressor looks values up by symbol. */
module LzSymbols {
  import opened Bits
  import opened Tokens

  const LIT_SYMS := 288
  const DIST_SYMS := 32
  const END_OF_BLOCK := 256

  // ---------------------------------------------------------------- the compressor's tables, run by run

  /** `s_tdefl_len_sym` */
  function LenSym(x: nat): nat
    requires x < 256
  {
    if x < 8 then 257 + x
    else if x < 16 then 265 + (x - 8) / 2
    else if x < 32 then 269 + (x - 16) / 4
    else if x < 64 then 273 + (x - 32) / 8
    else if x < 128 then 277 + (x - 64) / 16
    else if x < 255 then 281 + (x - 128) / 32
    else 285
  }

  /** `s_tdefl_len_extra` */
  function LenExtra(x: nat): nat
    requires x < 256
  {
    if x < 8 then 0 else if x < 16 then 1 else if x < 32 then 2 else if x < 64 then 3
    else if x < 128 then 4 else if x < 255 then 5 else 0
  }

  /** `s_tdefl_small_dist_sym` */
  function SmallDistSym(d: nat): nat
    requires d < 512
  {
    if d < 4 then d
    else if d < 8 then 4 + (d - 4) / 2
    else if d < 16 then 6 + (d - 8) / 4
    else if d < 32 then 8 + (d - 16) / 8
    else if d < 64 then 10 + (d - 32) / 16
    else if d < 128 then 12 + (d - 64) / 32
    else if d < 256 then 14 + (d - 128) / 64
    else 16 + (d - 256) / 128
  }

  /** `s_tdefl_small_dist_extra` */
  function SmallDistExtra(d: nat): nat
    requires d < 512
  {
    if d < 4 then 0 else if d < 8 then 1 else if d < 16 then 2 else if d < 32 then 3
    else if d < 64 then 4 else if d < 128 then 5 else if d < 256 then 6 else 7
  }

  /** `s_tdefl_large_dist_sym` */
  function LargeDistSym(h: nat): nat
    requires h < 128
  {
    if h < 2 then 0
    else if h < 4 then 18 + (h - 2)
    else if h < 8 then 20 + (h - 4) / 2
    else if h < 16 then 22 + (h - 8) / 4
    else if h < 32 then 24 + (h - 16) / 8
    else if h < 64 then 26 + (h - 32) / 16
    else 28 + (h - 64) / 32
  }

  /** `s_tdefl_large_dist_extra` */
  function LargeDistExtra(h: nat): nat
    requires h < 128
  {
    if h < 2 then 0 else if h < 4 then 8 else if h < 8 then 9 else if h < 16 then 10
    else if h < 32 then 11 else if h < 64 then 12 else 13
  }

  /** Symbol of a distance, given one less than the distance. */
  function DistSym(d: nat): nat
    requires d < DICT_SIZE
  {
    if d < 512 then SmallDistSym(d) else LargeDistSym(d / 256)
  }

  function DistExtra(d: nat): nat
    requires d < DICT_SIZE
  {
    if d < 512 then SmallDistExtra(d) else LargeDistExtra(d / 256)
  }

  // ---------------------------------------------------------------- the decompressor's tables

  const LENGTH_BASE: seq<nat> := [3, 4, 5, 6, 7, 8, 9, 10, 11, 13, 15, 17, 19, 23, 27, 31, 35, 43, 51, 59, 67, 83, 99, 115, 131, 163, 195, 227, 258, 0, 0]
  const LENGTH_EXTRA: seq<nat> := [0, 0, 0, 0, 0, 0, 0, 0, 1, 1, 1, 1, 2, 2, 2, 2, 3, 3, 3, 3, 4, 4, 4, 4, 5, 5, 5, 5, 0, 0, 0]
  const DIST_BASE: seq<nat> := [1, 2, 3, 4, 5, 7, 9, 13, 17, 25, 33, 49, 65, 97, 129, 193, 257, 385, 513, 769, 1025, 1537, 2049, 3073, 4097, 6145, 8193, 12289, 16385, 24577, 0, 0]
  const DIST_EXTRA: seq<nat> := [0, 0, 0, 0, 1, 1, 2, 2, 3, 3, 4, 4, 5, 5, 6, 6, 7, 7, 8, 8, 9, 9, 10, 10, 11, 11, 12, 12, 13, 13, 0, 0]

  function LengthBase(i: nat): nat
    requires i < 31
  {
    LENGTH_BASE[i]
  }

  function LengthExtraOf(i: nat): (n: nat)
    requires i < 31
    ensures n <= 5
  {
    LENGTH_EXTRA[i]
  }

  function DistBase(i: nat): nat
    requires i < 32
  {
    DIST_BASE[i]
  }

  function DistExtraOf(i: nat): (n: nat)
    requires i < 32
    ensures n <= 13
  {
    DIST_EXTRA[i]
  }

  /** The decompressor's tables undo the compressor's. */
  predicate LenAgrees(x: nat)
    requires x < 256
  {
    var s, n := LenSym(x), LenExtra(x);
    257 <= s <= 285 && LengthExtraOf(s - 257) == n <= 5 && LengthBase(s - 257) + x % Pow2(n) == x + MIN_MATCH
  }

  predicate DistAgrees(d: nat, s: nat, n: nat)
  {
    s < 30 && DistExtraOf(s) == n <= 13 && DistBase(s) + d % Pow2(n) == d + 1
  }

  lemma LenTables(x: nat)
    requires x < 256
    ensures 257 <= LenSym(x) <= 285
    ensures LengthExtraOf(LenSym(x) - 257) == LenExtra(x) <= 5
    ensures LengthBase(LenSym(x) - 257) + x % Pow2(LenExtra(x)) == x + MIN_MATCH
  {
    hide LenSym, LenExtra, LengthBase, LengthExtraOf, Pow2;
    if x < 8 { LenTables0(x); } else if x < 16 { LenTables1(x); } else if x < 32 { LenTables2(x); }
    else if x < 64 { LenTables3(x); } else if x < 128 { LenTables4(x); } else if x < 255 { LenTables5(x); } else { LenTablesLast(x); }
  }

  lemma LenTables0(x: nat)
    requires x < 8
    ensures LenAgrees(x)
  {
    assert Pow2(0) == 1;
  }

  lemma LenTables1(x: nat)
    requires 8 <= x < 16
    ensures LenAgrees(x)
  {
    assert Pow2(1) == 2;
  }

  lemma LenTables2(x: nat)
    requires 16 <= x < 32
    ensures LenAgrees(x)
  {
    assert Pow2(2) == 4;
  }

  lemma LenTables3(x: nat)
    requires 32 <= x < 64
    ensures LenAgrees(x)
  {
    assert Pow2(3) == 8;
  }

  lemma LenTables4(x: nat)
    requires 64 <= x < 128
    ensures LenAgrees(x)
  {
    assert Pow2(4) == 16;
  }

  lemma LenTables5(x: nat)
    requires 128 <= x < 255
    ensures LenAgrees(x)
  {
    assert Pow2(5) == 32;
  }

  lemma LenTablesLast(x: nat)
    requires 255 <= x < 256
    ensures LenAgrees(x)
  {
    assert Pow2(0) == 1;
  }

  lemma DistTables(d: nat)
    requires d < DICT_SIZE
    ensures DistSym(d) < 30
    ensures DistExtraOf(DistSym(d)) == DistExtra(d) <= 13
    ensures DistBase(DistSym(d)) + d % Pow2(DistExtra(d)) == d + 1
  {
    hide SmallDistSym, SmallDistExtra, LargeDistSym, LargeDistExtra, DistBase, DistExtraOf, Pow2;
    if d < 512 { SmallDistTables(d); } else { LargeDistTables(d); }
  }

  lemma SmallDistTables(d: nat)
    requires d < 512
    ensures DistAgrees(d, SmallDistSym(d), SmallDistExtra(d))
  {
    hide *;
    if d < 4 { DistTables0(d); } else if d < 8 { DistTables1(d); } else if d < 16 { DistTables2(d); } else if d < 32 { DistTables3(d); }
    else if d < 64 { DistTables4(d); } else if d < 128 { DistTables5(d); } else if d < 256 { DistTables6(d); } else { DistTables7(d); }
  }

  lemma DistTables0(d: nat)
    requires d < 4
    ensures DistAgrees(d, SmallDistSym(d), SmallDistExtra(d))
  {
    assert Pow2(0) == 1;
  }

  lemma DistTables1(d: nat)
    requires 4 <= d < 8
    ensures DistAgrees(d, SmallDistSym(d), SmallDistExtra(d))
  {
    assert Pow2(1) == 2;
  }

  lemma DistTables2(d: nat)
    requires 8 <= d < 16
    ensures DistAgrees(d, SmallDistSym(d), SmallDistExtra(d))
  {
    assert Pow2(2) == 4;
  }

  lemma DistTables3(d: nat)
    requires 16 <= d < 32
    ensures DistAgrees(d, SmallDistSym(d), SmallDistExtra(d))
  {
    assert Pow2(3) == 8;
  }

  lemma DistTables4(d: nat)
    requires 32 <= d < 64
    ensures DistAgrees(d, SmallDistSym(d), SmallDistExtra(d))
  {
    assert Pow2(4) == 16;
  }

  lemma DistTables5(d: nat)
    requires 64 <= d < 128
    ensures DistAgrees(d, SmallDistSym(d), SmallDistExtra(d))
  {
    assert Pow2(5) == 32;
  }

  lemma DistTables6(d: nat)
    requires 128 <= d < 256
    ensures DistAgrees(d, SmallDistSym(d), SmallDistExtra(d))
  {
    assert Pow2(6) == 64;
  }

  lemma DistTables7(d: nat)
    requires 256 <= d < 512
    ensures DistAgrees(d, SmallDistSym(d), SmallDistExtra(d))
  {
    assert Pow2(7) == 128;
  }

  lemma LargeDistTables(d: nat)
    requires 512 <= d < DICT_SIZE
    ensures DistAgrees(d, LargeDistSym(d / 256), LargeDistExtra(d / 256))
  {
    hide LargeDistSym, LargeDistExtra, DistBase, DistExtraOf, Pow2;
    if d < 1024 { DistTables8(d); } else if d < 2048 { DistTables9(d); } else if d < 4096 { DistTables10(d); }
    else if d < 8192 { DistTables11(d); } else if d < 16384 { DistTables12(d); } else { DistTables13(d); }
  }

  lemma DistTables8(d: nat)
    requires 512 <= d < 1024
    ensures DistAgrees(d, LargeDistSym(d / 256), LargeDistExtra(d / 256))
  {
    assert Pow2(8) == 256;
  }

  lemma DistTables9(d: nat)
    requires 1024 <= d < 2048
    ensures DistAgrees(d, LargeDistSym(d / 256), LargeDistExtra(d / 256))
  {
    assert Pow2(9) == 512;
  }

  lemma DistTables10(d: nat)
    requires 2048 <= d < 4096
    ensures DistAgrees(d, LargeDistSym(d / 256), LargeDistExtra(d / 256))
  {
    assert Pow2(10) == 1024;
  }

  lemma DistTables11(d: nat)
    requires 4096 <= d < 8192
    ensures DistAgrees(d, LargeDistSym(d / 256), LargeDistExtra(d / 256))
  {
    assert Pow2(11) == 2048;
  }

  lemma DistTables12(d: nat)
    requires 8192 <= d < 16384
    ensures DistAgrees(d, LargeDistSym(d / 256), LargeDistExtra(d / 256))
  {
    assert Pow2(12) == 4096;
  }

  lemma DistTables13(d: nat)
    requires 16384 <= d < 32768
    ensures DistAgrees(d, LargeDistSym(d / 256), LargeDistExtra(d / 256))
  {
    assert Pow2(13) == 8192;
  }

  // ---------------------------------------------------------------- the values of the symbols

  /** Section 3.2.5 of RFC 1951 for lengths: they start at 3, each symbol covers as many as its extra
      bits tell apart, the number of extra bits grows with every fourth symbol, and the last symbol is
      the greatest length alone. */
  lemma LengthValues()
    ensures LengthBase(0) == 3 == MIN_MATCH && LengthBase(28) == 258 == MAX_MATCH && LengthExtraOf(28) == 0
    ensures forall k :: 0 <= k < 28 ==> LengthExtraOf(k) == if k < 8 then 0 else (k - 4) / 4
    ensures forall k :: 0 <= k < 27 ==> LengthBase(k + 1) == LengthBase(k) + Pow2(LengthExtraOf(k))
  {
    forall k | 0 <= k < 28 ensures LengthExtraOf(k) == if k < 8 then 0 else (k - 4) / 4 { LengthExtraAt(k); }
    forall k | 0 <= k < 27 ensures LengthBase(k + 1) == LengthBase(k) + Pow2(LengthExtraOf(k)) { LengthBaseNext(k); }
    hide Pow2;
  }

  lemma LengthExtraAt(k: nat)
    requires k < 28
    ensures LengthExtraOf(k) == if k < 8 then 0 else (k - 4) / 4
  {}

  lemma LengthBaseNext(k: nat)
    requires k < 27
    ensures LengthBase(k + 1) == LengthBase(k) + Pow2(LengthExtraOf(k))
  {
    SmallPowers();
    hide Pow2;
  }

  /** The same for distances: they start at 1, extra bits grow with every second symbol, and the last one
      reaches the size of the dictionary. */
  lemma DistValues()
    ensures DistBase(0) == 1 && DistBase(29) + Pow2(DistExtraOf(29)) - 1 == 32768 == DICT_SIZE
    ensures forall k :: 0 <= k < 30 ==> DistExtraOf(k) == if k < 4 then 0 else (k - 2) / 2
    ensures forall k :: 0 <= k < 29 ==> DistBase(k + 1) == DistBase(k) + Pow2(DistExtraOf(k))
  {
    forall k | 0 <= k < 30 ensures DistExtraOf(k) == if k < 4 then 0 else (k - 2) / 2 { DistExtraAt(k); }
    forall k | 0 <= k < 29 ensures DistBase(k + 1) == DistBase(k) + Pow2(DistExtraOf(k)) { DistBaseNext(k); }
    SmallPowers();
    hide Pow2;
  }

  lemma DistExtraAt(k: nat)
    requires k < 30
    ensures DistExtraOf(k) == if k < 4 then 0 else (k - 2) / 2
  {}

  lemma DistBaseNext(k: nat)
    requires k < 29
    ensures DistBase(k + 1) == DistBase(k) + Pow2(DistExtraOf(k))
  {
    SmallPowers();
    hide Pow2;
  }

  lemma SmallPowers()
    ensures Pow2(0) == 1 && Pow2(1) == 2 && Pow2(2) == 4 && Pow2(3) == 8 && Pow2(4) == 16 && Pow2(5) == 32 && Pow2(6) == 64
    ensures Pow2(7) == 128 && Pow2(8) == 256 && Pow2(9) == 512 && Pow2(10) == 1024 && Pow2(11) == 2048 && Pow2(12) == 4096 && Pow2(13) == 8192
  {}
}
