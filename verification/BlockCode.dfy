/** What a compressed block means: the bits of literals and matches under two Huffman codes, up to
    the end-of-block symbol (section 3.2.3 of RFC 1951). */
module BlockCode {
  import opened Bits
  import opened Tokens
  import opened Canonical
  import opened LzSymbols

  /** A literal, or a length symbol and a distance symbol with the values of their extra bits. */
  datatype Item = Lit(b: nat) | Copy(ls: nat, le: nat, ds: nat, de: nat)

  predicate ItemOk(i: Item)
  {
    match i
    case Lit(b) => b < 256
    case Copy(ls, le, ds, de) => 257 <= ls <= 285 && le < Pow2(LengthExtraOf(ls - 257)) && ds < 30 && de < Pow2(DistExtraOf(ds))
  }

  /** What the decompressor makes of an item. */
  function TokenOf(i: Item): Token
    requires ItemOk(i)
  {
    match i
    case Lit(b) => Literal(b)
    case Copy(ls, le, ds, de) => Match(LengthBase(ls - 257) + le, DistBase(ds) + de)
  }

  /** How the compressor writes a token. */
  function ItemOf(t: Token): Item
    requires ValidToken(t)
  {
    match t
    case Literal(b) => Lit(b)
    case Match(len, dist) =>
      var x, d := len - MIN_MATCH, dist - 1;
      Copy(LenSym(x), x % Pow2(LenExtra(x)), DistSym(d), d % Pow2(DistExtra(d)))
  }

  /** The two sets of tables undo each other. */
  lemma ItemRoundTrip(t: Token)
    requires ValidToken(t)
    ensures ItemOk(ItemOf(t)) && TokenOf(ItemOf(t)) == t
  {
    if t.Match? {
      LenTables(t.len - MIN_MATCH);
      DistTables(t.dist - 1);
    }
  }

  /** All symbols of the item have codes. */
  predicate Codable(lit: seq<nat>, dist: seq<nat>, i: Item)
  {
    ItemOk(i) &&
    match i
    case Lit(b) => Used(lit, b)
    case Copy(ls, _, ds, _) => Used(lit, ls) && Used(dist, ds)
  }

  function ItemBits(lit: seq<nat>, dist: seq<nat>, i: Item): seq<bool>
    requires Codable(lit, dist, i)
  {
    match i
    case Lit(b) => CodeBits(lit, b)
    case Copy(ls, le, ds, de) =>
      CodeBits(lit, ls) + ToBits(le, LengthExtraOf(ls - 257)) + CodeBits(dist, ds) + ToBits(de, DistExtraOf(ds))
  }

  predicate AllCodable(lit: seq<nat>, dist: seq<nat>, items: seq<Item>)
  {
    forall k :: 0 <= k < |items| ==> Codable(lit, dist, items[k])
  }

  function ItemsBits(lit: seq<nat>, dist: seq<nat>, items: seq<Item>): seq<bool>
    requires AllCodable(lit, dist, items)
  {
    if items == [] then [] else
      ItemsBits(lit, dist, items[..|items| - 1]) + ItemBits(lit, dist, items[|items| - 1])
  }

  /** A block body: the items and the end-of-block symbol. */
  function BlockBits(lit: seq<nat>, dist: seq<nat>, items: seq<Item>): seq<bool>
    requires AllCodable(lit, dist, items) && Used(lit, END_OF_BLOCK)
  {
    ItemsBits(lit, dist, items) + CodeBits(lit, END_OF_BLOCK)
  }

  lemma {:induction false} ItemsBitsAppend(lit: seq<nat>, dist: seq<nat>, a: seq<Item>, b: seq<Item>)
    requires AllCodable(lit, dist, a) && AllCodable(lit, dist, b)
    ensures AllCodable(lit, dist, a + b)
    ensures ItemsBits(lit, dist, a + b) == ItemsBits(lit, dist, a) + ItemsBits(lit, dist, b)
  {
    hide Codable, ItemBits;
    if b == [] {
      assert a + b == a;
    } else {
      assert (a + b)[..|a + b| - 1] == a + b[..|b| - 1];
      ItemsBitsAppend(lit, dist, a, b[..|b| - 1]);
    }
  }

  /** The tokens of items, and the items of tokens. */
  function TokensOf(items: seq<Item>): (ts: seq<Token>)
    requires forall k :: 0 <= k < |items| ==> ItemOk(items[k])
    ensures |ts| == |items|
  {
    seq(|items|, k requires 0 <= k < |items| => TokenOf(items[k]))
  }

  function ItemsOf(ts: seq<Token>): (items: seq<Item>)
    requires forall k :: 0 <= k < |ts| ==> ValidToken(ts[k])
    ensures |items| == |ts|
  {
    seq(|ts|, k requires 0 <= k < |ts| => ItemOf(ts[k]))
  }

  lemma ItemsRoundTrip(ts: seq<Token>)
    requires forall k :: 0 <= k < |ts| ==> ValidToken(ts[k])
    ensures forall k :: 0 <= k < |ts| ==> ItemOk(ItemsOf(ts)[k])
    ensures TokensOf(ItemsOf(ts)) == ts
  {
    forall k | 0 <= k < |ts| ensures ItemOk(ItemsOf(ts)[k]) && TokenOf(ItemsOf(ts)[k]) == ts[k] {
      ItemRoundTrip(ts[k]);
    }
  }

  // ---------------------------------------------------------------- symbol counts

  /** The literal/length symbol of a token. */
  function LitSymOf(t: Token): (s: nat)
    requires ValidToken(t)
    ensures s < LIT_SYMS
  {
    match t
    case Literal(b) => b
    case Match(len, _) => LenSym(len - MIN_MATCH)
  }

  function DistSymOf(t: Token): (s: nat)
    requires ValidToken(t) && t.Match?
    ensures s < 30
  {
    DistTables(t.dist - 1);
    DistSym(t.dist - 1)
  }

  /** How many tokens have literal/length symbol `s`. */
  function LitCount(ts: seq<Token>, s: nat): nat
    requires forall k :: 0 <= k < |ts| ==> ValidToken(ts[k])
  {
    if ts == [] then 0 else
      LitCount(ts[..|ts| - 1], s) + if LitSymOf(ts[|ts| - 1]) == s then 1 else 0
  }

  function DistCount(ts: seq<Token>, s: nat): nat
    requires forall k :: 0 <= k < |ts| ==> ValidToken(ts[k])
  {
    if ts == [] then 0 else
      DistCount(ts[..|ts| - 1], s) + if ts[|ts| - 1].Match? && DistSymOf(ts[|ts| - 1]) == s then 1 else 0
  }

  lemma {:induction false} CountsSee(ts: seq<Token>, k: nat)
    requires k < |ts| && forall i :: 0 <= i < |ts| ==> ValidToken(ts[i])
    ensures LitCount(ts, LitSymOf(ts[k])) > 0
    ensures ts[k].Match? ==> DistCount(ts, DistSymOf(ts[k])) > 0
  {
    if k < |ts| - 1 { CountsSee(ts[..|ts| - 1], k); }
  }

  lemma {:induction false} CountsBound(ts: seq<Token>, s: nat)
    requires forall i :: 0 <= i < |ts| ==> ValidToken(ts[i])
    ensures LitCount(ts, s) <= |ts| && DistCount(ts, s) <= |ts|
  {
    if ts != [] { CountsBound(ts[..|ts| - 1], s); }
  }

  /** Code lengths that give a code to every symbol that occurs make every token codable. */
  lemma SymbolsCodable(lit: seq<nat>, dist: seq<nat>, t: Token)
    requires ValidToken(t) && ItemOk(ItemOf(t)) && Used(lit, LitSymOf(t)) && (t.Match? ==> Used(dist, DistSymOf(t)))
    ensures Codable(lit, dist, ItemOf(t))
  {
    hide Used, ItemOk;
  }

  lemma CountedItem(ts: seq<Token>, lit: seq<nat>, dist: seq<nat>, k: nat)
    requires k < |ts| && forall i :: 0 <= i < |ts| ==> ValidToken(ts[i])
    requires forall s: nat :: LitCount(ts, s) > 0 ==> Used(lit, s)
    requires forall s: nat :: DistCount(ts, s) > 0 ==> Used(dist, s)
    ensures Codable(lit, dist, ItemOf(ts[k]))
  {
    hide LitCount, DistCount, LitSymOf, DistSymOf, Used;
    CountsSee(ts, k);
    ItemRoundTrip(ts[k]);
    SymbolsCodable(lit, dist, ts[k]);
  }

  lemma CountedIsCodable(ts: seq<Token>, lit: seq<nat>, dist: seq<nat>)
    requires forall i :: 0 <= i < |ts| ==> ValidToken(ts[i])
    requires forall s: nat :: LitCount(ts, s) > 0 ==> Used(lit, s)
    requires forall s: nat :: DistCount(ts, s) > 0 ==> Used(dist, s)
    ensures AllCodable(lit, dist, ItemsOf(ts))
  {
    hide LitCount, DistCount, LitSymOf, DistSymOf, Used;
    forall k | 0 <= k < |ts| ensures Codable(lit, dist, ItemsOf(ts)[k]) {
      CountedItem(ts, lit, dist, k);
    }
  }
}
