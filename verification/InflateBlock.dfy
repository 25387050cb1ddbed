/** What the decompressor has to keep true between the parts of a token (`tinfl_decompress`, the loop
    over the symbols of a compressed block): which bits it still expects, and which tokens the
    output still lacks. */
module InflateBlock {
  import opened Bits
  import opened Tokens
  import opened Canonical
  import opened LzSymbols
  import opened BlockCode
  import opened HuffDecode

  // ---------------------------------------------------------------- the bits ahead

  /** Where the decompressor can be interrupted: waiting for a literal/length symbol, for room for a
      literal, for the extra bits of a length, for a distance symbol, for its extra bits, for room
      inside a match; or behind the end-of-block symbol. */
  datatype Phase = Symbol | LiteralWait | LengthExtra | DistSymbol | DistExtra | CopyWait | End

  predicate IsCopy(lit: seq<nat>, dis: seq<nat>, c: Item)
  {
    c.Copy? && Codable(lit, dis, c)
  }

  predicate Sendable(lit: seq<nat>, dis: seq<nat>, items: seq<Item>)
  {
    AllCodable(lit, dis, items) && Used(lit, END_OF_BLOCK)
  }

  function DistExtraBits(lit: seq<nat>, dis: seq<nat>, c: Item, items: seq<Item>): seq<bool>
    requires IsCopy(lit, dis, c) && Sendable(lit, dis, items)
  {
    ToBits(c.de, DistExtraOf(c.ds)) + BlockBits(lit, dis, items)
  }

  function DistBits(lit: seq<nat>, dis: seq<nat>, c: Item, items: seq<Item>): seq<bool>
    requires IsCopy(lit, dis, c) && Sendable(lit, dis, items)
  {
    CodeBits(dis, c.ds) + DistExtraBits(lit, dis, c, items)
  }

  function LengthExtraBits(lit: seq<nat>, dis: seq<nat>, c: Item, items: seq<Item>): seq<bool>
    requires IsCopy(lit, dis, c) && Sendable(lit, dis, items)
  {
    ToBits(c.le, LengthExtraOf(c.ls - 257)) + DistBits(lit, dis, c, items)
  }

  /** The literal/length symbol that comes next. */
  function NextSym(items: seq<Item>): nat
  {
    if items == [] then END_OF_BLOCK else
      match items[0]
      case Lit(b) => b
      case Copy(ls, _, _, _) => ls
  }

  /** The bits behind that symbol. */
  function AfterSym(lit: seq<nat>, dis: seq<nat>, items: seq<Item>): seq<bool>
    requires Sendable(lit, dis, items)
  {
    if items == [] then [] else
      if items[0].Lit? then BlockBits(lit, dis, items[1..]) else LengthExtraBits(lit, dis, items[0], items[1..])
  }

  lemma {:induction false} BlockFront(lit: seq<nat>, dis: seq<nat>, items: seq<Item>)
    requires Sendable(lit, dis, items)
    ensures Used(lit, NextSym(items)) && NextSym(items) <= 285
    ensures BlockBits(lit, dis, items) == CodeBits(lit, NextSym(items)) + AfterSym(lit, dis, items)
  {
    if items == [] {
    } else {
      hide CodeBits, ToBits;
      ItemsFront(lit, dis, items);
      if items[0].Copy? { CopyBits(lit, dis, items); } else { LiteralBits(lit, dis, items); }
    }
  }

  lemma ItemsFront(lit: seq<nat>, dis: seq<nat>, items: seq<Item>)
    requires AllCodable(lit, dis, items) && items != []
    ensures ItemsBits(lit, dis, items) == ItemBits(lit, dis, items[0]) + ItemsBits(lit, dis, items[1..])
  {
    hide ItemBits, Codable, ItemsBits;
    assert items == [items[0]] + items[1..];
    ItemsBitsAppend(lit, dis, [items[0]], items[1..]);
    OneItem(lit, dis, items[0]);
  }

  lemma OneItem(lit: seq<nat>, dis: seq<nat>, i: Item)
    requires Codable(lit, dis, i)
    ensures AllCodable(lit, dis, [i]) && ItemsBits(lit, dis, [i]) == ItemBits(lit, dis, i)
  {
    hide ItemBits, Codable;
    assert [i][..0] == [];
  }

  lemma LiteralBits(lit: seq<nat>, dis: seq<nat>, items: seq<Item>)
    requires Sendable(lit, dis, items) && items != [] && items[0].Lit?
    requires ItemsBits(lit, dis, items) == ItemBits(lit, dis, items[0]) + ItemsBits(lit, dis, items[1..])
    ensures BlockBits(lit, dis, items) == CodeBits(lit, items[0].b) + BlockBits(lit, dis, items[1..])
  {
    hide CodeBits, ItemsBits;
    Assoc(CodeBits(lit, items[0].b), ItemsBits(lit, dis, items[1..]), CodeBits(lit, END_OF_BLOCK));
  }

  lemma CopyBits(lit: seq<nat>, dis: seq<nat>, items: seq<Item>)
    requires Sendable(lit, dis, items) && items != [] && items[0].Copy?
    requires ItemsBits(lit, dis, items) == ItemBits(lit, dis, items[0]) + ItemsBits(lit, dis, items[1..])
    ensures IsCopy(lit, dis, items[0])
    ensures BlockBits(lit, dis, items) == CodeBits(lit, items[0].ls) + LengthExtraBits(lit, dis, items[0], items[1..])
  {
    hide CodeBits, ItemsBits, ToBits;
    var i := items[0];
    assert Codable(lit, dis, i);
    Six(CodeBits(lit, i.ls), ToBits(i.le, LengthExtraOf(i.ls - 257)), CodeBits(dis, i.ds), ToBits(i.de, DistExtraOf(i.ds)),
        ItemsBits(lit, dis, items[1..]), CodeBits(lit, END_OF_BLOCK));
  }

  lemma Six(a: seq<bool>, b: seq<bool>, c: seq<bool>, d: seq<bool>, e: seq<bool>, f: seq<bool>)
    ensures ((a + b + c + d) + e) + f == a + (b + (c + (d + (e + f))))
  {}

  /** What the fields hold in each phase, which bits are expected and which tokens are missing.
      While a match waits for room, `counter` is one less than the number of bytes it lacks. */
  ghost predicate Ahead(phase: Phase, counter: nat, dist: nat, numExtra: nat, lit: seq<nat>, dis: seq<nat>, c: Item, items: seq<Item>,
                        want: seq<bool>, todo: seq<Token>)
  {
    && Sendable(lit, dis, items)
    && match phase
       case Symbol => want == BlockBits(lit, dis, items) && todo == TokensOf(items)
       case LiteralWait => counter < 256 && want == BlockBits(lit, dis, items) && todo == [Literal(counter)] + TokensOf(items)
       case LengthExtra =>
         && IsCopy(lit, dis, c) && counter == LengthBase(c.ls - 257) && numExtra == LengthExtraOf(c.ls - 257)
         && want == LengthExtraBits(lit, dis, c, items) && todo == [TokenOf(c)] + TokensOf(items)
       case DistSymbol =>
         && IsCopy(lit, dis, c) && counter == TokenOf(c).len
         && want == DistBits(lit, dis, c, items) && todo == [TokenOf(c)] + TokensOf(items)
       case DistExtra =>
         && IsCopy(lit, dis, c) && counter == TokenOf(c).len && dist == DistBase(c.ds) && numExtra == DistExtraOf(c.ds)
         && want == DistExtraBits(lit, dis, c, items) && todo == [TokenOf(c)] + TokensOf(items)
       case CopyWait =>
         want == BlockBits(lit, dis, items) && todo == [Match(counter + 1, dist)] + TokensOf(items)
       case End => items == [] && want == [] && todo == []
  }

  lemma AtSymbol(counter: nat, dist: nat, numExtra: nat, lit: seq<nat>, dis: seq<nat>, c: Item, items: seq<Item>)
    requires Sendable(lit, dis, items)
    ensures Ahead(Symbol, counter, dist, numExtra, lit, dis, c, items, BlockBits(lit, dis, items), TokensOf(items))
  {}

  lemma AtCopyWait(counter: nat, dist: nat, numExtra: nat, lit: seq<nat>, dis: seq<nat>, c: Item, items: seq<Item>)
    requires Sendable(lit, dis, items)
    ensures Ahead(CopyWait, counter, dist, numExtra, lit, dis, c, items, BlockBits(lit, dis, items), [Match(counter + 1, dist)] + TokensOf(items))
  {}

  /** A literal/length symbol has been read. */
  lemma AfterSymbol(dist: nat, lit: seq<nat>, dis: seq<nat>, c: Item, items: seq<Item>)
    requires Sendable(lit, dis, items)
    ensures forall k :: 0 <= k < |items| ==> ItemOk(items[k])
    ensures items == [] ==> NextSym(items) == 256 && Ahead(End, 0, dist, 0, lit, dis, c, [], AfterSym(lit, dis, items), [])
    ensures items != [] && items[0].Lit? ==>
      && NextSym(items) < 256
      && Ahead(LiteralWait, NextSym(items), dist, 0, lit, dis, items[0], items[1..], AfterSym(lit, dis, items), TokensOf(items))
    ensures items != [] && items[0].Copy? ==>
      && 257 <= NextSym(items) <= 285
      && var x := NextSym(items) - 257;
         Ahead(if LengthExtraOf(x) != 0 then LengthExtra else DistSymbol, LengthBase(x), dist, LengthExtraOf(x),
               lit, dis, items[0], items[1..], AfterSym(lit, dis, items), TokensOf(items))
  {
    hide BlockBits, CodeBits, DistBits, TokensOf, Ahead, AfterSym, Codable, ItemOk, LengthExtraOf, LengthBase;
    SendableItems(lit, dis, items);
    if items == [] {
      AfterEnd(dist, lit, dis, c);
    } else if items[0].Lit? {
      AfterLiteral(dist, lit, dis, items);
    } else {
      AfterLength(dist, lit, dis, items);
    }
  }

  lemma AfterEnd(dist: nat, lit: seq<nat>, dis: seq<nat>, c: Item)
    requires Sendable(lit, dis, [])
    ensures Ahead(End, 0, dist, 0, lit, dis, c, [], AfterSym(lit, dis, []), [])
  {}

  lemma AfterLiteral(dist: nat, lit: seq<nat>, dis: seq<nat>, items: seq<Item>)
    requires Sendable(lit, dis, items) && items != [] && items[0].Lit? && forall k :: 0 <= k < |items| ==> ItemOk(items[k])
    ensures NextSym(items) < 256
    ensures Ahead(LiteralWait, NextSym(items), dist, 0, lit, dis, items[0], items[1..], AfterSym(lit, dis, items), TokensOf(items))
  {
    hide BlockBits, TokensOf;
    TokensFront(items);
  }

  lemma AfterLength(dist: nat, lit: seq<nat>, dis: seq<nat>, items: seq<Item>)
    requires Sendable(lit, dis, items) && items != [] && items[0].Copy? && forall k :: 0 <= k < |items| ==> ItemOk(items[k])
    ensures 257 <= NextSym(items) <= 285
    ensures var x := NextSym(items) - 257;
      Ahead(if LengthExtraOf(x) != 0 then LengthExtra else DistSymbol, LengthBase(x), dist, LengthExtraOf(x),
            lit, dis, items[0], items[1..], AfterSym(lit, dis, items), TokensOf(items))
  {
    hide BlockBits, DistBits, TokensOf, LengthExtraOf, LengthBase, DistBase, DistExtraOf, Pow2;
    TokensFront(items);
    assert Codable(lit, dis, items[0]);
    if LengthExtraOf(items[0].ls - 257) == 0 { NoExtra(lit, dis, items[0], items[1..]); }
  }

  /** Without extra bits the distance follows at once. */
  lemma NoExtra(lit: seq<nat>, dis: seq<nat>, c: Item, items: seq<Item>)
    requires IsCopy(lit, dis, c) && Sendable(lit, dis, items) && LengthExtraOf(c.ls - 257) == 0
    ensures LengthExtraBits(lit, dis, c, items) == DistBits(lit, dis, c, items) && TokenOf(c).len == LengthBase(c.ls - 257)
  {
    hide DistBits;
    assert ToBits(c.le, 0) == [] && Pow2(0) == 1;
  }

  /** The extra bits of a length have been read. */
  lemma AfterLengthExtra(counter: nat, dist: nat, numExtra: nat, lit: seq<nat>, dis: seq<nat>, c: Item, items: seq<Item>, want: seq<bool>, todo: seq<Token>)
    requires Ahead(LengthExtra, counter, dist, numExtra, lit, dis, c, items, want, todo)
    ensures c.Copy? && IsCopy(lit, dis, c) && numExtra == Need(LengthExtra, lit, dis, c, items) <= 5 && c.le < Pow2(numExtra)
    ensures Sendable(lit, dis, items) && want == ToBits(c.le, numExtra) + DistBits(lit, dis, c, items)
    ensures Ahead(DistSymbol, counter + c.le, dist, numExtra, lit, dis, c, items, DistBits(lit, dis, c, items), todo)
  {
    hide BlockBits, CodeBits, TokensOf, DistBits, ToBits, Pow2;
  }

  /** A distance symbol has been read. */
  lemma AfterDistSymbol(counter: nat, dist: nat, numExtra: nat, lit: seq<nat>, dis: seq<nat>, c: Item, items: seq<Item>, want: seq<bool>, todo: seq<Token>)
    requires Ahead(DistSymbol, counter, dist, numExtra, lit, dis, c, items, want, todo)
    ensures c.Copy? && IsCopy(lit, dis, c) && c.ds < 30 && Used(dis, c.ds) && dis[c.ds] == Need(DistSymbol, lit, dis, c, items)
    ensures Sendable(lit, dis, items) && want == CodeBits(dis, c.ds) + DistExtraBits(lit, dis, c, items)
    ensures Ahead(DistExtra, counter, DistBase(c.ds), DistExtraOf(c.ds), lit, dis, c, items, DistExtraBits(lit, dis, c, items), todo)
  {
    hide BlockBits, CodeBits, TokensOf, DistExtraBits, ToBits, Pow2;
  }

  /** The extra bits of a distance have been read. */
  lemma AfterDistExtra(counter: nat, dist: nat, numExtra: nat, lit: seq<nat>, dis: seq<nat>, c: Item, items: seq<Item>, want: seq<bool>, todo: seq<Token>)
    requires Ahead(DistExtra, counter, dist, numExtra, lit, dis, c, items, want, todo)
    ensures c.Copy? && IsCopy(lit, dis, c) && numExtra == Need(DistExtra, lit, dis, c, items) <= 13 && c.de < Pow2(numExtra)
    ensures Sendable(lit, dis, items) && want == ToBits(c.de, numExtra) + BlockBits(lit, dis, items)
    ensures (forall k :: 0 <= k < |items| ==> ItemOk(items[k])) && todo == [Match(counter, dist + c.de)] + TokensOf(items)
  {
    hide BlockBits, CodeBits, TokensOf, ToBits, Pow2;
    SendableItems(lit, dis, items);
  }

  /** The bits of the next symbol or number. */
  function Need(phase: Phase, lit: seq<nat>, dis: seq<nat>, c: Item, items: seq<Item>): nat
  {
    match phase
    case Symbol => if NextSym(items) < |lit| then lit[NextSym(items)] else 0
    case LengthExtra => if c.Copy? && 257 <= c.ls <= 285 then LengthExtraOf(c.ls - 257) else 0
    case DistSymbol => if c.Copy? && c.ds < |dis| then dis[c.ds] else 0
    case DistExtra => if c.Copy? && c.ds < 30 then DistExtraOf(c.ds) else 0
    case _ => 0
  }

  /** What is left of `a` after some bits from its front have been consumed. */
  ghost predicate Rests(a: seq<bool>, b: seq<bool>)
  {
    |b| <= |a| && a[|a| - |b|..] == b
  }

  lemma RestsPart(a: seq<bool>, b: seq<bool>)
    ensures Rests(a + b, b)
  {}

  lemma RestsTrans(a: seq<bool>, b: seq<bool>, c: seq<bool>)
    requires Rests(a, b) && Rests(b, c)
    ensures Rests(a, c)
  {
    assert a[|a| - |c|..] == a[|a| - |b|..][|b| - |c|..];
  }

  lemma CompatiblePart(a: seq<bool>, b: seq<bool>, rest: seq<bool>)
    requires Compatible(a + b, rest)
    ensures Compatible(a, rest)
    ensures |a| <= |rest| ==> a <= rest && Compatible(b, rest[|a|..])
    ensures |rest| < |a| ==> |rest| < |a + b|
  {
    if |a| <= |rest| {
      if a + b <= rest {
        assert a == (a + b)[..|a|];
        assert rest[|a|..][..|b|] == rest[..|a| + |b|][|a|..] == b;
      } else {
        assert a == (a + b)[..|rest|][..|a|];
        assert b[..|rest| - |a|] == (a + b)[..|rest|][|a|..];
      }
    } else {
      assert rest == (a + b)[..|rest|] || a + b <= rest;
    }
  }

  // ---------------------------------------------------------------- the output ahead

  /** The output `h` lacks exactly what the tokens `todo` stand for. */
  ghost predicate Goal(start: seq<u8>, tokens: seq<Token>, h: seq<u8>, todo: seq<Token>)
  {
    (Expandable(start, tokens) <==> Expandable(h, todo)) && ExpandTo(start, tokens) == ExpandTo(h, todo)
  }

  lemma GoalApply(start: seq<u8>, tokens: seq<Token>, h: seq<u8>, t: Token, ts: seq<Token>)
    requires Goal(start, tokens, h, [t] + ts)
    ensures Reachable(h, t) ==> Goal(start, tokens, Apply(h, t), ts)
    ensures !Reachable(h, t) ==> !Expandable(start, tokens) && ExpandTo(start, tokens) == h
  {
    assert ([t] + ts)[1..] == ts;
  }

  /** One byte of a match. */
  lemma GoalByte(start: seq<u8>, tokens: seq<Token>, h: seq<u8>, len: nat, dist: nat, ts: seq<Token>)
    requires Goal(start, tokens, h, [Match(len + 1, dist)] + ts) && 1 <= dist <= |h|
    ensures Goal(start, tokens, h + [h[|h| - dist]], [Match(len, dist)] + ts)
  {
    var h' := h + [h[|h| - dist]];
    CopyFirst(h, dist, len + 1);
    assert ([Match(len + 1, dist)] + ts)[1..] == ts && ([Match(len, dist)] + ts)[1..] == ts;
  }

  lemma {:induction false} CopyFirst(h: seq<u8>, dist: nat, len: nat)
    requires 1 <= dist <= |h| && len > 0
    ensures CopyMatch(h, dist, len) == CopyMatch(h + [h[|h| - dist]], dist, len - 1)
  {
    if len > 1 {
      CopyFirst(h, dist, len - 1);
    } else {
      assert CopyMatch(h, dist, 0) == h;
    }
  }

  /** No match reaches farther back than the buffer is long. */
  ghost predicate Near(ts: seq<Token>, size: nat)
  {
    forall k :: 0 <= k < |ts| && ts[k].Match? ==> ts[k].dist <= size
  }

  lemma NearTail(t: Token, ts: seq<Token>, size: nat)
    requires Near([t] + ts, size)
    ensures Near(ts, size) && (t.Match? ==> t.dist <= size)
  {
    assert ([t] + ts)[0] == t;
    forall k | 0 <= k < |ts| && ts[k].Match? ensures ts[k].dist <= size {
      assert ([t] + ts)[k + 1] == ts[k];
    }
  }

  lemma NearHead(t: Token, ts: seq<Token>, size: nat)
    requires Near(ts, size) && (t.Match? ==> t.dist <= size)
    ensures Near([t] + ts, size)
  {}

  lemma TokensFront(items: seq<Item>)
    requires items != [] && forall k :: 0 <= k < |items| ==> ItemOk(items[k])
    ensures TokensOf(items) == [TokenOf(items[0])] + TokensOf(items[1..])
  {}

  lemma SendableItems(lit: seq<nat>, dis: seq<nat>, items: seq<Item>)
    requires Sendable(lit, dis, items)
    ensures forall k :: 0 <= k < |items| ==> ItemOk(items[k])
    ensures items != [] ==> Codable(lit, dis, items[0]) && Sendable(lit, dis, items[1..])
  {}

  /** A number is determined by its bits. */
  lemma SameNumber(v: nat, w: nat, n: nat)
    requires v < Pow2(n) && w < Pow2(n) && ToBits(v, n) == ToBits(w, n)
    ensures v == w
  {
    ToBitsInjective(v, w, n);
    SmallMod(v, Pow2(n));
    SmallMod(w, Pow2(n));
  }

  lemma MatchTodo(start: seq<u8>, tokens: seq<Token>, h: seq<u8>, len: nat, dist: nat, ts: seq<Token>, size: nat)
    requires Goal(start, tokens, h, [Match(len, dist)] + ts)
    ensures 1 <= dist <= |h| ==> Goal(start, tokens, CopyMatch(h, dist, len), ts)
    ensures !(1 <= dist <= |h|) ==> !Expandable(start, tokens) && ExpandTo(start, tokens) == h
    ensures Near([Match(len, dist)] + ts, size) ==> Near(ts, size) && dist <= size
  {
    GoalApply(start, tokens, h, Match(len, dist), ts);
    if Near([Match(len, dist)] + ts, size) { NearTail(Match(len, dist), ts, size); }
  }

  lemma ByteTodo(start: seq<u8>, tokens: seq<Token>, h: seq<u8>, len: nat, dist: nat, ts: seq<Token>, size: nat)
    requires Goal(start, tokens, h, [Match(len + 1, dist)] + ts) && 1 <= dist <= |h|
    ensures Goal(start, tokens, CopyMatch(h, dist, 1), [Match(len, dist)] + ts)
    ensures Near([Match(len + 1, dist)] + ts, size) ==> Near([Match(len, dist)] + ts, size)
  {
    hide Goal, CopyMatch, Near;
    GoalByte(start, tokens, h, len, dist, ts);
    CopyOneByte(h, dist);
    if Near([Match(len + 1, dist)] + ts, size) {
      NearTail(Match(len + 1, dist), ts, size);
      NearHead(Match(len, dist), ts, size);
    }
  }

  lemma CopyOneByte(h: seq<u8>, dist: nat)
    requires 1 <= dist <= |h|
    ensures CopyMatch(h, dist, 1) == h + [h[|h| - dist]]
  {
    assert CopyMatch(h, dist, 0) == h;
  }

  lemma LiteralTodo(start: seq<u8>, tokens: seq<Token>, h: seq<u8>, b: u8, ts: seq<Token>, size: nat)
    requires Goal(start, tokens, h, [Literal(b)] + ts)
    ensures Goal(start, tokens, h + [b], ts)
    ensures Near([Literal(b)] + ts, size) ==> Near(ts, size)
  {
    GoalApply(start, tokens, h, Literal(b), ts);
    if Near([Literal(b)] + ts, size) { NearTail(Literal(b), ts, size); }
  }
}
