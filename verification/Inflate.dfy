/** The decompressor inside a compressed block (`tinfl_decompress`): the loop over literals and
    matches, with every point at which it can be interrupted and called again. */
module Inflate {
  import opened Bits
  import opened Tokens
  import opened Canonical
  import opened LzSymbols
  import opened BlockCode
  import opened DecodeTable
  import opened BitReader
  import opened HuffDecode
  import opened OutputWindow
  import opened InflateBlock

  ghost predicate Apart(out: object, a: object, b: object, c: object, d: object)
  {
    out != a && out != b && out != c && out != d
  }

  class Inflater {
    const r: Reader
    const w: Window
    const litLookup: array<int>
    const litTree: array<int>
    const distLookup: array<int>
    const distTree: array<int>
    var counter: nat
    var dist: nat
    var numExtra: nat
    var distFromOutBufStart: nat
    var phase: Phase
    var resume: bool
    // The block being read: the code lengths, the tokens, the output before it, and what is left.
    ghost const lit: seq<nat>
    ghost const dis: seq<nat>
    ghost const start: seq<u8>
    ghost const tokens: seq<Token>
    ghost const endPos: nat
    ghost var c: Item
    ghost var items: seq<Item>
    ghost var want: seq<bool>
    ghost var todo: seq<Token>

    /** The tables belong to the codes of the block and share no memory with the output. */
    ghost predicate Tables()
      reads litLookup, litTree, distLookup, distTree
    {
      && Apart(w.out, litLookup, litTree, distLookup, distTree)
      && Decodes(lit, litLookup[..], litTree[..]) && Decodes(dis, distLookup[..], distTree[..])
    }

    /** The input goes on with the bits `rest`, up to the end of the block. */
    ghost predicate OnTrack(rest: seq<bool>)
      reads r
    {
      r.Valid() && Compatible(rest, r.Rest()) && r.Pos() + |rest| == endPos
    }

    /** The output lacks `todo`. A match that reaches too far is an error the decompressor sees in a
        flat buffer only. */
    ghost predicate OutputOk(ts: seq<Token>)
      reads w, w.out
    {
      && w.Valid() && Goal(start, tokens, w.produced, ts) && start <= w.produced
      && (w.wrap ==> Expandable(start, tokens) && Near(ts, w.out.Length))
    }

    /** `dist_from_out_buf_start` follows the write position, but does not wrap. */
    ghost predicate Follows()
      reads this, w
    {
      if w.wrap then w.out.Length > 0 && distFromOutBufStart % w.out.Length == w.cur % w.out.Length else distFromOutBufStart == w.cur
    }

    ghost predicate State()
      reads this, w
    {
      && Ahead(phase, counter, dist, numExtra, lit, dis, c, items, want, todo)
      && (phase == CopyWait ==> InWindow(w.out.Length, w.wrap, w.produced, dist) && Follows())
    }

    /** An interrupted read found fewer bits than it needs; otherwise no whole byte is held back that
        was not part of this call's input. */
    ghost predicate Reads()
      reads this, r
    {
      if resume then
        r.numBits < Need(phase, lit, dis, c, items) && (phase == Symbol || phase == DistSymbol ==> r.numBits < 15)
      else r.Own()
    }

    ghost predicate Valid()
      reads this, r, w, w.out, litLookup, litTree, distLookup, distTree
    {
      Tables() && OnTrack(want) && OutputOk(todo) && State() && Reads()
    }

    /** Parts of the work that are left. */
    ghost function Left(): nat
      reads this
    {
      7 * |items| + match phase
                    case Symbol => 1
                    case LiteralWait => 2
                    case LengthExtra => 6
                    case DistSymbol => 5
                    case DistExtra => 4
                    case CopyWait => 3
                    case End => 0
    }

    /** Waiting for more input: all there is has been read, and it does not complete the block. */
    ghost predicate Starved()
      requires r.Valid()
      reads this, r
    {
      r.cur == |r.input| && |r.Rest()| < |want|
    }

    /** Results of a part: the state is in order, and the status is justified. */
    ghost predicate After(st: Status)
      reads this, r, w, w.out, litLookup, litTree, distLookup, distTree
    {
      match st
      case Go => Valid()
      case Done => false // only the loop says so
      case NeedInput => Valid() && Starved() && resume
      case NeedOutput => Valid() && w.cur == w.end && (phase == LiteralWait || phase == CopyWait)
      case Failed => !w.wrap && !Expandable(start, tokens) && w.produced == ExpandTo(start, tokens) && r.Valid() && w.Valid()
    }

    /** At the first symbol of a block whose tables have been built. */
    constructor (r: Reader, w: Window, litLookup: array<int>, litTree: array<int>, distLookup: array<int>, distTree: array<int>,
                 ghost lit: seq<nat>, ghost dis: seq<nat>, ghost items: seq<Item>)
      requires Apart(w.out, litLookup, litTree, distLookup, distTree) && r.Valid() && r.Own() && w.Valid()
      requires Decodes(lit, litLookup[..], litTree[..]) && Decodes(dis, distLookup[..], distTree[..])
      requires Sendable(lit, dis, items) && Compatible(BlockBits(lit, dis, items), r.Rest())
      requires w.wrap ==> Expandable(w.produced, TokensOf(items)) && Near(TokensOf(items), w.out.Length)
      ensures Valid() && this.r == r && this.w == w && this.litLookup == litLookup && this.litTree == litTree
      ensures this.distLookup == distLookup && this.distTree == distTree
      ensures start == w.produced && tokens == TokensOf(items) && endPos == r.Pos() + |BlockBits(lit, dis, items)|
      ensures phase == Symbol && want == BlockBits(lit, dis, items)
    {
      hide Decodes, Compatible, Expandable, Expand, BlockBits;
      this.r, this.w := r, w;
      this.litLookup, this.litTree, this.distLookup, this.distTree := litLookup, litTree, distLookup, distTree;
      counter, dist, numExtra, distFromOutBufStart, phase, resume := 0, 0, 0, 0, Symbol, false;
      this.lit, this.dis, this.start, this.tokens := lit, dis, w.produced, TokensOf(items);
      endPos := r.Pos() + |BlockBits(lit, dis, items)|;
      c, this.items, want, todo := Lit(0), items, BlockBits(lit, dis, items), TokensOf(items);
    }

    // ---------------------------------------------------------------- literals

    /** Waiting for room, then writing the literal. */
    method LiteralPart() returns (st: Status)
      requires Valid() && phase == LiteralWait
      modifies this, w`cur, w`produced, w.out
      ensures After(st) && want == old(want) && (st == Go ==> Left() < old(Left()))
    {
      hide Tables, OnTrack, Decodes, Compatible, Goal, Near, AllCodable, Used, BlockBits, TokensOf, Expandable;
      if w.cur >= w.end {
        return NeedOutput;
      }
      SendableItems(lit, dis, items);
      PutLiteral(counter, TokensOf(items));
      phase := Symbol;
      st := Go;
    }

    // ---------------------------------------------------------------- symbols

    lemma SymbolAhead()
      requires Tables() && Sendable(lit, dis, items) && OnTrack(BlockBits(lit, dis, items))
      ensures Expecting(r, litLookup, litTree, lit, NextSym(items)) && NextSym(items) <= 285
      ensures BlockBits(lit, dis, items) == CodeBits(lit, NextSym(items)) + AfterSym(lit, dis, items)
      ensures Need(Symbol, lit, dis, c, items) == lit[NextSym(items)] <= MAX_LEN
    {
      hide Decodes, Compatible, AllCodable, BlockBits, CodeBits, AfterSym;
      BlockFront(lit, dis, items);
      CompatiblePart(CodeBits(lit, NextSym(items)), AfterSym(lit, dis, items), r.Rest());
    }

    /** What follows once the next literal/length symbol has left the bit buffer. */
    method Enter(sym: nat)
      requires Tables() && OutputOk(todo) && Sendable(lit, dis, items) && sym == NextSym(items) <= 285 && todo == TokensOf(items)
      requires OnTrack(AfterSym(lit, dis, items)) && r.Own() && !resume
      modifies this
      ensures Valid() && want == AfterSym(lit, dis, old(items)) && Left() < 7 * |old(items)| + 1
    {
      hide Tables, OutputOk, Decodes, Compatible, AllCodable, Used, BlockBits, TokensOf, AfterSym, Ahead, Need, LengthBase, LengthExtraOf, Pow2, ToBits, FromBits, BytesBits, Buffered;
      AfterSymbol(dist, lit, dis, c, items);
      ghost var after := AfterSym(lit, dis, items);
      var counter', numExtra', phase' := sym, 0, LiteralWait;
      ghost var todo' := todo;
      if sym == 256 {
        counter', phase', todo' := 0, End, [];
      } else if sym > 256 {
        numExtra' := LengthExtraOf(sym - 257);
        counter' := LengthBase(sym - 257);
        phase' := if numExtra' != 0 then LengthExtra else DistSymbol;
      }
      ghost var c', items' := c, items;
      if items != [] { c', items' := items[0], items[1..]; }
      MoveTo(phase', counter', numExtra', c', items', after, todo');
    }

    /** The next phase, in which bits can be read afresh. */
    method MoveTo(phase': Phase, counter': nat, numExtra': nat, ghost c': Item, ghost items': seq<Item>, ghost want': seq<bool>, ghost todo': seq<Token>)
      requires Tables() && OutputOk(todo') && OnTrack(want') && r.Own() && !resume && phase' != CopyWait
      requires Ahead(phase', counter', dist, numExtra', lit, dis, c', items', want', todo')
      modifies this`counter, this`numExtra, this`phase, this`want, this`todo, this`c, this`items
      ensures Valid() && phase == phase' && items == items' && want == want'
    {
      hide Tables, OutputOk, OnTrack, Ahead, Need, Follows, InWindow, Reader.Own, Reader.Valid, Buffered, BytesBits, Goal, Near;
      counter, numExtra, phase, want, todo, c, items := counter', numExtra', phase', want', todo', c', items';
      assert Tables();
      assert OutputOk(todo);
      assert OnTrack(want);
      assert Reads();
      assert State();
    }

    /** The slow way to the next symbol. */
    method SymbolPart() returns (st: Status)
      requires Valid() && phase == Symbol
      modifies this, r`cur, r`bitBuf, r`numBits
      ensures After(st) && Rests(old(want), want) && (st == Go ==> Left() < old(Left()))
    {
      hide OutputOk, Decodes, Compatible, Goal, Near, AllCodable, Used, BlockBits, TokensOf, Expandable, CodeBits, AfterSym, Buffered;
      SymbolAhead();
      ghost var rest := r.Rest();
      var sym := DecodeSymbol(r, litLookup, litTree, resume, lit, NextSym(items));
      if sym < 0 {
        resume := true;
        return NeedInput;
      }
      CompatiblePart(CodeBits(lit, NextSym(items)), AfterSym(lit, dis, items), rest);
      RestsPart(CodeBits(lit, NextSym(items)), AfterSym(lit, dis, items));
      resume := false;
      Enter(sym);
      st := Go;
    }

    /** `MZ_READ_LE32` and the shift into the bit buffer. */
    method Refill()
      requires r.Valid() && r.cur + 4 <= |r.input|
      modifies r`cur, r`bitBuf, r`numBits
      ensures r.Valid() && r.Rest() == old(r.Rest()) && r.Pos() == old(r.Pos()) && r.numBits >= 30
    {
      hide Buffered, BytesBits;
      if r.numBits < 30 {
        r.TakeByte();
        r.TakeByte();
        r.TakeByte();
        r.TakeByte();
      }
    }

    /** The fast way, with input and room to spare: up to two literals, or what comes instead. */
    method PairPart()
      requires Valid() && phase == Symbol && !resume && r.cur + 4 <= |r.input| && w.cur + 2 <= w.end
      modifies this, r`cur, r`bitBuf, r`numBits, w`cur, w`produced, w.out
      ensures Valid() && Rests(old(want), want) && Left() < old(Left())
    {
      hide Decodes, Compatible, Goal, Near, AllCodable, Used, BlockBits, TokensOf, Expandable, CodeBits, AfterSym, Buffered, Holds;
      Refill();
      SymbolAhead();
      ghost var rest := r.Rest();
      var raw := Extract(r, litLookup, litTree, lit, NextSym(items));
      CompatiblePart(CodeBits(lit, NextSym(items)), AfterSym(lit, dis, items), rest);
      EntryBits(raw);
      RestsPart(CodeBits(lit, NextSym(items)), AfterSym(lit, dis, items));
      if raw / 256 % 2 == 1 {
        Enter(raw % 512);
      } else {
        LiteralNext(lit, dis, items);
        ghost var first := AfterSym(lit, dis, items);
        items := items[1..];
        SecondOfPair(raw);
        RestsTrans(old(want), first, want);
      }
    }

    /** The second symbol; only after it the first one, a literal, is written. */
    method SecondOfPair(first: nat)
      requires Tables() && OutputOk(todo) && Sendable(lit, dis, items) && (forall k :: 0 <= k < |items| ==> ItemOk(items[k]))
      requires todo == [Literal(first % 256)] + TokensOf(items) && OnTrack(BlockBits(lit, dis, items))
      requires r.numBits >= 15 && r.Own() && !resume && phase == Symbol && w.cur + 2 <= w.end
      modifies this, r`bitBuf, r`numBits, w`cur, w`produced, w.out
      ensures Valid() && Rests(BlockBits(lit, dis, old(items)), want) && Left() <= 7 * |old(items)| + 1
    {
      hide Decodes, Compatible, Goal, Near, AllCodable, Used, BlockBits, TokensOf, Expandable, CodeBits, AfterSym, Buffered, Holds;
      SymbolAhead();
      ghost var bits, ts := r.Rest(), TokensOf(items);
      var raw := Extract(r, litLookup, litTree, lit, NextSym(items));
      CompatiblePart(CodeBits(lit, NextSym(items)), AfterSym(lit, dis, items), bits);
      EntryBits(raw);
      RestsPart(CodeBits(lit, NextSym(items)), AfterSym(lit, dis, items));
      PutLiteral(first % 256, ts);
      if raw / 256 % 2 == 1 {
        Enter(raw % 512);
      } else {
        LiteralNext(lit, dis, items);
        ghost var rest := items[1..];
        PutLiteral(raw % 256, TokensOf(rest));
        AtSymbol(counter, dist, numExtra, lit, dis, c, rest);
        MoveTo(Symbol, counter, numExtra, c, rest, BlockBits(lit, dis, rest), todo);
      }
    }

    method PutLiteral(b: u8, ghost ts: seq<Token>)
      requires OutputOk(todo) && todo == [Literal(b)] + ts && w.cur < w.end
      modifies this`todo, w`cur, w`produced, w.out
      ensures OutputOk(todo) && todo == ts && w.cur == old(w.cur) + 1
    {
      hide Goal, Near, Expandable, Holds;
      LiteralTodo(start, tokens, w.produced, b, ts, w.out.Length);
      w.Put(b);
      todo := ts;
    }

    // ---------------------------------------------------------------- extra bits and distances

    /** The value `v` in `n` extra bits, if they have arrived. */
    method ReadExtra(n: nat, ghost v: nat, ghost more: seq<bool>) returns (ok: bool, x: nat)
      requires n <= 16 && v < Pow2(n) && OnTrack(ToBits(v, n) + more) && (r.numBits < n || r.Own())
      modifies r`cur, r`bitBuf, r`numBits
      ensures ok ==> x == v && OnTrack(more) && r.Own()
      ensures !ok ==> OnTrack(ToBits(v, n) + more) && r.numBits < n && r.cur == |r.input| && |r.Rest()| < n
    {
      hide Compatible, ToBits, Pow2, Buffered, BytesBits;
      ghost var rest := r.Rest();
      CompatiblePart(ToBits(v, n), more, rest);
      ok, x := r.GetBits(n);
      if ok { SameNumber(x, v, n); }
    }

    method LengthExtraPart() returns (st: Status)
      requires Valid() && phase == LengthExtra
      modifies this, r`cur, r`bitBuf, r`numBits
      ensures After(st) && Rests(old(want), want) && (st == Go ==> Left() < old(Left()))
    {
      hide Tables, OutputOk, OnTrack, AllCodable, Used, BlockBits, TokensOf, IsCopy, DistBits, ToBits, Pow2, Buffered, BytesBits, Ahead, Need;
      AfterLengthExtra(counter, dist, numExtra, lit, dis, c, items, want, todo);
      ghost var more := DistBits(lit, dis, c, items);
      TrackValid(want);
      var ok, v := ReadExtra(numExtra, c.le, more);
      if !ok {
        resume := true;
        return NeedInput;
      }
      RestsPart(ToBits(c.le, numExtra), more);
      MoveToDistSymbol(counter + v, more);
      st := Go;
    }

    method MoveToDistSymbol(counter': nat, ghost want': seq<bool>)
      requires Tables() && OutputOk(todo) && OnTrack(want') && r.Own()
      requires Ahead(DistSymbol, counter', dist, numExtra, lit, dis, c, items, want', todo)
      modifies this`counter, this`resume, this`phase, this`want
      ensures Valid() && phase == DistSymbol && want == want'
    {
      hide Tables, OutputOk, OnTrack, Ahead, Need, Follows, InWindow, Reader.Own, Reader.Valid, Buffered, BytesBits, Goal, Near;
      counter, resume, phase, want := counter', false, DistSymbol, want';
      assert Tables();
      assert OutputOk(todo);
      assert OnTrack(want);
      assert Reads();
      assert State();
    }

    lemma TrackValid(rest: seq<bool>)
      requires OnTrack(rest)
      ensures r.Valid()
    {}

    /** The distance symbol `ds`, if its code has arrived. */
    method ReadDistance(ghost ds: nat, ghost more: seq<bool>) returns (sym: int)
      requires Tables() && Used(dis, ds) && OnTrack(CodeBits(dis, ds) + more)
      requires if resume then r.numBits < dis[ds] && r.numBits < 15 else r.Own()
      modifies r`cur, r`bitBuf, r`numBits
      ensures sym >= 0 ==> sym == ds && OnTrack(more) && r.Own()
      ensures sym < 0 ==> OnTrack(CodeBits(dis, ds) + more) && r.Valid() && r.cur == |r.input| && |r.Rest()| < dis[ds]
      ensures sym < 0 ==> r.numBits < dis[ds] && r.numBits < 15
    {
      hide Decodes, Compatible, CodeBits, Buffered, BytesBits;
      CompatiblePart(CodeBits(dis, ds), more, r.Rest());
      sym := DecodeSymbol(r, distLookup, distTree, resume, dis, ds);
    }

    method DistSymbolPart() returns (st: Status)
      requires Valid() && phase == DistSymbol
      modifies this, r`cur, r`bitBuf, r`numBits
      ensures After(st) && Rests(old(want), want) && (st == Go ==> Left() < old(Left()))
    {
      hide Tables, OutputOk, OnTrack, AllCodable, Used, BlockBits, TokensOf, IsCopy, CodeBits, DistExtraBits, Buffered, BytesBits, Ahead, Need;
      AfterDistSymbol(counter, dist, numExtra, lit, dis, c, items, want, todo);
      ghost var more := DistExtraBits(lit, dis, c, items);
      UsedLength(dis, c.ds);
      var sym := ReadDistance(c.ds, more);
      if sym < 0 {
        resume := true;
        return NeedInput;
      }
      RestsPart(CodeBits(dis, c.ds), more);
      MoveToDistExtra(sym, more);
      st := Go;
    }

    method MoveToDistExtra(sym: nat, ghost want': seq<bool>)
      requires sym < 30 && Tables() && OutputOk(todo) && OnTrack(want') && r.Own()
      requires Ahead(DistExtra, counter, DistBase(sym), DistExtraOf(sym), lit, dis, c, items, want', todo)
      modifies this`numExtra, this`dist, this`resume, this`phase, this`want
      ensures Valid() && phase == DistExtra && want == want'
    {
      hide Tables, OutputOk, OnTrack, Ahead, Need, Follows, InWindow, Reader.Own, Reader.Valid, Buffered, BytesBits, Goal, Near, DistBase, DistExtraOf;
      numExtra, dist, resume, phase, want := DistExtraOf(sym), DistBase(sym), false, DistExtra, want';
      assert Tables();
      assert OutputOk(todo);
      assert OnTrack(want);
      assert Reads();
      assert State();
    }

    /** The last part of the distance, and then the match. */
    method DistExtraPart() returns (st: Status)
      requires Valid() && phase == DistExtra
      modifies this, r`cur, r`bitBuf, r`numBits, w`cur, w`produced, w.out
      ensures After(st) && Rests(old(want), want) && (st == Go ==> Left() < old(Left()))
    {
      hide Tables, OutputOk, OnTrack, AllCodable, Used, BlockBits, TokensOf, IsCopy, ToBits, Pow2, Buffered, BytesBits, Ahead, Need;
      AfterDistExtra(counter, dist, numExtra, lit, dis, c, items, want, todo);
      ghost var more := BlockBits(lit, dis, items);
      TrackValid(want);
      var ok, v := ReadExtra(numExtra, c.de, more);
      if !ok {
        resume := true;
        return NeedInput;
      }
      RestsPart(ToBits(c.de, numExtra), more);
      dist, resume, want := dist + v, false, more;
      st := MatchPart();
    }

    // ---------------------------------------------------------------- matches

    /** The match itself: an error in a flat buffer if it reaches back too far, else a copy. */
    method MatchPart() returns (st: Status)
      requires Tables() && OutputOk(todo) && Sendable(lit, dis, items) && want == BlockBits(lit, dis, items) && OnTrack(want)
      requires r.Own() && !resume && (forall k :: 0 <= k < |items| ==> ItemOk(items[k])) && todo == [Match(counter, dist)] + TokensOf(items)
      modifies this, w`cur, w`produced, w.out
      ensures After(st) && want == old(want) && (st == Go ==> Left() < 7 * |old(items)| + 4)
    {
      hide Tables, OnTrack, Decodes, Compatible, Goal, Near, AllCodable, Used, BlockBits, TokensOf, Expandable, Holds, Ahead, Need;
      distFromOutBufStart := w.cur;
      ghost var ts := TokensOf(items);
      HoldsBasic(w.out[..], w.cur, w.wrap, w.produced);
      MatchTodo(start, tokens, w.produced, counter, dist, ts, w.out.Length);
      TrackValid(want);
      if (dist == 0 || dist > distFromOutBufStart || distFromOutBufStart == 0) && !w.wrap {
        return Failed;
      }
      var src := Back(w.out.Length, w.cur, w.wrap, dist);
      if (if w.cur < src then src else w.cur) + counter > w.end {
        st := CopySlowly(false);
      } else {
        CopyFast();
        st := Go;
      }
    }

    /** The copy three bytes at a time, with room for all of it. */
    method CopyFast()
      requires Copying(counter)
      requires var src := Back(w.out.Length, w.cur, w.wrap, dist); (if w.cur < src then src else w.cur) + counter <= w.end
      modifies this`phase, this`todo, w`cur, w`produced, w.out
      ensures Valid() && phase == Symbol
    {
      hide Tables, OnTrack, Goal, Near, AllCodable, Used, BlockBits, TokensOf, Expandable, Holds, Ahead, Need;
      ghost var ts := TokensOf(items);
      HoldsBasic(w.out[..], w.cur, w.wrap, w.produced);
      MatchTodo(start, tokens, w.produced, counter, dist, ts, w.out.Length);
      w.CopyRun(counter, dist);
      AtSymbol(counter, dist, numExtra, lit, dis, c, items);
      phase := Symbol;
      todo := ts;
      assert Tables();
      assert OutputOk(todo);
      assert OnTrack(want);
      assert Reads();
      assert State();
    }

    /** In the middle of a match of which `n` bytes are missing. */
    ghost predicate Copying(n: nat)
      reads this, r, w, w.out, litLookup, litTree, distLookup, distTree
    {
      && Tables() && OutputOk(todo) && Sendable(lit, dis, items) && want == BlockBits(lit, dis, items) && OnTrack(want)
      && r.Own() && !resume && (forall k :: 0 <= k < |items| ==> ItemOk(items[k])) && todo == [Match(n, dist)] + TokensOf(items)
      && InWindow(w.out.Length, w.wrap, w.produced, dist) && Follows()
    }

    /** Byte by byte, around the end of the buffer; `waiting` says that a byte already taken off
        `counter` still has to be written. */
    method CopySlowly(waiting: bool) returns (st: Status)
      requires Copying(counter + if waiting then 1 else 0)
      modifies this, w`cur, w`produced, w.out
      ensures After(st) && want == old(want) && (st == Go ==> Left() == 7 * |old(items)| + 1)
    {
      hide Copying, Inflater.Valid;
      var pending := waiting;
      while pending || counter > 0
        invariant Copying(counter + if pending then 1 else 0) && items == old(items) && want == old(want)
        decreases counter + if pending then 1 else 0
      {
        if !pending {
          CountByte();
        }
        pending := false;
        if w.cur >= w.end {
          Pause();
          return NeedOutput;
        }
        CopyByte();
      }
      EndCopy();
      st := Go;
    }

    /** `counter--` */
    method CountByte()
      requires counter > 0 && Copying(counter)
      modifies this`counter
      ensures counter == old(counter) - 1 && Copying(counter + 1)
    {
      hide Tables, OutputOk, OnTrack, Sendable, BlockBits, TokensOf;
      counter := counter - 1;
    }

    method Pause()
      requires Copying(counter + 1) && w.cur >= w.end
      modifies this`phase
      ensures Valid() && w.cur == w.end && phase == CopyWait
    {
      hide Tables, OnTrack, Goal, Near, AllCodable, Used, BlockBits, TokensOf, Expandable, Holds, Ahead, Need;
      AtCopyWait(counter, dist, numExtra, lit, dis, c, items);
      phase := CopyWait;
    }

    /** Nothing is missing any more. */
    method EndCopy()
      requires Copying(0)
      modifies this`phase, this`todo
      ensures Valid() && phase == Symbol
    {
      hide Tables, OnTrack, Goal, Near, AllCodable, Used, BlockBits, TokensOf, Expandable, Holds, CopyMatch, Ahead, Need;
      ghost var ts := TokensOf(items);
      MatchTodo(start, tokens, w.produced, 0, dist, ts, w.out.Length);
      CopyNone(w.produced, dist);
      AtSymbol(counter, dist, numExtra, lit, dis, c, items);
      phase := Symbol;
      todo := ts;
    }

    /** One byte of a match. */
    method CopyByte()
      requires Copying(counter + 1) && w.cur < w.end
      modifies this`todo, this`distFromOutBufStart, w`cur, w`produced, w.out
      ensures Copying(counter)
    {
      hide Decodes, Goal, Near, Expandable, Holds, CopyMatch, Sendable, BlockBits, TokensOf, OnTrack;
      ghost var ts := TokensOf(items);
      HoldsBasic(w.out[..], w.cur, w.wrap, w.produced);
      ByteTodo(start, tokens, w.produced, counter, dist, ts, w.out.Length);
      SameBack(w.out.Length, w.cur, distFromOutBufStart, w.wrap, dist);
      var src := Back(w.out.Length, distFromOutBufStart, w.wrap, dist);
      w.CopyOne(src, dist);
      distFromOutBufStart := distFromOutBufStart + 1;
      todo := [Match(counter, dist)] + ts;
    }

    // ---------------------------------------------------------------- the loop

    /** One part of the work. */
    method Step() returns (st: Status)
      requires Valid() && phase != End
      modifies this, r`cur, r`bitBuf, r`numBits, w`cur, w`produced, w.out
      ensures After(st) && Rests(old(want), want) && (st == Go ==> Left() < old(Left()))
    {
      hide Decodes, Compatible, Goal, Near, Expandable, Ahead, Need, Buffered, Holds;
      match phase
      case Symbol =>
        if |r.input| - r.cur < 4 || w.end - w.cur < 2 || resume {
          st := SymbolPart();
        } else {
          PairPart();
          st := Go;
        }
      case LiteralWait => st := LiteralPart();
      case LengthExtra => st := LengthExtraPart();
      case DistSymbol => st := DistSymbolPart();
      case DistExtra => st := DistExtraPart();
      case CopyWait => st := ResumeCopy();
      case End => st := Go;
    }

    method ResumeCopy() returns (st: Status)
      requires Valid() && phase == CopyWait
      modifies this, w`cur, w`produced, w.out
      ensures After(st) && want == old(want) && (st == Go ==> Left() < old(Left()))
    {
      hide Decodes, Compatible, Goal, Near, Expandable, AllCodable, Used, BlockBits, TokensOf, Buffered, Holds;
      SendableItems(lit, dis, items);
      st := CopySlowly(true);
    }

    /** One call of the decompressor within the block: it goes on until the block is done, the input
        is exhausted, the output is full, or a match reaches before the start of a flat output. */
    method Run() returns (st: Status)
      requires Valid()
      modifies this, r`cur, r`bitBuf, r`numBits, w`cur, w`produced, w.out
      ensures st == Done ==> Valid() && Expandable(start, tokens) && w.produced == Expand(start, tokens) && r.Pos() == endPos && r.Own()
      ensures st == NeedInput ==> Valid() && r.cur == |r.input| && 8 * |r.input| < endPos && resume
      ensures st == NeedOutput ==> Valid() && w.cur == w.end && w.produced < ExpandTo(start, tokens)
      ensures st == NeedOutput ==> r.numBits < 8 && !resume
      ensures Rests(old(want), want)
      ensures st == Failed ==> !w.wrap && !Expandable(start, tokens) && w.produced == ExpandTo(start, tokens)
      ensures st != Go && r.Valid() && w.Valid()
    {
      hide Inflater.Valid, Decodes, Compatible, Goal, Near, Expandable, Ahead, Need, Buffered, Holds, BytesBits;
      st := Go;
      while phase != End
        invariant Valid() && Rests(old(want), want)
        decreases Left()
      {
        ghost var before := want;
        st := Step();
        RestsTrans(old(want), before, want);
        if st != Go {
          if st == NeedInput {
            InputShort();
          }
          if st == NeedOutput {
            OutputShort();
            GiveBack();
          }
          return;
        }
      }
      AllDone();
      st := Done;
    }

    /** The output so far is the front of all there will be. */
    lemma SoFar()
      requires Valid()
      ensures start <= w.produced <= ExpandTo(start, tokens)
    {
      hide Decodes, Compatible, Near, Expandable, Ahead, Need, Buffered, BytesBits, Holds;
    }

    /** Another call: there is more input, or room. */
    twostate lemma Resumed()
      requires old(Valid()) && unchanged(this, w.out, litLookup, litTree, distLookup, distTree)
      requires r.Valid() && r.Pos() == old(r.Pos()) && r.numBits == old(r.numBits) && (resume || r.numBits < 8) && Compatible(want, r.Rest())
      requires w.Valid() && w.produced == old(w.produced) && (w.cur == old(w.cur) || (w.wrap && w.cur == 0 && old(w.cur) == w.out.Length))
      ensures Valid()
    {
      hide Decodes, Compatible, Goal, Near, Expandable, Ahead, Need, Buffered, BytesBits, Holds;
      if w.out.Length > 0 { SameSlot(w.out.Length); }
      assert Tables();
      assert OnTrack(want);
      assert OutputOk(todo);
      assert State();
      assert Reads();
    }

    /** With the output full, bytes read ahead are handed back. */
    method GiveBack()
      requires Valid() && !resume && (phase == LiteralWait || phase == CopyWait)
      modifies r`cur, r`bitBuf, r`numBits
      ensures Valid() && r.Valid() && w.Valid() && r.numBits < 8
    {
      hide Decodes, Compatible, Goal, Near, Expandable, Ahead, Need, Buffered, Holds, BytesBits;
      r.PutBack();
    }

    lemma InputShort()
      requires Valid() && Starved()
      ensures r.Valid() && w.Valid() && 8 * |r.input| < endPos
    {
      hide Decodes, Compatible, Goal, Near, Expandable, Ahead, Need, BytesBits;
      BufferLength(r);
    }

    lemma OutputShort()
      requires Valid() && (phase == LiteralWait || phase == CopyWait)
      ensures !resume
      ensures w.produced < ExpandTo(start, tokens)
    {
      hide Decodes, Compatible, Near, BlockBits, Buffered, Holds, TokensOf;
      if w.wrap { ExpandReaches(w.produced, todo); }
      ExpandMore(w.produced, todo);
    }

    lemma AllDone()
      requires Valid() && phase == End
      ensures r.Valid() && w.Valid() && Expandable(start, tokens) && w.produced == Expand(start, tokens) && r.Pos() == endPos && r.Own()
    {
      hide Decodes, Compatible, Near, BlockBits, Buffered, Holds;
      ExpandAll(start, tokens);
    }
  }

  /** A token that stands for at least one byte makes the output longer. */
  lemma ExpandMore(h: seq<u8>, ts: seq<Token>)
    requires ts != [] && Reachable(h, ts[0]) && Size(ts[0]) > 0
    ensures h < ExpandTo(h, ts)
  {
    var h' := Apply(h, ts[0]);
    assert h' <= ExpandTo(h', ts[1..]);
  }

  lemma ExpandReaches(h: seq<u8>, ts: seq<Token>)
    requires Expandable(h, ts) && ts != []
    ensures Reachable(h, ts[0])
  {}

  /** The end of a wrapping buffer is its start. */
  lemma SameSlot(n: nat)
    requires n > 0
    ensures n % n == 0
  {}

  /** The ninth bit of an entry tells lengths and the end of the block from literals; the low eight
      bits are the literal. */
  lemma EntryBits(raw: nat)
    requires raw % 512 <= 285
    ensures raw / 256 % 2 == 1 <==> raw % 512 >= 256
    ensures raw % 512 < 256 ==> raw % 256 == raw % 512
  {}

  lemma LiteralNext(lit: seq<nat>, dis: seq<nat>, items: seq<Item>)
    requires Sendable(lit, dis, items) && NextSym(items) < 256
    ensures items != [] && Sendable(lit, dis, items[1..]) && forall k :: 0 <= k < |items| ==> ItemOk(items[k])
    ensures AfterSym(lit, dis, items) == BlockBits(lit, dis, items[1..])
    ensures TokensOf(items) == [Literal(NextSym(items))] + TokensOf(items[1..])
  {
    hide BlockBits;
    SendableItems(lit, dis, items);
    TokensFront(items);
  }

  lemma SameBack(size: nat, cur: nat, from: nat, wrap: bool, d: nat)
    requires if wrap then size > 0 && from % size == cur % size else from == cur && d <= cur
    ensures Back(size, from, wrap, d) == Back(size, cur, wrap, d)
    ensures wrap ==> (from + 1) % size == (cur + 1) % size
  {
    if wrap {
      var r, q, k := cur % size, from / size - cur / size, cur / size;
      assert from == r + (from / size) * size && cur == r + k * size;
      MulDistribute(from / size, k, size);
      assert from == cur + q * size;
      ModShift(cur - d, q, size);
      ModShift(cur + 1, q, size);
    }
  }

  lemma MulDistribute(a: int, b: int, m: int)
    ensures (a - b) * m == a * m - b * m
  {}

  lemma ModShift(x: int, q: int, m: nat)
    requires m > 0
    ensures (x + q * m) % m == x % m
  {
    MulAdd(x / m, q, m);
    ModIs(x + q * m, m, x / m + q, x % m);
  }
}
