/** How the decompressor reads the header of a block with dynamic codes (`tinfl_decompress`), with every
    point at which it can be interrupted and called again. */
module HeaderReader {
  import opened Bits
  import opened Canonical
  import opened CodeLengths
  import opened BitReader
  import opened DecodeTable
  import opened HuffDecode
  import opened BlockHeader
  import opened KnownInput

  // ---------------------------------------------------------------- where things stand

  /** The width of the three counts. */
  function CountWidth(k: nat): nat
  {
    if k < 2 then 5 else 4
  }

  function CountValue(h: Header, k: nat): nat
    requires CountsOk(h)
  {
    if k == 0 then h.numLit - 257 else if k == 1 then h.numDist - 1 else h.numLengths - 4
  }

  lemma CountStands(h: Header, k: nat)
    requires Sent(h) && k < 3
    ensures CountValue(h, k) < Pow2(CountWidth(k)) && Stands(ToBits(CountValue(h, k), CountWidth(k)), SentBits(h), 5 * k)
  {
    hide ToBits, Pow2, Swizzle, ClBits, OpsSent, Acceptable, OpsCodable, UpTo;
    FieldsFit(h.numLit, h.numDist);
    FieldFour(h.numLengths);
    var a, b, c := ToBits(h.numLit - 257, 5), ToBits(h.numDist - 1, 5), ToBits(h.numLengths - 4, 4);
    var d := ClBits(h.cl, h.numLengths) + if Acceptable(h.cl) then OpsSent(h.cl, h.ops) else [];
    assert SentBits(h) == (a + b + c) + d;
    ThreeStand(a, b, c, d);
  }

  lemma ThreeStand(a: seq<bool>, b: seq<bool>, c: seq<bool>, d: seq<bool>)
    requires |a| == 5 && |b| == 5
    ensures Stands(a, (a + b + c) + d, 0) && Stands(b, (a + b + c) + d, 5) && Stands(c, (a + b + c) + d, 10)
  {
    var s := (a + b + c) + d;
    assert s[0..5] == a && s[5..10] == b && s[10..10 + |c|] == c;
  }

  /** Where the operations begin. */
  function OpsAt(h: Header): nat
  {
    14 + 3 * h.numLengths
  }

  lemma PartsStand(h: Header)
    requires Sent(h)
    ensures Stands(ClBits(h.cl, h.numLengths), SentBits(h), 14) && |ClBits(h.cl, h.numLengths)| == 3 * h.numLengths
    ensures Acceptable(h.cl) ==> Stands(OpsSent(h.cl, h.ops), SentBits(h), OpsAt(h)) && |SentBits(h)| == OpsAt(h) + |OpsSent(h.cl, h.ops)|
    ensures |SentBits(h)| >= OpsAt(h)
  {
    hide ToBits, Pow2, Swizzle, ClBits, OpsSent, Acceptable, OpsCodable, UpTo;
    ClSize(h.cl, h.numLengths);
    var a, b := CountBits(h), ClBits(h.cl, h.numLengths);
    var c := if Acceptable(h.cl) then OpsSent(h.cl, h.ops) else [];
    assert |a| == 14;
    StandsBehind(a, b, c);
    StandsBehind(a + b, c, []);
    assert a + (b + c) == (a + b) + (c + []);
  }

  lemma ClStands(h: Header, k: nat)
    requires Sent(h) && k < h.numLengths
    ensures h.cl[Swizzle(k)] < Pow2(3) && Stands(ToBits(h.cl[Swizzle(k)], 3), SentBits(h), 14 + 3 * k)
  {
    hide ToBits, Pow2, Swizzle, ClBits, SentBits, Acceptable, OpsCodable, UpTo;
    PartsStand(h);
    ThreeBits(h.cl, k);
    ClSize(h.cl, k);
    ClPrefix(h.cl, k + 1, h.numLengths);
    var all, front, x := ClBits(h.cl, h.numLengths), ClBits(h.cl, k), ToBits(h.cl[Swizzle(k)], 3);
    assert all == (front + x) + all[|front + x|..];
    StandsBehind(front, x, all[|front + x|..]);
    StandsIn(x, all, SentBits(h), 14, 3 * k);
  }

  lemma {:induction false} ClPrefix(cl: seq<nat>, i: nat, n: nat)
    requires |cl| == 19 && i <= n <= 19
    ensures ClBits(cl, i) <= ClBits(cl, n)
    decreases n - i
  {
    hide ToBits;
    if i < n { ClPrefix(cl, i + 1, n); }
  }

  /** The code of an operation and its extra bits. */
  lemma OpStands(h: Header, k: nat)
    requires Sent(h) && Acceptable(h.cl) && k < |h.ops| && OpsFit(h.ops[..k])
    ensures OpCodable(h.cl, h.ops[k]) && OpsCodable(h.cl, h.ops[..k])
    ensures var o, p := h.ops[k], OpsAt(h) + |OpsBits(h.cl, h.ops[..k])|;
      && Stands(CodeBits(h.cl, OpSym(o)), SentBits(h), p)
      && (OpFits(Lengths(h.ops[..k]), o) ==>
        && Stands(ToBits(OpExtra(o), ExtraBits(OpSym(o))), SentBits(h), p + h.cl[OpSym(o)])
        && OpsCodable(h.cl, h.ops[..k + 1])
        && OpsAt(h) + |OpsBits(h.cl, h.ops[..k + 1])| == p + h.cl[OpSym(o)] + ExtraBits(OpSym(o)))
  {
    hide ToBits, Pow2, CodeBits, OpsBits, SentBits, Acceptable, UpTo, Swizzle, OpExtra, OpsFit, Lengths;
    PartsStand(h);
    UsedLength(h.cl, OpSym(h.ops[k]));
    OpInside(h.cl, h.ops, k, h.numLit + h.numDist);
    var o, p := h.ops[k], |OpsBits(h.cl, h.ops[..k])|;
    StandsIn(CodeBits(h.cl, OpSym(o)), OpsSent(h.cl, h.ops), SentBits(h), OpsAt(h), p);
    if OpFits(Lengths(h.ops[..k]), o) {
      StandsIn(ToBits(OpExtra(o), ExtraBits(OpSym(o))), OpsSent(h.cl, h.ops), SentBits(h), OpsAt(h), p + |CodeBits(h.cl, OpSym(o))|);
    }
  }

  lemma OpInside(cl: seq<nat>, ops: seq<Op>, k: nat, total: nat)
    requires OpsCodable(cl, ops) && UpTo(ops, total) && k < |ops| && OpsFit(ops[..k])
    ensures OpCodable(cl, ops[k]) && OpsCodable(cl, ops[..k])
    ensures var o, p := ops[k], |OpsBits(cl, ops[..k])|;
      && Stands(CodeBits(cl, OpSym(o)), OpsSent(cl, ops), p)
      && (OpFits(Lengths(ops[..k]), o) ==>
        && Stands(ToBits(OpExtra(o), ExtraBits(OpSym(o))), OpsSent(cl, ops), p + |CodeBits(cl, OpSym(o))|)
        && |OpsBits(cl, ops[..k + 1])| == p + |CodeBits(cl, OpSym(o))| + ExtraBits(OpSym(o)))
  {
    hide ToBits, Pow2, CodeBits, OpsBits, OpExtra, Lengths, OpsFit, OpFits, UpTo, OpBits, ExtraBits;
    assert OpCodable(cl, ops[k]);
    if OpsFit(ops) {
      FittingOp(cl, ops, k);
    } else {
      RefusedIsFirst(ops, total);
      RefusedOp(cl, ops);
    }
    OneMore(cl, ops, k);
  }

  lemma FittingOp(cl: seq<nat>, ops: seq<Op>, k: nat)
    requires OpsCodable(cl, ops) && OpsFit(ops) && k < |ops| && OpCodable(cl, ops[k]) && OpsCodable(cl, ops[..k])
    ensures var o, p := ops[k], |OpsBits(cl, ops[..k])|;
      && Stands(CodeBits(cl, OpSym(o)), OpsSent(cl, ops), p)
      && Stands(ToBits(OpExtra(o), ExtraBits(OpSym(o))), OpsSent(cl, ops), p + |CodeBits(cl, OpSym(o))|)
  {
    hide ToBits, Pow2, CodeBits, OpsBits, OpExtra, Lengths, OpsFit, ExtraBits, Stands;
    var front, o, back := ops[..k], ops[k], ops[k + 1..];
    assert ops == front + ops[k..] && ops[k..][1..] == back;
    OpsSplit(cl, front, ops[k..]);
    OpsFront(cl, ops[k..]);
    StandsBehind(OpsBits(cl, front), OpBits(cl, o), OpsBits(cl, back));
    var c, x := CodeBits(cl, OpSym(o)), ToBits(OpExtra(o), ExtraBits(OpSym(o)));
    StandsBehind(c, x, []);
    StandsIn(c, c + x, OpsSent(cl, ops), |OpsBits(cl, front)|, 0);
    StandsIn(x, c + x, OpsSent(cl, ops), |OpsBits(cl, front)|, |c|);
  }

  lemma RefusedOp(cl: seq<nat>, ops: seq<Op>)
    requires OpsCodable(cl, ops) && !OpsFit(ops) && |ops| == 1 && ops[0].Again?
    ensures OpCodable(cl, ops[0]) && OpsCodable(cl, ops[..0]) && OpsBits(cl, ops[..0]) == [] && !OpFits(Lengths(ops[..0]), ops[0])
    ensures Stands(CodeBits(cl, OpSym(ops[0])), OpsSent(cl, ops), 0)
  {
    hide CodeBits;
    assert ops[..0] == [];
  }

  lemma OneMore(cl: seq<nat>, ops: seq<Op>, k: nat)
    requires OpsCodable(cl, ops) && k < |ops|
    ensures OpCodable(cl, ops[k]) && |OpsBits(cl, ops[..k + 1])| == |OpsBits(cl, ops[..k])| + |CodeBits(cl, OpSym(ops[k]))| + ExtraBits(OpSym(ops[k]))
  {
    hide ToBits, CodeBits, OpExtra;
    assert ops[..k + 1][..k] == ops[..k];
    assert OpCodable(cl, ops[k]);
  }

  /** An operation has been carried out, or cannot be. */
  lemma AfterOp(h: Header, k: nat)
    requires Sent(h) && Acceptable(h.cl) && k < |h.ops| && OpsFit(h.ops[..k])
    ensures !OpFits(Lengths(h.ops[..k]), h.ops[k]) ==> !HeaderOk(h)
    ensures OpFits(Lengths(h.ops[..k]), h.ops[k]) ==>
      && OpsFit(h.ops[..k + 1]) && Lengths(h.ops[..k + 1]) == ApplyOp(Lengths(h.ops[..k]), h.ops[k])
      && var n, total := |Lengths(h.ops[..k + 1])|, h.numLit + h.numDist;
         && (n < total ==> k + 1 < |h.ops|)
         && (n >= total ==> h.ops[..k + 1] == h.ops && (n == total <==> HeaderOk(h)))
  {
    hide OpsCodable, Acceptable, Swizzle, ApplyOp, OpFits, OpsFit, Lengths, CountsOk;
    var ops, total := h.ops, h.numLit + h.numDist;
    AcceptedHeader(h);
    assert ops == ops[..k] + ops[k..];
    assert ops[..k + 1] == ops[..k] + [ops[k]];
    if OpsFit(ops) { LengthsPrefix(ops[..k], ops[k..]); }
    if OpFits(Lengths(ops[..k]), ops[k]) {
      NextOp(ops[..k], ops[k]);
      if k + 1 < |ops| {
        var back := ops[k + 1..|ops| - 1];
        assert ops[..|ops| - 1] == ops[..k + 1] + back;
        LengthsPrefix(ops[..k + 1], back);
      } else {
        assert ops[..k + 1] == ops;
      }
    }
  }

  // ---------------------------------------------------------------- the lengths of the code length code

  /** The first `n` lengths that are sent are in place, and no others. */
  ghost predicate ClRead(s: seq<nat>, cl: seq<nat>, n: nat)
  {
    && |s| == |cl| == 19 && n <= 19
    && (forall j :: 0 <= j < n ==> s[Swizzle(j)] == cl[Swizzle(j)]) && (forall j :: n <= j < 19 ==> s[Swizzle(j)] == 0)
  }

  lemma ClNext(s: seq<nat>, cl: seq<nat>, n: nat)
    requires ClRead(s, cl, n) && n < 19
    ensures ClRead(s[Swizzle(n) := cl[Swizzle(n)]], cl, n + 1)
  {
    hide Swizzle;
    forall j | 0 <= j < 19 && j != n ensures Swizzle(j) != Swizzle(n) {
      if Swizzle(j) == Swizzle(n) { SwizzleInjective(j, n); }
    }
  }

  lemma ClAll(s: seq<nat>, h: Header)
    requires CountsOk(h) && ClRead(s, h.cl, h.numLengths)
    ensures s == h.cl && ValidSizes(s)
  {
    hide Swizzle, Unswizzle;
    forall x | 0 <= x < 19 ensures s[x] == h.cl[x] {
      assert Swizzle(Unswizzle(x)) == x;
    }
  }

  // ---------------------------------------------------------------- the reader

  /** The lengths go to the two codes. */
  method SplitLengths(lens: array<nat>, numLit: nat, numDist: nat, litSizes: array<nat>, distSizes: array<nat>)
    requires numLit <= litSizes.Length && numDist <= distSizes.Length && numLit + numDist <= lens.Length
    requires lens != litSizes && lens != distSizes && litSizes != distSizes
    modifies litSizes, distSizes
    ensures litSizes[..numLit] + distSizes[..numDist] == lens[..numLit + numDist]
  {
    forall i | 0 <= i < numLit { litSizes[i] := lens[i]; }
    forall i | 0 <= i < numDist { distSizes[i] := lens[numLit + i]; }
  }

  /** Where it can be interrupted: at the counts, the lengths of the code length code, the symbols sent with
      it, and their extra bits; or behind the header. */
  datatype HeaderStage = InCounts | InClLengths | LenSymbol | LenExtra | Complete

  ghost predicate FourApart(a: object, b: object, c: object, d: object)
  {
    a != b && a != c && a != d && b != c && b != d && c != d
  }

  class CodeReader {
    const r: Reader
    const litSizes: array<nat>
    const distSizes: array<nat>
    const clSizes: array<nat>
    const lens: array<nat>
    const lookup: array<int>
    const tree: array<int>
    var stage: HeaderStage
    var counter: nat
    var numLit: nat
    var numDist: nat
    var numLengths: nat
    var sym: nat
    var resume: bool
    // The header being read, the position where it begins, and how many operations have been carried out.
    ghost const h: Header
    ghost const from: nat
    ghost var k: nat

    ghost predicate Memory()
    {
      && litSizes.Length == 288 && distSizes.Length == 32 && clSizes.Length == 19 && lens.Length == LEN_CODES
      && lookup.Length == FAST_SIZE && tree.Length == 38 && lookup != tree && FourApart(litSizes, distSizes, clSizes, lens)
    }

    ghost predicate Known()
      reads this
    {
      numLit == h.numLit && numDist == h.numDist && numLengths == h.numLengths
    }

    /** The first `k` operations have been carried out, and more are to come. */
    ghost predicate Carried()
      requires Sent(h)
      reads this, lens, lookup, tree
    {
      && Known() && Acceptable(h.cl) && Decodes(h.cl, lookup[..], tree[..]) && k < |h.ops| && OpsFit(h.ops[..k])
      && counter < h.numLit + h.numDist && lens.Length == LEN_CODES && lens[..counter] == Lengths(h.ops[..k])
    }

    /** Where the next operation begins. */
    ghost function OpPos(): nat
      requires Sent(h) && Carried()
      reads this, lens, lookup, tree
    {
      from + OpsAt(h) + |OpsBits(h.cl, h.ops[..k])|
    }

    ghost predicate InPlace()
      requires Sent(h) && r.Valid()
      reads this, r, litSizes, distSizes, clSizes, lens, lookup, tree
    {
      match stage
      case InCounts =>
        counter < 3 && (counter > 0 ==> numLit == h.numLit) && (counter > 1 ==> numDist == h.numDist) && r.Pos() == from + 5 * counter
      case InClLengths =>
        Known() && counter <= h.numLengths && ClRead(clSizes[..], h.cl, counter) && r.Pos() == from + 14 + 3 * counter
      case LenSymbol => Carried() && r.Pos() == OpPos()
      case LenExtra =>
        && Carried() && OpFits(Lengths(h.ops[..k]), h.ops[k]) && sym == OpSym(h.ops[k]) && 16 <= sym < |h.cl|
        && r.Pos() == OpPos() + h.cl[sym]
      case Complete =>
        && Known() && HeaderOk(h) && r.Pos() == from + |HeaderBits(h)|
        && numLit <= litSizes.Length && numDist <= distSizes.Length && litSizes[..numLit] + distSizes[..numDist] == Lengths(h.ops)
    }

    /** An interrupted symbol left less than its code in the buffer. */
    ghost predicate Reads()
      requires Sent(h)
      reads this, r, lens, lookup, tree
    {
      if resume then stage == LenSymbol && Carried() && Short(h, k, r.numBits) else r.Own()
    }

    ghost predicate Valid()
      reads this, r, litSizes, distSizes, clSizes, lens, lookup, tree
    {
      Memory() && Sent(h) && r.Valid() && Expects(r.input, from, SentBits(h)) && Reads() && InPlace()
    }

    ghost predicate Starved()
      requires Sent(h)
      reads this, r
    {
      r.cur == |r.input| && 8 * |r.input| < from + |SentBits(h)| && (resume || r.numBits < 8)
    }

    ghost predicate After(st: Status)
      reads this, r, litSizes, distSizes, clSizes, lens, lookup, tree
    {
      match st
      case Go => Valid()
      case NeedInput => Valid() && Starved()
      case Failed => r.Valid() && !HeaderOk(h)
      case _ => false
    }

    /** Work that is left. */
    ghost function Left(): nat
      reads this
    {
      match stage
      case InCounts => 2 * |h.ops| + 30 + (if counter < 3 then 3 - counter else 0)
      case InClLengths => 2 * |h.ops| + 1 + (if counter < 19 then 19 - counter else 0)
      case LenSymbol => if k < |h.ops| then 2 * (|h.ops| - k) else 0
      case LenExtra => if k < |h.ops| then 2 * (|h.ops| - k) - 1 else 0
      case Complete => 0
    }

    constructor (r: Reader, litSizes: array<nat>, distSizes: array<nat>, clSizes: array<nat>, lens: array<nat>, lookup: array<int>, tree: array<int>,
                 ghost h: Header)
      requires litSizes.Length == 288 && distSizes.Length == 32 && clSizes.Length == 19 && lens.Length == LEN_CODES
      requires lookup.Length == FAST_SIZE && tree.Length == 38 && lookup != tree && FourApart(litSizes, distSizes, clSizes, lens)
      requires Sent(h) && r.Valid() && r.Own() && Expects(r.input, r.Pos(), SentBits(h))
      ensures Valid() && this.h == h && from == r.Pos() && this.r == r && this.litSizes == litSizes && this.distSizes == distSizes
      ensures this.clSizes == clSizes && this.lens == lens && this.lookup == lookup && this.tree == tree
    {
      hide Sent, SentBits, Expects, Buffered;
      this.r, this.litSizes, this.distSizes, this.clSizes, this.lens, this.lookup, this.tree := r, litSizes, distSizes, clSizes, lens, lookup, tree;
      stage, counter, numLit, numDist, numLengths, sym, resume := InCounts, 0, 0, 0, 0, 0, false;
      this.h, from, k := h, r.Pos(), 0;
    }

    // ---------------------------------------------------------------- the parts

    method CountPart() returns (st: Status)
      requires Valid() && stage == InCounts
      modifies this, r`cur, r`bitBuf, r`numBits, clSizes
      ensures After(st) && (st == Go ==> Left() < old(Left()))
    {
      hide SentBits, Expects, Buffered, ToBits, Pow2, Acceptable, OpsCodable, UpTo, Swizzle, Stands, BytesBits;
      CountStands(h, counter);
      var ok, x := ReadKnown(r, CountWidth(counter), from, SentBits(h), 5 * counter, CountValue(h, counter));
      if !ok {
        PartEnds(SentBits(h), ToBits(CountValue(h, counter), CountWidth(counter)), 5 * counter);
        return NeedInput;
      }
      match counter {
        case 0 => numLit := x + 257;
        case 1 => numDist := x + 1;
        case _ => numLengths := x + 4;
      }
      counter := counter + 1;
      if counter == 3 {
        forall s | 0 <= s < 19 { clSizes[s] := 0; }
        stage, counter := InClLengths, 0;
      }
      st := Go;
    }

    method ClPart() returns (st: Status)
      requires Valid() && stage == InClLengths
      modifies this, r`cur, r`bitBuf, r`numBits, clSizes, lookup, tree
      ensures After(st) && (st == Go ==> Left() < old(Left()))
      ensures old(counter == numLengths) ==> from <= |BytesBits(r.input)| && Begins(BytesBits(r.input)[from..], numLit, numDist, numLengths, clSizes[..])
    {
      hide SentBits, Expects, Buffered, ToBits, Pow2, Acceptable, OpsCodable, UpTo, Swizzle, Stands, BytesBits, Decodes, ClRead, Begins;
      if counter == numLengths {
        st := BuildClTable();
        return;
      }
      ClStands(h, counter);
      ghost var v, s := h.cl[Swizzle(counter)], clSizes[..];
      var ok, x := ReadKnown(r, 3, from, SentBits(h), 14 + 3 * counter, v);
      if !ok {
        PartEnds(SentBits(h), ToBits(v, 3), 14 + 3 * counter);
        return NeedInput;
      }
      ClNext(s, h.cl, counter);
      clSizes[Swizzle(counter)] := x;
      assert clSizes[..] == s[Swizzle(counter) := x];
      counter := counter + 1;
      st := Go;
    }

    /** Once the lengths of the length code have been read, the input begins with what has been read: the
        counts, and each length in the field of its symbol. */
    lemma InputBegins()
      requires Valid() && stage != InCounts && (stage == InClLengths ==> counter == h.numLengths)
      ensures from <= |BytesBits(r.input)| && Begins(BytesBits(r.input)[from..], numLit, numDist, numLengths, h.cl)
    {
      hide Sent, SentBits, Buffered, Acceptable, OpsBits, BytesBits, Decodes, OpsFit, Lengths, HeaderOk, CodeBits, HeaderBits, Begins, Swizzle, ClRead;
      PartsStand(h);
      SentBegins(h);
      BufferLength(r);
      if stage == Complete { HeaderEnds(h); }
      var rest := BytesBits(r.input)[from..];
      assert |rest| >= OpsAt(h);
      assert SentBits(h)[..OpsAt(h)] == rest[..OpsAt(h)];
      BeginsSame(SentBits(h), rest, h.numLit, h.numDist, h.numLengths, h.cl);
    }

    /** The table of the code length code. */
    method BuildClTable() returns (st: Status)
      requires Valid() && stage == InClLengths && counter == h.numLengths
      modifies this, lookup, tree
      ensures After(st) && (st == Go ==> Left() < old(Left()))
      ensures from <= |BytesBits(r.input)| && Begins(BytesBits(r.input)[from..], numLit, numDist, numLengths, clSizes[..])
    {
      hide SentBits, Expects, Buffered, Pow2, Acceptable, OpsBits, Swizzle, Stands, BytesBits, Decodes, ClRead, Begins;
      InputBegins();
      ClAll(clSizes[..], h);
      assert clSizes[..19] == h.cl;
      var ok := BuildTables(clSizes, 19, lookup, tree);
      if !ok {
        return Failed;
      }
      FirstOp(h);
      stage, counter, k := LenSymbol, 0, 0;
      assert lens[..0] == [];
      st := Go;
    }

    /** The next symbol, if its code has arrived. */
    method ReadSymbol() returns (s: int)
      requires Valid() && stage == LenSymbol
      modifies this`sym, this`resume, r`cur, r`bitBuf, r`numBits
      ensures if s < 0 then Valid() && Starved() else Held() && !resume && s == sym == OpSym(h.ops[k]) < |h.cl| && r.Pos() == OpPos() + h.cl[sym]
    {
      hide Sent, SentBits, Expects, Buffered, ToBits, Pow2, Acceptable, OpsBits, Stands, BytesBits, Decodes, OpsFit, Lengths, CodeBits, HeaderOk, OpSym, OpsAt;
      OpStands(h, k);
      Bounds(h);
      ghost var o, p := h.ops[k], OpsAt(h) + |OpsBits(h.cl, h.ops[..k])|;
      UsedLength(h.cl, OpSym(o));
      PartEnds(SentBits(h), CodeBits(h.cl, OpSym(o)), p);
      s := SymbolKnown(r, lookup, tree, resume, h.cl, OpSym(o), from, SentBits(h), p);
      if s < 0 {
        resume := true;
      } else {
        sym, resume := s, false;
      }
    }

    /** What holds while an operation is being read. */
    ghost predicate Held()
      reads this, r, lens, lookup, tree
    {
      && Memory() && Sent(h) && r.Valid() && Expects(r.input, from, SentBits(h)) && r.Own() && Carried() && stage == LenSymbol
      && OpCodable(h.cl, h.ops[k])
    }

    /** The next symbol; a repeat of nothing is an error. */
    method SymbolPart() returns (st: Status)
      requires Valid() && stage == LenSymbol
      modifies this, r`cur, r`bitBuf, r`numBits, litSizes, distSizes, lens
      ensures After(st) && (st == Go ==> Left() < old(Left()))
    {
      hide Sent, SentBits, Expects, Buffered, ToBits, Pow2, Acceptable, OpsBits, Stands, BytesBits, Decodes, OpsFit, Lengths, CodeBits, HeaderOk, OpsAt;
      var s := ReadSymbol();
      if s < 0 {
        return NeedInput;
      }
      if sym >= 16 && (sym != 16 || counter > 0) {
        Bounds(h);
        CanRepeat(h, k, lens[..counter]);
        stage := LenExtra;
        return Go;
      }
      st := Carry(0);
    }

    method ExtraPart() returns (st: Status)
      requires Valid() && stage == LenExtra
      modifies this, r`cur, r`bitBuf, r`numBits, litSizes, distSizes, lens
      ensures After(st) && (st == Go ==> Left() < old(Left()))
    {
      hide Sent, SentBits, Expects, Buffered, ToBits, Pow2, Acceptable, OpsBits, Stands, BytesBits, Decodes, OpsFit, Lengths, CodeBits, HeaderOk;
      OpStands(h, k);
      AfterOp(h, k);
      Bounds(h);
      ghost var o := h.ops[k];
      ghost var p := OpsAt(h) + |OpsBits(h.cl, h.ops[..k])| + h.cl[sym];
      var ok, x := ReadKnown(r, ExtraBits(sym), from, SentBits(h), p, OpExtra(o));
      if !ok {
        PartEnds(SentBits(h), ToBits(OpExtra(o), ExtraBits(sym)), p);
        return NeedInput;
      }
      st := Carry(x);
    }

    /** Carries an operation out whose bits have been read, and goes on to the next one, or to the end. */
    method Carry(extra: nat) returns (st: Status)
      requires Memory() && Sent(h) && r.Valid() && Expects(r.input, from, SentBits(h)) && r.Own() && !resume && Carried()
      requires OpCodable(h.cl, h.ops[k]) && sym == OpSym(h.ops[k]) && (stage == LenSymbol || stage == LenExtra)
      requires OpFits(Lengths(h.ops[..k]), h.ops[k]) ==> extra == OpExtra(h.ops[k]) && r.Pos() == OpPos() + h.cl[sym] + ExtraBits(sym)
      modifies this, litSizes, distSizes, lens
      ensures After(st) && (st == Go ==> Left() < 2 * (|h.ops| - old(k)) - 1)
    {
      hide Sent, SentBits, Expects, Buffered, ToBits, Pow2, Acceptable, OpsBits, Stands, BytesBits, Decodes, OpsFit, Lengths, CodeBits, HeaderOk;
      OpStands(h, k);
      AfterOp(h, k);
      Bounds(h);
      var ok, counter' := UnpackOp(lens, counter, sym, extra, h.ops[k]);
      if !ok {
        return Failed;
      }
      counter, k := counter', k + 1;
      if counter < numLit + numDist {
        stage := LenSymbol;
        return Go;
      }
      if counter != numLit + numDist {
        return Failed;
      }
      st := Go;
      Finish();
    }

    /** All lengths are there and go to the two codes. */
    method Finish()
      requires Memory() && Sent(h) && r.Valid() && Expects(r.input, from, SentBits(h)) && r.Own() && !resume && Known() && HeaderOk(h)
      requires counter == h.numLit + h.numDist && lens[..counter] == Lengths(h.ops) && r.Pos() == from + OpsAt(h) + |OpsBits(h.cl, h.ops)|
      modifies this`stage, litSizes, distSizes
      ensures Valid() && stage == Complete
    {
      hide Sent, SentBits, Expects, Buffered, ToBits, Pow2, Acceptable, OpsBits, BytesBits, OpsFit, Lengths, HeaderOk, HeaderBits;
      AcceptedHeader(h);
      Bounds(h);
      HeaderEnds(h);
      SplitLengths(lens, numLit, numDist, litSizes, distSizes);
      stage := Complete;
    }

    /** Another call: there is more input. */
    twostate lemma Resumed()
      requires old(Valid()) && unchanged(this, litSizes, distSizes, clSizes, lens, lookup, tree) && r.Valid()
      requires r.Pos() == old(r.Pos()) && r.numBits == old(r.numBits) && (resume || r.numBits < 8) && Expects(r.input, from, SentBits(h))
      ensures Valid()
    {
      hide Sent, SentBits, Expects, Buffered, BytesBits, Acceptable, OpsBits, Decodes, OpsFit, Lengths, HeaderOk, CodeBits;
    }

    // ---------------------------------------------------------------- the loop

    method Step() returns (st: Status)
      requires Valid() && stage != Complete
      modifies this, r`cur, r`bitBuf, r`numBits, litSizes, distSizes, clSizes, lens, lookup, tree
      ensures After(st) && (st == Go ==> Left() < old(Left()))
    {
      hide Sent, SentBits, Expects, Buffered, Decodes, Acceptable, HeaderOk, OpsFit, Lengths;
      match stage
      case InCounts => st := CountPart();
      case InClLengths => st := ClPart();
      case LenSymbol => st := SymbolPart();
      case LenExtra => st := ExtraPart();
      case Complete => st := Go;
    }

    /** One call inside a header: it is read to its end exactly if it is well formed and all of it has
        arrived. */
    method Run() returns (st: Status)
      requires Valid()
      modifies this, r`cur, r`bitBuf, r`numBits, litSizes, distSizes, clSizes, lens, lookup, tree
      ensures st == Done || st == NeedInput || st == Failed
      ensures st == Done ==> Valid() && stage == Complete
      ensures st == Done ==> from <= |BytesBits(r.input)| && Begins(BytesBits(r.input)[from..], numLit, numDist, numLengths, h.cl)
      ensures st == NeedInput ==> Valid() && Starved()
      ensures st == Failed ==> r.Valid() && !HeaderOk(h)
    {
      hide CodeReader.Valid, CodeReader.Starved, HeaderOk, CodeReader.Left, BytesBits, Begins;
      while stage != Complete
        invariant Valid()
        decreases Left()
      {
        st := Step();
        if st != Go {
          return;
        }
      }
      InputBegins();
      st := Done;
    }
  }

  /** The next code of the code length code is not in the buffer. */
  ghost predicate Short(h: Header, k: nat, numBits: nat)
    requires Sent(h) && Acceptable(h.cl) && k < |h.ops|
  {
    OpCodable(h.cl, h.ops[k]) && numBits < 15 && numBits < h.cl[OpSym(h.ops[k])]
  }

  lemma HeaderEnds(h: Header)
    requires HeaderOk(h)
    ensures |HeaderBits(h)| == OpsAt(h) + |OpsBits(h.cl, h.ops)| && OpsCodable(h.cl, h.ops) && OpsFit(h.ops)
  {
    hide ToBits, ClBits, OpsBits, Swizzle, Acceptable;
    ClSize(h.cl, h.numLengths);
    assert |CountBits(h)| == 14;
  }

  lemma CanRepeat(h: Header, k: nat, done: seq<nat>)
    requires k < |h.ops| && OpsFit(h.ops[..k]) && done == Lengths(h.ops[..k]) && OpOk(h.ops[k]) && (OpSym(h.ops[k]) == 16 ==> done != [])
    ensures OpFits(Lengths(h.ops[..k]), h.ops[k])
  {}

  lemma Bounds(h: Header)
    requires Sent(h)
    ensures 257 <= h.numLit <= 288 && 1 <= h.numDist <= 32 && |h.cl| == 19
  {}

  lemma FirstOp(h: Header)
    requires Sent(h) && Acceptable(h.cl)
    ensures h.ops != [] && h.ops[..0] == [] && OpsFit([]) && Lengths([]) == [] && OpsBits(h.cl, []) == []
  {}
}
