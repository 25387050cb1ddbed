/** The compressor's lazy parser (`tdefl_compress_normal`) and what it hands to a block
    (`tdefl_flush_block`): whatever it decides, the tokens stand for the input. */
module LzParser {
  import opened Bits
  import opened Tokens
  import opened TokenBuffer
  import opened HashChain
  import opened RingDict
  import opened BitWriter
  import opened DeflateStream
  import FB = FlushBlock

  // ---------------------------------------------------------------- what has been covered

  /** Behind the `from` bytes of earlier blocks, the tokens of the open block cover the input up to
      position `to`. */
  ghost predicate Covers(s: seq<u8>, from: nat, ts: seq<Token>, to: nat)
  {
    from <= to <= |s| && Expandable(s[..from], ts) && Expand(s[..from], ts) == s[..to]
  }

  lemma CoverLiteral(s: seq<u8>, from: nat, ts: seq<Token>, to: nat)
    requires Covers(s, from, ts, to) && to < |s|
    ensures Covers(s, from, ts + [Literal(s[to])], to + 1)
  {
    ExpandOne(s[..from], ts, Literal(s[to]));
    assert s[..to + 1] == s[..to] + [s[to]];
  }

  lemma CoverMatch(s: seq<u8>, from: nat, ts: seq<Token>, to: nat, dist: nat, len: nat)
    requires Covers(s, from, ts, to) && IsMatch(s, to, dist, len)
    ensures Covers(s, from, ts + [Match(len, dist)], to + len)
  {
    MatchIsInput(s, to, dist, len);
    ExpandOne(s[..from], ts, Match(len, dist));
  }

  lemma CoverGrow(s: seq<u8>, more: seq<u8>, from: nat, ts: seq<Token>, to: nat)
    requires Covers(s, from, ts, to)
    ensures Covers(s + more, from, ts, to)
  {
    assert (s + more)[..from] == s[..from] && (s + more)[..to] == s[..to];
  }

  /** The same without looking behind position `since`: the tokens stand for those bytes in a history that
      begins there. */
  ghost predicate CoversFrom(s: seq<u8>, since: nat, from: nat, ts: seq<Token>, to: nat)
  {
    since <= from <= to && since <= |s| && Covers(s[since..], from - since, ts, to - since)
  }

  lemma FromLiteral(s: seq<u8>, since: nat, from: nat, ts: seq<Token>, to: nat)
    requires CoversFrom(s, since, from, ts, to) && to < |s|
    ensures CoversFrom(s, since, from, ts + [Literal(s[to])], to + 1)
  {
    hide Covers;
    CoverLiteral(s[since..], from - since, ts, to - since);
  }

  lemma FromMatch(s: seq<u8>, since: nat, from: nat, ts: seq<Token>, to: nat, dist: nat, len: nat)
    requires CoversFrom(s, since, from, ts, to) && IsMatch(s, to, dist, len) && since + dist <= to
    ensures CoversFrom(s, since, from, ts + [Match(len, dist)], to + len)
  {
    hide Covers;
    forall q: nat | to - since <= q < to - since + len ensures Repeats(s[since..], q, dist) {
      assert Repeats(s, since + q, dist);
    }
    CoverMatch(s[since..], from - since, ts, to - since, dist, len);
  }

  lemma FromGrow(s: seq<u8>, more: seq<u8>, since: nat, from: nat, ts: seq<Token>, to: nat)
    requires CoversFrom(s, since, from, ts, to)
    ensures CoversFrom(s + more, since, from, ts, to)
  {
    hide Covers;
    CoverGrow(s[since..], more, from - since, ts, to - since);
    assert (s + more)[since..] == s[since..] + more;
  }

  lemma FromNothing(s: seq<u8>, since: nat, from: nat)
    requires since <= from <= |s|
    ensures CoversFrom(s, since, from, [], from)
  {
    CoverNothing(s[since..], from - since);
  }

  /** With a longer history the tokens stand for the same bytes. */
  lemma FromIsCovers(s: seq<u8>, since: nat, from: nat, ts: seq<Token>, to: nat)
    requires CoversFrom(s, since, from, ts, to)
    ensures Covers(s, from, ts, to)
  {
    hide Expand, Expandable;
    var r := s[since..];
    ExpandBehind(s[..since], r[..from - since], ts);
    assert s[..from] == s[..since] + r[..from - since] && s[..to] == s[..since] + r[..to - since];
  }

  lemma NothingCovered()
    ensures CoversFrom([], 0, 0, [], 0)
  {
    FromNothing([], 0, 0);
  }

  lemma CoverNothing(s: seq<u8>, from: nat)
    requires from <= |s|
    ensures Covers(s, from, [], from)
  {}

  // ---------------------------------------------------------------- the hash chains


  function Max(a: int, b: int): int
  {
    if a < b then b else a
  }

  // ---------------------------------------------------------------- what has been sent

  /** The blocks sent so far stand for the input up to position `to`. */
  ghost predicate Emitted(s: seq<u8>, to: nat, parts: seq<Part>)
  {
    to <= |s| && Unpackable(parts) && Unpack(parts) == s[..to]
  }

  lemma EmittedGrow(s: seq<u8>, more: seq<u8>, to: nat, parts: seq<Part>)
    requires Emitted(s, to, parts)
    ensures Emitted(s + more, to, parts)
  {
    assert (s + more)[..to] == s[..to];
  }

  /** One more block, compressed or stored, and the empty block of a flush. */
  lemma EmitPart(s: seq<u8>, from: nat, ts: seq<Token>, to: nat, parts: seq<Part>, p: Part, flush: FB.Flush)
    requires Emitted(s, from, parts) && Covers(s, from, ts, to)
    requires p == Part.Stored(p.final, s[from..to]) || (p.Compressed? && p.tokens == ts)
    ensures Emitted(s, to, parts + [p] + FB.Markers(flush))
  {
    UnpackNext(parts, p);
    assert s[..to] == s[..from] + s[from..to];
    if FB.Markers(flush) != [] {
      UnpackNext(parts + [p], Part.Stored(false, []));
      assert s[..to] + [] == s[..to];
    } else {
      assert parts + [p] + [] == parts + [p];
    }
  }

  // ---------------------------------------------------------------- what a full flush starts afresh

  /** Where the last full flush was: so many bytes had been taken in, blocks written, and bytes delivered. */
  datatype Cut = Cut(since: nat, blocks: nat, bytes: nat)

  /** The blocks behind the cut stand for the input behind it, up to position `to`, without what was before;
      and they begin with a whole byte. */
  ghost predicate Afresh(s: seq<u8>, cut: Cut, to: nat, parts: seq<Part>, output: seq<u8>)
  {
    && cut.since <= to && cut.since <= |s| && cut.blocks <= |parts| && cut.bytes <= |output|
    && PartsOk(parts) && Emitted(s[cut.since..], to - cut.since, parts[cut.blocks..])
    && Open(parts[..cut.blocks]) && BytesBits(output[..cut.bytes]) == StreamBits(parts[..cut.blocks])
  }

  lemma AfreshGrow(s: seq<u8>, more: seq<u8>, cut: Cut, to: nat, parts: seq<Part>, output: seq<u8>)
    requires Afresh(s, cut, to, parts, output)
    ensures Afresh(s + more, cut, to, parts, output)
  {
    hide Emitted, PartsOk, Open, StreamBits, BytesBits;
    EmittedGrow(s[cut.since..], more, to - cut.since, parts[cut.blocks..]);
    assert (s + more)[cut.since..] == s[cut.since..] + more;
  }

  /** One more block. */
  lemma AfreshPart(s: seq<u8>, cut: Cut, from: nat, ts: seq<Token>, to: nat, parts: seq<Part>, output: seq<u8>, p: Part, flush: FB.Flush, output': seq<u8>)
    requires Afresh(s, cut, from, parts, output) && CoversFrom(s, cut.since, from, ts, to) && to <= |s|
    requires p == Part.Stored(p.final, s[from..to]) || (p.Compressed? && p.tokens == ts)
    requires output <= output' && PartsOk(parts + [p] + FB.Markers(flush))
    ensures Afresh(s, cut, to, parts + [p] + FB.Markers(flush), output')
  {
    hide Emitted, PartsOk, Open, StreamBits, BytesBits, Covers;
    var r := s[cut.since..];
    assert r[from - cut.since..to - cut.since] == s[from..to];
    EmitPart(r, from - cut.since, ts, to - cut.since, parts[cut.blocks..], p, flush);
    var all := parts + [p] + FB.Markers(flush);
    assert all[cut.blocks..] == parts[cut.blocks..] + [p] + FB.Markers(flush);
    assert all[..cut.blocks] == parts[..cut.blocks];
    assert output'[..cut.bytes] == output[..cut.bytes];
  }

  /** Everything is behind the cut, or before it. */
  lemma AfreshNow(s: seq<u8>, parts: seq<Part>, output: seq<u8>)
    requires PartsOk(parts) && Open(parts) && BytesBits(output) == StreamBits(parts)
    ensures Afresh(s, Cut(|s|, |parts|, |output|), |s|, parts, output)
  {
    hide PartsOk, Open, StreamBits, BytesBits;
    assert parts[..|parts|] == parts && output[..|output|] == output && parts[|parts|..] == [] && s[|s|..] == [];
  }

  lemma NothingAfresh()
    ensures Afresh([], Cut(0, 0, 0), 0, [], [])
  {
    AfreshNow([], [], []);
  }

  lemma OpenMore(parts: seq<Part>, p: Part, flush: FB.Flush)
    requires Open(parts) && p.final == (flush == FB.Finish)
    ensures flush == FB.Finish ==> Finished(parts + [p] + FB.Markers(flush))
    ensures flush != FB.Finish ==> Open(parts + [p] + FB.Markers(flush))
  {
    if flush == FB.Finish { assert (parts + [p] + [])[..|parts|] == parts; }
  }

  /** A block that covers the input from the end of the stream on has been sent. */
  lemma BlockSent(s: seq<u8>, cut: Cut, from: nat, ts: seq<Token>, to: nat, parts: seq<Part>, output: seq<u8>, p: Part, flush: FB.Flush, output': seq<u8>)
    requires Emitted(s, from, parts) && Afresh(s, cut, from, parts, output) && CoversFrom(s, cut.since, from, ts, to) && to <= |s| && Open(parts)
    requires p == Part.Stored(p.final, s[from..to]) || (p.Compressed? && p.tokens == ts)
    requires p.final == (flush == FB.Finish) && output <= output' && PartsOk(parts + [p] + FB.Markers(flush))
    ensures var more := parts + [p] + FB.Markers(flush);
      && Emitted(s, to, more) && Afresh(s, cut, to, more, output') && (if flush == FB.Finish then Finished(more) else Open(more))
      && |more| > |parts| && more[|parts|] == p
  {
    hide Emitted, PartsOk, Open, CoversFrom, Covers, Afresh, Finished, FB.Markers;
    FromIsCovers(s, cut.since, from, ts, to);
    AfreshPart(s, cut, from, ts, to, parts, output, p, flush, output');
    EmitPart(s, from, ts, to, parts, p, flush);
    OpenMore(parts, p, flush);
  }

  // ---------------------------------------------------------------- the compressor

  /** A run of fewer than three bytes is no match. */
  lemma ShortRun(s: seq<u8>, at: nat, len: nat, maxLen: nat)
    requires IsLongest(s, at, 1, len, maxLen) && len < 3 && |s| == at + maxLen
    ensures !IsMatch(s, at, 1, 3)
  {}

  /** How many positions have been entered into the hash chains. */
  function Entered(n: nat, since: nat): nat
  {
    if since + 2 <= n then n - 2 else since
  }

  /** One more byte completes one more hash. */
  lemma Enter(heads: seq<u16>, links: seq<u16>, s: seq<u8>, c: u8, since: nat)
    requires since + 2 <= |s| && Chained(heads, links, s, since, |s| - 2)
    ensures var p, h := |s| - 2, Hash3(s + [c], |s| - 2);
      |heads| == HASH_SIZE && |links| == DICT_SIZE && Chained(heads[h := p % 0x1_0000], links[p % DICT_SIZE := heads[h]], s + [c], since, |s| - 1)
  {
    hide Hash3;
    ChainedGrows(heads, links, s, [c], since, |s| - 2);
    ChainedMore(heads, links, s + [c], since, |s| - 2);
  }

  lemma HashInRing(dict: seq<u8>, s: seq<u8>, lo: int, p: nat)
    requires Ring(dict, s, lo) && lo <= p && p + 2 < |s|
    ensures |dict| == RING_SIZE
    ensures Xor(Xor(dict[p % DICT_SIZE] as nat * 1024, dict[(p + 1) % DICT_SIZE] as nat * 32), s[p + 2]) % HASH_SIZE == Hash3(s, p)
  {
    RingBasic(dict, s, lo);
    ReadAhead(dict, s, lo, p, 0);
    ReadAhead(dict, s, lo, p + 1, 0);
    hide Ring, Xor;
    assert dict[p % DICT_SIZE] == s[p] && dict[(p + 1) % DICT_SIZE] == s[p + 1];
  }

  class Compressor {
    const dict: array<u8>
    const next: array<u16>
    const hash: array<u16>
    const codes: LzCodeBuffer
    const maxProbes0: nat
    const maxProbes1: nat
    const greedy: bool
    const rleMatches: bool
    const filterMatches: bool
    const forceAllRaw: bool
    const forceAllStatic: bool
    const hasPutBufFunc: bool
    const sink: FB.BlockSink
    var lookaheadPos: nat
    var lookaheadSize: nat
    var dictSize: nat
    var savedLit: u8
    var savedMatchDist: nat
    var savedMatchLen: nat
    var lzCodeBufDictPos: nat
    var finished: bool
    ghost var input: seq<u8>
    ghost var cut: Cut

    ghost predicate Memory()
    {
      && next.Length == DICT_SIZE && hash.Length == HASH_SIZE && next != hash && dict != codes.buf
      && next != codes.litCount && next != codes.distCount && hash != codes.litCount && hash != codes.distCount
      && codes.buf.Length == 0x1_0000 && maxProbes0 > 0 && maxProbes1 > 0
      && dict != sink.w.out && codes.buf != sink.w.out
    }

    /** Oldest position the ring must hold. */
    ghost function Low(): int
      reads this
    {
      Max(lookaheadPos - dictSize, |input| - DICT_SIZE)
    }

    /** The window: everything taken in, up to the end of the lookahead. */
    ghost predicate Window()
      reads this, dict
    {
      && dictSize <= lookaheadPos && dictSize <= DICT_SIZE && lookaheadSize <= MAX_MATCH
      && |input| == lookaheadPos + lookaheadSize && Ring(dict[..], input, Low())
    }

    /** Dictionary and lookahead are all that came behind the last full flush, or all that fits. */
    ghost predicate Tight()
      reads this
    {
      && cut.since + dictSize <= lookaheadPos
      && dictSize + lookaheadSize == if |input| - cut.since < DICT_SIZE then |input| - cut.since else DICT_SIZE
    }

    /** The hash chains hold all positions behind the last full flush that have three bytes. */
    ghost predicate Hashed()
      reads this`input, this`cut, next, hash
    {
      Chained(hash[..], next[..], input, cut.since, Entered(|input|, cut.since))
    }

    /** How much of the input the recorded tokens stand for: a saved match starts one byte back. */
    ghost function Covered(): int
      reads this
    {
      lookaheadPos - if savedMatchLen != 0 then 1 else 0
    }

    /** A saved match is a true match, one byte back. */
    ghost predicate Saved()
      reads this
    {
      savedMatchLen != 0 ==>
        && MIN_MATCH <= savedMatchLen < 128 && savedMatchDist <= DICT_SIZE && 1 <= lookaheadPos <= |input| && cut.since + savedMatchDist <= lookaheadPos - 1
        && savedLit == input[lookaheadPos - 1] && IsMatch(input, lookaheadPos - 1, savedMatchDist, savedMatchLen)
    }

    ghost predicate Recorded()
      reads this, codes, codes.buf, codes.litCount, codes.distCount
    {
      codes.Valid() && Covered() >= 0 && CoversFrom(input, cut.since, lzCodeBufDictPos, codes.tokens, Covered())
    }

    /** The stream written so far, open or finished, stands for the input up to the open block. */
    ghost predicate Sent()
      reads this, sink, sink.w, sink.w.out
    {
      && sink.Valid() && Emitted(input, lzCodeBufDictPos, sink.parts) && Afresh(input, cut, lzCodeBufDictPos, sink.parts, sink.output)
      && (if finished then Finished(sink.parts) && sink.tail == Padding(|StreamBits(sink.parts)|) else Open(sink.parts) && sink.tail == [])
    }

    ghost predicate Valid()
      reads this, dict, next, hash, codes, codes.buf, codes.litCount, codes.distCount, sink, sink.w, sink.w.out
    {
      && Hashed() && Memory() && Window() && Tight() && Saved() && Recorded() && Sent() && codes.codePos <= codes.buf.Length - 8
      && (finished ==> lzCodeBufDictPos == |input|)
    }

    /** As `tdefl_init` leaves it. */
    constructor (greedy: bool, rleMatches: bool, filterMatches: bool, forceAllRaw: bool, forceAllStatic: bool, hasPutBufFunc: bool,
                 maxProbes0: nat, maxProbes1: nat)
      requires maxProbes0 > 0 && maxProbes1 > 0
      ensures Valid() && input == [] && !finished && sink.parts == [] && sink.output == [] && cut == Cut(0, 0, 0)
      ensures this.hasPutBufFunc == hasPutBufFunc && this.forceAllStatic == forceAllStatic && fresh(sink) && fresh(sink.w) && fresh(sink.w.out)
      ensures fresh(sink.litSizes) && fresh(sink.litCodes) && fresh(sink.distSizes) && fresh(sink.distCodes)
      ensures fresh(dict) && fresh(next) && fresh(hash) && fresh(codes) && fresh(codes.buf) && fresh(codes.litCount) && fresh(codes.distCount)
    {
      hide Compressor.Valid, LzCodeBuffer.Valid, FB.BlockSink.Valid, Ring, CoversFrom, Emitted, Afresh;
      dict := new u8[RING_SIZE](_ => 0);
      next := new u16[DICT_SIZE](_ => 0);
      hash := new u16[HASH_SIZE](_ => 0);
      codes := new LzCodeBuffer(0x1_0000);
      this.maxProbes0, this.maxProbes1 := maxProbes0, maxProbes1;
      this.greedy, this.rleMatches, this.filterMatches, this.forceAllRaw, this.forceAllStatic := greedy, rleMatches, filterMatches, forceAllRaw, forceAllStatic;
      this.hasPutBufFunc := hasPutBufFunc;
      sink := new FB.BlockSink();
      lookaheadPos, lookaheadSize, dictSize := 0, 0, 0;
      savedLit, savedMatchDist, savedMatchLen, lzCodeBufDictPos := 0, 0, 0, 0;
      finished, input, cut := false, [], Cut(0, 0, 0);
      new;
      InitialIsValid();
    }

    /** The state after `tdefl_init`. */
    ghost predicate Initial()
      reads this, hash, codes, codes.buf, codes.litCount, codes.distCount, sink, sink.w, sink.w.out
    {
      && (forall h :: 0 <= h < hash.Length ==> hash[h] == 0)
      && dict.Length == RING_SIZE && lookaheadPos == lookaheadSize == dictSize == savedMatchLen == lzCodeBufDictPos == 0
      && input == [] && !finished && codes.Valid() && codes.tokens == [] && codes.codePos == 1 && cut == Cut(0, 0, 0)
      && sink.Valid() && sink.parts == [] && sink.tail == [] && sink.output == []
    }

    lemma InitialIsValid()
      requires Memory() && Initial()
      ensures Valid()
    {
      hide LzCodeBuffer.Valid, FB.BlockSink.Valid, Expand, Expandable;
      NothingCovered();
      NothingAfresh();
      NothingHashed();
    }

    /** Empty hash chains are right where nothing has come since the last full flush. */
    lemma NothingHashed()
      requires Memory() && cut.since == |input| && forall h :: 0 <= h < hash.Length ==> hash[h] == 0
      ensures Hashed()
    {
      NothingChained(hash[..], next[..], input, cut.since);
    }

    // ---------------------------------------------------------------- taking input in

    /** Facts about the window that do not need its contents. */
    lemma WindowBasic()
      requires Memory() && Window()
      ensures dict.Length == RING_SIZE && 0 <= Low() <= |input| <= Low() + DICT_SIZE
    {}

    /** One byte into the ring and its mirror. */
    method PutByte(dstPos: nat, c: u8, ghost s: seq<u8>, ghost lo: int)
      requires Ring(dict[..], s, lo) && dstPos == |s| % DICT_SIZE
      modifies dict
      ensures Ring(dict[..], s + [c], Max(lo, |s| + 1 - DICT_SIZE))
    {
      hide Ring;
      RingBasic(dict[..], s, lo);
      ghost var d := dict[..];
      WriteKeepsRing(d, s, lo, c);
      dict[dstPos] := c;
      if dstPos < MIRROR {
        dict[DICT_SIZE + dstPos] := c;
      }
      assert dict[..] == Write(d, dstPos, c);
    }

    /** Enters a position into the chain of those with the same hash. */
    method Link(insPos: nat, h: nat)
      requires Memory() && h < HASH_SIZE
      modifies next, hash
      ensures next[..] == old(next[..])[insPos % DICT_SIZE := old(hash[h])] && hash[..] == old(hash[..])[h := insPos % 0x1_0000]
    {
      next[insPos % DICT_SIZE] := hash[h];
      hash[h] := insPos % 0x1_0000;
    }

    /** One byte: it completes the hash of the position two back. */
    method RollByte(dstPos: nat, insPos: nat, h: nat, c: u8) returns (h': nat)
      requires Memory() && Ring(dict[..], input, Low()) && dstPos == |input| % DICT_SIZE
      requires insPos == |input| - 2 && cut.since <= insPos && Rolls(h, input[insPos], input[insPos + 1])
      requires Chained(hash[..], next[..], input, cut.since, insPos)
      modifies this`input, dict, next, hash
      ensures input == old(input) + [c] && Ring(dict[..], input, Low())
      ensures Rolls(h', input[insPos + 1], input[insPos + 2]) && Chained(hash[..], next[..], input, cut.since, insPos + 1)
    {
      hide Ring, Chained, Rolls, Hash3, Xor;
      PutByte(dstPos, c, input, Low());
      Roll(h, input + [c], insPos);
      h' := Xor(h * 32, c) % HASH_SIZE;
      Enter(hash[..], next[..], input, c, cut.since);
      Link(insPos, h');
      input := input + [c];
    }

    /** The loop for a dictionary that is not almost empty: the hash rolls on. */
    method FillRolling(src: seq<u8>, from: nat) returns (upTo: nat)
      requires Memory() && Window() && Tight() && Hashed() && from <= |src| && lookaheadSize + dictSize >= MIN_MATCH - 1
      modifies this`lookaheadSize, this`input, dict, next, hash
      ensures Memory() && Window() && Hashed() && from <= upTo <= |src| && input == old(input) + src[from..upTo]
      ensures upTo == |src| || lookaheadSize == MAX_MATCH
    {
      hide Ring, Chained, Rolls, Hash3, Xor;
      WindowBasic();
      ghost var s0 := input;
      var dstPos: nat, insPos: nat := (lookaheadPos + lookaheadSize) % DICT_SIZE, lookaheadPos + lookaheadSize - 2;
      ReadAhead(dict[..], input, Low(), insPos, 0);
      ReadAhead(dict[..], input, Low(), insPos + 1, 0);
      RollStart(input[insPos], input[insPos + 1]);
      var h: nat := Xor(dict[insPos % DICT_SIZE] as nat * 32, dict[(insPos + 1) % DICT_SIZE]);
      var n := if |src| - from < MAX_MATCH - lookaheadSize then |src| - from else MAX_MATCH - lookaheadSize;
      lookaheadSize := lookaheadSize + n;
      upTo := from;
      while upTo < from + n
        invariant Memory() && from <= upTo <= from + n <= |src| && input == s0 + src[from..upTo]
        invariant lookaheadSize == old(lookaheadSize) + n && Ring(dict[..], input, Low()) && dstPos == |input| % DICT_SIZE
        invariant insPos == |input| - 2 && cut.since <= insPos && Rolls(h, input[insPos], input[insPos + 1])
        invariant Chained(hash[..], next[..], input, cut.since, insPos)
      {
        var c := src[upTo];
        NextSlot(|input|);
        h := RollByte(dstPos, insPos, h, c);
        dstPos := (dstPos + 1) % DICT_SIZE;
        insPos := insPos + 1;
        assert src[from..upTo + 1] == src[from..upTo] + [c];
        upTo := upTo + 1;
      }
    }

    /** One of the first bytes; with three of them there is a hash. */
    method FirstByte(c: u8)
      requires Memory() && Window() && Hashed() && lookaheadSize < MAX_MATCH && dictSize + lookaheadSize == |input| - cut.since
      modifies this`lookaheadSize, this`input, dict, next, hash
      ensures Window() && Hashed() && input == old(input) + [c] && lookaheadSize == old(lookaheadSize) + 1
    {
      hide Ring, Chained, Hash3, Xor;
      WindowBasic();
      ghost var s := input;
      var dstPos := (lookaheadPos + lookaheadSize) % DICT_SIZE;
      PutByte(dstPos, c, input, Low());
      if |s| >= cut.since + 2 { Enter(hash[..], next[..], s, c, cut.since); } else { ChainedGrows(hash[..], next[..], s, [c], cut.since, cut.since); }
      input := input + [c];
      lookaheadSize := lookaheadSize + 1;
      if lookaheadSize + dictSize >= MIN_MATCH {
        WindowBasic();
        var insPos := lookaheadPos + (lookaheadSize - 1) - 2;
        HashInRing(dict[..], input, Low(), insPos);
        var h := Xor(Xor(dict[insPos % DICT_SIZE] as nat * 1024, dict[(insPos + 1) % DICT_SIZE] as nat * 32), c) % HASH_SIZE;
        Link(insPos, h);
      }
    }

    /** The loop for the first bytes: three of them are needed for a hash. */
    method FillFirst(src: seq<u8>, from: nat) returns (upTo: nat)
      requires Memory() && Window() && Tight() && Hashed() && from <= |src| && lookaheadSize + dictSize < MIN_MATCH - 1
      modifies this`lookaheadSize, this`input, dict, next, hash
      ensures Memory() && Window() && Hashed() && from <= upTo <= |src| && input == old(input) + src[from..upTo]
      ensures upTo == |src| || lookaheadSize == MAX_MATCH
    {
      hide Ring, Chained, Hash3, Xor;
      WindowBasic();
      ghost var s0 := input;
      upTo := from;
      while upTo < |src| && lookaheadSize < MAX_MATCH
        invariant Memory() && Window() && Hashed() && from <= upTo <= |src| && input == s0 + src[from..upTo]
        invariant dictSize + lookaheadSize == |input| - cut.since
      {
        var c := src[upTo];
        FirstByte(c);
        assert src[from..upTo + 1] == src[from..upTo] + [c];
        upTo := upTo + 1;
      }
    }

    /** Fills the lookahead as far as the source goes. */
    method Fill(src: seq<u8>, from: nat) returns (upTo: nat)
      requires Valid() && !finished && from <= |src|
      modifies this`lookaheadSize, this`dictSize, this`input, dict, next, hash
      ensures Valid() && from <= upTo <= |src| && input == old(input) + src[from..upTo]
      ensures upTo == |src| || lookaheadSize == MAX_MATCH
      ensures old(lookaheadSize) <= lookaheadSize && upTo - from == lookaheadSize - old(lookaheadSize)
    {
      hide Ring, Chained, IsMatch, CoversFrom, Emitted, Afresh, LzCodeBuffer.Valid, FB.BlockSink.Valid;
      if lookaheadSize + dictSize >= MIN_MATCH - 1 {
        upTo := FillRolling(src, from);
      } else {
        upTo := FillFirst(src, from);
      }
      ghost var more := src[from..upTo];
      FromGrow(old(input), more, cut.since, lzCodeBufDictPos, codes.tokens, Covered());
      AfreshGrow(old(input), more, cut, lzCodeBufDictPos, sink.parts, sink.output);
      EmittedGrow(old(input), more, lzCodeBufDictPos, sink.parts);
      if savedMatchLen != 0 {
        MatchGrows(old(input), more, lookaheadPos - 1, savedMatchDist, savedMatchLen);
      }
      assert Saved() && Recorded() && Sent() && Hashed();
      Tighten();
    }

    method Tighten()
      requires Memory() && Window() && Saved() && Recorded() && Sent() && codes.codePos <= codes.buf.Length - 8 && !finished
      requires Hashed() && cut.since + dictSize <= lookaheadPos
      requires dictSize + lookaheadSize >= DICT_SIZE || dictSize + lookaheadSize == |input| - cut.since
      modifies this`dictSize
      ensures Valid()
    {
      hide Ring, Chained, IsMatch, CoversFrom, Emitted, Afresh, LzCodeBuffer.Valid, FB.BlockSink.Valid, Open, Finished;
      WindowBasic();
      ghost var lo := Low();
      dictSize := if DICT_SIZE - lookaheadSize < dictSize then DICT_SIZE - lookaheadSize else dictSize;
      Narrow(dict[..], input, lo, Low());
      assert Window() && Tight();
      assert Saved() && Recorded() && Sent() && Hashed();
    }

    // ---------------------------------------------------------------- choosing

    /** The candidate for the current position: none (`dist` is 0), or a true match. */
    ghost predicate Candidate(dist: nat, len: nat)
      reads this
    {
      if dist == 0 then savedMatchLen != 0 ==> len <= savedMatchLen
      else MIN_MATCH <= len <= lookaheadSize && dist <= dictSize && IsMatch(input, lookaheadPos, dist, len)
    }

    /** What a search from here may give: a match that is longer than the saved one, or than two bytes, or
        none; and no match is longer, as far as the probes allow it to look. */
    ghost predicate Searched(dist: nat, len: nat)
      reads this
    {
      var len0, probes := if savedMatchLen != 0 then savedMatchLen else 2, if savedMatchLen >= 32 then maxProbes1 else maxProbes0;
      Found(input, lookaheadPos, dictSize, lookaheadSize, 0, len0, dist, len) && Best(input, lookaheadPos, dictSize, lookaheadSize, probes, len)
    }

    /** Matches that are not taken: of three bytes from far away, of few bytes if so asked, and one that
        would begin with the ring. */
    predicate Declined(dist: nat, len: nat)
      reads this
    {
      (len == 3 && dist >= 8192) || lookaheadPos % 32768 == dist || (filterMatches && len <= 5)
    }

    lemma SearchPossible()
      requires Memory() && Window() && Tight() && Hashed()
      ensures Ring(dict[..], input, lookaheadPos - dictSize) && |input| <= lookaheadPos - dictSize + DICT_SIZE + 2
      ensures if cut.since + 2 <= |input| then Links(next[..], input, cut.since, |input| - 2) else next.Length == DICT_SIZE
    {
      hide Ring, Links, HeadAt;
    }

    method Choose() returns (dist: nat, len: nat)
      requires Memory() && Window() && Tight() && Saved() && Hashed()
      ensures Candidate(dist, len)
      ensures forceAllRaw ==> dist == 0
      ensures dist != 0 ==> (rleMatches ==> dist == 1) && (filterMatches ==> len > 5) && (len == 3 ==> dist < 8192)
      ensures rleMatches && !forceAllRaw && dictSize != 0 && !filterMatches && lookaheadPos % DICT_SIZE != 1 ==>
        if dist == 1 then IsLongest(input, lookaheadPos, 1, len, lookaheadSize) else dist == 0 && !IsMatch(input, lookaheadPos, 1, 3)
      ensures !rleMatches && !forceAllRaw ==>
        exists d: nat, l: nat :: Searched(d, l) && (if Declined(d, l) then dist == len == 0 else dist == d && len == l)
    {
      hide Ring, IsMatch, Links, Chained, Best;
      WindowBasic();
      dist, len := 0, if savedMatchLen != 0 then savedMatchLen else MIN_MATCH - 1;
      var curPos := lookaheadPos % DICT_SIZE;
      if rleMatches || forceAllRaw {
        if dictSize != 0 && !forceAllRaw {
          len := RepeatLength(dict, curPos, lookaheadSize, input, Low(), lookaheadPos);
          if len < MIN_MATCH {
            ShortRun(input, lookaheadPos, len, lookaheadSize);
            len := 0;
          } else {
            dist := 1;
          }
        }
      } else {
        var probes := if len >= 32 then maxProbes1 else maxProbes0;
        SearchPossible();
        dist, len := FindMatch(dict, next, lookaheadPos, dictSize, lookaheadSize, probes, dist, len, input, cut.since);
        assert Searched(dist, len);
      }
      if (len == MIN_MATCH && dist >= 8192) || curPos == dist || (filterMatches && len <= 5) {
        dist, len := 0, 0;
      }
    }

    // ---------------------------------------------------------------- the state machine

    /** Moves the lookahead forward. */
    method Advance(n: nat)
      requires Memory() && Window() && Tight() && n <= lookaheadSize
      modifies this`lookaheadPos, this`lookaheadSize, this`dictSize
      ensures Window() && Tight() && lookaheadPos == old(lookaheadPos) + n && lookaheadSize == old(lookaheadSize) - n
    {
      hide Ring;
      WindowBasic();
      ghost var lo := Low();
      lookaheadPos := lookaheadPos + n;
      lookaheadSize := lookaheadSize - n;
      dictSize := if dictSize + n < DICT_SIZE then dictSize + n else DICT_SIZE;
      Narrow(dict[..], input, lo, Low());
    }

    method RecordLiteralAt(lit: u8, ghost to: nat)
      requires codes.Valid() && codes.codePos + 2 <= codes.buf.Length && CoversFrom(input, cut.since, lzCodeBufDictPos, codes.tokens, to)
      requires to < |input| && lit == input[to]
      modifies codes, codes.buf, codes.litCount, codes.distCount
      ensures codes.Valid() && codes.codePos <= old(codes.codePos) + 2 && CoversFrom(input, cut.since, lzCodeBufDictPos, codes.tokens, to + 1)
      ensures codes.tokens == old(codes.tokens) + [Literal(lit)]
    {
      hide CoversFrom, LzCodeBuffer.Valid;
      FromLiteral(input, cut.since, lzCodeBufDictPos, codes.tokens, to);
      codes.RecordLiteral(lit);
    }

    method RecordMatchAt(dist: nat, len: nat, ghost to: nat)
      requires codes.Valid() && codes.codePos + 4 <= codes.buf.Length && CoversFrom(input, cut.since, lzCodeBufDictPos, codes.tokens, to)
      requires IsMatch(input, to, dist, len) && cut.since + dist <= to && ValidToken(Match(len, dist))
      modifies codes, codes.buf, codes.litCount, codes.distCount
      ensures codes.Valid() && codes.codePos <= old(codes.codePos) + 4 && CoversFrom(input, cut.since, lzCodeBufDictPos, codes.tokens, to + len)
      ensures codes.tokens == old(codes.tokens) + [Match(len, dist)]
    {
      hide CoversFrom, LzCodeBuffer.Valid, IsMatch;
      FromMatch(input, cut.since, lzCodeBufDictPos, codes.tokens, to, dist, len);
      codes.RecordMatch(len, dist);
    }

    /** `m_saved_lit` and the match that may still be beaten at the next byte. */
    method Save(dist: nat, len: nat)
      requires Window() && MIN_MATCH <= len < 128 && dist <= DICT_SIZE && IsMatch(input, lookaheadPos, dist, len)
      requires dict.Length == RING_SIZE && len <= lookaheadSize
      modifies this`savedLit, this`savedMatchDist, this`savedMatchLen
      ensures savedLit == input[lookaheadPos] && savedMatchDist == dist && savedMatchLen == len
    {
      hide Ring, IsMatch;
      ReadAhead(dict[..], input, Low(), lookaheadPos, 0);
      savedLit := dict[lookaheadPos % DICT_SIZE];
      savedMatchDist := dist;
      savedMatchLen := len;
    }

    /** The state after a decision and before the lookahead moves by `n`. */
    ghost predicate Decided(n: nat)
      reads this, codes, codes.buf, codes.litCount, codes.distCount
    {
      && 1 <= n <= lookaheadSize && codes.Valid() && |input| == lookaheadPos + lookaheadSize
      && CoversFrom(input, cut.since, lzCodeBufDictPos, codes.tokens, lookaheadPos + n - if savedMatchLen != 0 then 1 else 0)
      && (savedMatchLen != 0 ==>
            && n == 1 && MIN_MATCH <= savedMatchLen < 128 && savedMatchDist <= DICT_SIZE && cut.since + savedMatchDist <= lookaheadPos
            && savedLit == input[lookaheadPos] && IsMatch(input, lookaheadPos, savedMatchDist, savedMatchLen))
    }

    /** With a match saved one byte back: a longer one turns it into a literal, otherwise it goes out. */
    method DecideSaved(dist: nat, len: nat) returns (n: nat)
      requires Memory() && Window() && Tight() && Saved() && Recorded() && codes.codePos <= codes.buf.Length - 8
      requires lookaheadSize >= 1 && savedMatchLen != 0 && Candidate(dist, len)
      modifies this`savedLit, this`savedMatchDist, this`savedMatchLen, codes, codes.buf, codes.litCount, codes.distCount
      ensures Decided(n) && codes.codePos <= old(codes.codePos) + 6
      ensures len <= old(savedMatchLen) ==>
        n == old(savedMatchLen) - 1 && savedMatchLen == 0 && codes.tokens == old(codes.tokens) + [Match(old(savedMatchLen), old(savedMatchDist))]
      ensures old(savedMatchLen) < len < 128 ==>
        n == 1 && savedMatchLen == len && savedMatchDist == dist && codes.tokens == old(codes.tokens) + [Literal(old(savedLit))]
      ensures len > old(savedMatchLen) && len >= 128 ==>
        n == len && savedMatchLen == 0 && codes.tokens == old(codes.tokens) + [Literal(old(savedLit)), Match(len, dist)]
    {
      hide Ring, Chained, IsMatch, CoversFrom, Emitted, Afresh, LzCodeBuffer.Valid, FB.BlockSink.Valid;
      WindowBasic();
      n := 1;
      if len > savedMatchLen {
        RecordLiteralAt(savedLit, lookaheadPos - 1);
        if len >= 128 {
          RecordMatchAt(dist, len, lookaheadPos);
          savedMatchLen := 0;
          n := len;
        } else {
          Save(dist, len);
        }
      } else {
        MatchBounds(input, lookaheadPos - 1, savedMatchDist, savedMatchLen);
        RecordMatchAt(savedMatchDist, savedMatchLen, lookaheadPos - 1);
        n := savedMatchLen - 1;
        savedMatchLen := 0;
      }
    }

    /** With nothing saved: a literal, a match at once, or a match to be saved. */
    method DecideFresh(dist: nat, len: nat) returns (n: nat)
      requires Memory() && Window() && Tight() && Saved() && Recorded() && codes.codePos <= codes.buf.Length - 8
      requires lookaheadSize >= 1 && savedMatchLen == 0 && Candidate(dist, len)
      modifies this`savedLit, this`savedMatchDist, this`savedMatchLen, codes, codes.buf, codes.litCount, codes.distCount
      ensures Decided(n) && codes.codePos <= old(codes.codePos) + 6
      ensures dist == 0 ==> n == 1 && savedMatchLen == 0 && codes.tokens == old(codes.tokens) + [Literal(input[lookaheadPos])]
      ensures dist != 0 && (greedy || rleMatches || len >= 128) ==>
        n == len && savedMatchLen == 0 && codes.tokens == old(codes.tokens) + [Match(len, dist)]
      ensures dist != 0 && !(greedy || rleMatches || len >= 128) ==>
        n == 1 && savedMatchLen == len && savedMatchDist == dist && codes.tokens == old(codes.tokens)
    {
      hide Ring, Chained, IsMatch, CoversFrom, Emitted, Afresh, LzCodeBuffer.Valid, FB.BlockSink.Valid;
      WindowBasic();
      n := 1;
      if dist == 0 {
        ReadAhead(dict[..], input, Low(), lookaheadPos, 0);
        RecordLiteralAt(dict[lookaheadPos % DICT_SIZE], lookaheadPos);
      } else {
        MatchBounds(input, lookaheadPos, dist, len);
        if greedy || rleMatches || len >= 128 {
          RecordMatchAt(dist, len, lookaheadPos);
          n := len;
        } else {
          Save(dist, len);
        }
      }
    }

    /** One decision, as the one before it allows. */
    method Decide(dist: nat, len: nat) returns (n: nat)
      requires Hashed() && Memory() && Window() && Tight() && Saved() && Recorded() && Sent() && codes.codePos <= codes.buf.Length - 8
      requires lookaheadSize >= 1 && Candidate(dist, len)
      modifies this`savedLit, this`savedMatchDist, this`savedMatchLen, codes, codes.buf, codes.litCount, codes.distCount
      ensures Decided(n) && codes.codePos <= old(codes.codePos) + 6
      ensures Hashed() && Window() && Tight() && Sent()
    {
      hide Compressor.Decided, Ring, Chained, IsMatch, CoversFrom, Emitted, Afresh, LzCodeBuffer.Valid, FB.BlockSink.Valid;
      if savedMatchLen != 0 {
        n := DecideSaved(dist, len);
      } else {
        n := DecideFresh(dist, len);
      }
    }

    /** One round of the parsing state machine. */
    method Parse()
      requires Valid() && !finished && lookaheadSize >= 1
      modifies this`savedLit, this`savedMatchDist, this`savedMatchLen, this`lookaheadPos, this`lookaheadSize, this`dictSize
      modifies codes, codes.buf, codes.litCount, codes.distCount
      ensures Hashed() && Memory() && Window() && Tight() && Saved() && Recorded() && Sent() && codes.codePos <= codes.buf.Length - 2
      ensures lookaheadSize < old(lookaheadSize) && lookaheadPos + lookaheadSize == old(lookaheadPos + lookaheadSize)
    {
      hide Compressor.Searched, Compressor.Declined, Compressor.Hashed, Ring, Chained, IsMatch, CoversFrom, Emitted, Afresh, LzCodeBuffer.Valid, FB.BlockSink.Valid;
      var dist, len := Choose();
      var n := Decide(dist, len);
      Advance(n);
    }

    // ---------------------------------------------------------------- blocks

    lemma BlockSize()
      requires codes.Valid() && Covered() >= 0 && CoversFrom(input, cut.since, lzCodeBufDictPos, codes.tokens, Covered())
      ensures lzCodeBufDictPos + codes.totalBytes == Covered() <= |input|
    {
      hide Expand, Expandable, TotalSize, CoversFrom;
      FromIsCovers(input, cut.since, lzCodeBufDictPos, codes.tokens, Covered());
      ExpandSize(input[..lzCodeBufDictPos], codes.tokens);
    }

    /** While the open block is not longer than the dictionary, the ring still holds all of it. */
    lemma BlockHeld()
      requires Memory() && Window() && Tight() && Recorded() && lookaheadPos - lzCodeBufDictPos <= dictSize
      ensures FB.HeldBytes(dict[..], input, lzCodeBufDictPos, codes.totalBytes)
    {
      hide CoversFrom, LzCodeBuffer.Valid;
      BlockSize();
    }

    /** All of the stream has been handed over: no bit waits for others. */
    ghost predicate Delivered()
      reads sink, sink.w, sink.w.out
    {
      sink.Valid() && sink.w.bitsIn == 0 && BytesBits(sink.output) == StreamBits(sink.parts) + sink.tail
    }

    /** The output ends as that of a flush does. */
    ghost predicate Marked()
      reads sink
    {
      |sink.output| >= 4 && sink.output[|sink.output| - 4..] == [0, 0, 0xFF, 0xFF]
    }

    /** The window and what is saved do not change. */
    method Send(from: nat, flush: FB.Flush, held: bool) returns (ghost p: Part)
      requires Memory() && Window() && Saved() && codes.Valid() && sink.Valid() && sink.tail == []
      requires from + codes.totalBytes <= |input| && (held ==> FB.HeldBytes(dict[..], input, from, codes.totalBytes))
      modifies codes, codes.buf, codes.litCount, codes.distCount
      modifies sink`output, sink`parts, sink`tail, sink.w`pos, sink.w`buffer, sink.w`bitsIn, sink.w`sent, sink.w`kept, sink.w.out
      modifies sink.litSizes, sink.litCodes, sink.distSizes, sink.distCodes
      ensures Window() && Saved() && codes.Valid() && codes.tokens == [] && codes.codePos == 1
      ensures p.final == (flush == FB.Finish) && sink.parts == old(sink.parts) + [p] + FB.Markers(flush)
      ensures p == Part.Stored(p.final, input[from..from + old(codes.totalBytes)]) || (p.Compressed? && p.tokens == old(codes.tokens))
      ensures sink.Valid() && sink.tail == if flush == FB.Finish then Padding(|StreamBits(sink.parts)|) else []
      ensures old(sink.output) <= sink.output && (flush != FB.NoFlush ==> Delivered())
      ensures flush == FB.SyncFlush || flush == FB.FullFlush ==> Marked()
      ensures FB.Chosen(p, old(codes.tokens), old(codes.totalBytes), held, forceAllRaw, forceAllStatic || old(codes.totalBytes) < 48)
    {
      hide BytesBits, FB.Chosen;
      hide Ring, IsMatch, LzCodeBuffer.Valid, FB.BlockSink.Valid, FB.HeldBytes, FB.Markers, Padding, StreamBits;
      ghost var d := dict[..];
      p := sink.Flush(codes, dict, from, held, flush, forceAllRaw, forceAllStatic, input);
      assert dict[..] == d;
      assert Window();
      assert Saved();
    }

    /** Closes the open block and starts the next one. */
    method FlushBlock(flush: FB.Flush)
      requires Memory() && Window() && Tight() && Saved() && Recorded() && Sent() && !finished
      modifies this`lzCodeBufDictPos, codes, codes.buf, codes.litCount, codes.distCount
      modifies sink`output, sink`parts, sink`tail, sink.w`pos, sink.w`buffer, sink.w`bitsIn, sink.w`sent, sink.w`kept, sink.w.out
      modifies sink.litSizes, sink.litCodes, sink.distSizes, sink.distCodes
      ensures Memory() && Window() && Tight() && Saved() && Recorded() && codes.codePos == 1
      ensures sink.Valid() && Emitted(input, lzCodeBufDictPos, sink.parts) && lzCodeBufDictPos == Covered()
      ensures flush == FB.Finish ==> Finished(sink.parts) && sink.tail == Padding(|StreamBits(sink.parts)|)
      ensures flush != FB.Finish ==> Open(sink.parts) && sink.tail == []
      ensures Afresh(input, cut, lzCodeBufDictPos, sink.parts, sink.output) && codes.tokens == []
      ensures (flush != FB.NoFlush ==> Delivered()) && (flush == FB.SyncFlush || flush == FB.FullFlush ==> Marked())
      ensures |sink.parts| > |old(sink.parts)|
      ensures FB.Chosen(sink.parts[|old(sink.parts)|], old(codes.tokens), old(codes.totalBytes), lookaheadPos - old(lzCodeBufDictPos) <= dictSize, forceAllRaw, forceAllStatic || old(codes.totalBytes) < 48)
    {
      hide Compressor.Delivered, Compressor.Marked, PartsOk, FB.Chosen;
      hide Ring, Chained, IsMatch, CoversFrom, Emitted, Afresh, LzCodeBuffer.Valid, FB.BlockSink.Valid, FB.HeldBytes, FB.Markers, Open, Finished, Padding, StreamBits;
      var held := lookaheadPos - lzCodeBufDictPos <= dictSize;
      BlockSize();
      if held { BlockHeld(); }
      var from, to: nat := lzCodeBufDictPos, lzCodeBufDictPos + codes.totalBytes;
      ghost var ts, parts, output := codes.tokens, sink.parts, sink.output;
      FromNothing(input, cut.since, to);
      ghost var p := Send(from, flush, held);
      SinkBasic();
      BlockSent(input, cut, from, ts, to, parts, output, p, flush, sink.output);
      NextBlock(to);
    }

    lemma SinkBasic()
      requires sink.Valid()
      ensures PartsOk(sink.parts)
    {}

    /** The next block starts where this one ends. */
    method NextBlock(to: nat)
      requires Window() && Saved() && codes.Valid() && codes.tokens == [] && to == Covered() && CoversFrom(input, cut.since, to, [], to)
      modifies this`lzCodeBufDictPos
      ensures Window() && Saved() && Recorded() && lzCodeBufDictPos == to
    {
      hide Ring, IsMatch, CoversFrom, LzCodeBuffer.Valid;
      lzCodeBufDictPos := to;
      assert Window();
      assert Saved();
    }

    // ---------------------------------------------------------------- runs

    /** The token buffer is nearly full, or the block is long and does not get shorter by compressing. */
    predicate Overfull()
      reads this, codes
    {
      codes.codePos > 65528 || (codes.totalBytes > 31744 && (codes.codePos * 115 / 128 >= codes.totalBytes || forceAllRaw))
    }

    /** Closes the block exactly if it is overfull. */
    method CloseFull() returns (stop: Stop)
      requires Hashed() && Memory() && Window() && Tight() && Saved() && Recorded() && Sent() && !finished && codes.codePos <= codes.buf.Length - 2
      modifies this`lzCodeBufDictPos, codes, codes.buf, codes.litCount, codes.distCount
      modifies sink`output, sink`parts, sink`tail, sink.w`pos, sink.w`buffer, sink.w`bitsIn, sink.w`sent, sink.w`kept, sink.w.out
      modifies sink.litSizes, sink.litCodes, sink.distSizes, sink.distCodes
      ensures Valid() && (stop == Stopped ==> !hasPutBufFunc)
      ensures if old(Overfull()) then |sink.parts| > |old(sink.parts)| else sink.parts == old(sink.parts) && codes.tokens == old(codes.tokens)
    {
      hide Compressor.Hashed, Ring, Chained, IsMatch, CoversFrom, Emitted, Afresh, LzCodeBuffer.Valid, FB.BlockSink.Valid, FB.Chosen, Open;
      if codes.codePos > codes.buf.Length - 8 ||
         (codes.totalBytes > 31 * 1024 && (codes.codePos * 115 / 128 >= codes.totalBytes || forceAllRaw))
      {
        FlushBlock(FB.NoFlush);
        var full := false;
        if !hasPutBufFunc { full := *; } // output that the caller's buffer does not take yet
        if full {
          return Stopped;
        }
      }
      stop := Ran;
    }

    /** One decision, and the block is closed if it is full. */
    method Round() returns (stop: Stop)
      requires Valid() && !finished && lookaheadSize >= 1
      modifies this`lookaheadPos, this`lookaheadSize, this`dictSize, this`savedLit, this`savedMatchDist, this`savedMatchLen
      modifies this`lzCodeBufDictPos, codes, codes.buf, codes.litCount, codes.distCount
      modifies sink`output, sink`parts, sink`tail, sink.w`pos, sink.w`buffer, sink.w`bitsIn, sink.w`sent, sink.w`kept, sink.w.out
      modifies sink.litSizes, sink.litCodes, sink.distSizes, sink.distCodes
      ensures Valid() && lookaheadSize < old(lookaheadSize)
      ensures stop == Stopped ==> !hasPutBufFunc
    {
      hide Compressor.Hashed, Ring, Chained, IsMatch, CoversFrom, Emitted, Afresh, LzCodeBuffer.Valid, FB.BlockSink.Valid, Open;
      Parse();
      stop := CloseFull();
    }

    /** Takes the source in and parses it; `upTo` says how much of it was taken. It stops early only
        for the caller to collect output. */
    method CompressNormal(src: seq<u8>, flush: FB.Flush) returns (upTo: nat, stop: Stop)
      requires Valid() && !finished
      modifies this`lookaheadPos, this`lookaheadSize, this`dictSize, this`savedLit, this`savedMatchDist, this`savedMatchLen
      modifies this`lzCodeBufDictPos, this`input, dict, next, hash, codes, codes.buf, codes.litCount, codes.distCount
      modifies sink`output, sink`parts, sink`tail, sink.w`pos, sink.w`buffer, sink.w`bitsIn, sink.w`sent, sink.w`kept, sink.w.out
      modifies sink.litSizes, sink.litCodes, sink.distSizes, sink.distCodes
      ensures Valid() && upTo <= |src| && input == old(input) + src[..upTo]
      ensures stop == Ran ==> upTo == |src| && (flush != FB.NoFlush ==> lookaheadSize == 0)
      ensures stop == Stopped ==> !hasPutBufFunc
    {
      hide Compressor.Valid;
      upTo, stop := 0, Ran;
      while upTo < |src| || (flush != FB.NoFlush && lookaheadSize != 0)
        invariant Valid() && upTo <= |src| && input == old(input) + src[..upTo] && stop == Ran
        decreases |src| - upTo + lookaheadSize
      {
        ghost var from := upTo;
        upTo := Fill(src, upTo);
        assert src[..upTo] == src[..from] + src[from..upTo];
        if flush == FB.NoFlush && lookaheadSize < MAX_MATCH {
          break;
        }
        stop := Round();
        if stop != Ran {
          return;
        }
      }
    }

    /** With no lookahead left nothing can be saved. */
    lemma NothingSaved()
      requires Window() && Saved() && lookaheadSize == 0
      ensures savedMatchLen == 0 && Covered() == |input|
    {
      hide Ring;
    }

    /** The end of a call that flushes: the open block goes out, too. */
    method FlushAll(flush: FB.Flush)
      requires Valid() && !finished && lookaheadSize == 0 && flush != FB.NoFlush
      modifies this`lookaheadPos, this`lookaheadSize, this`dictSize, this`finished, this`lzCodeBufDictPos, this`cut
      modifies next, hash, codes, codes.buf, codes.litCount, codes.distCount
      modifies sink`output, sink`parts, sink`tail, sink.w`pos, sink.w`buffer, sink.w`bitsIn, sink.w`sent, sink.w`kept, sink.w.out
      modifies sink.litSizes, sink.litCodes, sink.distSizes, sink.distCodes
      ensures Valid() && Unpackable(sink.parts) && Unpack(sink.parts) == input && (finished <==> flush == FB.Finish)
      ensures Delivered() && (flush == FB.SyncFlush || flush == FB.FullFlush ==> Marked())
      ensures cut == if flush == FB.FullFlush then Cut(|input|, |sink.parts|, |sink.output|) else old(cut)
      ensures flush == FB.FullFlush ==> dictSize == 0
    {
      hide Ring, Chained, IsMatch, CoversFrom, Afresh, Compressor.Delivered, Compressor.Marked, LzCodeBuffer.Valid, FB.BlockSink.Valid, Unpack, Unpackable, Open, Finished, Padding, StreamBits;
      FlushBlock(flush);
      NothingSaved();
      assert input[..|input|] == input;
      finished := flush == FB.Finish;
      assert Memory() && Window() && Tight() && Saved() && Recorded();
      assert Sent();
      if flush == FB.FullFlush {
        Forget();
      }
    }

    /** `tdefl_compress`: one call of the compressor. After a call that flushed, the stream written
        stands for everything taken in so far. */
    method Compress(src: seq<u8>, flush: FB.Flush) returns (upTo: nat, stop: Stop, flushed: bool)
      requires Valid()
      modifies this`lookaheadPos, this`lookaheadSize, this`dictSize, this`savedLit, this`savedMatchDist, this`savedMatchLen, this`finished
      modifies this`lzCodeBufDictPos, this`input, this`cut, dict, next, hash, codes, codes.buf, codes.litCount, codes.distCount
      modifies sink`output, sink`parts, sink`tail, sink.w`pos, sink.w`buffer, sink.w`bitsIn, sink.w`sent, sink.w`kept, sink.w.out
      modifies sink.litSizes, sink.litCodes, sink.distSizes, sink.distCodes
      ensures Valid() && upTo <= |src| && input == old(input) + src[..upTo] && (!old(finished) && stop == Ran ==> upTo == |src|)
      ensures flushed ==> sink.w.bitsIn == 0 && BytesBits(sink.output) == StreamBits(sink.parts) + sink.tail
      ensures flushed && (flush == FB.SyncFlush || flush == FB.FullFlush) ==>
        !finished && sink.tail == [] && |sink.output| >= 4 && sink.output[|sink.output| - 4..] == [0, 0, 0xFF, 0xFF]
      ensures cut == if flushed && flush == FB.FullFlush then Cut(|input|, |sink.parts|, |sink.output|) else old(cut)
      ensures flushed ==> stop == Ran && flush != FB.NoFlush && upTo == |src| && Unpackable(sink.parts) && Unpack(sink.parts) == input
      ensures flushed && flush == FB.Finish ==> finished
      ensures !old(finished) && flush != FB.NoFlush && stop == Ran ==> flushed
      ensures !old(finished) && hasPutBufFunc ==> stop != Stopped
    {
      hide Compressor.Valid, Unpack, Unpackable, BytesBits, StreamBits, FB.BlockSink.Valid;
      flushed := false;
      if finished {
        assert src[..0] == [];
        return 0, Stopped, false;
      }
      upTo, stop := CompressNormal(src, flush);
      if flush != FB.NoFlush && stop == Ran && lookaheadSize == 0 && upTo == |src| {
        FlushAll(flush);
        if flush != FB.Finish { Unfinished(); }
        flushed := true;
      }
    }

    lemma Unfinished()
      requires Valid() && !finished
      ensures sink.tail == []
    {
      hide Ring, Chained, IsMatch, CoversFrom, Emitted, Afresh, LzCodeBuffer.Valid, FB.BlockSink.Valid, Open;
    }

    /** A full flush forgets the dictionary: what follows does not look behind it. */
    method Forget()
      requires Valid() && lookaheadSize == 0 && !finished && codes.tokens == [] && lzCodeBufDictPos == |input| && Delivered()
      modifies this`dictSize, this`cut, next, hash
      ensures Valid() && dictSize == 0 && cut == Cut(|input|, |sink.parts|, |sink.output|)
    {
      hide Ring, Chained, IsMatch, CoversFrom, Emitted, Afresh, LzCodeBuffer.Valid, FB.BlockSink.Valid, Open, BytesBits, StreamBits, PartsOk;
      WindowBasic();
      NothingSaved();
      SinkBasic();
      ghost var lo, d := Low(), dict[..];
      forall i | 0 <= i < hash.Length { hash[i] := 0; }
      forall i | 0 <= i < next.Length { next[i] := 0; }
      dictSize := 0;
      assert dict[..] == d;
      Narrow(d, input, lo, Low());
      assert BytesBits(sink.output) == StreamBits(sink.parts) by { assert StreamBits(sink.parts) + [] == StreamBits(sink.parts); }
      AfreshNow(input, sink.parts, sink.output);
      FromNothing(input, |input|, |input|);
      cut := Cut(|input|, |sink.parts|, |sink.output|);
      NothingHashed();
      assert Window() && Tight();
      assert Saved() && Recorded() && Sent();
    }
  }

  /** Why a run ended: nothing was left to do, or output has to be collected first. */
  datatype Stop = Ran | Stopped

  lemma MatchBounds(s: seq<u8>, pos: nat, dist: nat, len: nat)
    requires IsMatch(s, pos, dist, len)
    ensures 1 <= dist <= pos && pos + len <= |s|
  {}

  lemma NextSlot(n: nat)
    ensures (n % DICT_SIZE + 1) % DICT_SIZE == (n + 1) % DICT_SIZE
  {}
}
