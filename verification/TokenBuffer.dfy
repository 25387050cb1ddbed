/** The packed token buffer of the compressor (`tdefl_record_literal`, `tdefl_record_match`, and the
    parsing loop of `tdefl_compress_lz_codes`): groups of up to eight tokens behind a byte of flags. */
module TokenBuffer {
  import opened Bits
  import opened Tokens
  import opened LzSymbols
  import opened BlockCode

  /** The bytes of one token. */
  function Payload(t: Token): (p: seq<u8>)
    requires ValidToken(t)
  {
    match t
    case Literal(b) => [b]
    case Match(len, dist) => [len - MIN_MATCH, (dist - 1) % 256, (dist - 1) / 256]
  }

  ghost predicate AllValid(ts: seq<Token>)
  {
    forall i :: 0 <= i < |ts| ==> ValidToken(ts[i])
  }

  function Payloads(ts: seq<Token>): seq<u8>
    requires forall i :: 0 <= i < |ts| ==> ValidToken(ts[i])
  {
    if ts == [] then [] else Payloads(ts[..|ts| - 1]) + Payload(ts[|ts| - 1])
  }

  /** One flag bit per token, the first in the lowest bit: set for a match. */
  function Flags(ts: seq<Token>): (f: nat)
    ensures f < Pow2(|ts|)
  {
    if ts == [] then 0 else
      Flags(ts[..|ts| - 1]) + if ts[|ts| - 1].Match? then Pow2(|ts| - 1) else 0
  }

  /** A group: its flag byte and its tokens. */
  function Group(ts: seq<Token>): seq<u8>
    requires |ts| <= 8 && forall i :: 0 <= i < |ts| ==> ValidToken(ts[i])
  {
    Pow2Mono(|ts|, 8); assert Pow2(8) == 256;
    [Flags(ts)] + Payloads(ts)
  }

  /** The whole buffer: groups of eight and a last group of fewer, if any are left. */
  function Pack(ts: seq<Token>): seq<u8>
    requires forall i :: 0 <= i < |ts| ==> ValidToken(ts[i])
    decreases |ts|
  {
    if ts == [] then [] else
      var m := if |ts| < 8 then |ts| else 8;
      Group(ts[..m]) + Pack(ts[m..])
  }

  lemma {:induction false} PackAppend(a: seq<Token>, b: seq<Token>)
    requires AllValid(a) && AllValid(b) && |a| % 8 == 0
    ensures AllValid(a + b) && Pack(a + b) == Pack(a) + Pack(b)
    decreases |a|
  {
    hide Pack, Group;
    PackEmpty();
    if a == [] {
      assert a + b == b;
    } else {
      PackAppend(a[8..], b);
      assert (a + b)[..8] == a[..8] && (a + b)[8..] == a[8..] + b;
      PackStep(a + b);
      PackStep(a);
    }
  }

  lemma PackEmpty()
    ensures Pack([]) == []
  {}

  lemma PackStep(ts: seq<Token>)
    requires AllValid(ts) && |ts| >= 8
    ensures AllValid(ts[..8]) && AllValid(ts[8..]) && Pack(ts) == Group(ts[..8]) + Pack(ts[8..])
  {}

  lemma PackGroup(g: seq<Token>)
    requires AllValid(g) && 1 <= |g| <= 8
    ensures Pack(g) == Group(g)
  {
    assert g[..|g|] == g && g[|g|..] == [];
  }

  // ---------------------------------------------------------------- recording

  /** Bytes written so far for the tokens `ts`: complete groups, then, at `flagPos`, the flag byte of
      the open group with its bits still in the upper part, then the payloads of that group. */
  ghost predicate Recorded(s: seq<u8>, codePos: nat, flagPos: nat, left: nat, ts: seq<Token>)
  {
    && AllValid(ts) && 1 <= left <= 8 && |ts| % 8 == 8 - left && flagPos < codePos <= |s|
    && var n := |ts| - (8 - left);
    && s[..flagPos] == Pack(ts[..n])
    && Shr(s[flagPos], left) == Flags(ts[n..])
    && s[flagPos + 1..codePos] == Payloads(ts[n..])
  }

  lemma FlagsAppend(ts: seq<Token>, t: Token)
    ensures Flags(ts + [t]) == Flags(ts) + if t.Match? then Pow2(|ts|) else 0
  {
    assert (ts + [t])[..|ts|] == ts;
  }

  lemma PayloadsAppend(ts: seq<Token>, t: Token)
    requires AllValid(ts) && ValidToken(t)
    ensures AllValid(ts + [t]) && Payloads(ts + [t]) == Payloads(ts) + Payload(t)
  {
    assert (ts + [t])[..|ts|] == ts;
  }

  /** The flag byte after one more token. */
  function NextFlag(f: u8, t: Token): u8
  {
    f / 2 + if t.Match? then 128 else 0
  }

  lemma NextFlagShr(f: u8, t: Token, left: nat)
    requires 1 <= left <= 8
    ensures Shr(NextFlag(f, t), left - 1) == Shr(f, left) + if t.Match? then Pow2(8 - left) else 0
  {
    hide Pow2;
    HalfDiv(f, left);
    Pow2Add(8 - left, left - 1);
    Pow2Seven();
    if t.Match? {
      AddMultiple(f / 2, Pow2(8 - left), Pow2(left - 1));
    }
  }

  lemma Pow2Seven()
    ensures Pow2(7) == 128
  {}

  /** Recording a token inside a group. */
  lemma RecordNext(s: seq<u8>, s': seq<u8>, codePos: nat, flagPos: nat, left: nat, ts: seq<Token>, t: Token)
    requires Recorded(s, codePos, flagPos, left, ts) && ValidToken(t)
    requires codePos + |Payload(t)| <= |s'| == |s|
    requires s' == s[..flagPos] + [NextFlag(s[flagPos], t)] + s[flagPos + 1..codePos] + Payload(t) + s[codePos + |Payload(t)|..]
    ensures AllValid(ts + [t])
    ensures left > 1 ==> Recorded(s', codePos + |Payload(t)|, flagPos, left - 1, ts + [t])
    ensures left == 1 && codePos + |Payload(t)| < |s'| ==>
      Recorded(s', codePos + |Payload(t)| + 1, codePos + |Payload(t)|, 8, ts + [t])
  {
    hide Flags, Payloads, Pack, Shr, Pow2;
    var n, codePos', ts' := |ts| - (8 - left), codePos + |Payload(t)|, ts + [t];
    var g := ts[n..];
    assert ts'[..n] == ts[..n] && ts'[n..] == g + [t];
    FlagsAppend(g, t);
    PayloadsAppend(g, t);
    NextFlagShr(s[flagPos], t, left);
    assert s'[..flagPos] == s[..flagPos];
    assert s'[flagPos + 1..codePos'] == s[flagPos + 1..codePos] + Payload(t);
    if left == 1 && codePos' < |s'| {
      GroupDone(s', codePos', flagPos, ts', n);
    }
  }

  /** After the eighth token of a group. */
  lemma GroupDone(s: seq<u8>, codePos: nat, flagPos: nat, ts: seq<Token>, n: nat)
    requires AllValid(ts) && |ts| == n + 8 && n % 8 == 0 && flagPos < codePos < |s|
    requires s[..flagPos] == Pack(ts[..n])
    requires Shr(s[flagPos], 0) == Flags(ts[n..]) && s[flagPos + 1..codePos] == Payloads(ts[n..])
    ensures Recorded(s, codePos + 1, codePos, 8, ts)
  {
    hide Payloads, Pack;
    var g := ts[n..];
    assert ts == ts[..n] + g && ts[..|ts|] == ts && ts[|ts|..] == [];
    assert Shr(s[flagPos], 0) == s[flagPos] by { assert Pow2(0) == 1; }
    PackAppend(ts[..n], g);
    PackGroup(g);
    assert s[..codePos] == s[..flagPos] + [s[flagPos]] + s[flagPos + 1..codePos];
    EmptyGroup(s[codePos]);
  }

  lemma EmptyGroup(f: u8)
    ensures Shr(f, 8) == Flags([]) && Payloads([]) == []
  {
    assert Pow2(8) == 256;
  }

  lemma FlagByte(g: seq<Token>)
    requires |g| <= 8
    ensures Flags(g) < 256
  {
    Pow2Mono(|g|, 8);
    assert Pow2(8) == 256;
  }

  /** Dropping the unused part of the last flag byte, or the byte itself, leaves the packed tokens,
      whatever the unused bits held. */
  lemma FinishGroup(s: seq<u8>, codePos: nat, flagPos: nat, left: nat, ts: seq<Token>)
    requires Recorded(s, codePos, flagPos, left, ts)
    ensures left == 8 ==> codePos == flagPos + 1 && s[..flagPos] == Pack(ts)
    ensures Shr(s[flagPos], left) < 256
    ensures left < 8 ==> s[flagPos := Shr(s[flagPos], left)][..codePos] == Pack(ts)
  {
    var n := |ts| - (8 - left);
    hide Payloads, Pack, Flags, Shr, Pow2;
    var g := ts[n..];
    FlagByte(g);
    assert ts == ts[..n] + g;
    if left == 8 {
      EmptyGroup(0);
      assert g == [] && ts[..n] == ts;
    } else {
      PackAppend(ts[..n], g);
      PackGroup(g);
      var s' := s[flagPos := Shr(s[flagPos], left)];
      assert s'[..codePos] == s[..flagPos] + [Flags(g)] + s[flagPos + 1..codePos];
    }
  }

  /** Bytes a run of tokens takes at least: one each, and a flag byte per group of eight. */
  lemma {:induction false} PackSize(ts: seq<Token>)
    requires AllValid(ts)
    ensures |ts| + (|ts| + 7) / 8 <= |Pack(ts)|
    decreases |ts|
  {
    if ts != [] {
      var m := if |ts| < 8 then |ts| else 8;
      PackSize(ts[m..]);
      PayloadsSize(ts[..m]);
    }
  }

  lemma {:induction false} PayloadsSize(ts: seq<Token>)
    requires AllValid(ts)
    ensures |ts| <= |Payloads(ts)|
  {
    if ts != [] { PayloadsSize(ts[..|ts| - 1]); }
  }

  // ---------------------------------------------------------------- the buffer

  /** The part of the compressor that records tokens: `m_lz_code_buf`, the two pointers into it,
      the number of unused bits in the current flag byte, and the bytes the tokens stand for. */
  class LzCodeBuffer {
    const buf: array<u8>
    const litCount: array<u16>
    const distCount: array<u16>
    var codePos: nat
    var flagPos: nat
    var left: nat
    var totalBytes: nat
    ghost var tokens: seq<Token>

    ghost predicate Valid()
      reads this, buf, litCount, distCount
    {
      && Recorded(buf[..], codePos, flagPos, left, tokens) && totalBytes == TotalSize(tokens)
      && buf.Length <= 0x1_0000 && litCount != distCount && Counted(litCount[..], distCount[..], tokens)
    }

    /** As `tdefl_init` and the end of `tdefl_flush_block` leave it; the flag byte keeps whatever
        it held. */
    constructor (size: nat)
      requires 1 <= size <= 0x1_0000
      ensures Valid() && fresh(buf) && fresh(litCount) && fresh(distCount) && buf.Length == size && tokens == [] && codePos == 1
    {
      buf := new u8[size](_ => 0);
      litCount := new u16[LIT_SYMS](_ => 0);
      distCount := new u16[DIST_SYMS](_ => 0);
      codePos, flagPos, left, totalBytes := 1, 0, 8, 0;
      tokens := [];
      new;
      NothingRecorded(buf[..]);
    }

    ghost predicate Sizes()
    {
      1 <= buf.Length <= 0x1_0000 && litCount.Length == LIT_SYMS && distCount.Length == DIST_SYMS && litCount != distCount
    }

    lemma ValidSizes()
      requires Valid()
      ensures Sizes() && AllValid(tokens)
    {
      hide Recorded;
      RecordedBounds(buf[..], codePos, flagPos, left, tokens);
    }

    /** For the next block: the buffer's contents no longer matter. */
    method Reset()
      requires Sizes()
      modifies this, litCount, distCount
      ensures Valid() && tokens == [] && codePos == 1
    {
      hide Recorded, TotalSize;
      codePos, flagPos, left, totalBytes := 1, 0, 8, 0;
      forall s | 0 <= s < litCount.Length { litCount[s] := 0; }
      forall s | 0 <= s < distCount.Length { distCount[s] := 0; }
      tokens := [];
      NothingRecorded(buf[..]);
    }

    method RecordLiteral(lit: u8)
      requires Valid() && codePos + 2 <= buf.Length
      modifies this, buf, litCount, distCount
      ensures Valid() && tokens == old(tokens) + [Literal(lit)] && codePos <= old(codePos) + 2
    {
      hide Recorded, TotalSize, LitSymOf, DistSymOf;
      ghost var s, t := buf[..], Literal(lit);
      RecordedBounds(s, codePos, flagPos, left, tokens);
      TokensFit(s, codePos, flagPos, left, tokens);
      totalBytes := totalBytes + 1;
      buf[codePos] := lit;
      buf[flagPos] := buf[flagPos] / 2;
      ghost var s' := buf[..];
      assert s' == s[..flagPos] + [NextFlag(s[flagPos], t)] + s[flagPos + 1..codePos] + Payload(t) + s[codePos + 1..];
      RecordNext(s, s', codePos, flagPos, left, tokens, t);
      TotalSizeAppend(tokens, t);
      codePos := codePos + 1;
      left := left - 1;
      tokens := tokens + [t];
      if left == 0 {
        left := 8;
        flagPos := codePos;
        codePos := codePos + 1;
      }
      assert Recorded(buf[..], codePos, flagPos, left, tokens);
      Count(Literal(lit), old(tokens));
    }

    method RecordMatch(matchLen: nat, matchDist: nat)
      requires Valid() && codePos + 4 <= buf.Length && ValidToken(Match(matchLen, matchDist))
      modifies this, buf, litCount, distCount
      ensures Valid() && tokens == old(tokens) + [Match(matchLen, matchDist)] && codePos <= old(codePos) + 4
    {
      hide Recorded, TotalSize, LitSymOf, DistSymOf;
      ghost var s, t := buf[..], Match(matchLen, matchDist);
      RecordedBounds(s, codePos, flagPos, left, tokens);
      TokensFit(s, codePos, flagPos, left, tokens);
      totalBytes := totalBytes + matchLen;
      WriteMatch(matchLen, matchDist);
      ghost var s' := buf[..];
      RecordNext(s, s', codePos, flagPos, left, tokens, t);
      TotalSizeAppend(tokens, t);
      codePos := codePos + 3;
      left := left - 1;
      tokens := tokens + [t];
      if left == 0 {
        left := 8;
        flagPos := codePos;
        codePos := codePos + 1;
      }
      assert Recorded(buf[..], codePos, flagPos, left, tokens);
      Count(Match(matchLen, matchDist), old(tokens));
    }

    /** Length and distance, and the flag. */
    method WriteMatch(matchLen: nat, matchDist: nat)
      requires flagPos < codePos && codePos + 3 <= buf.Length && ValidToken(Match(matchLen, matchDist))
      modifies buf
      ensures var s, t := old(buf[..]), Match(matchLen, matchDist);
        buf[..] == s[..flagPos] + [NextFlag(s[flagPos], t)] + s[flagPos + 1..codePos] + Payload(t) + s[codePos + 3..]
    {
      ghost var s := buf[..];
      var d := matchDist - 1;
      buf[codePos] := matchLen - MIN_MATCH;
      buf[codePos + 1] := d % 256;
      buf[codePos + 2] := d / 256;
      buf[flagPos] := buf[flagPos] / 2 + 128;
      assert buf[..] == s[codePos := matchLen - MIN_MATCH][codePos + 1 := d % 256][codePos + 2 := d / 256][flagPos := s[flagPos] / 2 + 128];
      Spliced(s, flagPos, codePos, matchLen - MIN_MATCH, d % 256, d / 256, s[flagPos] / 2 + 128);
      assert Payload(Match(matchLen, matchDist)) == [matchLen - MIN_MATCH, d % 256, d / 256];
    }

    /** The statistics at the end of both recording functions. */
    method Count(t: Token, ghost before: seq<Token>)
      requires ValidToken(t) && AllValid(before) && |before| < 0xFFFE
      requires litCount != distCount && Counted(litCount[..], distCount[..], before)
      modifies litCount, distCount
      ensures AllValid(before + [t]) && Counted(litCount[..], distCount[..], before + [t])
    {
      hide LitSymOf, DistSymOf;
      CountNext(litCount[..], distCount[..], before, t);
      ghost var l, d := litCount[..], distCount[..];
      if t.Match? {
        litCount[LitSymOf(t)] := litCount[LitSymOf(t)] + 1;
        distCount[DistSymOf(t)] := distCount[DistSymOf(t)] + 1;
        assert distCount[..] == d[DistSymOf(t) := d[DistSymOf(t)] + 1];
      } else {
        litCount[LitSymOf(t)] := litCount[LitSymOf(t)] + 1;
        assert distCount[..] == d;
      }
      assert litCount[..] == l[LitSymOf(t) := l[LitSymOf(t)] + 1];
    }

    /** The two statements before a block is compressed. Afterwards the bytes below `codePos` are
        the packed tokens. */
    method Finish()
      requires Valid()
      modifies this, buf
      ensures Sizes() && codePos <= buf.Length && AllValid(tokens) && buf[..codePos] == Pack(tokens)
      ensures tokens == old(tokens) && totalBytes == old(totalBytes) && Counted(litCount[..], distCount[..], tokens)
    {
      hide LitCount, DistCount;
      ghost var s := buf[..];
      ValidSizes();
      FinishGroup(s, codePos, flagPos, left, tokens);
      buf[flagPos] := Shr(buf[flagPos], left);
      assert buf[..] == s[flagPos := Shr(s[flagPos], left)];
      if left == 8 {
        codePos := codePos - 1;
        assert buf[..codePos] == s[..flagPos];
      }
    }
  }

  lemma Spliced(s: seq<u8>, f: nat, c: nat, x: u8, y: u8, z: u8, g: u8)
    requires f < c && c + 3 <= |s|
    ensures s[c := x][c + 1 := y][c + 2 := z][f := g] == s[..f] + [g] + s[f + 1..c] + [x, y, z] + s[c + 3..]
  {}

  /** The counters of the Huffman tables agree with the tokens recorded. */
  ghost predicate Counted(lit: seq<nat>, dist: seq<nat>, ts: seq<Token>)
    requires AllValid(ts)
  {
    && |lit| == LIT_SYMS && |dist| == DIST_SYMS
    && (forall s :: 0 <= s < LIT_SYMS ==> lit[s] == LitCount(ts, s))
    && (forall s :: 0 <= s < DIST_SYMS ==> dist[s] == DistCount(ts, s))
  }

  lemma CountNext(lit: seq<nat>, dist: seq<nat>, ts: seq<Token>, t: Token)
    requires AllValid(ts) && ValidToken(t) && Counted(lit, dist, ts)
    ensures AllValid(ts + [t])
    ensures t.Match? ==> dist[DistSymOf(t)] <= |ts|
    ensures lit[LitSymOf(t)] <= |ts|
    ensures Counted(lit[LitSymOf(t) := lit[LitSymOf(t)] + 1],
                    if t.Match? then dist[DistSymOf(t) := dist[DistSymOf(t)] + 1] else dist, ts + [t])
  {
    hide LitSymOf, DistSymOf;
    assert (ts + [t])[..|ts|] == ts;
    CountsBound(ts, LitSymOf(t));
    if t.Match? { CountsBound(ts, DistSymOf(t)); }
  }

  /** A token takes at least one byte, so that the counters fit 16 bits. */
  lemma TokensFit(s: seq<u8>, codePos: nat, flagPos: nat, left: nat, ts: seq<Token>)
    requires Recorded(s, codePos, flagPos, left, ts)
    ensures |ts| < codePos
  {
    var n := |ts| - (8 - left);
    PackSize(ts[..n]);
    PayloadsSize(ts[n..]);
  }

  lemma NothingRecorded(s: seq<u8>)
    requires |s| >= 1
    ensures Recorded(s, 1, 0, 8, []) && TotalSize([]) == 0
  {
    EmptyGroup(s[0]);
    PackEmpty();
  }

  lemma RecordedBounds(s: seq<u8>, codePos: nat, flagPos: nat, left: nat, ts: seq<Token>)
    requires Recorded(s, codePos, flagPos, left, ts)
    ensures flagPos < codePos <= |s| && 1 <= left <= 8 && AllValid(ts)
  {}

  function TotalSize(ts: seq<Token>): nat
  {
    if ts == [] then 0 else TotalSize(ts[..|ts| - 1]) + Size(ts[|ts| - 1])
  }

  lemma TotalSizeAppend(ts: seq<Token>, t: Token)
    ensures TotalSize(ts + [t]) == TotalSize(ts) + Size(t)
  {
    assert (ts + [t])[..|ts|] == ts;
  }

  lemma {:induction false} ExpandSize(h: seq<u8>, ts: seq<Token>)
    requires Expandable(h, ts)
    ensures |Expand(h, ts)| == |h| + TotalSize(ts)
    decreases |ts|
  {
    if ts != [] {
      var init, t := ts[..|ts| - 1], ts[|ts| - 1];
      assert ts == init + [t];
      ExpandPrefix(h, init, [t]);
      ExpandAppend(h, init, [t]);
      ExpandSize(h, init);
      assert [t][1..] == [];
    }
  }

  lemma {:induction false} ExpandPrefix(h: seq<u8>, a: seq<Token>, b: seq<Token>)
    requires Expandable(h, a + b)
    ensures Expandable(h, a)
    decreases |a|
  {
    hide Apply, CopyMatch;
    if a != [] {
      assert (a + b)[1..] == a[1..] + b;
      ExpandPrefix(Apply(h, a[0]), a[1..], b);
    }
  }
}
