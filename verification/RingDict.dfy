/** The compressor's ring dictionary and match finder (`tdefl_find_match`, the variant without
    unaligned loads): the last 32 KiB of the input, with the first 257 bytes repeated behind the
    ring so that matches can be compared across its end. */
module RingDict {
  import opened Bits
  import opened Tokens
  import opened HashChain

  const MIRROR := 257
  const RING_SIZE := 33025 // DICT_SIZE + MIRROR

  /** The ring holds the input from position `lo` on. */
  ghost predicate Ring(dict: seq<u8>, s: seq<u8>, lo: int)
  {
    && |dict| == RING_SIZE && 0 <= lo <= |s| <= lo + DICT_SIZE
    && forall p: nat :: lo <= p < |s| ==> Stored(dict, s, p)
  }

  ghost predicate Stored(dict: seq<u8>, s: seq<u8>, p: nat)
    requires |dict| == RING_SIZE && p < |s|
  {
    dict[p % DICT_SIZE] == s[p] && (p % DICT_SIZE < MIRROR ==> dict[DICT_SIZE + p % DICT_SIZE] == s[p])
  }

  /** The dictionary after one more byte. */
  function Write(dict: seq<u8>, at: nat, c: u8): (d: seq<u8>)
    requires |dict| == RING_SIZE && at < DICT_SIZE
    ensures |d| == RING_SIZE
  {
    if at < MIRROR then dict[at := c][DICT_SIZE + at := c] else dict[at := c]
  }

  /** A byte enters the ring; the oldest may leave it. */
  lemma WriteKeepsRing(dict: seq<u8>, s: seq<u8>, lo: int, c: u8)
    requires Ring(dict, s, lo)
    ensures Ring(Write(dict, |s| % DICT_SIZE, c), s + [c], if |s| < lo + DICT_SIZE then lo else lo + 1)
  {
    var at := |s| % DICT_SIZE;
    var dict', s', lo' := Write(dict, at, c), s + [c], if |s| < lo + DICT_SIZE then lo else lo + 1;
    forall p: nat | lo' <= p < |s'| ensures Stored(dict', s', p) {
      if p < |s| {
        assert Stored(dict, s, p);
        SlotsApart(p, |s|);
      }
    }
  }

  /** A smaller window. */
  lemma Narrow(dict: seq<u8>, s: seq<u8>, lo: int, lo': int)
    requires Ring(dict, s, lo) && lo <= lo' <= |s|
    ensures Ring(dict, s, lo')
  {}

  /** Reading up to 257 bytes on from a position needs no wrap, thanks to the mirror. */
  lemma ReadAhead(dict: seq<u8>, s: seq<u8>, lo: int, p: nat, k: nat)
    requires Ring(dict, s, lo) && lo <= p && p + k < |s| && k <= MIRROR
    ensures p % DICT_SIZE + k < |dict| && dict[p % DICT_SIZE + k] == s[p + k]
  {
    assert Stored(dict, s, p + k);
    var r := p % DICT_SIZE;
    if r + k < DICT_SIZE {
      RingIndex(p, k, r + k, p / DICT_SIZE);
    } else {
      RingIndex(p, k, r + k - DICT_SIZE, p / DICT_SIZE + 1);
    }
  }

  lemma RingIndex(p: nat, k: nat, r: nat, q: nat)
    requires p + k == q * DICT_SIZE + r && r < DICT_SIZE
    ensures (p + k) % DICT_SIZE == r
  {}

  // ---------------------------------------------------------------- matches

  /** The `len` bytes at `pos` repeat the bytes `dist` before them. */
  ghost predicate IsMatch(s: seq<u8>, pos: nat, dist: nat, len: nat)
  {
    && 1 <= dist <= pos && pos + len <= |s|
    && forall p: nat :: pos <= p < pos + len ==> Repeats(s, p, dist)
  }

  ghost predicate Repeats(s: seq<u8>, p: nat, dist: nat)
    requires dist <= p < |s|
  {
    s[p] == s[p - dist]
  }

  /** A match token goes on with the input. */
  lemma MatchIsInput(s: seq<u8>, pos: nat, dist: nat, len: nat)
    requires IsMatch(s, pos, dist, len)
    ensures Reachable(s[..pos], Match(len, dist)) && Apply(s[..pos], Match(len, dist)) == s[..pos + len]
  {
    var r := s[..pos + len];
    forall i | pos <= i < |r| ensures r[i] == r[i - dist] {
      assert Repeats(s, i, dist);
    }
    CopyUnique(s[..pos], dist, len, r);
  }

  /** A match that goes as far as it can. */
  ghost predicate IsLongest(s: seq<u8>, pos: nat, dist: nat, len: nat, maxLen: nat)
  {
    && IsMatch(s, pos, dist, len) && pos + maxLen <= |s|
    && len <= maxLen && (len < maxLen ==> !Repeats(s, pos + len, dist))
  }

  lemma MatchGrows(s: seq<u8>, more: seq<u8>, pos: nat, dist: nat, len: nat)
    requires IsMatch(s, pos, dist, len)
    ensures IsMatch(s + more, pos, dist, len)
  {
    forall p: nat | pos <= p < pos + len ensures Repeats(s + more, p, dist) {
      assert Repeats(s, p, dist);
    }
  }

  /** What the finder may return: what it was given, or a longer true match at its full length. */
  ghost predicate Found(s: seq<u8>, pos: nat, maxDist: nat, maxLen: nat, dist0: nat, len0: nat, dist: nat, len: nat)
  {
    (dist == dist0 && len == len0) || (len0 < len && 1 <= dist <= maxDist && IsLongest(s, pos, dist, len, maxLen))
  }

  // ---------------------------------------------------------------- the match finder

  datatype Outcome = Stop | Hit | Miss

  /** The distance a chain entry stands for, as the 16-bit difference of positions, leads to the
      entry's own slot of the ring. */
  lemma ProbeSlot(lookaheadPos: nat, next: u16, maxDist: nat)
    requires maxDist <= lookaheadPos && (lookaheadPos - next) % 0x1_0000 <= maxDist
    ensures next % DICT_SIZE == (lookaheadPos - (lookaheadPos - next) % 0x1_0000) % DICT_SIZE
  {
    var x := lookaheadPos - next;
    var q, dist := x / 0x1_0000, x % 0x1_0000;
    assert lookaheadPos - dist == next + (2 * q) * DICT_SIZE;
    assert next == (next / DICT_SIZE) * DICT_SIZE + next % DICT_SIZE;
    RingIndex(lookaheadPos - dist, 0, next % DICT_SIZE, 2 * q + next / DICT_SIZE) by {
      assert 2 * q + next / DICT_SIZE >= 0;
    }
  }

  // ---------------------------------------------------------------- what a search has seen

  /** No match of more than `len` bytes begins at `p`. */
  ghost predicate NoLonger(s: seq<u8>, at: nat, p: nat, len: nat)
  {
    p < at ==> !IsMatch(s, at, at - p, len + 1)
  }

  /** None does from `f` on. */
  ghost predicate Seen(s: seq<u8>, at: nat, maxDist: nat, f: nat, len: nat)
  {
    f <= at < |s| - 2 && forall p: nat :: f <= p < at <= p + maxDist ==> NoLonger(s, at, p, len)
  }

  /** The position before `f` is a candidate that is stored like the end of a chain. */
  ghost predicate Blind(s: seq<u8>, at: nat, f: nat)
  {
    0 < f <= at < |s| - 2 && (f - 1) % 0x1_0000 == 0 && Hash3(s, f - 1) == Hash3(s, at)
  }

  /** The search has got to `f` in at least `steps` steps, or has seen the whole window. */
  ghost predicate Walk(s: seq<u8>, at: nat, maxDist: nat, len: nat, f: nat, slot: nat, steps: nat)
  {
    && Seen(s, at, maxDist, f, len)
    && (f + maxDist <= at || (slot == f % DICT_SIZE && Hash3(s, f) == Hash3(s, at) && Same(s, Hash3(s, at), f, at) >= steps))
  }

  /** Its next candidate is `dist` back. */
  ghost predicate Next(s: seq<u8>, at: nat, maxDist: nat, len: nat, f: nat, dist: nat, steps: nat)
  {
    && Seen(s, at, maxDist, f, len)
    && (f + maxDist <= at ||
          (0 < dist <= at && f == at - dist + 1 && Hash3(s, at - dist) == Hash3(s, at) && Same(s, Hash3(s, at), at - dist, at) >= steps))
  }

  /** Why a search ends: it has seen the window, cannot see further, or has made all its probes. */
  ghost predicate Done(s: seq<u8>, at: nat, maxDist: nat, probes: nat, len: nat, f: nat)
  {
    && Seen(s, at, maxDist, f, len)
    && (f + maxDist <= at || Blind(s, at, f) || Same(s, Hash3(s, at), f, at) + 1 >= probes)
  }

  /** No match is longer, as far as the search went. */
  ghost predicate Best(s: seq<u8>, at: nat, maxDist: nat, maxLen: nat, probes: nat, len: nat)
  {
    len >= maxLen || exists f: nat :: Done(s, at, maxDist, probes, len, f)
  }

  lemma SeenLonger(s: seq<u8>, at: nat, maxDist: nat, f: nat, len: nat, len': nat)
    requires Seen(s, at, maxDist, f, len) && len <= len'
    ensures Seen(s, at, maxDist, f, len')
  {
    forall p: nat | f <= p < at <= p + maxDist ensures NoLonger(s, at, p, len') {
      assert NoLonger(s, at, p, len);
    }
  }

  /** A match of three bytes has the same hash. */
  lemma SameHash(s: seq<u8>, at: nat, dist: nat, len: nat)
    requires IsMatch(s, at, dist, len) && len >= 3
    ensures Hash3(s, at - dist) == Hash3(s, at)
  {
    assert Repeats(s, at, dist) && Repeats(s, at + 1, dist) && Repeats(s, at + 2, dist);
  }

  lemma OtherHash(s: seq<u8>, at: nat, p: nat, len: nat)
    requires p < at < |s| - 2 && len >= 2 && Hash3(s, p) != Hash3(s, at)
    ensures NoLonger(s, at, p, len)
  {
    hide IsMatch, Hash3;
    if IsMatch(s, at, at - p, len + 1) { SameHash(s, at, at - p, len + 1); }
  }

  /** Between two positions with the hash there is no match. */
  lemma SeenBack(s: seq<u8>, at: nat, maxDist: nat, f: nat, f': nat, len: nat)
    requires Seen(s, at, maxDist, f, len) && f' <= f && len >= 2
    requires forall p: nat :: f' <= p < f && at <= p + maxDist ==> Hash3(s, p) != Hash3(s, at)
    ensures Seen(s, at, maxDist, f', len)
  {
    hide Hash3, IsMatch;
    forall p: nat | f' <= p < at <= p + maxDist ensures NoLonger(s, at, p, len) {
      if p < f { OtherHash(s, at, p, len); } else { assert NoLonger(s, at, p, len); }
    }
  }

  /** What an entry of the chain says. */
  lemma Step(links: seq<u16>, s: seq<u8>, since: nat, at: nat, maxDist: nat, len: nat, f: nat, slot: nat, steps: nat) returns (f': nat)
    requires |s| >= 2 && Links(links, s, since, |s| - 2) && since + maxDist <= at && |s| - 2 <= at - maxDist + DICT_SIZE && slot < DICT_SIZE
    requires Walk(s, at, maxDist, len, f, slot, steps) && len >= 2
    ensures var n := links[slot];
      if n == 0 || (at - n) % 0x1_0000 > maxDist then Seen(s, at, maxDist, f', len) && (f' + maxDist <= at || Blind(s, at, f'))
      else Next(s, at, maxDist, len, f', (at - n) % 0x1_0000, steps + 1)
  {
    hide Hash3, NoLonger;
    if f + maxDist <= at {
      return f;
    }
    var h := Hash3(s, at);
    assert LinkedAt(links, s, since, f);
    var q := LastWith(s, since, f, h);
    if q < at - maxDist {
      f' := at - maxDist;
      SeenBack(s, at, maxDist, f, f', len);
    } else {
      f' := q + 1;
      SeenBack(s, at, maxDist, f, f', len);
      SameMore(s, h, q, f, at);
      NearMark(at, q);
    }
  }

  /** A position in the window is known by its 16 bits. */
  lemma NearMark(at: nat, q: nat)
    requires q < at <= q + DICT_SIZE
    ensures (at - q % 0x1_0000) % 0x1_0000 == at - q
  {}

  /** A candidate has been looked at: it is not longer either. */
  lemma Looked(s: seq<u8>, at: nat, maxDist: nat, len: nat, f: nat, dist: nat, steps: nat) returns (f': nat)
    requires Next(s, at, maxDist, len, f, dist, steps) && dist <= maxDist <= at && (f + maxDist <= at || NoLonger(s, at, at - dist, len))
    ensures Walk(s, at, maxDist, len, f', (at - dist) % DICT_SIZE, steps)
  {
    hide Hash3, NoLonger;
    f' := if f + maxDist <= at then f else at - dist;
  }

  /** Two bytes that a longer match would have to agree in. */
  lemma Differs(dict: seq<u8>, s: seq<u8>, lo: int, at: nat, dist: nat, len: nat)
    requires Ring(dict, s, lo) && 1 <= dist <= at && lo <= at - dist && 1 <= len <= MIRROR && at + len < |s|
    requires var slot := (at - dist) % DICT_SIZE; slot + len < |dict| && (dict[slot + len] != s[at + len] || dict[slot + len - 1] != s[at + len - 1])
    ensures NoLonger(s, at, at - dist, len)
  {
    hide Ring;
    ReadAhead(dict, s, lo, at - dist, len);
    ReadAhead(dict, s, lo, at - dist, len - 1);
    assert !Repeats(s, at + len, dist) || !Repeats(s, at + len - 1, dist);
  }

  /** The longest agreement with a candidate. */
  lemma Compared(s: seq<u8>, at: nat, dist: nat, probeLen: nat, maxLen: nat, len: nat)
    requires 1 <= dist <= at && IsLongest(s, at, dist, probeLen, maxLen) && probeLen <= len < maxLen
    ensures NoLonger(s, at, at - dist, len)
  {
    assert !Repeats(s, at + probeLen, dist);
  }

  // ---------------------------------------------------------------- the search

  /** `TDEFL_PROBE`: the next entry of the hash chain. */
  method Probe(dict: array<u8>, next: array<u16>, lookaheadPos: nat, maxDist: nat, matchLen: nat, c0: u8, c1: u8, probePos: nat)
    returns (o: Outcome, probePos': nat, dist: nat)
    requires dict.Length == RING_SIZE && next.Length == DICT_SIZE && probePos < DICT_SIZE && 1 <= matchLen <= MIRROR
    requires maxDist <= lookaheadPos
    ensures probePos' < DICT_SIZE
    ensures o == Stop <==> next[probePos] == 0 || (lookaheadPos - next[probePos]) % 0x1_0000 > maxDist
    ensures o != Stop ==> dist == (lookaheadPos - next[probePos]) % 0x1_0000 && probePos' == (lookaheadPos - dist) % DICT_SIZE
    ensures o != Stop ==> (o == Hit <==> dict[probePos' + matchLen] == c0 && dict[probePos' + matchLen - 1] == c1)
  {
    probePos' := probePos;
    dist := 0;
    var nextProbePos := next[probePos];
    if nextProbePos == 0 {
      return Stop, probePos', dist;
    }
    dist := (lookaheadPos - nextProbePos) % 0x1_0000;
    if dist > maxDist {
      return Stop, probePos', dist;
    }
    ProbeSlot(lookaheadPos, nextProbePos, maxDist);
    probePos' := nextProbePos % DICT_SIZE;
    o := if dict[probePos' + matchLen] == c0 && dict[probePos' + matchLen - 1] == c1 then Hit else Miss;
  }

  /** What all probes of a search have in common. */
  ghost predicate Searching(dict: seq<u8>, links: seq<u16>, s: seq<u8>, since: nat, at: nat, maxDist: nat, maxLen: nat, len: nat, c0: u8, c1: u8)
  {
    && |s| >= 2 && Links(links, s, since, |s| - 2) && since + maxDist <= at && |s| - 2 <= at - maxDist + DICT_SIZE && Ring(dict, s, at - maxDist)
    && 2 <= len < maxLen <= MAX_MATCH && at + maxLen <= |s| && c0 == s[at + len] && c1 == s[at + len - 1]
  }

  /** Where the search is after a probe with outcome `o`. */
  ghost predicate After(o: Outcome, s: seq<u8>, at: nat, maxDist: nat, len: nat, f: nat, slot: nat, dist: nat, steps: nat)
  {
    match o
    case Stop => Seen(s, at, maxDist, f, len) && (f + maxDist <= at || Blind(s, at, f))
    case Hit => dist <= maxDist && slot == (at - dist) % DICT_SIZE && Next(s, at, maxDist, len, f, dist, steps)
    case Miss => Walk(s, at, maxDist, len, f, slot, steps)
  }

  /** One probe of the search. */
  method ProbeOnce(dict: array<u8>, next: array<u16>, lookaheadPos: nat, maxDist: nat, matchLen: nat, c0: u8, c1: u8, probePos: nat,
                   ghost s: seq<u8>, ghost since: nat, ghost maxLen: nat, ghost f: nat, ghost steps: nat)
    returns (o: Outcome, probePos': nat, dist: nat, ghost f': nat)
    requires Searching(dict[..], next[..], s, since, lookaheadPos, maxDist, maxLen, matchLen, c0, c1)
    requires probePos < DICT_SIZE && Walk(s, lookaheadPos, maxDist, matchLen, f, probePos, steps)
    ensures probePos' < DICT_SIZE && After(o, s, lookaheadPos, maxDist, matchLen, f', probePos', dist, steps + 1)
  {
    hide Hash3, Links, Ring, Walk, Next, Seen, Blind, NoLonger;
    RingBasic(dict[..], s, lookaheadPos - maxDist);
    LinksBasic(next[..], s, since, |s| - 2);
    f' := Step(next[..], s, since, lookaheadPos, maxDist, matchLen, f, probePos, steps);
    o, probePos', dist := Probe(dict, next, lookaheadPos, maxDist, matchLen, c0, c1, probePos);
    if o == Miss {
      if f' + maxDist > lookaheadPos {
        NextFar(s, lookaheadPos, maxDist, matchLen, f', dist, steps + 1);
        Differs(dict[..], s, lookaheadPos - maxDist, lookaheadPos, dist, matchLen);
      }
      f' := Looked(s, lookaheadPos, maxDist, matchLen, f', dist, steps + 1);
    }
  }

  lemma NextFar(s: seq<u8>, at: nat, maxDist: nat, len: nat, f: nat, dist: nat, steps: nat)
    requires Next(s, at, maxDist, len, f, dist, steps) && f + maxDist > at
    ensures 0 < dist <= at
  {}

  lemma LinksBasic(links: seq<u16>, s: seq<u8>, since: nat, to: int)
    requires to >= 0 && Links(links, s, since, to)
    ensures |links| == DICT_SIZE
  {}

  /** The inner loop: three probes a round, until one looks promising. */
  method NextCandidate(dict: array<u8>, next: array<u16>, lookaheadPos: nat, maxDist: nat, matchLen: nat, c0: u8, c1: u8, probePos: nat, probes: nat,
                       ghost s: seq<u8>, ghost since: nat, ghost maxLen: nat, ghost f: nat, ghost all: nat)
    returns (hit: bool, probePos': nat, dist: nat, left: nat, ghost f': nat)
    requires Searching(dict[..], next[..], s, since, lookaheadPos, maxDist, maxLen, matchLen, c0, c1)
    requires probePos < DICT_SIZE && 0 < probes <= all && Walk(s, lookaheadPos, maxDist, matchLen, f, probePos, all - probes)
    ensures probePos' < DICT_SIZE && left < probes
    ensures if hit then left > 0 && After(Hit, s, lookaheadPos, maxDist, matchLen, f', probePos', dist, all - left)
            else Done(s, lookaheadPos, maxDist, all, matchLen, f')
  {
    hide Searching, After;
    var o := Miss;
    probePos', dist, left, f' := probePos, 0, probes, f;
    Missed(s, lookaheadPos, maxDist, matchLen, f', probePos', dist, all - left);
    while o == Miss
      invariant probePos' < DICT_SIZE && left <= probes && (o != Miss ==> 0 < left < probes) && (o == Miss ==> left > 0)
      invariant After(o, s, lookaheadPos, maxDist, matchLen, f', probePos', dist, all - left)
      decreases left, if o == Miss then 1 else 0
    {
      Missed(s, lookaheadPos, maxDist, matchLen, f', probePos', dist, all - left);
      left := left - 1;
      if left == 0 {
        SearchEnds(Miss, s, lookaheadPos, maxDist, matchLen, f', probePos', dist, all - 1, all);
        return false, probePos', dist, left, f';
      }
      o, probePos', dist, f' := ProbeOnce(dict, next, lookaheadPos, maxDist, matchLen, c0, c1, probePos', s, since, maxLen, f', all - left - 1);
      if o == Miss {
        Missed(s, lookaheadPos, maxDist, matchLen, f', probePos', dist, all - left);
        o, probePos', dist, f' := ProbeOnce(dict, next, lookaheadPos, maxDist, matchLen, c0, c1, probePos', s, since, maxLen, f', all - left);
        Weaken(o, s, lookaheadPos, maxDist, matchLen, f', probePos', dist, all - left + 1, all - left);
      }
      if o == Miss {
        Missed(s, lookaheadPos, maxDist, matchLen, f', probePos', dist, all - left);
        o, probePos', dist, f' := ProbeOnce(dict, next, lookaheadPos, maxDist, matchLen, c0, c1, probePos', s, since, maxLen, f', all - left);
        Weaken(o, s, lookaheadPos, maxDist, matchLen, f', probePos', dist, all - left + 1, all - left);
      }
    }
    hit := o == Hit;
    if !hit { SearchEnds(o, s, lookaheadPos, maxDist, matchLen, f', probePos', dist, all - left, all); }
  }

  lemma Missed(s: seq<u8>, at: nat, maxDist: nat, len: nat, f: nat, slot: nat, dist: nat, steps: nat)
    ensures After(Miss, s, at, maxDist, len, f, slot, dist, steps) <==> Walk(s, at, maxDist, len, f, slot, steps)
  {
    hide Walk;
  }

  lemma Weaken(o: Outcome, s: seq<u8>, at: nat, maxDist: nat, len: nat, f: nat, slot: nat, dist: nat, steps: nat, fewer: nat)
    requires After(o, s, at, maxDist, len, f, slot, dist, steps) && fewer <= steps
    ensures After(o, s, at, maxDist, len, f, slot, dist, fewer)
  {}

  lemma SearchEnds(o: Outcome, s: seq<u8>, at: nat, maxDist: nat, len: nat, f: nat, slot: nat, dist: nat, steps: nat, all: nat)
    requires After(o, s, at, maxDist, len, f, slot, dist, steps) && (o == Stop || (o == Miss && steps + 1 >= all))
    ensures Done(s, at, maxDist, all, len, f)
  {}

  /** How far the bytes at a candidate agree with those at the current position. */
  method Compare(dict: array<u8>, pos: nat, probePos: nat, maxLen: nat, ghost s: seq<u8>, ghost lo: int, ghost at: nat, ghost dist: nat)
    returns (len: nat)
    requires Ring(dict[..], s, lo) && 1 <= dist <= at && lo <= at - dist && at + maxLen <= |s| && maxLen <= MAX_MATCH
    requires pos == at % DICT_SIZE && probePos == (at - dist) % DICT_SIZE
    ensures IsLongest(s, at, dist, len, maxLen)
  {
    hide Ring;
    len := 0;
    RingBasic(dict[..], s, lo);
    while len < maxLen
      invariant len <= maxLen && IsMatch(s, at, dist, len)
    {
      ReadAhead(dict[..], s, lo, at, len);
      ReadAhead(dict[..], s, lo, at - dist, len);
      if dict[pos + len] != dict[probePos + len] {
        assert !Repeats(s, at + len, dist);
        break;
      }
      assert Repeats(s, at + len, dist);
      len := len + 1;
    }
  }

  lemma RingBasic(dict: seq<u8>, s: seq<u8>, lo: int)
    requires Ring(dict, s, lo)
    ensures |dict| == RING_SIZE && 0 <= lo <= |s| <= lo + DICT_SIZE
  {}

  /** The search: what it returns is a true match at its full length, and no match is longer, as far as the
      probes allow it to look. */
  method FindMatch(dict: array<u8>, next: array<u16>, lookaheadPos: nat, maxDist: nat, maxLen: nat, probes: nat, dist0: nat, len0: nat,
                   ghost s: seq<u8>, ghost since: nat)
    returns (matchDist: nat, matchLen: nat)
    requires since + maxDist <= lookaheadPos && Ring(dict[..], s, lookaheadPos - maxDist)
    requires lookaheadPos + maxLen <= |s| <= lookaheadPos - maxDist + DICT_SIZE + 2 && maxLen <= MAX_MATCH && 2 <= len0 <= MIRROR && probes > 0
    requires if since + 2 <= |s| then Links(next[..], s, since, |s| - 2) else next.Length == DICT_SIZE
    ensures Found(s, lookaheadPos, maxDist, maxLen, dist0, len0, matchDist, matchLen)
    ensures Best(s, lookaheadPos, maxDist, maxLen, probes, matchLen)
  {
    hide Ring, IsMatch, Links, Done, Next, Walk, After, Hash3, NoLonger;
    ghost var lo, f := lookaheadPos - maxDist, lookaheadPos;
    RingBasic(dict[..], s, lo);
    matchDist, matchLen := dist0, len0;
    var pos: nat, probePos: nat, left := lookaheadPos % DICT_SIZE, lookaheadPos % DICT_SIZE, probes;
    var c0, c1 := dict[pos + matchLen], dict[pos + matchLen - 1];
    if maxLen <= matchLen {
      return;
    }
    ReadTwo(dict[..], s, lo, lookaheadPos, matchLen);
    WalkStarts(s, lookaheadPos, maxDist, matchLen);
    while true
      invariant Found(s, lookaheadPos, maxDist, maxLen, dist0, len0, matchDist, matchLen)
      invariant 2 <= matchLen < maxLen && probePos < DICT_SIZE && 0 < left <= probes
      invariant Searching(dict[..], next[..], s, since, lookaheadPos, maxDist, maxLen, matchLen, c0, c1)
      invariant Walk(s, lookaheadPos, maxDist, matchLen, f, probePos, probes - left)
      decreases left
    {
      var hit, dist;
      hit, probePos, dist, left, f := NextCandidate(dict, next, lookaheadPos, maxDist, matchLen, c0, c1, probePos, left, s, since, maxLen, f, probes);
      if !hit || dist == 0 {
        if hit { NowhereElse(s, lookaheadPos, maxDist, matchLen, f, probePos, probes - left, probes); }
        return;
      }
      HitIs(s, lookaheadPos, maxDist, matchLen, f, probePos, dist, probes - left);
      var probeLen := Compare(dict, pos, probePos, maxLen, s, lo, lookaheadPos, dist);
      ghost var before := matchLen;
      if probeLen > matchLen {
        matchDist, matchLen := dist, probeLen;
        if matchLen == maxLen {
          return;
        }
        c0, c1 := dict[pos + matchLen], dict[pos + matchLen - 1];
        ReadTwo(dict[..], s, lo, lookaheadPos, matchLen);
        NextLonger(s, lookaheadPos, maxDist, before, matchLen, f, dist, probes - left);
      }
      Compared(s, lookaheadPos, dist, probeLen, maxLen, matchLen);
      f := Looked(s, lookaheadPos, maxDist, matchLen, f, dist, probes - left);
    }
  }

  lemma ReadTwo(dict: seq<u8>, s: seq<u8>, lo: int, at: nat, len: nat)
    requires Ring(dict, s, lo) && lo <= at && 1 <= len <= MIRROR && at + len < |s|
    ensures at % DICT_SIZE + len < |dict| && dict[at % DICT_SIZE + len] == s[at + len] && dict[at % DICT_SIZE + len - 1] == s[at + len - 1]
  {
    hide Ring;
    ReadAhead(dict, s, lo, at, len);
    ReadAhead(dict, s, lo, at, len - 1);
  }

  lemma WalkStarts(s: seq<u8>, at: nat, maxDist: nat, len: nat)
    requires at < |s| - 2
    ensures Walk(s, at, maxDist, len, at, at % DICT_SIZE, 0)
  {}

  lemma NowhereElse(s: seq<u8>, at: nat, maxDist: nat, len: nat, f: nat, slot: nat, steps: nat, all: nat)
    requires After(Hit, s, at, maxDist, len, f, slot, 0, steps)
    ensures Done(s, at, maxDist, all, len, f)
  {}

  lemma HitIs(s: seq<u8>, at: nat, maxDist: nat, len: nat, f: nat, slot: nat, dist: nat, steps: nat)
    requires After(Hit, s, at, maxDist, len, f, slot, dist, steps)
    ensures dist <= maxDist && slot == (at - dist) % DICT_SIZE && Next(s, at, maxDist, len, f, dist, steps)
  {}

  lemma NextLonger(s: seq<u8>, at: nat, maxDist: nat, len: nat, len': nat, f: nat, dist: nat, steps: nat)
    requires Next(s, at, maxDist, len, f, dist, steps) && len <= len'
    ensures Next(s, at, maxDist, len', f, dist, steps)
  {
    SeenLonger(s, at, maxDist, f, len, len');
  }

  /** With probes enough for all candidates in the window, and none of them at a multiple of 65536, a search
      finds a longest match. */
  lemma SearchIsComplete(s: seq<u8>, at: nat, maxDist: nat, maxLen: nat, probes: nat, len: nat)
    requires at + 2 < |s| && maxDist <= at && len < maxLen && Best(s, at, maxDist, maxLen, probes, len)
    requires Same(s, Hash3(s, at), at - maxDist, at) + 1 < probes
    requires forall p: nat :: p < at <= p + maxDist && Hash3(s, p) == Hash3(s, at) ==> p % 0x1_0000 != 0
    ensures forall dist, n :: 1 <= dist <= maxDist && n > len ==> !IsMatch(s, at, dist, n)
  {
    hide IsMatch, Hash3;
    var f: nat :| Done(s, at, maxDist, probes, len, f);
    if f + maxDist > at {
      SameFewer(s, Hash3(s, at), at - maxDist, f, at);
      assert false;
    }
    forall dist, n | 1 <= dist <= maxDist && n > len ensures !IsMatch(s, at, dist, n) {
      assert NoLonger(s, at, at - dist, len);
      if IsMatch(s, at, dist, n) { FrontMatches(s, at, dist, n, len + 1); }
    }
  }

  lemma FrontMatches(s: seq<u8>, at: nat, dist: nat, len: nat, len': nat)
    requires IsMatch(s, at, dist, len) && len' <= len
    ensures IsMatch(s, at, dist, len')
  {}

  /** The run-length variant: how often the last byte is repeated. */
  method RepeatLength(dict: array<u8>, curPos: nat, lookaheadSize: nat, ghost s: seq<u8>, ghost lo: int, ghost at: nat) returns (len: nat)
    requires Ring(dict[..], s, lo) && lo < at && at + lookaheadSize <= |s| && lookaheadSize <= MAX_MATCH && curPos == at % DICT_SIZE
    ensures IsLongest(s, at, 1, len, lookaheadSize)
  {
    hide Ring;
    RingBasic(dict[..], s, lo);
    ReadAhead(dict[..], s, lo, at - 1, 0);
    ModPred(at);
    var c := dict[(curPos - 1) % DICT_SIZE];
    len := 0;
    while len < lookaheadSize
      invariant len <= lookaheadSize && IsMatch(s, at, 1, len)
      invariant s[at + len - 1] == c
    {
      ReadAhead(dict[..], s, lo, at, len);
      if dict[curPos + len] != c {
        assert !Repeats(s, at + len, 1);
        break;
      }
      assert Repeats(s, at + len, 1);
      len := len + 1;
    }
  }

  lemma ModPred(at: nat)
    requires at > 0
    ensures (at % DICT_SIZE - 1) % DICT_SIZE == (at - 1) % DICT_SIZE
  {}
}
