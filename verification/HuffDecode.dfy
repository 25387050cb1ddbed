/** Decoding one Huffman symbol from the bit reader (`TINFL_HUFF_DECODE`, `TINFL_HUFF_BITBUF_FILL`):
    sixteen bits at a time far from the end of the input, and not one byte too many close to it. */
module HuffDecode {
  import opened Bits
  import opened Canonical
  import opened DecodeTable
  import opened BitReader

  /** The bits at hand are a beginning of `c`, or `c` and more. */
  ghost predicate Compatible(c: seq<bool>, bits: seq<bool>)
  {
    c <= bits || bits <= c
  }

  /** A full code can read anything: whatever the bits, some symbol is at hand or under way. */
  lemma FullReadable(sizes: seq<nat>, bits: seq<bool>) returns (s: nat)
    requires Full(sizes)
    ensures Used(sizes, s) && Compatible(CodeBits(sizes, s), bits)
  {
    hide CodeBits, Full, Used;
    var padded := bits + seq(MAX_LEN, _ => false);
    s := Decodable(sizes, padded);
    UsedLength(sizes, s);
    var c := CodeBits(sizes, s);
    if |c| <= |bits| {
      assert c == padded[..|c|] == bits[..|c|];
    } else {
      assert bits == padded[..|bits|] == c[..|bits|];
    }
  }

  lemma UsedLength(sizes: seq<nat>, s: nat)
    requires Used(sizes, s)
    ensures 1 <= |CodeBits(sizes, s)| == sizes[s] <= MAX_LEN
  {}

  // ---------------------------------------------------------------- walks that stop early

  /** The walk of the slow path: it does not look at bits from `limit` on. */
  function WalkUpTo(tree: seq<int>, node: int, w: nat, len: nat, limit: nat): (int, nat)
    requires Linked(tree) && IsNode(tree, node)
    decreases |tree| + node
  {
    var v := tree[-node - 1 + Bit(w, len)];
    if v < 0 && limit >= len + 2 then WalkUpTo(tree, v, w, len + 1, limit) else (v, len + 1)
  }

  /** It finds what the full walk finds, if that needs no more bits, and nothing otherwise. */
  lemma {:induction false} WalkUpToFinds(tree: seq<int>, node: int, w: nat, len: nat, limit: nat)
    requires Linked(tree) && IsNode(tree, node) && len < limit
    ensures Walk(tree, node, w, len).1 > len
    ensures Walk(tree, node, w, len).1 <= limit ==> WalkUpTo(tree, node, w, len, limit) == Walk(tree, node, w, len)
    ensures Walk(tree, node, w, len).1 > limit ==> WalkUpTo(tree, node, w, len, limit).0 < 0
    decreases |tree| + node
  {
    hide Bit;
    var v := tree[-node - 1 + Bit(w, len)];
    if v < 0 {
      if limit >= len + 2 {
        WalkUpToFinds(tree, v, w, len + 1, limit);
      } else {
        WalkUpToFinds(tree, v, w, len + 1, len + 2);
      }
    }
  }

  lemma {:induction false} WalkUpToSame(tree: seq<int>, node: int, w: nat, w': nat, len: nat, limit: nat)
    requires Linked(tree) && IsNode(tree, node) && len < limit && ToBits(w, limit) == ToBits(w', limit)
    ensures WalkUpTo(tree, node, w, len, limit) == WalkUpTo(tree, node, w', len, limit)
    decreases |tree| + node
  {
    hide Bit, ToBits;
    BitOfToBits(w, limit, len);
    BitOfToBits(w', limit, len);
    assert Bit(w, len) == Bit(w', len);
    var v := tree[-node - 1 + Bit(w, len)];
    if v < 0 && limit >= len + 2 {
      WalkUpToSame(tree, v, w, w', len + 1, limit);
    }
  }

  /** The slow path's test: a symbol is found in the `n` bits of the buffer. */
  ghost predicate Accepts(lookup: seq<int>, tree: seq<int>, w: nat, n: nat)
    requires WellFormed(lookup, tree)
  {
    var v := lookup[w % FAST_SIZE];
    if v >= 0 then v / 512 != 0 && n >= v / 512
    else n > FAST_BITS && WalkUpTo(tree, v, w, FAST_BITS, n).0 >= 0
  }

  /** The test succeeds exactly if the whole code of the symbol is in the buffer. */
  lemma AcceptsWhole(sizes: seq<nat>, lookup: seq<int>, tree: seq<int>, w: nat, n: nat, s: nat)
    requires Decodes(sizes, lookup, tree) && Used(sizes, s) && Compatible(CodeBits(sizes, s), ToBits(w, n))
    ensures Accepts(lookup, tree, w, n) <==> sizes[s] <= n
  {
    hide CodeBits, ToBits, Linked;
    if sizes[s] <= n {
      assert CodeBits(sizes, s) <= ToBits(w, n);
      assert Decode(lookup, tree, w) == (s, sizes[s]);
      var v := lookup[w % FAST_SIZE];
      if v < 0 {
        LongEnough(sizes, lookup, tree, w, s);
        WalkUpToFinds(tree, v, w, FAST_BITS, n);
      } else {
        UsedLength(sizes, s);
      }
    } else {
      AcceptsNoPart(sizes, lookup, tree, w, n, s);
    }
  }

  lemma LongEnough(sizes: seq<nat>, lookup: seq<int>, tree: seq<int>, w: nat, s: nat)
    requires WellFormed(lookup, tree) && s < |sizes| && Decode(lookup, tree, w) == (s, sizes[s]) && lookup[w % FAST_SIZE] < 0
    ensures FAST_BITS < sizes[s]
  {
    WalkUpToFinds(tree, lookup[w % FAST_SIZE], w, FAST_BITS, FAST_BITS + 1);
  }

  /** Nothing is found in a proper part of a code. */
  lemma AcceptsNoPart(sizes: seq<nat>, lookup: seq<int>, tree: seq<int>, w: nat, n: nat, s: nat)
    requires Decodes(sizes, lookup, tree) && Used(sizes, s) && n < sizes[s] && ToBits(w, n) <= CodeBits(sizes, s)
    ensures !Accepts(lookup, tree, w, n)
  {
    hide CodeBits, ToBits, FromBits, Linked, Decodes;
    var c := CodeBits(sizes, s);
    var w' := FromBits(c);
    ToFromBits(c);
    UsedLength(sizes, s);
    DecodesCode(sizes, lookup, tree, w', s);
    SameStart(w, w', n, sizes[s]);
    var v := lookup[w % FAST_SIZE];
    if v > 0 {
      PartEntry(sizes, lookup, tree, w, n, s);
    } else if v < 0 && n > FAST_BITS {
      SameLookup(w, w', n);
      WalkUpToSame(tree, v, w, w', FAST_BITS, n);
      WalkUpToFinds(tree, v, w', FAST_BITS, n);
    }
  }

  lemma DecodesCode(sizes: seq<nat>, lookup: seq<int>, tree: seq<int>, w: nat, s: nat)
    requires Decodes(sizes, lookup, tree) && Used(sizes, s) && ToBits(w, sizes[s]) == CodeBits(sizes, s)
    ensures WellFormed(lookup, tree) && Decode(lookup, tree, w) == (s, sizes[s])
  {
    hide CodeBits, ToBits;
    assert CodeBits(sizes, s) <= ToBits(w, sizes[s]);
  }

  lemma SameStart(w: nat, w': nat, n: nat, m: nat)
    requires n <= m && ToBits(w, n) <= ToBits(w', m)
    ensures ToBits(w, n) == ToBits(w', n)
  {
    ToBitsPrefix(w', m, n);
  }

  lemma SameLookup(w: nat, w': nat, n: nat)
    requires ToBits(w, n) == ToBits(w', n) && n >= FAST_BITS
    ensures w % FAST_SIZE == w' % FAST_SIZE
  {
    ToBitsPrefix(w, n, FAST_BITS);
    ToBitsPrefix(w', n, FAST_BITS);
    LookupIndex(w);
    LookupIndex(w');
  }

  /** An entry found with the buffer padded by zeros is longer than the buffer. */
  lemma PartEntry(sizes: seq<nat>, lookup: seq<int>, tree: seq<int>, w: nat, n: nat, s: nat)
    requires Decodes(sizes, lookup, tree) && Used(sizes, s) && n < sizes[s] && ToBits(w, n) <= CodeBits(sizes, s)
    requires |lookup| == FAST_SIZE && lookup[w % FAST_SIZE] > 0
    ensures n < lookup[w % FAST_SIZE] / 512
  {
    hide CodeBits, ToBits, FromBits, Decodes;
    var x := w % FAST_SIZE;
    EntryOf(sizes, lookup, tree, x);
    var t := lookup[x] % 512;
    if sizes[t] <= n {
      ToBitsPrefix(x, FAST_BITS, sizes[t]);
      ToBitsPrefix(w, n, sizes[t]);
      LowTen(w, sizes[t]);
      Within(CodeBits(sizes, t), ToBits(w, n), CodeBits(sizes, s));
      NoCodeInside(sizes, lookup, tree, t, s);
    }
  }

  lemma Within(d: seq<bool>, b: seq<bool>, c: seq<bool>)
    requires |d| <= |b| && d == b[..|d|] && b <= c
    ensures d <= c
  {}

  lemma EntryOf(sizes: seq<nat>, lookup: seq<int>, tree: seq<int>, x: nat)
    requires Decodes(sizes, lookup, tree) && x < |lookup| && lookup[x] > 0
    ensures var s := lookup[x] % 512;
      Used(sizes, s) && lookup[x] / 512 == sizes[s] <= FAST_BITS && CodeBits(sizes, s) <= ToBits(x, FAST_BITS)
  {
    hide CodeBits, ToBits;
    assert Entry(sizes, lookup[x], x);
  }

  lemma LowTen(w: nat, k: nat)
    requires k <= FAST_BITS
    ensures ToBits(w % FAST_SIZE, k) == ToBits(w, k)
  {
    assert Pow2(FAST_BITS) == FAST_SIZE;
    ToBitsMod(w, FAST_BITS);
    ToBitsPrefix(w % FAST_SIZE, FAST_BITS, k);
    ToBitsPrefix(w, FAST_BITS, k);
  }

  /** Tables that decode two codes tell them apart: neither is a prefix of the other. */
  lemma NoCodeInside(sizes: seq<nat>, lookup: seq<int>, tree: seq<int>, t: nat, s: nat)
    requires Decodes(sizes, lookup, tree) && Used(sizes, s) && Used(sizes, t) && CodeBits(sizes, t) <= CodeBits(sizes, s)
    ensures s == t
  {
    hide CodeBits, ToBits, FromBits;
    var w := FromBits(CodeBits(sizes, s));
    ToFromBits(CodeBits(sizes, s));
    UsedLength(sizes, s);
    assert CodeBits(sizes, t) <= ToBits(w, sizes[s]) && CodeBits(sizes, s) <= ToBits(w, sizes[s]);
  }

  // ---------------------------------------------------------------- decoding

  /** What the tables hold for the bits of `w`: the entry as stored, and the length of the code. */
  function RawDecode(lookup: seq<int>, tree: seq<int>, w: nat): (int, nat)
    requires WellFormed(lookup, tree)
  {
    var v := lookup[w % FAST_SIZE];
    if v >= 0 then (v, v / 512) else Walk(tree, v, w, FAST_BITS)
  }

  method LookUp(lookup: array<int>, tree: array<int>, w: nat) returns (raw: int, len: nat)
    requires WellFormed(lookup[..], tree[..])
    ensures (raw, len) == RawDecode(lookup[..], tree[..], w)
  {
    hide Bit;
    raw := lookup[w % FAST_SIZE];
    assert raw == lookup[..][w % FAST_SIZE];
    if raw >= 0 {
      len := raw / 512;
    } else {
      ghost var t, node := tree[..], raw;
      len := FAST_BITS;
      raw := tree[-raw - 1 + Bit(w, len)];
      assert raw == t[-node - 1 + Bit(w, len)];
      len := len + 1;
      while raw < 0
        invariant tree[..] == t && len > FAST_BITS && (raw < 0 ==> IsNode(t, raw))
        invariant (if raw >= 0 then (raw, len) else Walk(t, raw, w, len)) == Walk(t, node, w, FAST_BITS)
        decreases if raw < 0 then |t| + raw else -1
      {
        ghost var from := raw;
        raw := tree[-raw - 1 + Bit(w, len)];
        assert raw == t[-from - 1 + Bit(w, len)];
        len := len + 1;
      }
    }
  }

  /** The test of the slow path. */
  method TryBuffer(lookup: array<int>, tree: array<int>, w: nat, n: nat) returns (found: bool)
    requires WellFormed(lookup[..], tree[..])
    ensures found <==> Accepts(lookup[..], tree[..], w, n)
  {
    hide Bit;
    var temp := lookup[w % FAST_SIZE];
    assert temp == lookup[..][w % FAST_SIZE];
    if temp >= 0 {
      return temp / 512 != 0 && n >= temp / 512;
    }
    if n <= FAST_BITS {
      return false;
    }
    ghost var t, node := tree[..], temp;
    var len := FAST_BITS;
    temp := tree[-temp - 1 + Bit(w, len)];
    assert temp == t[-node - 1 + Bit(w, len)];
    len := len + 1;
    while temp < 0 && n >= len + 1
      invariant tree[..] == t && len > FAST_BITS && (temp < 0 ==> IsNode(t, temp))
      invariant (if temp < 0 && n >= len + 1 then WalkUpTo(t, temp, w, len, n) else (temp, len)) == WalkUpTo(t, node, w, FAST_BITS, n)
      decreases if temp < 0 then |t| + temp else -1
    {
      ghost var from := temp;
      temp := tree[-temp - 1 + Bit(w, len)];
      assert temp == t[-from - 1 + Bit(w, len)];
      len := len + 1;
    }
    found := temp >= 0;
  }

  /** The tables are for the code lengths `sizes`, and the input goes on with symbol `s`. */
  ghost predicate Expecting(r: Reader, lookup: array<int>, tree: array<int>, sizes: seq<nat>, s: nat)
    reads r, lookup, tree
  {
    r.Valid() && Decodes(sizes, lookup[..], tree[..]) && Used(sizes, s) && Compatible(CodeBits(sizes, s), r.Rest())
  }

  lemma BufferCompatible(r: Reader, sizes: seq<nat>, s: nat)
    requires r.Valid() && Used(sizes, s) && Compatible(CodeBits(sizes, s), r.Rest())
    ensures Compatible(CodeBits(sizes, s), ToBits(r.bitBuf, r.numBits))
    ensures |r.Rest()| == r.numBits + 8 * (|r.input| - r.cur) && r.cur <= |r.input|
    ensures sizes[s] <= r.numBits ==> CodeBits(sizes, s) <= ToBits(r.bitBuf, r.numBits) && CodeBits(sizes, s) <= r.Rest()
  {
    hide CodeBits, ToBits, FromBits, BytesBits;
    RestLength(r.input, r.cur, r.bitBuf, r.numBits);
    LowBits(r.input, r.cur, r.bitBuf, r.numBits, r.numBits);
    UsedLength(sizes, s);
  }

  /** Close to the end of the input: a byte is taken only while the buffer does not hold the whole
      code of the next symbol. `resume` says that the last call ended waiting for a byte. */
  method Fill(r: Reader, lookup: array<int>, tree: array<int>, resume: bool, ghost sizes: seq<nat>, ghost s: nat) returns (ok: bool)
    requires Expecting(r, lookup, tree, sizes, s) && r.numBits < 15 && (resume ==> r.numBits < sizes[s])
    modifies r`cur, r`bitBuf, r`numBits
    ensures Expecting(r, lookup, tree, sizes, s) && r.Rest() == old(r.Rest()) && r.Pos() == old(r.Pos())
    ensures ok ==> sizes[s] <= r.numBits && (r.numBits == old(r.numBits) || r.numBits < sizes[s] + 8)
    ensures !ok ==> |r.Rest()| < sizes[s] && r.cur == |r.input| && r.numBits < 15 && r.numBits == |r.Rest()|
  {
    hide CodeBits, ToBits, FromBits, BytesBits, Decodes, Compatible, Accepts, Buffered;
    var waiting := resume;
    UsedLength(sizes, s);
    while r.numBits < 15
      invariant Expecting(r, lookup, tree, sizes, s) && r.Rest() == old(r.Rest()) && r.Pos() == old(r.Pos())
      invariant old(r.numBits) <= r.numBits && (waiting ==> r.numBits < sizes[s])
      invariant r.numBits == old(r.numBits) || r.numBits < sizes[s] + 8
      decreases 15 - r.numBits
    {
      BufferCompatible(r, sizes, s);
      AcceptsWhole(sizes, lookup[..], tree[..], r.bitBuf, r.numBits, s);
      if !waiting {
        WellFormedTables(sizes, lookup[..], tree[..]);
        var found := TryBuffer(lookup, tree, r.bitBuf, r.numBits);
        if found {
          return true;
        }
      }
      waiting := false;
      if r.cur >= |r.input| {
        return false;
      }
      r.TakeByte();
    }
    ok := true;
  }

  lemma WellFormedTables(sizes: seq<nat>, lookup: seq<int>, tree: seq<int>)
    requires Decodes(sizes, lookup, tree)
    ensures WellFormed(lookup, tree)
  {}

  /** Decodes one symbol, exactly if all of its code has arrived; otherwise `sym` is -1 and no bit
      is consumed. */
  method DecodeSymbol(r: Reader, lookup: array<int>, tree: array<int>, resume: bool, ghost sizes: seq<nat>, ghost s: nat) returns (sym: int)
    requires Expecting(r, lookup, tree, sizes, s) && (resume ==> r.numBits < 15 && r.numBits < sizes[s])
    modifies r`cur, r`bitBuf, r`numBits
    ensures r.Valid() && sym == if sizes[s] <= |old(r.Rest())| then s else -1
    ensures sym >= 0 ==> CodeBits(sizes, s) <= old(r.Rest()) && r.Rest() == old(r.Rest())[sizes[s]..]
    ensures sym >= 0 ==> r.Pos() == old(r.Pos()) + sizes[s]
    ensures sym < 0 ==> r.Rest() == old(r.Rest()) && r.Pos() == old(r.Pos())
    ensures sym < 0 ==> r.cur == |r.input| && r.numBits < 15 && r.numBits < sizes[s]
  {
    hide CodeBits, ToBits, FromBits, BytesBits, Decodes, Compatible, Buffered;
    BufferCompatible(r, sizes, s);
    UsedLength(sizes, s);
    if resume || r.numBits < 15 {
      if resume || |r.input| - r.cur < 2 {
        var ok := Fill(r, lookup, tree, resume, sizes, s);
        if !ok {
          return -1;
        }
      } else {
        r.TakeByte();
        BufferLength(r);
        r.TakeByte();
      }
    }
    var raw := Extract(r, lookup, tree, sizes, s);
    sym := raw % 512; // an entry of the tree is the symbol itself and is below 512 already
  }

  lemma BufferLength(r: Reader)
    requires r.Valid()
    ensures |r.Rest()| == r.numBits + 8 * (|r.input| - r.cur) && r.cur <= |r.input|
  {
    RestLength(r.input, r.cur, r.bitBuf, r.numBits);
  }

  /** The second half of the macro: the code is in the buffer. */
  method Extract(r: Reader, lookup: array<int>, tree: array<int>, ghost sizes: seq<nat>, ghost s: nat) returns (raw: nat)
    requires Expecting(r, lookup, tree, sizes, s) && sizes[s] <= r.numBits
    modifies r`bitBuf, r`numBits
    ensures r.Valid() && raw % 512 == s && CodeBits(sizes, s) <= old(r.Rest()) && r.Rest() == old(r.Rest())[sizes[s]..]
    ensures r.Pos() == old(r.Pos()) + sizes[s] && r.numBits == old(r.numBits) - sizes[s]
  {
    hide CodeBits, ToBits, FromBits, BytesBits, Decodes, Compatible, Buffered;
    BufferCompatible(r, sizes, s);
    WellFormedTables(sizes, lookup[..], tree[..]);
    RawIs(sizes, lookup[..], tree[..], r.bitBuf, r.numBits, s);
    var len;
    raw, len := LookUp(lookup, tree, r.bitBuf);
    r.Drop(len);
  }

  /** The stored entry gives the symbol in its low nine bits and the length of its code. */
  lemma RawIs(sizes: seq<nat>, lookup: seq<int>, tree: seq<int>, w: nat, n: nat, s: nat)
    requires Decodes(sizes, lookup, tree) && Used(sizes, s) && CodeBits(sizes, s) <= ToBits(w, n)
    ensures WellFormed(lookup, tree) && RawDecode(lookup, tree, w).1 == sizes[s] && RawDecode(lookup, tree, w).0 % 512 == s
    ensures RawDecode(lookup, tree, w).0 >= 0
  {
    hide CodeBits, ToBits, Walk;
    assert Decode(lookup, tree, w) == (s, sizes[s]);
  }
}
