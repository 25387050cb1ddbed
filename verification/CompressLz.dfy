/** Writing a block body (`tdefl_compress_lz_codes`, the variant without unaligned stores): the
    packed tokens are parsed back and sent under the two Huffman codes. */
module CompressLz {
  import opened Bits
  import opened Tokens
  import opened Canonical
  import opened LzSymbols
  import opened BlockCode
  import opened TokenBuffer
  import opened BitWriter

  // ---------------------------------------------------------------- reading the packed tokens

  /** Inside the group `g`, `j` of whose tokens are read: the flags still to be used lie below a
      mark at bit `8 - j`, and the bytes ahead are the other payloads and the later groups. */
  ghost predicate InGroup(bytes: seq<u8>, p: nat, flags: nat, g: seq<Token>, j: nat, rest: seq<Token>)
  {
    && AllValid(g) && AllValid(rest) && 1 <= |g| <= 8 && j <= |g| && (|g| < 8 ==> rest == [])
    && p <= |bytes| && flags == Shr(Flags(g) + 256, j)
    && bytes[p..] == Payloads(g[j..]) + Pack(rest)
  }

  lemma {:induction false} PayloadsConcat(a: seq<Token>, b: seq<Token>)
    requires AllValid(a) && AllValid(b)
    ensures AllValid(a + b) && Payloads(a + b) == Payloads(a) + Payloads(b)
  {
    hide Payload;
    if b == [] {
      assert a + b == a;
    } else {
      var init := b[..|b| - 1];
      assert (a + b)[..|a + b| - 1] == a + init;
      PayloadsConcat(a, init);
    }
  }

  lemma PayloadsFront(g: seq<Token>, j: nat)
    requires AllValid(g) && j < |g|
    ensures Payloads(g[j..]) == Payload(g[j]) + Payloads(g[j + 1..])
  {
    hide Payload, Payloads;
    assert g[j..] == [g[j]] + g[j + 1..];
    PayloadsConcat([g[j]], g[j + 1..]);
    PayloadOne(g[j]);
  }

  lemma PayloadOne(t: Token)
    requires ValidToken(t)
    ensures Payloads([t]) == Payload(t)
  {
    assert [t][..0] == [];
  }

  /** A bit below the added multiple does not see it. */
  lemma BitBelow(x: nat, q: nat, k: nat, j: nat)
    requires j < k
    ensures Shr(x + q * Pow2(k), j) % 2 == Shr(x, j) % 2
  {
    PowerSplit(k, j);
    hide Pow2;
    Regroup(q, Pow2(k - 1 - j), Pow2(j));
    AddMultiple(x, 2 * (q * Pow2(k - 1 - j)), Pow2(j));
  }

  lemma PowerSplit(k: nat, j: nat)
    requires j < k
    ensures Pow2(k) == 2 * (Pow2(k - 1 - j) * Pow2(j))
  {
    Pow2Add(k - 1 - j, j);
  }

  lemma Regroup(q: nat, a: nat, p: nat)
    ensures q * (2 * (a * p)) == (2 * (q * a)) * p
  {
    assert q * (2 * (a * p)) == 2 * (q * (a * p));
    assert q * (a * p) == (q * a) * p;
  }

  /** Flag `j` is set exactly if token `j` is a match. */
  lemma {:induction false} FlagBit(g: seq<Token>, j: nat)
    requires j < |g|
    ensures Shr(Flags(g), j) % 2 == if g[j].Match? then 1 else 0
  {
    var n := |g| - 1;
    var init, b := g[..n], if g[n].Match? then 1 else 0;
    assert Flags(g) == Flags(init) + b * Pow2(n);
    if j < n {
      FlagBit(init, j);
      BitBelow(Flags(init), b, n, j);
    } else {
      AddMultiple(Flags(init), b, Pow2(n));
      DivModUnique(Flags(init), Pow2(n), 0, Flags(init));
    }
  }

  lemma FlagBitMarked(g: seq<Token>, j: nat)
    requires j < |g| <= 8
    ensures Shr(Flags(g) + 256, j) % 2 == if g[j].Match? then 1 else 0
  {
    hide *;
    FlagBit(g, j);
    TheMark();
    BitBelow(Flags(g), 1, 8, j);
  }

  lemma TheMark()
    ensures 1 * Pow2(8) == 256
  {}

  /** The mark arrives at bit 0 exactly after eight tokens. */
  lemma MarkAt(g: seq<Token>, j: nat)
    requires 1 <= |g| <= 8 && j <= 8
    ensures Shr(Flags(g) + 256, j) == 1 <==> j == 8
  {
    FlagByte(g);
    MarkArithmetic(Flags(g), j);
  }

  lemma MarkArithmetic(f: nat, j: nat)
    requires f < 256 && j <= 8
    ensures (f + 256) / Pow2(j) == 1 <==> j == 8
  {
    assert Pow2(8) == 256 && Pow2(7) == 128;
    if j < 8 {
      Pow2Mono(j, 7);
      QuotientOne(f + 256, Pow2(j));
    } else {
      QuotientOne(f + 256, 256);
    }
  }

  lemma QuotientOne(f: nat, p: nat)
    requires p > 0
    ensures f / p == 1 <==> p <= f < 2 * p
  {
    var q, r := f / p, f % p;
    assert f == q * p + r;
    if q >= 2 { MulMono(2, q, p); }
  }

  lemma OpenGroup(bytes: seq<u8>, p: nat, ts: seq<Token>)
    requires AllValid(ts) && ts != [] && p <= |bytes| && bytes[p..] == Pack(ts)
    ensures var m := if |ts| < 8 then |ts| else 8;
      p < |bytes| && InGroup(bytes, p + 1, 256 + bytes[p] as nat, ts[..m], 0, ts[m..])
  {
    hide Flags, Payloads, Shr, Pow2, Pack;
    var m := if |ts| < 8 then |ts| else 8;
    var g := ts[..m];
    PackFront(ts);
    FlagByte(g);
    var tail := Payloads(g) + Pack(ts[m..]);
    assert bytes[p..] == [Flags(g)] + tail;
    assert bytes[p] == bytes[p..][0] && bytes[p + 1..] == bytes[p..][1..] == tail;
    ShrZero(Flags(g) + 256);
    assert g[0..] == g;
  }

  lemma ShrZero(v: nat)
    ensures Shr(v, 0) == v
  {
    assert v / 1 == v;
  }

  lemma PackFront(ts: seq<Token>)
    requires AllValid(ts) && ts != []
    ensures var m := if |ts| < 8 then |ts| else 8;
      AllValid(ts[..m]) && AllValid(ts[m..]) && Flags(ts[..m]) < 256
      && Pack(ts) == [Flags(ts[..m])] + (Payloads(ts[..m]) + Pack(ts[m..]))
  {
    hide Flags, Payloads, Pow2, Group, Pack, Payload, ValidToken;
    var m := if |ts| < 8 then |ts| else 8;
    PackUnfold(ts, m);
    GroupIs(ts[..m]);
    AssocBytes([Flags(ts[..m])], Payloads(ts[..m]), Pack(ts[m..]));
  }

  lemma AssocBytes(a: seq<nat>, b: seq<nat>, c: seq<nat>)
    ensures (a + b) + c == a + (b + c)
  {}

  lemma PackUnfold(ts: seq<Token>, m: nat)
    requires AllValid(ts) && ts != [] && m == if |ts| < 8 then |ts| else 8
    ensures AllValid(ts[..m]) && AllValid(ts[m..]) && Pack(ts) == Group(ts[..m]) + Pack(ts[m..])
  {
    hide Group;
  }

  lemma GroupIs(g: seq<Token>)
    requires AllValid(g) && |g| <= 8
    ensures Flags(g) < 256 && Group(g) == [Flags(g)] + Payloads(g)
  {
    hide Flags, Payloads, Pow2;
    FlagByte(g);
  }

  /** Reading the payload of token `j`. */
  lemma ReadPayload(bytes: seq<u8>, p: nat, flags: nat, g: seq<Token>, j: nat, rest: seq<Token>)
    requires InGroup(bytes, p, flags, g, j, rest) && j < |g|
    ensures flags % 2 == if g[j].Match? then 1 else 0
    ensures p + |Payload(g[j])| <= |bytes| && bytes[p..p + |Payload(g[j])|] == Payload(g[j])
    ensures InGroup(bytes, p + |Payload(g[j])|, flags / 2, g, j + 1, rest)
  {
    hide Flags, Payloads, Pack, Shr;
    var n := |Payload(g[j])|;
    FlagBitMarked(g, j);
    PayloadsFront(g, j);
    ShrHalf(Flags(g) + 256, j);
    var tail := Payloads(g[j + 1..]) + Pack(rest);
    assert bytes[p..] == Payload(g[j]) + tail;
    assert bytes[p + n..] == bytes[p..][n..] == tail;
    assert bytes[p..p + n] == bytes[p..][..n];
  }

  /** What lies ahead when nothing of a group is left. */
  lemma GroupRead(bytes: seq<u8>, p: nat, flags: nat, g: seq<Token>, rest: seq<Token>)
    requires InGroup(bytes, p, flags, g, |g|, rest)
    ensures bytes[p..] == Pack(rest) && (rest != [] ==> flags == 1)
  {
    MarkAt(g, |g|);
    assert g[|g|..] == [];
  }

  // ---------------------------------------------------------------- sending

  method PutSymbol(w: Writer, sizes: array<nat>, codes: array<nat>, s: nat)
    requires w.Valid() && sizes.Length == codes.Length && s < sizes.Length
    requires CodesFor(sizes[..], codes[..]) && Used(sizes[..], s)
    modifies w`pos, w`buffer, w`bitsIn, w`sent, w.out
    ensures w.Valid() && w.sent == old(w.sent) + CodeBits(sizes[..], s) && old(w.pos) <= w.pos
  {
    hide CodesFor, CodeBits, ToBits, Pow2;
    StoredCode(sizes[..], codes[..], s);
    assert sizes[..][s] == sizes[s] && codes[..][s] == codes[s];
    w.PutBits(codes[s], sizes[s]);
  }

  /** One match: length symbol and extra bits, distance symbol and extra bits. */
  method PutMatch(w: Writer, x: nat, d: nat, litSizes: array<nat>, litCodes: array<nat>, distSizes: array<nat>, distCodes: array<nat>)
    requires w.Valid() && litSizes.Length == litCodes.Length && distSizes.Length == distCodes.Length
    requires CodesFor(litSizes[..], litCodes[..]) && CodesFor(distSizes[..], distCodes[..])
    requires x < 256 && d < DICT_SIZE && Codable(litSizes[..], distSizes[..], ItemOf(Match(x + MIN_MATCH, d + 1)))
    modifies w`pos, w`buffer, w`bitsIn, w`sent, w.out
    ensures w.Valid() && old(w.pos) <= w.pos
    ensures w.sent == old(w.sent) + ItemBits(litSizes[..], distSizes[..], ItemOf(Match(x + MIN_MATCH, d + 1)))
  {
    hide CodesFor, CodeBits, ToBits, Pow2, LenSym, LenExtra, DistSym, DistExtra;
    ghost var l, s, sent := litSizes[..], distSizes[..], w.sent;
    LenTables(x);
    DistTables(d);
    PutSymbol(w, litSizes, litCodes, LenSym(x));
    w.PutBits(x % Pow2(LenExtra(x)), LenExtra(x));
    PutSymbol(w, distSizes, distCodes, DistSym(d));
    w.PutBits(d % Pow2(DistExtra(d)), DistExtra(d));
    Associate(sent, CodeBits(l, LenSym(x)), ToBits(x % Pow2(LenExtra(x)), LenExtra(x)),
              CodeBits(s, DistSym(d)), ToBits(d % Pow2(DistExtra(d)), DistExtra(d)));
  }

  lemma Associate(a: seq<bool>, b: seq<bool>, c: seq<bool>, d: seq<bool>, e: seq<bool>)
    ensures a + b + c + d + e == a + (b + c + d + e)
  {}

  /** Between two rounds of the loop: inside a group, or in front of the next one. */
  ghost predicate Ready(bytes: seq<u8>, p: nat, flags: nat, g: seq<Token>, j: nat, rest: seq<Token>)
  {
    && AllValid(rest) && p <= |bytes| && j <= |g|
    && if j < |g| then InGroup(bytes, p, flags, g, j, rest) else bytes[p..] == Pack(rest) && (rest != [] ==> flags == 1)
  }

  lemma NotAtMark(bytes: seq<u8>, p: nat, flags: nat, g: seq<Token>, j: nat, rest: seq<Token>)
    requires Ready(bytes, p, flags, g, j, rest) && p < |bytes|
    ensures flags == 1 <==> j == |g|
    ensures flags == 1 ==> rest != [] && bytes[p..] == Pack(rest)
  {
    if j < |g| {
      MarkAt(g, j);
    } else {
      PackEmpty();
      assert bytes[p..] != [];
    }
  }

  /** The flag byte of the next group, if the last one is used up. */
  method NextFlags(buf: array<u8>, codeEnd: nat, p: nat, flags: nat, ghost g: seq<Token>, ghost j: nat, ghost rest: seq<Token>)
    returns (p': nat, flags': nat, ghost g': seq<Token>, ghost j': nat, ghost rest': seq<Token>)
    requires codeEnd <= buf.Length && p < codeEnd && Ready(buf[..codeEnd], p, flags, g, j, rest)
    ensures p <= p' && j' < |g'| && InGroup(buf[..codeEnd], p', flags', g', j', rest')
    ensures g'[j'..] + rest' == g[j..] + rest
  {
    hide Flags, Payloads, Pack, Shr;
    ghost var bytes := buf[..codeEnd];
    NotAtMark(bytes, p, flags, g, j, rest);
    p', flags', g', j', rest' := p, flags, g, j, rest;
    if flags == 1 {
      OpenGroup(bytes, p, rest);
      assert bytes[p] == buf[p];
      flags' := 256 + buf[p] as nat;
      p' := p + 1;
      ghost var m := if |rest| < 8 then |rest| else 8;
      g', j', rest' := rest[..m], 0, rest[m..];
    }
  }

  /** Sends the token whose payload is next. */
  method SendToken(buf: array<u8>, codeEnd: nat, p: nat, flags: nat, w: Writer,
                   litSizes: array<nat>, litCodes: array<nat>, distSizes: array<nat>, distCodes: array<nat>,
                   ghost g: seq<Token>, ghost j: nat, ghost rest: seq<Token>)
    returns (p': nat)
    requires codeEnd <= buf.Length && j < |g| && InGroup(buf[..codeEnd], p, flags, g, j, rest)
    requires w.Valid() && w.out != buf && litSizes.Length == litCodes.Length && distSizes.Length == distCodes.Length
    requires CodesFor(litSizes[..], litCodes[..]) && CodesFor(distSizes[..], distCodes[..])
    requires ValidToken(g[j]) && Codable(litSizes[..], distSizes[..], ItemOf(g[j]))
    modifies w`pos, w`buffer, w`bitsIn, w`sent, w.out
    ensures w.Valid() && old(w.pos) <= w.pos
    ensures w.sent == old(w.sent) + ItemBits(litSizes[..], distSizes[..], ItemOf(g[j]))
    ensures p < p' <= codeEnd && Ready(buf[..codeEnd], p', flags / 2, g, j + 1, rest)
  {
    hide CodesFor, Codable, ItemBits, ItemOf, Flags, Payloads, Pack, Shr;
    ghost var bytes := buf[..codeEnd];
    ReadPayload(bytes, p, flags, g, j, rest);
    PayloadBytes(bytes, p, g[j]);
    if j + 1 == |g| {
      GroupRead(bytes, p + |Payload(g[j])|, flags / 2, g, rest);
    }
    if flags % 2 == 1 {
      var x, d := buf[p], buf[p + 1] as nat + 256 * buf[p + 2] as nat;
      assert x == bytes[p] && buf[p + 1] == bytes[p + 1] && buf[p + 2] == bytes[p + 2];
      p' := p + 3;
      PutMatch(w, x, d, litSizes, litCodes, distSizes, distCodes);
    } else {
      var lit := buf[p];
      assert lit == bytes[p];
      p' := p + 1;
      LiteralItem(litSizes[..], distSizes[..], lit);
      PutSymbol(w, litSizes, litCodes, lit);
    }
    assert buf[..codeEnd] == bytes;
  }

  lemma LiteralItem(lit: seq<nat>, dist: seq<nat>, b: u8)
    requires Codable(lit, dist, ItemOf(Literal(b)))
    ensures Used(lit, b) && ItemBits(lit, dist, ItemOf(Literal(b))) == CodeBits(lit, b)
  {}

  lemma PayloadBytes(bytes: seq<u8>, p: nat, t: Token)
    requires ValidToken(t) && p + |Payload(t)| <= |bytes| && bytes[p..p + |Payload(t)|] == Payload(t)
    ensures t.Literal? ==> |Payload(t)| == 1 && bytes[p] == t.b
    ensures t.Match? ==> |Payload(t)| == 3 && bytes[p] + MIN_MATCH as int == t.len as int
    ensures t.Match? ==> bytes[p + 1] as int + 256 * bytes[p + 2] as int == t.dist - 1
  {
    var s := bytes[p..p + |Payload(t)|];
    assert s[0] == bytes[p];
    if t.Match? {
      assert s[1] == bytes[p + 1] && s[2] == bytes[p + 2];
    }
  }

  /** Sends all recorded tokens and the end-of-block symbol; succeeds if the output is not full. */
  method CompressLzCodes(buf: array<u8>, codeEnd: nat, w: Writer,
                         litSizes: array<nat>, litCodes: array<nat>, distSizes: array<nat>, distCodes: array<nat>,
                         ghost ts: seq<Token>) returns (ok: bool)
    requires codeEnd <= buf.Length && AllValid(ts) && buf[..codeEnd] == Pack(ts)
    requires w.Valid() && w.out != buf && litSizes.Length == litCodes.Length && distSizes.Length == distCodes.Length
    requires CodesFor(litSizes[..], litCodes[..]) && CodesFor(distSizes[..], distCodes[..])
    requires AllCodable(litSizes[..], distSizes[..], ItemsOf(ts)) && Used(litSizes[..], END_OF_BLOCK)
    modifies w`pos, w`buffer, w`bitsIn, w`sent, w.out
    ensures w.Valid() && old(w.pos) <= w.pos
    ensures w.sent == old(w.sent) + BlockBits(litSizes[..], distSizes[..], ItemsOf(ts))
    ensures ok <==> w.pos < w.end
  {
    hide CodesFor, Codable, ItemBits, ItemOf, Pack, InGroup, CodeBits;
    ghost var l, d, sent, bytes := litSizes[..], distSizes[..], w.sent, buf[..codeEnd];
    ghost var read: seq<Token>, g: seq<Token>, j: nat, rest := [], [], 0, ts;
    var p, flags := 0, 1;
    assert bytes[0..] == bytes;
    NothingSent(l, d, sent);
    while p < codeEnd
      invariant p <= codeEnd && w.Valid() && old(w.pos) <= w.pos
      invariant Ready(bytes, p, flags, g, j, rest) && read + g[j..] + rest == ts
      invariant litSizes[..] == l && distSizes[..] == d && buf[..codeEnd] == bytes
      invariant CodesFor(l, litCodes[..]) && CodesFor(d, distCodes[..])
      invariant SentSoFar(l, d, sent, w.sent, read)
      decreases codeEnd - p
    {
      assert read + g[j..] + rest == read + (g[j..] + rest);
      p, flags, g, j, rest := NextFlags(buf, codeEnd, p, flags, g, j, rest);
      NextToken(ts, read, g, j, rest, l, d);
      ghost var before, p0 := w.sent, p;
      p := SendToken(buf, codeEnd, p, flags, w, litSizes, litCodes, distSizes, distCodes, g, j, rest);
      SendOne(l, d, sent, before, read, g[j]);
      flags := flags / 2;
      read := read + [g[j]];
      j := j + 1;
    }
    AllRead(bytes, p, flags, ts, read, g, j, rest);
    PutSymbol(w, litSizes, litCodes, END_OF_BLOCK);
    BlockSent(l, d, sent, ts, w.sent);
    ok := w.pos < w.end;
  }

  lemma NextToken(ts: seq<Token>, read: seq<Token>, g: seq<Token>, j: nat, rest: seq<Token>, l: seq<nat>, d: seq<nat>)
    requires AllValid(ts) && AllCodable(l, d, ItemsOf(ts)) && j < |g| && read + (g[j..] + rest) == ts
    ensures ValidToken(g[j]) && Codable(l, d, ItemOf(g[j]))
    ensures read + [g[j]] + g[j + 1..] + rest == ts
  {
    hide Codable, ItemOf;
    assert (g[j..] + rest)[0] == g[j];
    assert ts[|read|] == g[j] && ItemsOf(ts)[|read|] == ItemOf(g[j]);
    assert g[j..] == [g[j]] + g[j + 1..];
  }

  lemma SendOne(l: seq<nat>, d: seq<nat>, sent: seq<bool>, now: seq<bool>, read: seq<Token>, t: Token)
    requires SentSoFar(l, d, sent, now, read) && ValidToken(t) && Codable(l, d, ItemOf(t))
    ensures SentSoFar(l, d, sent, now + ItemBits(l, d, ItemOf(t)), read + [t])
  {
    hide Codable, ItemBits, ItemOf;
    var items := ItemsOf(read + [t]);
    assert items == ItemsOf(read) + [ItemOf(t)];
    assert items[..|items| - 1] == ItemsOf(read);
  }

  lemma AllRead(bytes: seq<u8>, p: nat, flags: nat, ts: seq<Token>, read: seq<Token>, g: seq<Token>, j: nat, rest: seq<Token>)
    requires Ready(bytes, p, flags, g, j, rest) && p == |bytes| && read + g[j..] + rest == ts
    ensures read == ts
  {
    BytesAhead(bytes, p, flags, g, j, rest);
    PackSize(rest);
  }

  lemma BytesAhead(bytes: seq<u8>, p: nat, flags: nat, g: seq<Token>, j: nat, rest: seq<Token>)
    requires Ready(bytes, p, flags, g, j, rest)
    ensures j < |g| ==> p < |bytes|
  {
    if j < |g| { PayloadsSize(g[j..]); }
  }

  lemma BlockSent(l: seq<nat>, d: seq<nat>, sent: seq<bool>, ts: seq<Token>, now: seq<bool>)
    requires AllValid(ts) && AllCodable(l, d, ItemsOf(ts)) && Used(l, END_OF_BLOCK)
    requires now == sent + ItemsBits(l, d, ItemsOf(ts)) + CodeBits(l, END_OF_BLOCK)
    ensures now == sent + BlockBits(l, d, ItemsOf(ts))
  {}

  ghost predicate SentSoFar(l: seq<nat>, d: seq<nat>, before: seq<bool>, now: seq<bool>, read: seq<Token>)
  {
    AllValid(read) && AllCodable(l, d, ItemsOf(read)) && now == before + ItemsBits(l, d, ItemsOf(read))
  }

  lemma NothingSent(l: seq<nat>, d: seq<nat>, sent: seq<bool>)
    ensures SentSoFar(l, d, sent, sent, [])
  {
    assert ItemsOf([]) == [];
  }
}
