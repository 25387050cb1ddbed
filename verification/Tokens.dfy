/** LZ77 tokens and the bytes they stand for. */
module Tokens {
  import opened Bits

  const MIN_MATCH := 3
  const MAX_MATCH := 258
  const DICT_SIZE := 32768

  /** Either one byte, or `len` bytes that repeat what stands `dist` bytes before them. */
  datatype Token = Literal(b: u8) | Match(len: nat, dist: nat)

  predicate ValidToken(t: Token)
  {
    t.Match? ==> MIN_MATCH <= t.len <= MAX_MATCH && 1 <= t.dist <= DICT_SIZE
  }

  function Size(t: Token): nat
  {
    if t.Literal? then 1 else t.len
  }

  /** Copying byte by byte, so that a match may overlap what it produces. */
  function CopyMatch(h: seq<u8>, dist: nat, len: nat): (r: seq<u8>)
    requires 1 <= dist <= |h|
    ensures |r| == |h| + len && h <= r
    decreases len
  {
    if len == 0 then h else
      var r := CopyMatch(h, dist, len - 1);
      r + [r[|r| - dist]]
  }

  /** The distance does not reach before the first byte. */
  predicate Reachable(h: seq<u8>, t: Token)
  {
    t.Match? ==> 1 <= t.dist <= |h|
  }

  function Apply(h: seq<u8>, t: Token): (r: seq<u8>)
    requires Reachable(h, t)
    ensures |r| == |h| + Size(t) && h <= r
  {
    match t
    case Literal(b) => h + [b]
    case Match(len, dist) => CopyMatch(h, dist, len)
  }

  /** Every token can be applied in turn. */
  predicate Expandable(h: seq<u8>, ts: seq<Token>)
    decreases |ts|
  {
    ts == [] || (Reachable(h, ts[0]) && Expandable(Apply(h, ts[0]), ts[1..]))
  }

  /** The history `h` followed by everything the tokens stand for. */
  function Expand(h: seq<u8>, ts: seq<Token>): (r: seq<u8>)
    requires Expandable(h, ts)
    ensures h <= r
    decreases |ts|
  {
    if ts == [] then h else Expand(Apply(h, ts[0]), ts[1..])
  }

  /** The same, up to the first match that reaches too far. */
  function ExpandTo(h: seq<u8>, ts: seq<Token>): (r: seq<u8>)
    ensures h <= r
    decreases |ts|
  {
    if ts == [] || !Reachable(h, ts[0]) then h else ExpandTo(Apply(h, ts[0]), ts[1..])
  }

  lemma {:induction false} ExpandAll(h: seq<u8>, ts: seq<Token>)
    requires Expandable(h, ts)
    ensures ExpandTo(h, ts) == Expand(h, ts)
    decreases |ts|
  {
    if ts != [] { ExpandAll(Apply(h, ts[0]), ts[1..]); }
  }

  lemma {:induction false} ExpandAppend(h: seq<u8>, a: seq<Token>, b: seq<Token>)
    requires Expandable(h, a)
    ensures Expandable(h, a + b) <==> Expandable(Expand(h, a), b)
    ensures Expandable(h, a + b) ==> Expand(h, a + b) == Expand(Expand(h, a), b)
    decreases |a|
  {
    if a == [] {
      assert a + b == b;
    } else {
      ExpandAppend(Apply(h, a[0]), a[1..], b);
      assert (a + b)[1..] == a[1..] + b;
    }
  }

  lemma ExpandOne(h: seq<u8>, a: seq<Token>, t: Token)
    requires Expandable(h, a) && Reachable(Expand(h, a), t)
    ensures Expandable(h, a + [t]) && Expand(h, a + [t]) == Apply(Expand(h, a), t)
  {
    ExpandAppend(h, a, [t]);
    assert [t][1..] == [];
  }

  /** A longer history in front changes nothing. */
  lemma {:induction false} ExpandBehind(front: seq<u8>, h: seq<u8>, ts: seq<Token>)
    requires Expandable(h, ts)
    ensures Expandable(front + h, ts) && Expand(front + h, ts) == front + Expand(h, ts)
    decreases |ts|
  {
    if ts != [] {
      match ts[0] {
        case Literal(b) => assert (front + h) + [b] == front + (h + [b]);
        case Match(len, dist) => CopyBehind(front, h, dist, len);
      }
      ExpandBehind(front, Apply(h, ts[0]), ts[1..]);
    }
  }

  lemma {:induction false} CopyBehind(front: seq<u8>, h: seq<u8>, dist: nat, len: nat)
    requires 1 <= dist <= |h|
    ensures CopyMatch(front + h, dist, len) == front + CopyMatch(h, dist, len)
  {
    if len > 0 { CopyBehind(front, h, dist, len - 1); }
  }

  lemma {:induction false} CopyAt(h: seq<u8>, dist: nat, len: nat, i: nat)
    requires 1 <= dist <= |h| && i < len
    ensures CopyMatch(h, dist, len)[|h| + i] == CopyMatch(h, dist, len)[|h| + i - dist]
  {
    if i < len - 1 { CopyAt(h, dist, len - 1, i); }
  }

  /** A match is the only continuation in which every new byte equals the one `dist` before it. */
  lemma {:induction false} CopyUnique(h: seq<u8>, dist: nat, len: nat, r: seq<u8>)
    requires 1 <= dist <= |h| && |r| == |h| + len && r[..|h|] == h
    requires forall i :: |h| <= i < |r| ==> r[i] == r[i - dist]
    ensures r == CopyMatch(h, dist, len)
  {
    if len > 0 {
      var init := r[..|r| - 1];
      assert init[..|h|] == h;
      CopyUnique(h, dist, len - 1, init);
      assert r == init + [r[|r| - 1]];
    } else {
      assert r == r[..|h|];
    }
  }
}
