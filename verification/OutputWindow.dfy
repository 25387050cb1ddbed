/** The decompressor's output buffer, which either holds the whole output or wraps around at a
    power of two, and the copying of matches inside it. */
module OutputWindow {
  import opened Bits
  import opened Tokens

  /** Where the byte `d` before the write position stands. In a wrapping buffer the source masks
      with the size less one, which is a power of two; that is the residue. */
  function Back(size: nat, cur: nat, wrap: bool, d: nat): (i: nat)
    requires wrap ==> size > 0
    requires !wrap ==> d <= cur
    ensures wrap ==> i < size
  {
    if wrap then (cur - d) % size else cur - d
  }

  /** The buffer holds the latest output: all of it, or as much as fits. */
  ghost predicate Holds(s: seq<u8>, cur: nat, wrap: bool, h: seq<u8>)
  {
    && cur <= |s| && (if wrap then |s| > 0 else |h| == cur)
    && forall d: nat :: InWindow(|s|, wrap, h, d) ==> ByteBack(s, cur, wrap, h, d)
  }

  ghost predicate ByteBack(s: seq<u8>, cur: nat, wrap: bool, h: seq<u8>, d: nat)
    requires (if wrap then |s| > 0 else |h| == cur) && 1 <= d <= |h|
  {
    Back(|s|, cur, wrap, d) < |s| && s[Back(|s|, cur, wrap, d)] == h[|h| - d]
  }

  /** The bytes a distance may reach back to are in the buffer. */
  predicate InWindow(size: nat, wrap: bool, h: seq<u8>, d: nat)
  {
    1 <= d <= |h| && (wrap ==> d <= size)
  }

  lemma BackStep(size: nat, cur: nat, wrap: bool, d: nat)
    requires (wrap ==> size > 0) && (!wrap ==> d <= cur)
    ensures Back(size, cur + 1, wrap, d + 1) == Back(size, cur, wrap, d)
  {}

  /** In a wrapping buffer the previous byte stands before the write position, and farther ones
      elsewhere. */
  lemma BackApart(size: nat, cur: nat, d: nat)
    requires cur < size && 1 <= d < size
    ensures Back(size, cur + 1, true, 1) == cur && Back(size, cur, true, d) != cur
  {
    assert (cur + 1 - 1) % size == cur by { SmallMod(cur, size); }
    if d <= cur {
      SmallMod(cur - d, size);
    } else {
      ModUp(cur - d, size);
      SmallMod(cur - d + size, size);
    }
  }

  lemma ModUp(x: int, m: nat)
    requires m > 0
    ensures x % m == (x + m) % m
  {
    var q, r := x / m, x % m;
    assert x + m == (q + 1) * m + r;
    ModIs(x + m, m, q + 1, r);
  }

  lemma ModIs(x: int, m: nat, q: int, r: int)
    requires m > 0 && x == q * m + r && 0 <= r < m
    ensures x % m == r
  {
    var q', r' := x / m, x % m;
    assert (q - q') * m == r' - r;
    if q > q' { assert (q - q') * m >= m by { MulMono(1, q - q', m); } }
    if q < q' { assert (q' - q) * m >= m by { MulMono(1, q' - q, m); } }
  }

  /** One byte of output. */
  lemma {:induction false} PutHolds(s: seq<u8>, cur: nat, wrap: bool, h: seq<u8>, b: u8)
    requires Holds(s, cur, wrap, h) && cur < |s|
    ensures Holds(s[cur := b], cur + 1, wrap, h + [b])
  {
    hide Back, ByteBack;
    var s', h' := s[cur := b], h + [b];
    forall d: nat | InWindow(|s'|, wrap, h', d) ensures ByteBack(s', cur + 1, wrap, h', d) {
      PutByte(s, cur, wrap, h, b, d);
    }
  }

  lemma PutByte(s: seq<u8>, cur: nat, wrap: bool, h: seq<u8>, b: u8, d: nat)
    requires Holds(s, cur, wrap, h) && cur < |s| && 1 <= d <= |h| + 1 && (wrap ==> d <= |s|)
    ensures ByteBack(s[cur := b], cur + 1, wrap, h + [b], d)
  {
    if d == 1 {
      if wrap { SmallMod(cur, |s|); }
    } else {
      BackStep(|s|, cur, wrap, d - 1);
      if wrap { BackApart(|s|, cur, d - 1); }
      assert ByteBack(s, cur, wrap, h, d - 1);
    }
  }

  /** Going back to the start of a full wrapping buffer. */
  lemma RestartHolds(s: seq<u8>, h: seq<u8>)
    requires Holds(s, |s|, true, h)
    ensures Holds(s, 0, true, h)
  {
    forall d: nat | InWindow(|s|, true, h, d) ensures ByteBack(s, 0, true, h, d) {
      ModUp(0 - d, |s|);
      assert ByteBack(s, |s|, true, h, d);
    }
  }

  /** `out` is the buffer; `produced` is all output so far. */
  class Window {
    const out: array<u8>
    const wrap: bool
    var cur: nat
    var end: nat
    ghost var produced: seq<u8>

    ghost predicate Valid()
      reads this, out
    {
      cur <= end <= out.Length && (wrap ==> end == out.Length) && Holds(out[..], cur, wrap, produced)
    }

    constructor (out: array<u8>, wrap: bool, end: nat)
      requires end <= out.Length && (wrap ==> end == out.Length > 0)
      ensures Valid() && this.out == out && this.wrap == wrap && cur == 0 && this.end == end && produced == []
    {
      this.out, this.wrap, this.cur, this.end := out, wrap, 0, end;
      produced := [];
    }

    /** The caller makes room: it moves the end of a flat buffer, or lets a full wrapping buffer
        start again. */
    method MakeRoom(end': nat)
      requires Valid() && cur <= end' <= out.Length
      modifies this`cur, this`end
      ensures Valid() && cur == (if wrap && old(cur) == out.Length then 0 else old(cur))
      ensures end == if wrap then old(end) else end'
    {
      if wrap {
        if cur == out.Length {
          assert out[..] == out[..out.Length];
          RestartHolds(out[..], produced);
          cur := 0;
        }
      } else {
        end := end';
      }
    }

    method Put(b: u8)
      requires Valid() && cur < end
      modifies this`cur, this`produced, out
      ensures Valid() && produced == old(produced) + [b] && cur == old(cur) + 1
    {
      hide Holds;
      ghost var s := out[..];
      PutHolds(s, cur, wrap, produced, b);
      out[cur] := b;
      assert out[..] == s[cur := b];
      cur := cur + 1;
      produced := produced + [b];
    }

    /** The byte at the source of a match. */
    method Fetch(src: nat, ghost dist: nat) returns (b: u8)
      requires Valid() && InWindow(out.Length, wrap, produced, dist) && src == Back(out.Length, cur, wrap, dist)
      ensures b == produced[|produced| - dist]
    {
      HoldsAt(out[..], cur, wrap, produced, dist);
      b := out[src];
    }

    method CopyOne(src: nat, ghost dist: nat)
      requires Valid() && cur < end && InWindow(out.Length, wrap, produced, dist) && src == Back(out.Length, cur, wrap, dist)
      modifies this`cur, this`produced, out
      ensures Valid() && produced == CopyMatch(old(produced), dist, 1) && cur == old(cur) + 1
    {
      var b := Fetch(src, dist);
      Put(b);
      assert CopyMatch(old(produced), dist, 0) == old(produced);
    }

    /** The match lies within the buffer without a wrap: three bytes a round, then the others. */
    method CopyRun(len: nat, dist: nat)
      requires Valid() && InWindow(out.Length, wrap, produced, dist)
      requires cur + len <= end && Back(out.Length, cur, wrap, dist) + len <= end
      modifies this`cur, this`produced, out
      ensures Valid() && produced == CopyMatch(old(produced), dist, len) && cur == old(cur) + len
    {
      hide Holds, Back, CopyMatch;
      HoldsBasic(out[..], cur, wrap, produced);
      var src, counter := Back(out.Length, cur, wrap, dist), len;
      CopyNone(produced, dist);
      while counter > 2
        invariant Valid() && InWindow(out.Length, wrap, produced, dist) && 0 <= counter <= len && cur == old(cur) + (len - counter)
        invariant cur + counter <= end && src + counter <= end
        invariant counter > 0 ==> src == Back(out.Length, cur, wrap, dist)
        invariant 1 <= dist <= |old(produced)| && produced == CopyMatch(old(produced), dist, len - counter)
      {
        Advance(src, counter, len, dist, old(produced));
        Advance(src + 1, counter - 1, len, dist, old(produced));
        Advance(src + 2, counter - 2, len, dist, old(produced));
        src := src + 3;
        counter := counter - 3;
      }
      if counter > 0 {
        Advance(src, counter, len, dist, old(produced));
        if counter > 1 {
          Advance(src + 1, counter - 1, len, dist, old(produced));
        }
      }
    }

    /** One byte of a run of which `counter` bytes are left. */
    method Advance(src: nat, counter: nat, ghost len: nat, ghost dist: nat, ghost before: seq<u8>)
      requires Valid() && InWindow(out.Length, wrap, produced, dist) && 0 < counter <= len
      requires cur + counter <= end && src + counter <= end && src == Back(out.Length, cur, wrap, dist)
      requires 1 <= dist <= |before| && produced == CopyMatch(before, dist, len - counter)
      modifies this`cur, this`produced, out
      ensures Valid() && InWindow(out.Length, wrap, produced, dist) && cur == old(cur) + 1
      ensures counter > 1 ==> src + 1 == Back(out.Length, cur, wrap, dist)
      ensures produced == CopyMatch(before, dist, len - counter + 1)
    {
      hide Holds;
      if counter > 1 { BackNext(out.Length, cur, wrap, dist); }
      CopyOne(src, dist);
      CopyStep(before, dist, len - counter);
    }
  }

  lemma HoldsBasic(s: seq<u8>, cur: nat, wrap: bool, h: seq<u8>)
    requires Holds(s, cur, wrap, h)
    ensures if wrap then |s| > 0 else |h| == cur
  {}

  lemma CopyNone(h: seq<u8>, dist: nat)
    requires 1 <= dist <= |h|
    ensures CopyMatch(h, dist, 0) == h
  {}

  lemma CopyStep(h: seq<u8>, dist: nat, n: nat)
    requires 1 <= dist <= |h|
    ensures CopyMatch(CopyMatch(h, dist, n), dist, 1) == CopyMatch(h, dist, n + 1)
  {
    var r := CopyMatch(h, dist, n);
    assert CopyMatch(r, dist, 0) == r;
  }

  lemma BackNext(size: nat, cur: nat, wrap: bool, d: nat)
    requires (wrap ==> size > 0) && (!wrap ==> d <= cur) && Back(size, cur, wrap, d) + 1 < size
    ensures Back(size, cur + 1, wrap, d) == Back(size, cur, wrap, d) + 1
  {
    if wrap {
      var q, r := (cur - d) / size, (cur - d) % size;
      ModIs(cur + 1 - d, size, q, r + 1);
    }
  }

  lemma HoldsAt(s: seq<u8>, cur: nat, wrap: bool, h: seq<u8>, d: nat)
    requires Holds(s, cur, wrap, h) && InWindow(|s|, wrap, h, d)
    ensures Back(|s|, cur, wrap, d) < |s| && s[Back(|s|, cur, wrap, d)] == h[|h| - d]
  {}
}
