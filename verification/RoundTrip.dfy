/** The compressor and the decompressor together. */
module RoundTrip {
  import opened Options
  import opened Bits
  import opened Tokens
  import opened BitWriter
  import opened BitReader
  import opened KnownInput
  import opened OutputWindow
  import opened DeflateStream
  import opened StreamBlocks
  import opened InflateStream
  import opened InflateCalls
  import opened LzParser
  import FB = FlushBlock

  /** A finished stream fills whole bytes. */
  lemma WholeBytes(output: seq<u8>, buffer: nat, bitsIn: nat, stream: seq<bool>)
    requires bitsIn < 8 && BytesBits(output) + ToBits(buffer, bitsIn) == stream + Padding(|stream|)
    ensures |output| == (|stream| + 7) / 8 && stream <= BytesBits(output)
  {
    hide *;
    Whole(BytesBits(output), ToBits(buffer, bitsIn), stream, Padding(|stream|), |output|);
  }

  lemma Whole(a: seq<bool>, t: seq<bool>, s: seq<bool>, pad: seq<bool>, n: nat)
    requires a + t == s + pad && |a| == 8 * n && |t| < 8 && |pad| < 8 && (|s| + |pad|) % 8 == 0
    ensures n == (|s| + 7) / 8 && s <= a
  {
    assert |a + t| == |s + pad|;
    assert t == [];
    assert a + t == a && (s + pad)[..|s|] == s;
  }

  lemma Behind(output: seq<u8>, trailing: seq<u8>, stream: seq<bool>)
    requires stream <= BytesBits(output)
    ensures stream <= BytesBits(output + trailing)
  {
    hide BytesBits;
    BytesBitsAppend(output, trailing);
  }

  /** What a finished compressor has promised about its output. */
  lemma FinishedStream(c: Compressor)
    requires c.Valid() && c.finished
    ensures PartsOk(c.sink.parts) && Finished(c.sink.parts) && Unpackable(c.sink.parts) && Unpack(c.sink.parts) == c.input
    ensures StreamBits(c.sink.parts) <= BytesBits(c.sink.output) && |c.sink.output| == (|StreamBits(c.sink.parts)| + 7) / 8
  {
    hide BytesBits, ToBits, Padding, StreamBits, Unpack, Unpackable;
    assert c.input[..|c.input|] == c.input;
    WholeBytes(c.sink.output, c.sink.w.buffer, c.sink.w.bitsIn, StreamBits(c.sink.parts));
  }

  /** What the decompressor is given, and that all of it is there. */
  lemma GoodStream(c: Compressor, trailing: seq<u8>) returns (s: Stream)
    requires c.Valid() && c.finished
    ensures s == Stream(c.sink.parts, None) && StreamOk(s) && AllOutput(s) == c.input && |c.sink.output| == (|AllBits(s)| + 7) / 8
    ensures Expects(c.sink.output + trailing, 0, AllBits(s)) && |AllBits(s)| <= 8 * |c.sink.output + trailing|
  {
    hide BytesBits, StreamBits, Unpack, Unpackable, Finished, PartsOk, Compressor.Valid;
    FinishedStream(c);
    Behind(c.sink.output, trailing, StreamBits(c.sink.parts));
    s := Stream(c.sink.parts, None);
    assert AllBits(s) == StreamBits(c.sink.parts);
    assert BytesBits(c.sink.output + trailing)[0..] == BytesBits(c.sink.output + trailing);
  }

  /** Whatever calls a compressor has gone through: once it has finished, decompressing its output gives
      back everything it was fed, and uses up exactly that output, whatever follows it. */
  method Restore(c: Compressor, trailing: seq<u8>, out: array<u8>) returns (st: Status, used: nat, n: nat)
    requires c.Valid() && c.finished
    modifies out
    ensures st == Done <==> |c.input| <= out.Length
    ensures st == Done ==> n == |c.input| && out[..n] == c.input && used == |c.sink.output|
  {
    hide BytesBits, StreamOk, AllBits, AllOutput, Expects, Holds, Buffered, Compressor.Valid, Decompressor.Valid, Decompressor.After, Decompressor.Paused;
    ghost var s := GoodStream(c, trailing);
    var d := new Decompressor(c.sink.output + trailing, out, false, out.Length, s);
    st := d.Decompress();
    used, n := d.r.cur, d.w.cur;
    FlatContents(d.w);
  }

  /** The same over any number of calls, with the compressed bytes in any pieces, and with a flat buffer or a
      wrapping one that is emptied whenever it is full: all of the input comes out, unless the calls run
      out first, and then the output is full and what there is of it is right. */
  method RestorePieces(c: Compressor, calls: seq<Call>, ghost trailing: seq<u8>, out: array<u8>, wrap: bool) returns (st: Status, used: nat, d: Decompressor)
    requires c.Valid() && c.finished && Future(calls) == c.sink.output + trailing && (wrap ==> out.Length >= DICT_SIZE)
    modifies out
    ensures fresh(d) && used <= |calls| && (st == Done || st == NeedOutput) && d.w.produced <= c.input
    ensures st == Done ==> d.w.produced == c.input && d.r.cur == |c.sink.output|
    ensures st == NeedOutput ==> used == |calls| && d.w.cur == d.w.end && d.w.produced != c.input
  {
    hide BytesBits, StreamOk, AllBits, AllOutput, Expects, Holds, Buffered, Compressor.Valid, Decompressor.Valid, Decompressor.After, Decompressor.Paused, Future;
    ghost var s := GoodStream(c, trailing);
    Before(Future(calls), AllBits(s));
    d := new Decompressor([], out, wrap, out.Length, s);
    assert [] + Future(calls) == Future(calls);
    st, used := Drive(d, calls);
    assert calls[..|calls|] == calls;
  }

  // ---------------------------------------------------------------- flushes

  /** All that has been taken in has been handed over, but the stream is not at its end. */
  ghost predicate Flushed(c: Compressor)
    reads c, c.sink, c.sink.w, c.sink.w.out
  {
    && !c.finished && PartsOk(c.sink.parts) && BytesBits(c.sink.output) == StreamBits(c.sink.parts)
    && Unpackable(c.sink.parts) && Unpack(c.sink.parts) == c.input
  }

  /** Such a stream could end with an empty block. */
  lemma OpenStream(c: Compressor) returns (s: Stream)
    requires c.Valid() && Flushed(c)
    ensures StreamOk(s) && s.fault == None && AllOutput(s) == c.input && Expects(c.sink.output, 0, AllBits(s)) && 8 * |c.sink.output| < |AllBits(s)|
    ensures |s.parts| == |c.sink.parts| + 1 && At(s, |c.sink.parts|) == 8 * |c.sink.output| && OutAt(s, |c.sink.parts|) == c.input
  {
    hide BytesBits, StreamBits, Unpack, Unpackable, Compressor.Valid, PartsOk, PartBits;
    var parts, p := c.sink.parts, Part.Stored(true, []);
    StillOpen(c);
    StreamNext(parts, p);
    UnpackNext(parts, p);
    s := Stream(parts + [p], None);
    assert (parts + [p])[..|parts|] == parts;
    assert c.input + [] == c.input;
    var bits := StreamBits(parts);
    assert BytesBits(c.sink.output)[0..] == bits;
    SomeBits(|bits|, p);
    assert AllBits(s) == bits + PartBits(|bits|, p);
  }

  lemma SomeBits(n: nat, p: Part)
    requires PartOk(p)
    ensures |PartBits(n, p)| > 0
  {
    FB.FinalBitSize(p.final);
  }

  lemma StillOpen(c: Compressor)
    requires c.Valid() && !c.finished
    ensures Open(c.sink.parts)
  {
    hide Open;
  }

  lemma PartsAreOk(c: Compressor)
    requires c.Valid()
    ensures PartsOk(c.sink.parts)
  {
    hide PartsOk;
  }

  /** After a flush, whatever calls came before it: a decompressor that is given exactly what has been handed
      over, in any pieces, writes all that was taken in and asks for more input, if there is room. */
  method RestoreFlushed(c: Compressor, calls: seq<Call>, out: array<u8>, wrap: bool) returns (st: Status, used: nat, d: Decompressor)
    requires c.Valid() && Flushed(c) && Future(calls) == c.sink.output && (wrap ==> out.Length >= DICT_SIZE)
    modifies out
    ensures fresh(d) && d.w.Valid() && d.w.out == out && d.w.wrap == wrap && used == |calls| && (st == NeedInput || st == NeedOutput)
    ensures st == NeedInput ==> d.w.produced == c.input
    ensures st == NeedOutput ==> d.w.cur == d.w.end && d.w.produced <= c.input && d.w.produced != c.input
    ensures !wrap && |c.input| <= out.Length && (forall k :: 0 <= k < |calls| ==> calls[k].room >= |c.input|) ==> st == NeedInput
  {
    hide BytesBits, StreamOk, AllBits, AllOutput, Expects, Holds, Buffered, Compressor.Valid, Decompressor.Valid, Decompressor.After, Decompressor.Paused, Future, Flushed, At, OutAt;
    ghost var s := OpenStream(c);
    Before(Future(calls), AllBits(s));
    d := new Decompressor([], out, wrap, out.Length, s);
    assert [] + Future(calls) == Future(calls);
    st, used := Drive(d, calls);
    assert calls[..|calls|] == calls;
    FrontShorter(calls, used);
    CurInside(d.r);
    if !wrap { FlatContents(d.w); }
  }

  lemma CurInside(r: Reader)
    requires r.Valid()
    ensures r.cur <= |r.input|
  {
    hide BytesBits;
  }

  lemma {:induction false} FrontShorter(calls: seq<Call>, n: nat)
    requires n <= |calls|
    ensures |Future(calls[..n])| <= |Future(calls)|
    decreases n
  {
    if n > 0 {
      FrontShorter(calls[1..], n - 1);
      assert calls[..n][1..] == calls[1..][..n - 1];
    }
  }

  /** Compressing with a sync flush or a full flush makes all of the data available at once. */
  method FlushAndRestore(src: seq<u8>, full: bool, greedy: bool, rleMatches: bool, filterMatches: bool, forceAllRaw: bool, forceAllStatic: bool,
                         maxProbes0: nat, maxProbes1: nat, out: array<u8>) returns (st: Status, n: nat)
    requires maxProbes0 > 0 && maxProbes1 > 0 && |src| <= out.Length
    modifies out
    ensures st == NeedInput && n == |src| && out[..n] == src
  {
    hide Compressor.Valid, BytesBits, StreamBits, Unpack, Unpackable, Decompressor.Valid, Future;
    var c := new Compressor(greedy, rleMatches, filterMatches, forceAllRaw, forceAllStatic, true, maxProbes0, maxProbes1);
    var upTo, stop, flushed := c.Compress(src, if full then FB.FullFlush else FB.SyncFlush);
    assert src[..|src|] == src;
    PartsAreOk(c);
    FB.NoTail(StreamBits(c.sink.parts));
    OneFuture(c.sink.output, |src|);
    var used, d;
    st, used, d := RestoreFlushed(c, [Call(c.sink.output, |src|)], out, false);
    n := d.w.cur;
    FlatContents(d.w);
  }

  lemma OneFuture(more: seq<u8>, room: nat)
    ensures Future([Call(more, room)]) == more
  {
    assert [Call(more, room)][1..] == [];
  }

  // ---------------------------------------------------------------- behind a full flush

  /** Blocks that begin with a whole byte have the bits they would have at the start. */
  lemma {:induction false} StreamSplit(a: seq<Part>, b: seq<Part>)
    requires PartsOk(a + b) && PartsOk(a) && PartsOk(b) && |StreamBits(a)| % 8 == 0
    ensures StreamBits(a + b) == StreamBits(a) + StreamBits(b)
    decreases |b|
  {
    hide PartBits, PartOk;
    if b == [] {
      assert a + b == a;
    } else {
      var init, p := b[..|b| - 1], b[|b| - 1];
      assert (a + b)[..|a + b| - 1] == a + init;
      StreamSplit(a, init);
      FB.SameAt(|StreamBits(a + init)|, |StreamBits(init)|, p);
      assert (StreamBits(a) + StreamBits(init)) + PartBits(|StreamBits(init)|, p) == StreamBits(a) + (StreamBits(init) + PartBits(|StreamBits(init)|, p));
    }
  }

  /** What a finished compressor has written behind its last full flush is a stream of its own. */
  lemma StreamBehind(c: Compressor, trailing: seq<u8>) returns (s: Stream)
    requires c.Valid() && c.finished
    ensures c.cut.bytes <= |c.sink.output| && c.cut.since <= |c.input| && StreamOk(s) && s.fault == None && AllOutput(s) == c.input[c.cut.since..]
    ensures Expects(c.sink.output[c.cut.bytes..] + trailing, 0, AllBits(s)) && |c.sink.output| - c.cut.bytes == (|AllBits(s)| + 7) / 8
    ensures |AllBits(s)| <= 8 * |c.sink.output[c.cut.bytes..] + trailing|
  {
    hide BytesBits, ToBits, Padding, StreamBits, Unpack, Unpackable, PartsOk, Finished, Open, Compressor.Valid;
    AtTheEnd(c);
    var k, o := c.cut.blocks, c.sink.output;
    var a, b, x, y := c.sink.parts[..k], c.sink.parts[k..], o[..c.cut.bytes], o[c.cut.bytes..];
    assert c.sink.parts == a + b && o == x + y;
    EndsBehind(c.sink.parts, k);
    StreamSplit(a, b);
    BytesBitsAppend(x, y);
    var rest := ToBits(c.sink.w.buffer, c.sink.w.bitsIn);
    Cancel(BytesBits(x), BytesBits(y), rest, StreamBits(b), Padding(|StreamBits(a + b)|));
    FB.SamePadding(|StreamBits(a + b)|, |StreamBits(b)|);
    WholeBytes(y, c.sink.w.buffer, c.sink.w.bitsIn, StreamBits(b));
    Behind(y, trailing, StreamBits(b));
    s := Stream(b, None);
    assert AllBits(s) == StreamBits(b);
    assert BytesBits(y + trailing)[0..] == BytesBits(y + trailing);
  }

  lemma Cancel(a: seq<bool>, b: seq<bool>, c: seq<bool>, d: seq<bool>, e: seq<bool>)
    requires (a + b) + c == (a + d) + e
    ensures b + c == d + e
  {
    assert b + c == ((a + b) + c)[|a|..] && d + e == ((a + d) + e)[|a|..];
  }

  /** A finished stream, and its part behind the cut. */
  ghost predicate CutOk(input: seq<u8>, cut: Cut, parts: seq<Part>, o: seq<u8>)
  {
    && cut.since <= |input| && cut.blocks <= |parts| && cut.bytes <= |o| && PartsOk(parts) && Finished(parts) && Open(parts[..cut.blocks])
    && BytesBits(o[..cut.bytes]) == StreamBits(parts[..cut.blocks]) && Unpackable(parts[cut.blocks..]) && Unpack(parts[cut.blocks..]) == input[cut.since..]
  }

  lemma AtTheEnd(c: Compressor)
    requires c.Valid() && c.finished
    ensures CutOk(c.input, c.cut, c.sink.parts, c.sink.output) && c.sink.w.bitsIn < 8
    ensures BytesBits(c.sink.output) + ToBits(c.sink.w.buffer, c.sink.w.bitsIn) == StreamBits(c.sink.parts) + Padding(|StreamBits(c.sink.parts)|)
  {
    hide BytesBits, ToBits, Padding, StreamBits, Unpack, Unpackable, PartsOk, Finished, Open;
    assert c.input[c.cut.since..][..|c.input| - c.cut.since] == c.input[c.cut.since..];
  }

  lemma EndsBehind(parts: seq<Part>, k: nat)
    requires Finished(parts) && PartsOk(parts) && k <= |parts| && Open(parts[..k])
    ensures k < |parts| && PartsOk(parts[..k]) && PartsOk(parts[k..]) && Finished(parts[k..])
  {
    forall j | 0 <= j < k ensures !parts[j].final { assert parts[..k][j] == parts[j]; }
    var b := parts[k..];
    forall j | 0 <= j < |b| - 1 ensures !b[j].final { assert b[j] == parts[..|parts| - 1][k + j]; }
    assert b[..|b| - 1] == parts[k..|parts| - 1];
  }

  /** After a full flush what follows can be read without what was before: the bytes behind it alone give back
      the input behind it. */
  method RestoreBehind(c: Compressor, behind: seq<u8>, ghost trailing: seq<u8>, out: array<u8>) returns (st: Status, used: nat, n: nat)
    requires c.Valid() && c.finished && c.cut.bytes <= |c.sink.output| && behind == c.sink.output[c.cut.bytes..] + trailing
    modifies out
    ensures c.cut.since <= |c.input|
    ensures st == Done <==> |c.input| - c.cut.since <= out.Length
    ensures st == Done ==> n == |c.input| - c.cut.since && out[..n] == c.input[c.cut.since..] && used == |c.sink.output| - c.cut.bytes
  {
    hide BytesBits, StreamOk, AllBits, AllOutput, Expects, Holds, Buffered, Compressor.Valid, Decompressor.Valid, Decompressor.After, Decompressor.Paused;
    ghost var s := StreamBehind(c, trailing);
    var d := new Decompressor(behind, out, false, out.Length, s);
    st := d.Decompress();
    used, n := d.r.cur, d.w.cur;
    FlatContents(d.w);
  }

  /** No input yet. */
  lemma Before(input: seq<u8>, all: seq<bool>)
    requires Expects(input, 0, all)
    ensures Expects([], 0, all)
  {
    hide Expects;
    assert [] + input == input;
    ExpectsFront([], input, all);
  }

  /** A flat buffer holds all the output from its start. */
  lemma FlatContents(w: Window)
    requires w.Valid() && !w.wrap
    ensures w.cur == |w.produced| <= w.end <= w.out.Length && w.out[..w.cur] == w.produced
  {
    forall i | 0 <= i < w.cur ensures w.out[i] == w.produced[i] {
      HoldsAt(w.out[..], w.cur, w.wrap, w.produced, w.cur - i);
    }
  }

  /** Compressing in one go and decompressing gives the data back, whatever they are and whatever the
      settings. */
  method CompressAndRestore(src: seq<u8>, greedy: bool, rleMatches: bool, filterMatches: bool, forceAllRaw: bool, forceAllStatic: bool,
                            maxProbes0: nat, maxProbes1: nat, out: array<u8>) returns (n: nat)
    requires maxProbes0 > 0 && maxProbes1 > 0 && |src| <= out.Length
    modifies out
    ensures n == |src| && out[..n] == src
  {
    hide Compressor.Valid;
    var c := new Compressor(greedy, rleMatches, filterMatches, forceAllRaw, forceAllStatic, true, maxProbes0, maxProbes1);
    var upTo, stop, flushed := c.Compress(src, FB.Finish);
    assert src[..|src|] == src;
    var st, used;
    st, used, n := Restore(c, [], out);
  }
}
