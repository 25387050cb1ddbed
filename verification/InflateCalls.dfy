/** The decompressor over any number of calls: between two of them the caller hands over more input,
    collects output and makes room, in whatever portions it likes. */
module InflateCalls {
  import opened Bits
  import opened BitReader
  import opened HuffDecode
  import opened KnownInput
  import opened OutputWindow
  import opened Inflate
  import opened HeaderReader
  import opened StoredReader
  import opened StreamBlocks
  import opened InflateStream

  /** What the caller brings to a call: more input, and where a flat output buffer now ends. */
  datatype Call = Call(more: seq<u8>, room: nat)

  /** The input that is still to come. */
  function Future(calls: seq<Call>): seq<u8>
  {
    if calls == [] then [] else calls[0].more + Future(calls[1..])
  }

  /** A flat buffer may be filled that far. */
  predicate Roomy(wrap: bool, size: nat, end: nat, room: nat)
  {
    wrap || end == size || end >= room
  }

  /** Input that keeps to the stream has kept to it before. */
  lemma ExpectsFront(input: seq<u8>, more: seq<u8>, all: seq<bool>)
    requires Expects(input + more, 0, all)
    ensures Expects(input, 0, all)
  {
    hide BytesBits;
    BytesBitsAppend(input, more);
    var a, b := BytesBits(input), BytesBits(more);
    assert (a + b)[0..] == a + b && a[0..] == a;
    if all <= a + b {
      if |all| <= |a| { assert all == (a + b)[..|all|] == a[..|all|]; } else { assert a == (a + b)[..|a|] == all[..|a|]; }
    } else {
      assert a + b == all[..|a + b|];
      assert a == all[..|a|];
    }
  }

  /** What holds of reader and window after `more` and `room`. */
  method Hand(r: Reader, w: Window, call: Call)
    requires r.Valid() && w.Valid()
    modifies r, w`cur, w`end
    ensures r.Valid() && r.Pos() == old(r.Pos()) && r.numBits == old(r.numBits) && r.input == old(r.input) + call.more
    ensures w.Valid() && (w.cur == old(w.cur) || (w.wrap && w.cur == 0 && old(w.cur) == w.out.Length))
    ensures r.start == r.cur && (w.wrap || w.end == w.out.Length || w.end >= call.room)
  {
    hide Buffered, BytesBits, Holds;
    r.Feed(call.more);
    var end' := if call.room < w.cur then w.cur else if w.out.Length < call.room then w.out.Length else call.room;
    w.MakeRoom(end');
  }

  /** Between two calls. Whatever stopped the decompressor, its state is as good as before. */
  method NextCall(d: Decompressor, call: Call)
    requires d.Valid() && d.Paused() && Expects(d.r.input + call.more, 0, AllBits(d.s))
    modifies d.r, d.w`cur, d.w`end
    ensures d.Valid() && d.r.input == old(d.r.input) + call.more && d.w.produced == old(d.w.produced) && Roomy(d.w.wrap, d.w.out.Length, d.w.end, call.room)
  {
    hide StreamOk, Expects, AllBits, Decompressor.InPlace, Holds, Buffered, BytesBits, ByteReader.Valid, CodeReader.Valid, Inflater.Valid;
    Hand(d.r, d.w, call);
    match d.stage
    case AtHead => d.HeadAgain();
    case InStored => d.StoredAgain();
    case InHeader => d.HeaderAgain();
    case InBody => d.BodyAgain();
    case AtEnd => d.EndAgain();
  }

  /** Any number of calls. If they end in `Done`, then exactly the bytes of the stream have been used and all of
      its output has been written, which is when the stream ends well; if a block is refused, all output
      before it has been written; if the calls run out first, input or output is missing. */
  method Drive(d: Decompressor, calls: seq<Call>) returns (st: Status, used: nat)
    requires d.Valid() && Expects(d.r.input + Future(calls), 0, AllBits(d.s))
    modifies d, d.r, d.w, d.w.out, d.m.Arrays(), d.stored, d.header, d.body
    ensures d.Ended(st) && used <= |calls| && (st == NeedInput || st == NeedOutput ==> used == |calls|)
    ensures d.r.input == old(d.r.input) + Future(calls[..used])
    ensures if used == 0 then d.w.end == old(d.w.end) else Roomy(d.w.wrap, d.w.out.Length, d.w.end, calls[used - 1].room)
  {
    hide Decompressor.Valid, Decompressor.Paused, Decompressor.After, Decompressor.Ended, Memory.Ok, Roomy, StreamOk, Expects, Compatible, AllBits, AllOutput, Future, BytesBits, Holds, Buffered, Followed;
    used := 0;
    NoCalls(calls, d.r.input);
    d.Sound();
    while true
      invariant used <= |calls| && d.Valid() && d.Renewed() && Followed(d.r.input, old(d.r.input), calls, used)
      invariant if used == 0 then d.w.end == old(d.w.end) else Roomy(d.w.wrap, d.w.out.Length, d.w.end, calls[used - 1].room)
      decreases |calls| - used
    {
      st := d.Decompress();
      InputSoFar(d.r.input, old(d.r.input), calls, used);
      if (st != NeedInput && st != NeedOutput) || used == |calls| {
        return;
      }
      Continue(d, old(d.r.input), calls, used);
      used := used + 1;
    }
  }

  /** On to the next one. */
  method Continue(d: Decompressor, ghost first: seq<u8>, calls: seq<Call>, used: nat)
    requires d.Valid() && d.Paused() && used < |calls| && Followed(d.r.input, first, calls, used) && Expects(first + Future(calls), 0, AllBits(d.s))
    modifies d.r, d.w`cur, d.w`end
    ensures d.Valid() && Followed(d.r.input, first, calls, used + 1) && Roomy(d.w.wrap, d.w.out.Length, d.w.end, calls[used].room)
  {
    hide Decompressor.Valid, Decompressor.Paused, Memory.Ok, StreamOk, Expects, AllBits, BytesBits, Holds, Buffered, Followed;
    d.Sound();
    OneCall(d.r.input, first, calls, used, AllBits(d.s));
    NextCall(d, calls[used]);
  }

  /** The input after `used` of the calls. */
  ghost predicate Followed(input: seq<u8>, first: seq<u8>, calls: seq<Call>, used: nat)
  {
    used <= |calls| && input + Future(calls[used..]) == first + Future(calls) && input == first + Future(calls[..used])
  }

  lemma NoCalls(calls: seq<Call>, input: seq<u8>)
    ensures Followed(input, input, calls, 0)
  {
    assert calls[0..] == calls && input + Future(calls[..0]) == input;
  }

  lemma InputSoFar(input: seq<u8>, first: seq<u8>, calls: seq<Call>, used: nat)
    requires Followed(input, first, calls, used)
    ensures input == first + Future(calls[..used])
  {}

  lemma OneCall(input: seq<u8>, first: seq<u8>, calls: seq<Call>, used: nat, all: seq<bool>)
    requires Followed(input, first, calls, used) && used < |calls| && Expects(first + Future(calls), 0, all)
    ensures Followed(input + calls[used].more, first, calls, used + 1) && Expects(input + calls[used].more, 0, all)
  {
    hide Expects, Future;
    var more, later := calls[used].more, calls[used + 1..];
    assert calls[used..] == [calls[used]] + later;
    FirstCall(calls[used], later);
    assert input + (more + Future(later)) == (input + more) + Future(later);
    FutureNext(calls, used);
    assert first + (Future(calls[..used]) + more) == (first + Future(calls[..used])) + more;
    ExpectsFront(input + more, Future(later), all);
  }

  lemma FirstCall(call: Call, later: seq<Call>)
    ensures Future([call] + later) == call.more + Future(later)
  {
    assert ([call] + later)[1..] == later;
  }

  lemma {:induction false} FutureNext(calls: seq<Call>, n: nat)
    requires n < |calls|
    ensures Future(calls[..n + 1]) == Future(calls[..n]) + calls[n].more
    decreases n
  {
    if n > 0 {
      FutureNext(calls[1..], n - 1);
      assert calls[..n + 1][1..] == calls[1..][..n] && calls[..n][1..] == calls[1..][..n - 1];
      assert calls[..n + 1][0] == calls[0] && calls[..n][0] == calls[0];
    } else {
      assert calls[..1][1..] == [];
    }
  }
}
