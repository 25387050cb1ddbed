/** Run-length coding of code lengths (section 3.2.7 of RFC 1951): the compressor packs the lengths of
    both codes into one sequence (`tdefl_start_dynamic_block`), the decompressor unpacks it. */
module CodeLengths {
  import opened Bits

  /** One length; the last length 3 to 6 times more; a run of 3 to 138 zeros. */
  datatype Op = One(n: nat) | Again(n: nat) | Zeros(n: nat)

  const REPEAT := 16
  const ZEROS_SHORT := 17
  const ZEROS_LONG := 18
  const NUM_LENGTH_SYMS := 19

  predicate OpOk(o: Op)
  {
    match o
    case One(n) => n <= 15
    case Again(n) => 3 <= n <= 6
    case Zeros(n) => 3 <= n <= 138
  }

  function OpSym(o: Op): (s: nat)
    requires OpOk(o)
    ensures s < NUM_LENGTH_SYMS
  {
    match o
    case One(n) => n
    case Again(_) => REPEAT
    case Zeros(n) => if n <= 10 then ZEROS_SHORT else ZEROS_LONG
  }

  /** The number in the extra bits. */
  function OpExtra(o: Op): (x: nat)
    requires OpOk(o)
    ensures x < Pow2(ExtraBits(OpSym(o)))
  {
    assert Pow2(0) == 1 && Pow2(2) == 4 && Pow2(3) == 8 && Pow2(7) == 128;
    match o
    case One(_) => 0
    case Again(n) => n - 3
    case Zeros(n) => if n <= 10 then n - 3 else n - 11
  }

  function ExtraBits(sym: nat): nat
  {
    if sym == REPEAT then 2 else if sym == ZEROS_SHORT then 3 else if sym == ZEROS_LONG then 7 else 0
  }

  function Repeat(x: nat, n: nat): (r: seq<nat>)
    ensures |r| == n && forall i :: 0 <= i < n ==> r[i] == x
  {
    seq(n, _ => x)
  }

  predicate OpFits(h: seq<nat>, o: Op)
  {
    OpOk(o) && (o.Again? ==> h != [])
  }

  /** The lengths so far and what one operation adds to them. */
  function ApplyOp(h: seq<nat>, o: Op): (r: seq<nat>)
    requires OpFits(h, o)
    ensures |r| > |h| && h <= r
  {
    match o
    case One(n) => h + [n]
    case Again(n) => h + Repeat(h[|h| - 1], n)
    case Zeros(n) => h + Repeat(0, n)
  }

  predicate OpsFit(ops: seq<Op>)
    decreases |ops|, 0
  {
    ops == [] || (OpsFit(ops[..|ops| - 1]) && OpFits(Lengths(ops[..|ops| - 1]), ops[|ops| - 1]))
  }

  /** What the operations stand for. */
  function Lengths(ops: seq<Op>): seq<nat>
    requires OpsFit(ops)
    decreases |ops|, 1
  {
    if ops == [] then [] else ApplyOp(Lengths(ops[..|ops| - 1]), ops[|ops| - 1])
  }

  lemma NextOp(ops: seq<Op>, o: Op)
    requires OpsFit(ops) && OpFits(Lengths(ops), o)
    ensures OpsFit(ops + [o]) && Lengths(ops + [o]) == ApplyOp(Lengths(ops), o)
  {
    assert (ops + [o])[..|ops|] == ops;
  }

  lemma {:induction false} LengthsSmall(ops: seq<Op>)
    requires OpsFit(ops)
    ensures forall k :: 0 <= k < |Lengths(ops)| ==> Lengths(ops)[k] <= 15
  {
    if ops != [] { LengthsSmall(ops[..|ops| - 1]); }
  }

  /** The operations up to the one that completes `total` lengths, or that repeats nothing. */
  predicate UpTo(ops: seq<Op>, total: nat)
  {
    && ops != [] && OpsFit(ops[..|ops| - 1]) && |Lengths(ops[..|ops| - 1])| < total
    && (OpsFit(ops) ==> |Lengths(ops)| >= total)
  }

  /** Only the first operation can have nothing to repeat. */
  lemma RefusedIsFirst(ops: seq<Op>, total: nat)
    requires UpTo(ops, total) && !OpsFit(ops) && OpOk(ops[|ops| - 1])
    ensures ops == [ops[0]] && ops[0].Again?
  {}

  /** The bytes an operation takes in the compressor's buffer. */
  function OpBytes(o: Op): seq<nat>
    requires OpOk(o)
  {
    if o.One? then [o.n] else [OpSym(o), OpExtra(o)]
  }

  predicate AllOk(ops: seq<Op>)
  {
    forall k :: 0 <= k < |ops| ==> OpOk(ops[k])
  }

  function Packed(ops: seq<Op>): seq<nat>
    requires AllOk(ops)
  {
    if ops == [] then [] else Packed(ops[..|ops| - 1]) + OpBytes(ops[|ops| - 1])
  }

  /** How often a symbol occurs. */
  function SymCount(ops: seq<Op>, sym: nat): nat
    requires AllOk(ops)
  {
    if ops == [] then 0 else SymCount(ops[..|ops| - 1], sym) + if OpSym(ops[|ops| - 1]) == sym then 1 else 0
  }

  lemma PackNext(ops: seq<Op>, o: Op)
    requires AllOk(ops) && OpOk(o)
    ensures AllOk(ops + [o]) && Packed(ops + [o]) == Packed(ops) + OpBytes(o)
    ensures forall sym :: SymCount(ops + [o], sym) == SymCount(ops, sym) + if OpSym(o) == sym then 1 else 0
  {
    assert (ops + [o])[..|ops|] == ops;
  }

  lemma {:induction false} FitIsOk(ops: seq<Op>)
    requires OpsFit(ops)
    ensures AllOk(ops)
  {
    if ops != [] { FitIsOk(ops[..|ops| - 1]); }
  }

  /** No operation takes more bytes than it stands for lengths. */
  lemma {:induction false} PackedShort(ops: seq<Op>)
    requires OpsFit(ops)
    ensures AllOk(ops) && |ops| <= |Packed(ops)| <= |Lengths(ops)|
  {
    FitIsOk(ops);
    if ops != [] { PackedShort(ops[..|ops| - 1]); }
  }

  lemma {:induction false} SymCountBound(ops: seq<Op>, sym: nat)
    requires AllOk(ops)
    ensures SymCount(ops, sym) <= |ops|
  {
    if ops != [] { SymCountBound(ops[..|ops| - 1], sym); }
  }

  // ---------------------------------------------------------------- which operations

  /** How many equal lengths there are at the end. */
  function Trail(z: seq<nat>): (t: nat)
    requires z != []
    ensures 1 <= t <= |z|
  {
    var n := |z| - 1;
    if n > 0 && z[n - 1] == z[n] then Trail(z[..n]) + 1 else 1
  }

  lemma {:induction false} TrailIs(z: seq<nat>)
    requires z != []
    ensures forall i :: |z| - Trail(z) <= i < |z| ==> z[i] == z[|z| - 1]
    ensures Trail(z) < |z| ==> z[|z| - Trail(z) - 1] != z[|z| - 1]
  {
    var n := |z| - 1;
    if n > 0 && z[n - 1] == z[n] { TrailIs(z[..n]); }
  }

  function Many(o: Op, n: nat): (r: seq<Op>)
    ensures |r| == n && forall i :: 0 <= i < n ==> r[i] == o
  {
    seq(n, _ => o)
  }

  /** The operations that a run of `k` lengths `x` takes while it lasts: zeros by 138, others once and
      then by 6. */
  function Groups(x: nat, k: nat): seq<Op>
    requires k > 0
  {
    if x == 0 then Many(Zeros(138), k / 138) else [One(x)] + Many(Again(6), (k - 1) / 6)
  }

  /** How many lengths of the run are then left over. */
  function LeftOver(x: nat, k: nat): nat
    requires k > 0
  {
    if x == 0 then k % 138 else (k - 1) % 6
  }

  /** Those go in one operation from three on, and one by one otherwise. */
  function Rest(x: nat, r: nat): seq<Op>
  {
    if r >= 3 then [if x == 0 then Zeros(r) else Again(r)] else Many(One(x), r)
  }

  /** What comes before the last run. */
  function Front(z: seq<nat>): (f: seq<nat>)
    requires z != []
    ensures |f| < |z|
  {
    z[..|z| - Trail(z)]
  }

  function RunOps(x: nat, k: nat): seq<Op>
    requires k > 0
  {
    Groups(x, k) + Rest(x, LeftOver(x, k))
  }

  /** The operations for all lengths, run by run. */
  function OpsOf(z: seq<nat>): seq<Op>
  {
    if z == [] then [] else OpsOf(Front(z)) + RunOps(z[|z| - 1], Trail(z))
  }

  /** The operations written when the lengths `z` have been read and some of the last run are pending. */
  ghost predicate InRun(z: seq<nat>, repeats: nat, zeros: nat, ops: seq<Op>)
  {
    if z == [] then repeats == zeros == 0 && ops == [] else
      var x, t := z[|z| - 1], Trail(z);
      && ops == OpsOf(Front(z)) + Groups(x, t)
      && (if x == 0 then repeats == 0 && zeros == LeftOver(x, t) else zeros == 0 && repeats == LeftOver(x, t))
  }

  /** What is pending at the end of a run. */
  lemma RunEnds(z: seq<nat>, repeats: nat, zeros: nat, ops: seq<Op>)
    requires InRun(z, repeats, zeros, ops) && z != []
    ensures OpsOf(z) == ops + Rest(z[|z| - 1], repeats + zeros)
  {
    hide Front, Trail, Groups, Rest, LeftOver;
    var x, t := z[|z| - 1], Trail(z);
    assert repeats + zeros == LeftOver(x, t);
    assert OpsOf(z) == OpsOf(Front(z)) + (Groups(x, t) + Rest(x, LeftOver(x, t)));
    hide OpsOf, RunOps;
  }

  lemma PendingKind(z: seq<nat>, repeats: nat, zeros: nat, ops: seq<Op>)
    requires InRun(z, repeats, zeros, ops)
    ensures if z == [] then repeats == zeros == 0 && OpsOf(z) == ops else if z[|z| - 1] == 0 then repeats == 0 else zeros == 0
  {
    hide Trail, Groups, LeftOver, Front, RunOps;
  }

  /** Another length starts a run. */
  lemma RunBegins(z: seq<nat>, x: nat)
    requires z == [] || z[|z| - 1] != x
    ensures x == 0 ==> InRun(z + [x], 0, 1, OpsOf(z))
    ensures x != 0 ==> InRun(z + [x], 0, 0, OpsOf(z) + [One(x)])
  {
    hide OpsOf;
    FirstOfRun(x);
    TrailOne(z, x);
    hide Trail, Groups, LeftOver, Front;
    assert OpsOf(z) + [] == OpsOf(z);
  }

  lemma FirstOfRun(x: nat)
    ensures Groups(x, 1) == (if x == 0 then [] else [One(x)]) && LeftOver(x, 1) == if x == 0 then 1 else 0
  {}

  lemma TrailOne(z: seq<nat>, x: nat)
    requires z == [] || z[|z| - 1] != x
    ensures Trail(z + [x]) == 1 && Front(z + [x]) == z
  {
    assert (z + [x])[..|z|] == z;
  }

  lemma TrailMore(z: seq<nat>)
    requires z != []
    ensures Trail(z + [z[|z| - 1]]) == Trail(z) + 1 && Front(z + [z[|z| - 1]]) == Front(z)
  {
    TrailStep(z);
    hide Trail;
    var more := z + [z[|z| - 1]];
    assert more[..|more| - (Trail(z) + 1)] == z[..|z| - Trail(z)];
  }

  lemma TrailStep(z: seq<nat>)
    requires z != []
    ensures Trail(z + [z[|z| - 1]]) == Trail(z) + 1
  {
    assert (z + [z[|z| - 1]])[..|z|] == z;
  }

  /** A run goes on. */
  lemma ZerosGoOn(z: seq<nat>, zeros: nat, ops: seq<Op>)
    requires InRun(z, 0, zeros, ops) && z != [] && z[|z| - 1] == 0
    ensures if zeros == 137 then InRun(z + [0], 0, 0, ops + [Zeros(138)]) else InRun(z + [0], 0, zeros + 1, ops)
  {
    hide OpsOf;
    var t, more := Trail(z), z + [0];
    TrailMore(z);
    GroupsMore(0, t);
    hide Trail, Groups, LeftOver, Front;
  }

  lemma RepeatsGoOn(z: seq<nat>, repeats: nat, ops: seq<Op>)
    requires InRun(z, repeats, 0, ops) && z != [] && z[|z| - 1] != 0
    ensures var more := z + [z[|z| - 1]]; if repeats == 5 then InRun(more, 0, 0, ops + [Again(6)]) else InRun(more, repeats + 1, 0, ops)
  {
    hide OpsOf;
    var x, t, more := z[|z| - 1], Trail(z), z + [z[|z| - 1]];
    TrailMore(z);
    GroupsMore(x, t);
    hide Trail, Groups, LeftOver, Front;
  }

  lemma FullGroup(x: nat)
    ensures Rest(0, 138) == [Zeros(138)] && (x != 0 ==> Rest(x, 6) == [Again(6)])
  {}

  lemma NoRest(x: nat, ops: seq<Op>)
    ensures ops + Rest(x, 0) == ops
  {}

  /** What a zero brings about. */
  lemma ZeroNext(z: seq<nat>, repeats: nat, zeros: nat, ops: seq<Op>)
    requires InRun(z, repeats, zeros, ops)
    ensures z != [] && z[|z| - 1] == 0 ==> repeats == 0
    ensures z != [] && z[|z| - 1] != 0 ==> zeros == 0
    ensures z == [] ==> zeros == repeats == 0
    ensures var ops' := if z == [] || z[|z| - 1] == 0 then ops else ops + Rest(z[|z| - 1], repeats);
      if zeros == 137 then InRun(z + [0], 0, 0, ops' + [Zeros(138)]) else InRun(z + [0], 0, zeros + 1, ops')
  {
    hide InRun, OpsOf, Trail, Rest;
    PendingKind(z, repeats, zeros, ops);
    if z != [] && z[|z| - 1] == 0 {
      ZerosGoOn(z, zeros, ops);
    } else {
      if z != [] { RunEnds(z, repeats, zeros, ops); }
      RunBegins(z, 0);
    }
  }

  /** What another length brings about. */
  lemma OtherNext(z: seq<nat>, x: nat, repeats: nat, zeros: nat, ops: seq<Op>)
    requires InRun(z, repeats, zeros, ops) && x != 0
    ensures z != [] && z[|z| - 1] == 0 ==> repeats == 0
    ensures z != [] && z[|z| - 1] != 0 ==> zeros == 0
    ensures z == [] ==> zeros == repeats == 0
    ensures if z != [] && z[|z| - 1] == x then if repeats == 5 then InRun(z + [x], 0, 0, ops + [Again(6)]) else InRun(z + [x], repeats + 1, 0, ops)
      else InRun(z + [x], 0, 0, (if z == [] then ops else ops + Rest(z[|z| - 1], repeats + zeros)) + [One(x)])
  {
    hide InRun, OpsOf, Trail, Rest;
    PendingKind(z, repeats, zeros, ops);
    if z != [] && z[|z| - 1] == x {
      RepeatsGoOn(z, repeats, ops);
    } else {
      if z != [] { RunEnds(z, repeats, zeros, ops); }
      RunBegins(z, x);
    }
  }

  lemma GroupsMore(x: nat, k: nat)
    requires k > 0
    ensures if LeftOver(x, k) == (if x == 0 then 137 else 5) then LeftOver(x, k + 1) == 0 && Groups(x, k + 1) == Groups(x, k) + [if x == 0 then Zeros(138) else Again(6)]
      else LeftOver(x, k + 1) == LeftOver(x, k) + 1 && Groups(x, k + 1) == Groups(x, k)
  {
    if x == 0 { NextMultiple(k, 138); } else { NextMultiple(k - 1, 6); }
  }

  lemma NextMultiple(k: nat, g: nat)
    requires g > 1
    ensures if k % g == g - 1 then (k + 1) % g == 0 && (k + 1) / g == k / g + 1 else (k + 1) % g == k % g + 1 && (k + 1) / g == k / g
  {
    var q, r := k / g, k % g;
    assert k == g * q + r;
    if r == g - 1 { DivModUnique(k + 1, g, q + 1, 0); } else { DivModUnique(k + 1, g, q, r + 1); }
  }

  // ---------------------------------------------------------------- packing

  /** The packer's memory: the operations written so far and their symbol counts. */
  ghost predicate Written(packed: seq<u8>, n: nat, counts: seq<u16>, ops: seq<Op>)
  {
    && OpsFit(ops) && AllOk(ops) && n <= |packed| && packed[..n] == Packed(ops) && |counts| == NUM_LENGTH_SYMS
    && forall sym :: 0 <= sym < NUM_LENGTH_SYMS ==> counts[sym] == SymCount(ops, sym)
  }

  /** Lengths read but not written yet: zeros, or repeats of the last length. */
  ghost predicate Pending(sizes: seq<nat>, i: nat, prev: nat, repeats: nat, zeros: nat, ops: seq<Op>)
  {
    && i <= |sizes| && OpsFit(ops) && (repeats == 0 || zeros == 0) && repeats < 6 && zeros < 138
    && (i > 0 ==> prev == sizes[i - 1]) && (i == 0 ==> prev > 15) && repeats + zeros <= i
    && (repeats > 0 ==> Lengths(ops) != [] && prev != 0 && Lengths(ops)[|Lengths(ops)| - 1] == prev)
    && (zeros == 0 && i > 0 && prev != 0 ==> Lengths(ops) != [] && Lengths(ops)[|Lengths(ops)| - 1] == prev)
    && Lengths(ops) + Repeat(if repeats > 0 then prev else 0, repeats + zeros) == sizes[..i]
  }

  method Emit(packed: array<u8>, n: nat, counts: array<u16>, o: Op, ghost ops: seq<Op>) returns (n': nat, ghost ops': seq<Op>)
    requires Written(packed[..], n, counts[..], ops) && OpFits(Lengths(ops), o) && n + |OpBytes(o)| <= packed.Length && |ops| < 0xFFFF
    modifies packed, counts
    ensures ops' == ops + [o] && Written(packed[..], n', counts[..], ops') && Lengths(ops') == ApplyOp(Lengths(ops), o)
  {
    hide Packed, SymCount, Lengths, Pow2, OpsFit;
    ghost var p, c := packed[..], counts[..];
    ops' := ops + [o];
    NextOp(ops, o);
    PackNext(ops, o);
    SymCountBound(ops, OpSym(o));
    packed[n] := OpSym(o);
    n' := n + 1;
    if !o.One? {
      packed[n + 1] := OpExtra(o);
      n' := n + 2;
    }
    counts[OpSym(o)] := counts[OpSym(o)] + 1;
    assert packed[..n'] == p[..n] + OpBytes(o);
    assert counts[..] == c[OpSym(o) := c[OpSym(o)] + 1];
  }

  lemma RepeatMore(h: seq<nat>, x: nat, k: nat)
    ensures (h + Repeat(x, k)) + [x] == h + Repeat(x, k + 1)
  {}

  /** `TDEFL_RLE_PREV_CODE_SIZE`: the repeats of the last length that are pending. */
  method FlushRepeats(packed: array<u8>, n: nat, counts: array<u16>, prev: nat, repeats: nat, ghost ops: seq<Op>)
    returns (n': nat, ghost ops': seq<Op>)
    requires Written(packed[..], n, counts[..], ops) && repeats <= 6 && |Lengths(ops)| + repeats <= packed.Length < 0xFFFF
    requires repeats > 0 ==> prev <= 15 && Lengths(ops) != [] && Lengths(ops)[|Lengths(ops)| - 1] == prev
    modifies packed, counts
    ensures Written(packed[..], n', counts[..], ops') && ops <= ops' && Lengths(ops') == Lengths(ops) + Repeat(prev, repeats)
    ensures prev != 0 || repeats == 0 ==> ops' == ops + Rest(prev, repeats)
  {
    hide Packed, SymCount, Lengths, Pow2, OpsFit;
    n', ops' := n, ops;
    PackedShort(ops);
    ghost var h := Lengths(ops);
    if repeats >= 3 {
      n', ops' := Emit(packed, n, counts, Again(repeats), ops);
    } else {
      var k := 0;
      while k < repeats
        invariant k <= repeats && Written(packed[..], n', counts[..], ops') && Lengths(ops') == h + Repeat(prev, k)
        invariant ops' == ops + Many(One(prev), k)
      {
        PackedShort(ops');
        RepeatMore(h, prev, k);
        n', ops' := Emit(packed, n', counts, One(prev), ops');
        k := k + 1;
      }
    }
  }

  /** `TDEFL_RLE_ZERO_CODE_SIZE`: the zeros that are pending. */
  method FlushZeros(packed: array<u8>, n: nat, counts: array<u16>, zeros: nat, ghost ops: seq<Op>) returns (n': nat, ghost ops': seq<Op>)
    requires Written(packed[..], n, counts[..], ops) && zeros <= 138 && |Lengths(ops)| + zeros <= packed.Length < 0xFFFF
    modifies packed, counts
    ensures Written(packed[..], n', counts[..], ops') && ops <= ops' && Lengths(ops') == Lengths(ops) + Repeat(0, zeros)
    ensures ops' == ops + Rest(0, zeros)
  {
    hide Packed, SymCount, Lengths, Pow2, OpsFit;
    n', ops' := n, ops;
    PackedShort(ops);
    ghost var h := Lengths(ops);
    if zeros >= 3 {
      n', ops' := Emit(packed, n, counts, Zeros(zeros), ops);
    } else {
      var k := 0;
      while k < zeros
        invariant k <= zeros && Written(packed[..], n', counts[..], ops') && Lengths(ops') == h + Repeat(0, k)
        invariant ops' == ops + Many(One(0), k)
      {
        PackedShort(ops');
        RepeatMore(h, 0, k);
        n', ops' := Emit(packed, n', counts, One(0), ops');
        k := k + 1;
      }
    }
  }

  /** One round of the packing loop. */
  method PackOne(sizes: array<nat>, i: nat, prev: nat, repeats: nat, zeros: nat, packed: array<u8>, n: nat, counts: array<u16>, ghost ops: seq<Op>)
    returns (repeats': nat, zeros': nat, n': nat, ghost ops': seq<Op>)
    requires i < sizes.Length <= packed.Length < 0xFFFF && sizes[i] <= 15 && (forall k :: 0 <= k < i ==> sizes[k] <= 15)
    requires Written(packed[..], n, counts[..], ops) && Pending(sizes[..], i, prev, repeats, zeros, ops)
    requires InRun(sizes[..i], repeats, zeros, ops)
    modifies packed, counts
    ensures Written(packed[..], n', counts[..], ops') && Pending(sizes[..], i + 1, sizes[i], repeats', zeros', ops')
    ensures InRun(sizes[..i + 1], repeats', zeros', ops')
  {
    hide Written, Pending, InRun;
    var codeSize := sizes[i];
    if codeSize == 0 {
      repeats', zeros', n', ops' := PackZero(sizes, i, prev, repeats, zeros, packed, n, counts, ops);
    } else {
      repeats', zeros', n', ops' := PackOther(sizes, i, prev, repeats, zeros, packed, n, counts, ops);
    }
  }

  method PackZero(sizes: array<nat>, i: nat, prev: nat, repeats: nat, zeros: nat, packed: array<u8>, n: nat, counts: array<u16>, ghost ops: seq<Op>)
    returns (repeats': nat, zeros': nat, n': nat, ghost ops': seq<Op>)
    requires i < sizes.Length <= packed.Length < 0xFFFF && sizes[i] <= 15 && (forall k :: 0 <= k < i ==> sizes[k] <= 15)
    requires Written(packed[..], n, counts[..], ops) && Pending(sizes[..], i, prev, repeats, zeros, ops)
    requires InRun(sizes[..i], repeats, zeros, ops)
    requires sizes[i] == 0
    modifies packed, counts
    ensures Written(packed[..], n', counts[..], ops') && Pending(sizes[..], i + 1, sizes[i], repeats', zeros', ops')
    ensures InRun(sizes[..i + 1], repeats', zeros', ops')
  {
    hide Packed, SymCount, Lengths, Pow2, OpsFit, Repeat, InRun, OpsOf, Rest;
    ghost var z := sizes[..];
    assert z[..i + 1] == z[..i] + [0];
    ZeroNext(z[..i], repeats, zeros, ops);
    NoRest(prev, ops);
    FullGroup(prev);
    n', ops' := FlushRepeats(packed, n, counts, prev, repeats, ops);
    repeats' := 0;
    RepeatMore(Lengths(ops'), 0, zeros);
    zeros' := zeros + 1;
    if zeros' == 138 {
      n', ops' := FlushZeros(packed, n', counts, zeros', ops');
      zeros' := 0;
    }
  }

  method PackOther(sizes: array<nat>, i: nat, prev: nat, repeats: nat, zeros: nat, packed: array<u8>, n: nat, counts: array<u16>, ghost ops: seq<Op>)
    returns (repeats': nat, zeros': nat, n': nat, ghost ops': seq<Op>)
    requires i < sizes.Length <= packed.Length < 0xFFFF && sizes[i] <= 15 && (forall k :: 0 <= k < i ==> sizes[k] <= 15)
    requires Written(packed[..], n, counts[..], ops) && Pending(sizes[..], i, prev, repeats, zeros, ops)
    requires InRun(sizes[..i], repeats, zeros, ops)
    requires sizes[i] != 0
    modifies packed, counts
    ensures Written(packed[..], n', counts[..], ops') && Pending(sizes[..], i + 1, sizes[i], repeats', zeros', ops')
    ensures InRun(sizes[..i + 1], repeats', zeros', ops')
  {
    hide Packed, SymCount, Lengths, Pow2, OpsFit, Repeat, InRun, OpsOf, Rest;
    ghost var z := sizes[..];
    var codeSize := sizes[i];
    assert z[..i + 1] == z[..i] + [codeSize];
    OtherNext(z[..i], codeSize, repeats, zeros, ops);
    NoRest(0, ops);
    NoRest(prev, ops);
    NoRest(prev, ops + Rest(0, zeros));
    FullGroup(prev);
    repeats' := repeats;
    n', ops' := FlushZeros(packed, n, counts, zeros, ops);
    zeros' := 0;
    if codeSize != prev {
      n', ops' := FlushRepeats(packed, n', counts, prev, repeats, ops');
      repeats' := 0;
      n', ops' := EmitOne(packed, n', counts, codeSize, ops');
    } else {
      RepeatMore(Lengths(ops'), prev, repeats);
      repeats' := repeats + 1;
      if repeats' == 6 {
        n', ops' := FlushRepeats(packed, n', counts, prev, repeats', ops');
        repeats' := 0;
      }
    }
  }

  method EmitOne(packed: array<u8>, n: nat, counts: array<u16>, x: nat, ghost ops: seq<Op>) returns (n': nat, ghost ops': seq<Op>)
    requires Written(packed[..], n, counts[..], ops) && x <= 15 && |Lengths(ops)| < packed.Length < 0xFFFF
    modifies packed, counts
    ensures Written(packed[..], n', counts[..], ops') && ops' == ops + [One(x)] && Lengths(ops') == Lengths(ops) + [x]
  {
    hide Packed, SymCount, Lengths, Pow2, OpsFit;
    PackedShort(ops);
    n', ops' := Emit(packed, n, counts, One(x), ops);
  }

  /** The packing loop of `tdefl_start_dynamic_block`: whatever the lengths, the operations written
      stand for exactly them, and each symbol is counted as often as it is used. */
  method PackCodeSizes(sizes: array<nat>, packed: array<u8>, counts: array<u16>) returns (n: nat, ghost ops: seq<Op>)
    requires sizes.Length <= packed.Length < 0xFFFF && counts.Length == NUM_LENGTH_SYMS
    requires forall k :: 0 <= k < sizes.Length ==> sizes[k] <= 15
    modifies packed, counts
    ensures Written(packed[..], n, counts[..], ops) && Lengths(ops) == sizes[..] && ops == OpsOf(sizes[..])
  {
    hide Packed, SymCount, OpsFit, InRun, OpsOf, Rest, Lengths, Repeat;
    ghost var z := sizes[..];
    n, ops := 0, [];
    forall s | 0 <= s < counts.Length { counts[s] := 0; }
    NothingPacked();
    var prev, repeats: nat, zeros: nat := 0xFF, 0, 0;
    for i := 0 to sizes.Length
      invariant sizes[..] == z && Written(packed[..], n, counts[..], ops) && Pending(z, i, prev, repeats, zeros, ops)
      invariant InRun(z[..i], repeats, zeros, ops)
    {
      repeats, zeros, n, ops := PackOne(sizes, i, prev, repeats, zeros, packed, n, counts, ops);
      prev := sizes[i];
    }
    assert z[..sizes.Length] == z;
    PendingKind(z, repeats, zeros, ops);
    if z != [] { RunEnds(z, repeats, zeros, ops); }
    NoRest(0, ops);
    NoRest(prev, ops);
    if repeats > 0 {
      n, ops := FlushRepeats(packed, n, counts, prev, repeats, ops);
    } else {
      n, ops := FlushZeros(packed, n, counts, zeros, ops);
    }
  }

  lemma NothingPacked()
    ensures OpsFit([]) && AllOk([]) && Lengths([]) == [] && Packed([]) == [] && forall sym :: SymCount([], sym) == 0
    ensures InRun([], 0, 0, [])
  {}

  // ---------------------------------------------------------------- unpacking

  const LEN_CODES := 457 // 288 + 32 + 137

  /** The decompressor's `memset`: `s` lengths equal to `x` from position `counter` on. */
  method Set(lens: array<nat>, counter: nat, x: nat, s: nat)
    requires counter + s <= lens.Length
    modifies lens
    ensures lens[..counter] == old(lens[..counter]) && lens[..counter + s] == old(lens[..counter]) + Repeat(x, s)
  {
    var i := 0;
    while i < s
      invariant i <= s && lens[..counter] == old(lens[..counter])
      invariant forall k :: counter <= k < counter + i ==> lens[k] == x
    {
      lens[counter + i] := x;
      i := i + 1;
    }
    assert lens[..counter + s] == lens[..counter] + lens[counter..counter + s];
  }

  /** One symbol of the decompressor's loop with the number from its extra bits. A repeat with nothing
      to repeat is an error. As long as lengths are missing, a run does not leave the array. */
  method UnpackOp(lens: array<nat>, counter: nat, sym: nat, extra: nat, ghost o: Op) returns (ok: bool, counter': nat)
    requires lens.Length == LEN_CODES && counter < 320 && OpOk(o) && sym == OpSym(o)
    requires OpFits(lens[..counter], o) ==> extra == OpExtra(o)
    modifies lens
    ensures ok <==> OpFits(old(lens[..counter]), o)
    ensures counter <= counter' <= lens.Length
    ensures OpFits(old(lens[..counter]), o) ==> lens[..counter'] == ApplyOp(old(lens[..counter]), o)
    ensures sym < 16 ==> ok && lens[..counter'] == old(lens[..counter]) + [sym]
    ensures sym == 16 ==> (ok <==> counter > 0) && (ok ==> lens[..counter'] == old(lens[..counter]) + Repeat(old(lens[counter - 1]), 3 + extra))
    ensures sym == 17 ==> ok && lens[..counter'] == old(lens[..counter]) + Repeat(0, 3 + extra)
    ensures sym == 18 ==> ok && lens[..counter'] == old(lens[..counter]) + Repeat(0, 11 + extra)
  {
    ok, counter' := true, counter;
    if sym < 16 {
      lens[counter] := sym;
      counter' := counter + 1;
      assert lens[..counter'] == old(lens[..counter]) + [sym];
      assert lens[..counter] == old(lens[..counter]);
      return;
    }
    if sym == 16 && counter == 0 {
      return false, counter;
    }
    var s := extra + if sym == 18 then 11 else 3;
    ghost var before := lens[..counter];
    Set(lens, counter, if sym == 16 then lens[counter - 1] else 0, s);
    counter' := counter + s;
    assert sym == 16 ==> before[counter - 1] == before[|before| - 1];
  }
}
