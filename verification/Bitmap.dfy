/** The kernel's map of free page frames (`DefaultPhysicalMemoryAllocator::init`): a clear bit for
    every page that the hand-over reports as free. */
module Bitmap {
  import opened UefiMemory

  const BITS_PER_PAGE := 32768
  const NO_PAGE := 0xFFFF_FFFF_FFFF_FFFF

  // ---------------------------------------------------------------- bits of a byte

  /** `1 << k` in a byte. */
  function OneBit(k: nat): bv8
    requires k < 8
  {
    match k
    case 0 => 1
    case 1 => 2
    case 2 => 4
    case 3 => 8
    case 4 => 16
    case 5 => 32
    case 6 => 64
    case _ => 128
  }

  predicate Bit(b: bv8, k: nat)
    requires k < 8
  {
    b & OneBit(k) != 0
  }

  /** The pages of a byte stand from its low end up. */
  lemma BitFromBelow(b: bv8, k: nat)
    requires k < 8
    ensures Bit(b, k) <==> (b >> k) & 1 == 1
  {}

  lemma OneBitBit(j: nat, k: nat)
    requires j < 8 && k < 8
    ensures Bit(OneBit(j), k) <==> j == k
  {}

  lemma OrBit(a: bv8, b: bv8, k: nat)
    requires k < 8
    ensures Bit(a | b, k) <==> Bit(a, k) || Bit(b, k)
  {}

  lemma ClearBit(a: bv8, mask: bv8, k: nat)
    requires k < 8
    ensures Bit(a & !mask, k) <==> Bit(a, k) && !Bit(mask, k)
  {}

  lemma PlainBits(k: nat)
    requires k < 8
    ensures !Bit(0, k) && Bit(0xFF, k)
  {}

  // ---------------------------------------------------------------- masks

  /** The bits `from` to `to - 1`, and no others. */
  ghost predicate Covers(mask: bv8, from: nat, to: nat)
  {
    forall k: nat :: k < 8 ==> (Bit(mask, k) <==> from <= k < to)
  }

  /** Where the byte of page `p` ends, or the range. */
  function ByteEnd(p: nat, end: nat): nat
  {
    var next := (p / 8 + 1) * 8;
    if end < next then end else next
  }

  /** `makeSetBitsMask`: the bits of the pages from `page` on, as far as they lie in one byte. */
  method MakeSetBitsMask(page: nat, endPage: nat) returns (mask: bv8, page': nat)
    ensures page >= endPage ==> mask == 0 && page' == page
    ensures page < endPage ==> page' == ByteEnd(page, endPage) && Covers(mask, page % 8, page % 8 + (page' - page))
  {
    hide Bit;
    mask, page' := 0, page;
    if page >= endPage {
      return;
    }
    var more := true;
    NoBits(page % 8);
    while more
      invariant page <= page' <= ByteEnd(page, endPage) && (more <==> page' < ByteEnd(page, endPage))
      invariant Covers(mask, page % 8, page % 8 + (page' - page))
      decreases endPage - page'
    {
      SameByte(page, page', endPage);
      OneMore(mask, page % 8, page' % 8);
      mask := mask | OneBit(page' % 8);
      page' := page' + 1;
      more := page' % 8 != 0 && page' < endPage;
    }
  }

  lemma NoBits(k: nat)
    ensures Covers(0, k, k)
  {
    hide Bit;
    forall j: nat | j < 8 ensures !Bit(0, j) { PlainBits(j); }
  }

  lemma SameByte(p: nat, q: nat, end: nat)
    requires p <= q < ByteEnd(p, end)
    ensures q % 8 == p % 8 + (q - p) && q / 8 == p / 8
    ensures q + 1 <= ByteEnd(p, end) && ((q + 1) % 8 != 0 && q + 1 < end <==> q + 1 < ByteEnd(p, end))
  {
    var a := p / 8;
    assert q == 8 * a + (p % 8 + (q - p));
  }

  lemma OneMore(mask: bv8, from: nat, to: nat)
    requires Covers(mask, from, to) && from <= to < 8
    ensures Covers(mask | OneBit(to), from, to + 1)
  {
    hide Bit;
    var more := mask | OneBit(to);
    forall k: nat | k < 8 ensures Bit(more, k) <==> from <= k < to + 1 {
      OrBit(mask, OneBit(to), k);
      OneBitBit(to, k);
    }
  }

  // ---------------------------------------------------------------- bits of pages

  /** The bit of a page: set means "not known to be free". */
  predicate PageBit(s: seq<bv8>, p: nat)
    requires p < 8 * |s|
  {
    Bit(s[p / 8], p % 8)
  }

  /** The pages from `from` to `to - 1` have been cleared, and no others. */
  ghost predicate Cleared(s: seq<bv8>, s': seq<bv8>, from: nat, to: nat)
  {
    && |s| == |s'|
    && forall p: nat :: p < 8 * |s| ==> (PageBit(s', p) <==> PageBit(s, p) && !(from <= p < to))
  }

  /** Clearing part of a byte. */
  lemma ClearInByte(s: seq<bv8>, from: nat, to: nat, mask: bv8)
    requires from <= to <= ByteEnd(from, to) && from / 8 < |s| && Covers(mask, from % 8, from % 8 + (to - from))
    ensures Cleared(s, s[from / 8 := s[from / 8] & !mask], from, to)
  {
    hide Bit;
    var s' := s[from / 8 := s[from / 8] & !mask];
    forall p: nat | p < 8 * |s| ensures PageBit(s', p) <==> PageBit(s, p) && !(from <= p < to) {
      InSameByte(from, to, p);
      if p / 8 == from / 8 { ClearBit(s[from / 8], mask, p % 8); }
    }
  }

  lemma InSameByte(from: nat, to: nat, p: nat)
    requires from <= to <= ByteEnd(from, to)
    ensures from <= p < to <==> p / 8 == from / 8 && from % 8 <= p % 8 < from % 8 + (to - from)
  {
    var a := from / 8;
    assert to <= 8 * a + 8;
  }

  /** Clearing a whole byte. */
  lemma ClearByte(s: seq<bv8>, from: nat)
    requires from % 8 == 0 && from / 8 < |s|
    ensures Cleared(s, s[from / 8 := 0], from, from + 8)
  {
    hide Bit;
    var s' := s[from / 8 := 0];
    forall p: nat | p < 8 * |s| ensures PageBit(s', p) <==> PageBit(s, p) && !(from <= p < from + 8) {
      if p / 8 == from / 8 { PlainBits(p % 8); }
    }
  }

  lemma ClearMore(s: seq<bv8>, s': seq<bv8>, s'': seq<bv8>, from: nat, mid: nat, to: nat)
    requires Cleared(s, s', from, mid) && Cleared(s', s'', mid, to) && from <= mid <= to
    ensures Cleared(s, s'', from, to)
  {
    hide PageBit;
  }

  // ---------------------------------------------------------------- the allocator's initialisation

  /** Pages of a bitmap with a bit for each page of memory. */
  function PagesNeeded(memSize: nat): (n: nat)
    ensures Least(n, memSize)
  {
    (memSize / PAGE + BITS_PER_PAGE - 1) / BITS_PER_PAGE
  }

  /** The least number of pages of 4096 bytes that have a bit for each page of memory. */
  predicate Least(n: nat, memSize: nat)
  {
    memSize / 4096 <= 8 * 4096 * n && (n > 0 ==> 8 * 4096 * (n - 1) < memSize / 4096)
  }

  /** There is only one such number. */
  lemma LeastIsOne(n: nat, k: nat, memSize: nat)
    requires Least(n, memSize) && Least(k, memSize)
    ensures n == k
  {}

  /** All of memory has bits. */
  lemma BitmapSuffices(memSize: nat)
    ensures memSize / PAGE <= 8 * (PagesNeeded(memSize) * PAGE)
  {
    Rounded(memSize / PAGE);
  }

  lemma Rounded(n: nat)
    ensures n <= (n + BITS_PER_PAGE - 1) / BITS_PER_PAGE * BITS_PER_PAGE
  {}

  /** What `memset` does: the first page of every run of new pages becomes all ones; the contents of
      the other pages are whatever they were. */
  function FilledBy(raw: seq<bv8>, starts: set<nat>): (f: seq<bv8>)
    ensures |f| == |raw| && forall b :: 0 <= b < |raw| ==> f[b] == if b / PAGE in starts then 0xFF else raw[b]
  {
    seq(|raw|, b requires 0 <= b < |raw| => if b / PAGE in starts then 0xFF else raw[b])
  }

  /** Where in the bitmap the runs begin, in pages. */
  function Starts(runs: seq<nat>, at: nat): set<nat>
  {
    if runs == [] then {} else {at} + Starts(runs[1..], at + runs[0])
  }

  /** The tables for the pages from `lo` to `hi - 1` of the bitmap are there. */
  predicate Mappable(tables: nat -> bool, lo: nat, hi: nat)
  {
    forall p :: lo <= p < hi ==> tables(p)
  }

  ghost predicate Apart(bitmap: object, descriptors: object)
  {
    bitmap != descriptors
  }

  class BitmapAllocator {
    const bitmap: array<bv8>
    var lowestFreePage: nat
    var initialized: bool

    constructor (bitmap: array<bv8>)
      ensures this.bitmap == bitmap && lowestFreePage == NO_PAGE && !initialized
    {
      this.bitmap, lowestFreePage, initialized := bitmap, NO_PAGE, false;
    }

    /** The body of the marking loop: up to a whole byte, whole bytes, and what is left. */
    method MarkFree(run: PageSet)
      requires run.address / PAGE + run.count <= 8 * bitmap.Length
      modifies bitmap, this`lowestFreePage
      ensures Cleared(old(bitmap[..]), bitmap[..], run.address / PAGE, run.address / PAGE + run.count)
      ensures lowestFreePage == if run.address / PAGE < old(lowestFreePage) then run.address / PAGE else old(lowestFreePage)
    {
      hide PageBit, Bit;
      ghost var s := bitmap[..];
      var startPage := run.address / PAGE;
      var endPage := startPage + run.count;
      if startPage < lowestFreePage {
        lowestFreePage := startPage;
      }
      ClearNothing(s, startPage);
      ghost var lowest := lowestFreePage;
      var currentPage := startPage;
      if currentPage % 8 != 0 {
        ByteEnds(currentPage, endPage);
        currentPage := ClearPart(currentPage, endPage);
      }
      while currentPage + 8 <= endPage
        invariant startPage <= currentPage <= endPage && (currentPage % 8 == 0 || currentPage == endPage)
        invariant Cleared(s, bitmap[..], startPage, currentPage) && lowestFreePage == lowest
      {
        ghost var s' := bitmap[..];
        ClearByte(s', currentPage);
        bitmap[currentPage / 8] := 0;
        assert bitmap[..] == s'[currentPage / 8 := 0];
        ClearMore(s, s', bitmap[..], startPage, currentPage, currentPage + 8);
        currentPage := currentPage + 8;
      }
      if currentPage < endPage {
        ghost var s' := bitmap[..];
        InLastByte(currentPage, endPage);
        var last := ClearPart(currentPage, endPage);
        assert last == endPage;
        ClearMore(s, s', bitmap[..], startPage, currentPage, endPage);
      }
    }

    /** The loop that gets pages for the bitmap. Each run of new pages is mapped behind the others, and
        then its first page is filled with ones. Mapping needs no pages: it fails where tables are
        missing. The status of the last mapping is the allocator's status, so that it reads "ok" after a
        failure exactly if there were some pages, but not enough, and all of them could be mapped. */
    method GetPages(boot: UefiMemoryBootstrapper, pages: nat, tables: nat -> bool) returns (ok: bool)
      requires boot.Valid() && Apart(bitmap, boot.descriptors) && bitmap.Length == pages * PAGE && !initialized
      modifies boot`handed, boot.descriptors, bitmap, this`initialized, this`lowestFreePage
      ensures boot.Valid() && boot.descriptorIndex == old(boot.descriptorIndex) && (ok ==> lowestFreePage == old(lowestFreePage))
      ensures ok ==> var ds, from := old(boot.descriptors[..]), boot.descriptorIndex + 1;
        && boot.descriptors[..] == Left(ds, from, pages) && bitmap[..] == FilledBy(old(bitmap[..]), Starts(Runs(ds, from, pages), 0))
      ensures var got := Pages(Runs(old(boot.descriptors[..]), boot.descriptorIndex + 1, pages));
        && (ok <==> got == pages && Mappable(tables, 0, got)) && (initialized <==> got > 0 && Mappable(tables, 0, got))
    {
      hide Conserved, Offered, InRun, HandedOut, UefiMemoryBootstrapper.Valid, Runs, Left, Starts, Pages, NextFree, FilledBy;
      ghost var ds, raw, from, taken: seq<nat> := boot.descriptors[..], bitmap[..], boot.descriptorIndex + 1, [];
      var done := 0;
      NothingTaken(ds, from, pages, raw);
      while done < pages
        invariant boot.Valid() && boot.descriptorIndex + 1 == from && lowestFreePage == old(lowestFreePage)
        invariant Progress(ds, boot.descriptors[..], from, pages, taken, done)
        invariant bitmap[..] == FilledBy(raw, Starts(taken, 0)) 
        invariant Mappable(tables, 0, done) && (initialized <==> done > 0) && done <= pages
        decreases pages - done
      {
        ghost var left := boot.descriptors[..];
        var run := boot.AllocatePages(pages - done);
        if run.None? {
          NoneLeft(ds, left, from, pages, taken, done);
          return false;
        }
        OneTaken(ds, left, from, pages, taken, done);
        var mapped := Mappable(tables, done, done + run.value.count);
        if !mapped {
          NotMappable(ds, boot.descriptors[..], from, pages, taken + [run.value.count], done, done + run.value.count, tables);
          initialized := false;
          if done > 0 { lowestFreePage := 8 * bitmap.Length; }
          return false;
        }
        initialized := true;
        FillPage(done, Starts(taken, 0), raw);
        StartsNext(taken, run.value.count, 0);
        taken := taken + [run.value.count];
        done := done + run.value.count;
      }
      AllTaken(ds, boot.descriptors[..], from, pages, taken, done);
      ok := true;
    }

    method FillPage(page: nat, ghost starts: set<nat>, ghost raw: seq<bv8>)
      requires (page + 1) * PAGE <= bitmap.Length && bitmap[..] == FilledBy(raw, starts)
      modifies bitmap
      ensures bitmap[..] == FilledBy(raw, starts + {page})
    {
      assert |raw| == bitmap.Length;
      forall b | page * PAGE <= b < (page + 1) * PAGE { bitmap[b] := 0xFF; }
    }

    /** The loop over the ranges that the hand-over reports: afterwards nothing is left there, exactly
        the bits of the pages that were there have been cleared, and the least of them is known. */
    method MarkReported(boot: UefiMemoryBootstrapper)
      requires boot.Valid() && Apart(bitmap, boot.descriptors) && boot.memSize < WORD
      requires bitmap.Length == PagesNeeded(boot.memSize) * PAGE && lowestFreePage == NO_PAGE
      modifies boot`handed, boot`descriptorIndex, boot.descriptors, bitmap, this`lowestFreePage
      ensures boot.Valid() && forall f: nat :: !Offered(boot.descriptors[..], f)
      ensures Marked(old(boot.descriptors[..]), old(bitmap[..]), bitmap[..])
      ensures LeastOffered(old(boot.descriptors[..]), lowestFreePage)
    {
      hide UefiMemoryBootstrapper.Valid, PageBit, InRun, Offered, HandedOut, Cleared;
      ghost var s, ds, runs: seq<PageSet> := bitmap[..], boot.descriptors[..], [];
      BitmapSuffices(boot.memSize);
      NothingReported(s);
      while true
        invariant boot.Valid() && Reported(ds, boot.descriptors[..], runs)
        invariant ClearedRuns(s, bitmap[..], runs) && LeastStart(runs, lowestFreePage)
        decreases FreeCount(boot.descriptors[..])
      {
        ghost var left, s', low := boot.descriptors[..], bitmap[..], lowestFreePage;
        var range := boot.MoveNext();
        if range.None? {
          break;
        }
        OneReported(ds, left, boot.descriptors[..], runs, range.value);
        MarkFree(range.value);
        OneCleared(s, s', bitmap[..], runs, range.value);
        LeastMore(runs, low, range.value);
        runs := runs + [range.value];
      }
      AllReported(ds, boot.descriptors[..], runs, s, bitmap[..], lowestFreePage);
    }

    /** `init`, once a memory map is there. It runs to its end exactly if there is address space, there are
        enough pages, and they can be mapped; then, whatever the new pages held, the bit of a page that was
        free when the marking began is clear, and every other bit is as the filling left it. The status
        also reads "ok" if it stops early, exactly if there were some pages but not enough, and all of them
        could be mapped. */
    method Init(boot: UefiMemoryBootstrapper, tables: nat -> bool) returns (ghost complete: bool)
      requires boot.Valid() && Apart(bitmap, boot.descriptors) && boot.memSize < WORD && boot.nextFreeVirtualPage < WORD
      requires bitmap.Length == PagesNeeded(boot.memSize) * PAGE && lowestFreePage == NO_PAGE && !initialized
      modifies boot, boot.descriptors, bitmap, this`lowestFreePage, this`initialized
      ensures boot.Valid() && (complete ==> forall f: nat :: !Offered(boot.descriptors[..], f))
      ensures complete ==> forall pages: nat :: Least(pages, boot.memSize) ==>
        var ds, from := old(boot.descriptors[..]), old(boot.descriptorIndex) + 1;
        && LeastOffered(Left(ds, from, pages), lowestFreePage)
        && Marked(Left(ds, from, pages), FilledBy(old(bitmap[..]), Starts(Runs(ds, from, pages), 0)), bitmap[..])
      ensures forall pages: nat :: Least(pages, boot.memSize) ==>
        var next := old(boot.nextFreeVirtualPage);
        var got := Pages(Runs(old(boot.descriptors[..]), old(boot.descriptorIndex) + 1, pages));
        && (complete <==> Reservable(next, pages, boot.mapsEnd) && Mappable(tables, 0, got) && got == pages)
        && (initialized && !complete <==> Reservable(next, pages, boot.mapsEnd) && Mappable(tables, 0, got) && 0 < got < pages)
        && (complete ==> initialized)
    {
      hide PageBit, InRun, Offered, HandedOut, Conserved, Runs, Left, Starts, Pages, FilledBy, Mappable, Marked, LeastOffered, Least;
      complete := false;
      var pages := PagesNeeded(boot.memSize);
      forall n: nat | Least(n, boot.memSize) ensures n == pages { LeastIsOne(n, pages, boot.memSize); }
      var start := boot.ReserveVirtualMemory(pages);
      if start.None? {
        return;
      }
      RunsWithin(boot.descriptors[..], boot.descriptorIndex + 1, pages);
      var ok := GetPages(boot, pages, tables);
      if !ok {
        return;
      }
      MarkReported(boot);
      initialized := true;
      complete := true;
    }

    /** The pages from `page` on that share a byte. */
    method ClearPart(page: nat, endPage: nat) returns (page': nat)
      requires endPage <= 8 * bitmap.Length && (page == endPage ==> page / 8 < bitmap.Length) && page <= endPage
      modifies bitmap
      ensures page' == (if page < endPage then ByteEnd(page, endPage) else page) && Cleared(old(bitmap[..]), bitmap[..], page, page')
    {
      hide PageBit, Bit;
      ghost var s := bitmap[..];
      var mask;
      mask, page' := MakeSetBitsMask(page, endPage);
      if page == endPage { NoBits(page % 8); }
      ClearInByte(s, page, page', mask);
      bitmap[page / 8] := bitmap[page / 8] & !mask;
      assert bitmap[..] == s[page / 8 := s[page / 8] & !mask];
    }
  }

  lemma ClearNothing(s: seq<bv8>, p: nat)
    ensures Cleared(s, s, p, p)
  {}

  lemma ByteEnds(p: nat, end: nat)
    requires p <= end
    ensures p < end ==> p < ByteEnd(p, end) <= end && (ByteEnd(p, end) % 8 == 0 || ByteEnd(p, end) == end)
  {}

  lemma InLastByte(p: nat, end: nat)
    requires p % 8 == 0 && p < end < p + 8
    ensures ByteEnd(p, end) == end
  {}

  // ---------------------------------------------------------------- the runs for the bitmap

  lemma NothingTaken(ds: seq<Descriptor>, from: nat, pages: nat, raw: seq<bv8>)
    ensures Progress(ds, ds, from, pages, [], 0) && FilledBy(raw, Starts([], 0)) == raw
  {
    assert [] + Runs(ds, from, pages) == Runs(ds, from, pages);
  }

  /** The first `done` pages are there; what is still to come is as planned. */
  ghost predicate Progress(ds: seq<Descriptor>, now: seq<Descriptor>, from: nat, pages: nat, taken: seq<nat>, done: nat)
  {
    && done == Pages(taken) <= pages && Runs(ds, from, pages) == taken + Runs(now, from, pages - done)
    && Left(ds, from, pages) == Left(now, from, pages - done)
  }

  lemma OneTaken(ds: seq<Descriptor>, now: seq<Descriptor>, from: nat, pages: nat, taken: seq<nat>, done: nat)
    requires Progress(ds, now, from, pages, taken, done) && done < pages && NextFree(now, from) < |now|
    ensures var i := NextFree(now, from); var n := Portion(now[i], pages - done);
      Progress(ds, now[i := Less(now[i], n)], from, pages, taken + [n], done + n)
  {
    hide NextFree, Runs, Left, Pages, Less, Portion;
    var i := NextFree(now, from);
    var n := Portion(now[i], pages - done);
    PagesNext(taken, n);
    RunsUnfold(now, from, pages - done);
    assert taken + ([n] + Runs(now[i := Less(now[i], n)], from, pages - done - n)) == (taken + [n]) + Runs(now[i := Less(now[i], n)], from, pages - done - n);
  }

  lemma {:induction false} RunsWithin(ds: seq<Descriptor>, from: nat, need: nat)
    ensures Pages(Runs(ds, from, need)) <= need
    decreases need
  {
    hide NextFree;
    var i := NextFree(ds, from);
    if need > 0 && i < |ds| {
      var n := Portion(ds[i], need);
      RunsWithin(ds[i := Less(ds[i], n)], from, need - n);
    }
  }

  /** All pages to be had include those taken so far. */
  lemma NotMappable(ds: seq<Descriptor>, now: seq<Descriptor>, from: nat, pages: nat, taken: seq<nat>, lo: nat, done: nat, tables: nat -> bool)
    requires Progress(ds, now, from, pages, taken, done) && !Mappable(tables, lo, done)
    ensures !Mappable(tables, 0, Pages(Runs(ds, from, pages)))
  {
    PagesOfBoth(taken, Runs(now, from, pages - done));
  }

  lemma {:induction false} PagesOfBoth(a: seq<nat>, b: seq<nat>)
    ensures Pages(a + b) == Pages(a) + Pages(b)
  {
    if a == [] {
      assert a + b == b;
    } else {
      PagesOfBoth(a[1..], b);
      assert (a + b)[1..] == a[1..] + b;
    }
  }

  lemma RunsUnfold(ds: seq<Descriptor>, from: nat, need: nat)
    requires need > 0 && NextFree(ds, from) < |ds|
    ensures var i := NextFree(ds, from); var n := Portion(ds[i], need);
      && Runs(ds, from, need) == [n] + Runs(ds[i := Less(ds[i], n)], from, need - n)
      && Left(ds, from, need) == Left(ds[i := Less(ds[i], n)], from, need - n)
  {
    hide NextFree;
  }

  lemma NoneLeft(ds: seq<Descriptor>, now: seq<Descriptor>, from: nat, pages: nat, taken: seq<nat>, done: nat)
    requires Progress(ds, now, from, pages, taken, done) && done < pages && NextFree(now, from) >= |now|
    ensures Pages(Runs(ds, from, pages)) == done < pages
  {
    assert Runs(now, from, pages - done) == [];
    assert taken + [] == taken;
  }

  lemma AllTaken(ds: seq<Descriptor>, now: seq<Descriptor>, from: nat, pages: nat, taken: seq<nat>, done: nat)
    requires Progress(ds, now, from, pages, taken, done) && done == pages
    ensures Runs(ds, from, pages) == taken && Left(ds, from, pages) == now && Pages(taken) == pages
  {
    assert taken + [] == taken;
  }

  lemma {:induction false} PagesNext(runs: seq<nat>, n: nat)
    ensures Pages(runs + [n]) == Pages(runs) + n
  {
    if runs == [] {
      assert runs + [n] == [n] && [n][1..] == [];
    } else {
      PagesNext(runs[1..], n);
      assert (runs + [n])[1..] == runs[1..] + [n];
    }
  }

  lemma {:induction false} StartsNext(runs: seq<nat>, n: nat, at: nat)
    ensures Starts(runs + [n], at) == Starts(runs, at) + {at + Pages(runs)}
  {
    if runs == [] {
      assert runs + [n] == [n] && [n][1..] == [];
    } else {
      StartsNext(runs[1..], n, at + runs[0]);
      assert (runs + [n])[1..] == runs[1..] + [n];
    }
  }

  // ---------------------------------------------------------------- what has been reported

  /** A bit is clear if its page was offered, or if it was clear before. */
  ghost predicate Marked(ds: seq<Descriptor>, s: seq<bv8>, s': seq<bv8>)
  {
    |s| == |s'| && forall p: nat :: p < 8 * |s| ==> (PageBit(s', p) <==> PageBit(s, p) && !Offered(ds, p))
  }

  /** The least page offered, if there is one. */
  ghost predicate LeastOffered(ds: seq<Descriptor>, lowest: nat)
  {
    (forall f: nat :: Offered(ds, f) ==> lowest <= f) && (lowest == NO_PAGE || Offered(ds, lowest))
  }

  ghost predicate Reported(ds: seq<Descriptor>, left: seq<Descriptor>, runs: seq<PageSet>)
  {
    forall f: nat :: Offered(ds, f) <==> Offered(left, f) || HandedOut(runs, f)
  }

  ghost predicate ClearedRuns(s: seq<bv8>, s': seq<bv8>, runs: seq<PageSet>)
  {
    |s| == |s'| && forall p: nat :: p < 8 * |s| ==> (PageBit(s', p) <==> PageBit(s, p) && !HandedOut(runs, p))
  }

  ghost predicate LeastStart(runs: seq<PageSet>, lowest: nat)
  {
    && (forall i :: 0 <= i < |runs| ==> runs[i].count > 0 && lowest <= runs[i].address / PAGE)
    && (lowest == NO_PAGE || exists i :: 0 <= i < |runs| && lowest == runs[i].address / PAGE)
  }

  lemma NothingReported(s: seq<bv8>)
    ensures ClearedRuns(s, s, []) && forall f: nat :: !HandedOut([], f)
  {
    hide PageBit;
  }

  lemma OneReported(ds: seq<Descriptor>, left: seq<Descriptor>, left': seq<Descriptor>, runs: seq<PageSet>, run: PageSet)
    requires Reported(ds, left, runs) && forall f: nat :: Offered(left, f) <==> Offered(left', f) || InRun(run, f)
    ensures Reported(ds, left', runs + [run])
  {
    hide Offered, InRun, HandedOut;
    forall f: nat ensures Offered(ds, f) <==> Offered(left', f) || HandedOut(runs + [run], f) {
      HandedMore(runs, run, f);
    }
  }

  lemma OneCleared(s: seq<bv8>, s': seq<bv8>, s'': seq<bv8>, runs: seq<PageSet>, run: PageSet)
    requires ClearedRuns(s, s', runs) && Cleared(s', s'', run.address / PAGE, run.address / PAGE + run.count)
    ensures ClearedRuns(s, s'', runs + [run])
  {
    hide HandedOut, PageBit;
    forall p: nat | p < 8 * |s| ensures PageBit(s'', p) <==> PageBit(s, p) && !HandedOut(runs + [run], p) {
      HandedMore(runs, run, p);
    }
  }

  lemma LeastMore(runs: seq<PageSet>, lowest: nat, run: PageSet)
    requires LeastStart(runs, lowest) && run.count > 0
    ensures LeastStart(runs + [run], if run.address / PAGE < lowest then run.address / PAGE else lowest)
  {
    var more := runs + [run];
    assert more[|runs|] == run && forall k :: 0 <= k < |runs| ==> more[k] == runs[k];
  }

  lemma AllReported(ds: seq<Descriptor>, left: seq<Descriptor>, runs: seq<PageSet>, s: seq<bv8>, s': seq<bv8>, lowest: nat)
    requires Reported(ds, left, runs) && (forall f: nat :: !Offered(left, f)) && ClearedRuns(s, s', runs) && LeastStart(runs, lowest)
    ensures Marked(ds, s, s') && LeastOffered(ds, lowest)
  {
    hide Offered, PageBit;
    if i :| 0 <= i < |runs| && lowest == runs[i].address / PAGE {
      assert InRun(runs[i], lowest);
    }
  }

  // ---------------------------------------------------------------- when the bits tell which pages are free

  ghost predicate AllOnes(s: seq<bv8>)
  {
    forall b :: 0 <= b < |s| ==> s[b] == 0xFF
  }

  ghost predicate AllSingle(runs: seq<nat>)
  {
    forall k :: 0 <= k < |runs| ==> runs[k] == 1
  }

  /** Pages that descriptors from `from` to `hi - 1` have. */
  function PagesBefore(ds: seq<Descriptor>, from: nat, hi: nat): nat
    requires hi <= |ds|
    decreases hi
  {
    if hi <= from then 0 else PagesBefore(ds, from, hi - 1) + if IsFree(ds[hi - 1]) then ds[hi - 1].pages else 0
  }

  /** Requests for `need` pages get single pages exactly if every descriptor that is asked for more than
      one has no more than one. */
  ghost predicate OnePageEach(ds: seq<Descriptor>, from: nat, need: nat)
  {
    forall i :: from <= i < |ds| && IsFree(ds[i]) && PagesBefore(ds, from, i) + 1 < need ==> ds[i].pages == 1
  }

  lemma {:induction false} NothingBefore(ds: seq<Descriptor>, from: nat, hi: nat)
    requires hi <= |ds| && forall k :: from <= k < hi ==> !IsFree(ds[k])
    ensures PagesBefore(ds, from, hi) == 0
    decreases hi
  {
    if hi > from { NothingBefore(ds, from, hi - 1); }
  }

  lemma {:induction false} OneLessBefore(ds: seq<Descriptor>, from: nat, i: nat, hi: nat)
    requires from <= i < hi <= |ds| && IsFree(ds[i]) && ds[i].pages == 1
    ensures PagesBefore(ds[i := Less(ds[i], 1)], from, hi) + 1 == PagesBefore(ds, from, hi)
    decreases hi
  {
    var ds' := ds[i := Less(ds[i], 1)];
    if hi > i + 1 {
      OneLessBefore(ds, from, i, hi - 1);
    } else {
      SameBefore(ds, ds', from, i);
    }
  }

  lemma {:induction false} SameBefore(ds: seq<Descriptor>, ds': seq<Descriptor>, from: nat, hi: nat)
    requires hi <= |ds| == |ds'| && forall k :: 0 <= k < hi ==> ds'[k] == ds[k]
    ensures PagesBefore(ds', from, hi) == PagesBefore(ds, from, hi)
    decreases hi
  {
    if hi > from { SameBefore(ds, ds', from, hi - 1); }
  }

  lemma {:induction false} SingleRuns(ds: seq<Descriptor>, from: nat, need: nat)
    ensures AllSingle(Runs(ds, from, need)) <==> OnePageEach(ds, from, need)
    decreases need
  {
    hide NextFree;
    var i := NextFree(ds, from);
    if need > 0 && i < |ds| {
      NothingBefore(ds, from, i);
      var n := Portion(ds[i], need);
      if n == 1 && ds[i].pages == 1 {
        SingleRuns(ds[i := Less(ds[i], 1)], from, need - 1);
        OneEachNext(ds, from, need, i);
        FirstRunSingle(Runs(ds, from, need));
      } else if n == 1 {
        assert Runs(ds[i := Less(ds[i], 1)], from, 0) == [];
      } else {
        assert Runs(ds, from, need)[0] == n && PagesBefore(ds, from, i) + 1 < need;
      }
    }
  }

  lemma FirstRunSingle(runs: seq<nat>)
    requires runs != [] && runs[0] == 1
    ensures AllSingle(runs) <==> AllSingle(runs[1..])
  {
    if AllSingle(runs[1..]) {
      forall k | 0 <= k < |runs| ensures runs[k] == 1 { if k > 0 { assert runs[k] == runs[1..][k - 1]; } }
    }
  }

  lemma OneEachNext(ds: seq<Descriptor>, from: nat, need: nat, i: nat)
    requires from <= i < |ds| && IsFree(ds[i]) && ds[i].pages == 1 && need > 0 && forall k :: from <= k < i ==> !IsFree(ds[k])
    ensures OnePageEach(ds, from, need) <==> OnePageEach(ds[i := Less(ds[i], 1)], from, need - 1)
  {
    var ds' := ds[i := Less(ds[i], 1)];
    forall k | i < k < |ds| ensures PagesBefore(ds', from, k) + 1 == PagesBefore(ds, from, k) { OneLessBefore(ds, from, i, k); }
    assert forall k :: 0 <= k < |ds| && k != i ==> ds'[k] == ds[k];
  }

  /** With single pages only, every page of the bitmap is the start of a run. */
  lemma {:induction false} SingleStarts(runs: seq<nat>, at: nat, p: nat)
    requires AllSingle(runs)
    ensures p in Starts(runs, at) <==> at <= p < at + Pages(runs)
  {
    if runs != [] {
      FirstRunSingle(runs);
      SingleStarts(runs[1..], at + 1, p);
    }
  }

  /** The second page of a longer run is not. */
  lemma {:induction false} LongRun(runs: seq<nat>, at: nat) returns (p: nat)
    requires !AllSingle(runs) && forall k :: 0 <= k < |runs| ==> runs[k] > 0
    ensures at <= p < at + Pages(runs) && p !in Starts(runs, at)
  {
    if runs[0] > 1 {
      p := at + 1;
      StartsFrom(runs[1..], at + runs[0], p);
    } else {
      FirstRunSingle(runs);
      p := LongRun(runs[1..], at + 1);
    }
  }

  lemma {:induction false} StartsFrom(runs: seq<nat>, at: nat, p: nat)
    requires p < at
    ensures p !in Starts(runs, at)
  {
    if runs != [] { StartsFrom(runs[1..], at + runs[0], p); }
  }

  lemma {:induction false} RunsPositive(ds: seq<Descriptor>, from: nat, need: nat)
    ensures forall k :: 0 <= k < |Runs(ds, from, need)| ==> Runs(ds, from, need)[k] > 0
    decreases need
  {
    hide NextFree;
    var i := NextFree(ds, from);
    if need > 0 && i < |ds| {
      var n := Portion(ds[i], need);
      RunsPositive(ds[i := Less(ds[i], n)], from, need - n);
    }
  }

  /** The bitmap starts out saying "used" for every page, whatever memory held, if and only if every
      descriptor that is asked for more than one page of it has just one. */
  lemma FillingIsComplete(ds: seq<Descriptor>, from: nat, pages: nat)
    requires Pages(Runs(ds, from, pages)) == pages
    ensures (forall raw: seq<bv8> :: |raw| == pages * PAGE ==> AllOnes(FilledBy(raw, Starts(Runs(ds, from, pages), 0)))) <==>
      OnePageEach(ds, from, pages)
  {
    hide Runs, Starts, Pages, OnePageEach;
    var runs := Runs(ds, from, pages);
    SingleRuns(ds, from, pages);
    if AllSingle(runs) {
      forall raw: seq<bv8> | |raw| == pages * PAGE ensures AllOnes(FilledBy(raw, Starts(runs, 0))) {
        forall b | 0 <= b < |raw| ensures b / PAGE in Starts(runs, 0) { SingleStarts(runs, 0, b / PAGE); }
      }
    } else {
      RunsPositive(ds, from, pages);
      var p := LongRun(runs, 0);
      var zeros: seq<bv8> := Zeros(pages * PAGE);
      FirstByte(p, pages);
      assert FilledBy(zeros, Starts(runs, 0))[p * PAGE] == 0;
    }
  }

  function Zeros(n: nat): (s: seq<bv8>)
    ensures |s| == n && forall b :: 0 <= b < n ==> s[b] == 0
  {
    seq(n, _ => 0)
  }

  lemma FirstByte(p: nat, pages: nat)
    requires p < pages
    ensures p * PAGE < pages * PAGE && p * PAGE / PAGE == p
  {}

  /** The bits are clear for the free pages and for no others. */
  ghost predicate Tells(free: seq<Descriptor>, s: seq<bv8>)
  {
    forall p: nat :: p < 8 * |s| ==> (!PageBit(s, p) <==> Offered(free, p))
  }

  /** After the marking the bits tell which pages were free, whatever memory held, if and only if every
      page whose bit lies in a part that was not filled is free. */
  lemma BitsTellFree(free: seq<Descriptor>, size: nat, starts: set<nat>)
    ensures (forall raw: seq<bv8>, s: seq<bv8> :: |raw| == size && Marked(free, FilledBy(raw, starts), s) ==> Tells(free, s)) <==>
      (forall p: nat :: p < 8 * size && !(p / 8 / PAGE in starts) ==> Offered(free, p))
  {
    hide Offered, Bit, FilledBy;
    if p: nat :| p < 8 * size && !(p / 8 / PAGE in starts) && !Offered(free, p) {
      var filled := FilledBy(Zeros(size), starts);
      var s := MarkAll(free, filled, size);
      ByteOf(p, size);
      PlainBits(p % 8);
      assert !PageBit(filled, p) && !PageBit(s, p);
      assert Marked(free, filled, s) && !Tells(free, s);
    } else {
      forall raw: seq<bv8>, s: seq<bv8> | |raw| == size && Marked(free, FilledBy(raw, starts), s) ensures Tells(free, s) {
        forall p: nat | p < 8 * |s| ensures !PageBit(s, p) <==> Offered(free, p) {
          ByteOf(p, size);
          PlainBits(p % 8);
        }
      }
    }
  }

  lemma ByteOf(p: nat, size: nat)
    requires p < 8 * size
    ensures 0 <= p / 8 < size
  {}

  /** Some bitmap has the bits that the marking leaves. */
  lemma {:induction false} MarkAll(free: seq<Descriptor>, filled: seq<bv8>, k: nat) returns (s: seq<bv8>)
    requires k <= |filled|
    ensures |s| == |filled| && forall p: nat :: p < 8 * |s| ==> (PageBit(s, p) <==> PageBit(filled, p) && !(p < 8 * k && Offered(free, p)))
  {
    hide Offered, Bit;
    if k == 0 {
      s := filled;
    } else {
      var t := MarkAll(free, filled, k - 1);
      s := MarkByte(free, t, k - 1, 8);
    }
  }

  lemma {:induction false} MarkByte(free: seq<Descriptor>, t: seq<bv8>, b: nat, j: nat) returns (s: seq<bv8>)
    requires b < |t| && j <= 8
    ensures |s| == |t| && forall p: nat :: p < 8 * |s| ==> (PageBit(s, p) <==> PageBit(t, p) && !(8 * b <= p < 8 * b + j && Offered(free, p)))
  {
    hide Offered, Bit;
    if j == 0 {
      s := t;
    } else {
      s := MarkByte(free, t, b, j - 1);
      var q := 8 * b + (j - 1);
      if Offered(free, q) { s := ClearOne(s, q); }
    }
  }

  lemma ClearOne(t: seq<bv8>, q: nat) returns (s: seq<bv8>)
    requires q < 8 * |t|
    ensures |s| == |t| && forall p: nat :: p < 8 * |s| ==> (PageBit(s, p) <==> PageBit(t, p) && p != q)
  {
    hide Bit;
    ByteOf(q, |t|);
    s := t[q / 8 := t[q / 8] & !OneBit(q % 8)];
    forall p: nat | p < 8 * |s| ensures PageBit(s, p) <==> PageBit(t, p) && p != q {
      if p / 8 == q / 8 {
        ClearBit(t[q / 8], OneBit(q % 8), p % 8);
        OneBitBit(q % 8, p % 8);
      }
    }
  }

  /** An example: more than 128 MiB of memory, so that the bitmap takes two pages, and one descriptor that
      has both. In memory that held zeros the reserved page 35000 then looks free. */
  lemma ReservedLooksFree() returns (ds: seq<Descriptor>, memSize: nat, raw: seq<bv8>)
    ensures AllFormed(ds) && Separate(Offers(ds)) && Within(ds, memSize) && |raw| == PagesNeeded(memSize) * PAGE
    ensures PagesNeeded(memSize) == 2 && Runs(ds, 1, 2) == [2]
    ensures !Offered(ds, 35000) && 35000 < 8 * |raw| && !PageBit(FilledBy(raw, Starts(Runs(ds, 1, 2), 0)), 35000)
  {
    var a, b := Descriptor(Reserved, 0, 40000), Descriptor(Conventional, 40000 * PAGE, 10);
    ds, memSize, raw := [a, b], 40010 * PAGE, Zeros(2 * PAGE);
    assert Offer(a) == PageSet(0, 0) && Offer(b) == PageSet(40000 * PAGE, 10);
    assert NextFree(ds, 1) == 1;
    TwoPages(ds, b);
    assert FilledBy(raw, Starts([2], 0))[4375] == 0;
    PlainBits(0);
  }

  /** An example of a status that reads "ok" without a bitmap: the same amount of memory, and one page to
      be had for it. If that page can be mapped the status is that of its mapping. */
  lemma OkTooEarly() returns (ds: seq<Descriptor>, memSize: nat)
    ensures AllFormed(ds) && Separate(Offers(ds)) && Within(ds, memSize) && Passed(ds, 0)
    ensures 0 < Pages(Runs(ds, 1, PagesNeeded(memSize))) < PagesNeeded(memSize)
  {
    var a, b := Descriptor(Reserved, 0, 40000), Descriptor(Conventional, 40009 * PAGE, 1);
    ds, memSize := [a, b], 40010 * PAGE;
    assert Offer(a) == PageSet(0, 0) && Offer(b) == PageSet(40009 * PAGE, 1);
    assert NextFree(ds, 1) == 1;
    var rest := ds[1 := Less(b, 1)];
    assert !IsFree(rest[1]) && NextFree(rest, 1) == 2;
    assert Runs(rest, 1, 1) == [];
    assert Runs(ds, 1, 2) == [1];
    assert Pages([1]) == 1;
  }

  lemma TwoPages(ds: seq<Descriptor>, b: Descriptor)
    requires |ds| == 2 && ds[1] == b && b == Descriptor(Conventional, 40000 * PAGE, 10)
    ensures Runs(ds, 1, 2) == [2] && Starts([2], 0) == {0}
  {
    assert NextFree(ds, 1) == 1;
    assert [2][1..] == [];
  }
}
