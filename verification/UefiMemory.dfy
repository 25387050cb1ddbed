/** The hand-over of physical memory from the firmware's memory map (`efi_shim`): a bootstrap
    allocator and an iterator over free ranges take pages from the same descriptors. */
module UefiMemory {
  import opened Options

  const PAGE := 4096
  const WORD := 0x1_0000_0000_0000_0000

  datatype Kind = Conventional | LoaderCode | LoaderData | Reserved

  /** The fields of a memory descriptor that are used. */
  datatype Descriptor = Descriptor(kind: Kind, start: nat, pages: nat)

  /** A run of pages, by the address of the first one. */
  datatype PageSet = PageSet(address: nat, count: nat)

  /** The page with number `f` belongs to the run. */
  predicate InRun(p: PageSet, f: nat)
  {
    p.address / PAGE <= f < p.address / PAGE + p.count
  }

  predicate IsFreeMem(k: Kind)
  {
    k.Conventional?
  }

  /** The run of pages that a descriptor still has to offer. */
  function Offer(d: Descriptor): PageSet
  {
    PageSet(d.start, if IsFreeMem(d.kind) then d.pages else 0)
  }

  predicate IsFree(d: Descriptor)
  {
    d.pages > 0 && IsFreeMem(d.kind)
  }

  ghost predicate Offered(ds: seq<Descriptor>, f: nat)
  {
    exists i :: 0 <= i < |ds| && InRun(Offer(ds[i]), f)
  }

  /** The pages on offer are those of conventional memory, 4096 bytes each. */
  lemma OnlyConventional(ds: seq<Descriptor>, f: nat)
    ensures Offered(ds, f) <==> exists i :: 0 <= i < |ds| && ds[i].kind == Conventional && ds[i].start / 4096 <= f < ds[i].start / 4096 + ds[i].pages
  {
    if i :| 0 <= i < |ds| && ds[i].kind == Conventional && ds[i].start / 4096 <= f < ds[i].start / 4096 + ds[i].pages {
      assert InRun(Offer(ds[i]), f);
    }
    if Offered(ds, f) {
      var i :| 0 <= i < |ds| && InRun(Offer(ds[i]), f);
    }
  }

  /** What the firmware promises: descriptors are page-aligned and within the address space. */
  predicate Formed(d: Descriptor)
  {
    d.start % PAGE == 0 && d.start + PAGE * d.pages < WORD
  }

  function End(d: Descriptor): nat
  {
    d.start + PAGE * d.pages
  }

  ghost predicate Separate(runs: seq<PageSet>)
  {
    forall i, j, f: nat :: 0 <= i < j < |runs| ==> !(InRun(runs[i], f) && InRun(runs[j], f))
  }

  function Offers(ds: seq<Descriptor>): (r: seq<PageSet>)
  {
    seq(|ds|, i requires 0 <= i < |ds| => Offer(ds[i]))
  }

  /** Every page that was free at first has been handed out once, or is still free. */
  ghost predicate Conserved(first: seq<Descriptor>, ds: seq<Descriptor>, handed: seq<PageSet>)
  {
    && |ds| == |first| && Separate(Offers(ds) + handed)
    && forall f: nat :: Offered(first, f) <==> Offered(ds, f) || HandedOut(handed, f)
  }

  ghost predicate HandedOut(handed: seq<PageSet>, f: nat)
  {
    exists i :: 0 <= i < |handed| && InRun(handed[i], f)
  }

  // ---------------------------------------------------------------- taking pages from a descriptor

  /** `n` pages taken from the front of what a descriptor offers. */
  predicate Cut(d: Descriptor, d': Descriptor, run: PageSet)
  {
    && IsFree(d) && d'.kind == d.kind && run.address == d.start && run.count <= d.pages
    && d'.pages == d.pages - run.count && (d'.pages > 0 ==> d'.start == d.start + PAGE * run.count)
  }

  /** The pages of the descriptor are split between the two. */
  lemma CutSplits(d: Descriptor, d': Descriptor, run: PageSet, f: nat)
    requires Cut(d, d', run)
    ensures InRun(Offer(d), f) <==> InRun(Offer(d'), f) || InRun(run, f)
    ensures !(InRun(Offer(d'), f) && InRun(run, f))
  {
    if d'.pages > 0 { Shifted(d.start, run.count); }
  }

  lemma Shifted(a: nat, n: nat)
    ensures (a + PAGE * n) / PAGE == a / PAGE + n && (a + PAGE * n) % PAGE == a % PAGE
  {}

  /** Handing out a run keeps the pages in order. */
  lemma CutConserves(first: seq<Descriptor>, ds: seq<Descriptor>, handed: seq<PageSet>, i: nat, d': Descriptor, run: PageSet)
    requires Conserved(first, ds, handed) && i < |ds| && Cut(ds[i], d', run)
    ensures Conserved(first, ds[i := d'], handed + [run])
    ensures forall f: nat :: Offered(ds, f) <==> Offered(ds[i := d'], f) || InRun(run, f)
    ensures forall f: nat :: InRun(run, f) ==> !Offered(ds[i := d'], f) && !HandedOut(handed, f)
  {
    hide InRun, Offer, Cut;
    var ds' := ds[i := d'];
    forall f: nat ensures Offered(ds, f) <==> Offered(ds', f) || InRun(run, f) {
      OfferedCut(ds, i, d', run, f);
    }
    CutSeparate(ds, handed, i, d', run);
    forall f: nat ensures HandedOut(handed + [run], f) <==> HandedOut(handed, f) || InRun(run, f) {
      HandedMore(handed, run, f);
    }
    forall f: nat | InRun(run, f) ensures !Offered(ds', f) && !HandedOut(handed, f) {
      RunApart(ds', handed, run, f);
    }
  }

  lemma OfferedCut(ds: seq<Descriptor>, i: nat, d': Descriptor, run: PageSet, f: nat)
    requires i < |ds| && Cut(ds[i], d', run)
    ensures Offered(ds, f) <==> Offered(ds[i := d'], f) || InRun(run, f)
  {
    CutSplits(ds[i], d', run, f);
    hide InRun, Offer, Cut;
    var ds' := ds[i := d'];
    assert forall k :: 0 <= k < |ds| && k != i ==> ds'[k] == ds[k];
    if InRun(Offer(ds[i]), f) { assert Offered(ds, f); }
    if InRun(Offer(ds'[i]), f) { assert Offered(ds', f); }
    if k :| 0 <= k < |ds| && InRun(Offer(ds[k]), f) && k != i { assert InRun(Offer(ds'[k]), f); }
    if k :| 0 <= k < |ds| && InRun(Offer(ds'[k]), f) && k != i { assert InRun(Offer(ds[k]), f); }
  }

  lemma HandedMore(handed: seq<PageSet>, run: PageSet, f: nat)
    ensures HandedOut(handed + [run], f) <==> HandedOut(handed, f) || InRun(run, f)
  {
    hide InRun;
    var more := handed + [run];
    assert more[|handed|] == run;
    if k :| 0 <= k < |handed| && InRun(handed[k], f) { assert InRun(more[k], f); }
  }

  lemma CutSeparate(ds: seq<Descriptor>, handed: seq<PageSet>, i: nat, d': Descriptor, run: PageSet)
    requires Separate(Offers(ds) + handed) && i < |ds| && Cut(ds[i], d', run)
    ensures Separate(Offers(ds[i := d']) + (handed + [run]))
  {
    hide InRun, Offer, Cut;
    var a, b := Offers(ds) + handed, Offers(ds[i := d']) + (handed + [run]);
    var n := |a|;
    assert |b| == n + 1 && b[n] == run && b[i] == Offer(d') && a[i] == Offer(ds[i]);
    assert forall k :: 0 <= k < n && k != i ==> b[k] == a[k];
    forall k, l, f: nat | 0 <= k < l < |b| ensures !(InRun(b[k], f) && InRun(b[l], f)) {
      CutSplits(ds[i], d', run, f);
      var k', l' := k, if l == n then i else l;
      if l' != k { assert !(InRun(a[if k < l' then k else l'], f) && InRun(a[if k < l' then l' else k], f)); }
    }
  }

  lemma RunApart(ds: seq<Descriptor>, handed: seq<PageSet>, run: PageSet, f: nat)
    requires Separate(Offers(ds) + (handed + [run])) && InRun(run, f)
    ensures !Offered(ds, f) && !HandedOut(handed, f)
  {
    hide InRun, Offer;
    var b := Offers(ds) + (handed + [run]);
    var n := |b| - 1;
    assert b[n] == run;
    assert forall k :: 0 <= k < |ds| ==> b[k] == Offer(ds[k]);
    assert forall k :: 0 <= k < |handed| ==> b[|ds| + k] == handed[k];
  }

  // ---------------------------------------------------------------- what a sequence of requests gets

  /** The first descriptor from `from` on that has free pages. */
  function NextFree(ds: seq<Descriptor>, from: nat): (i: nat)
    ensures i < |ds| ==> from <= i && IsFree(ds[i])
    ensures forall k :: from <= k < i && k < |ds| ==> !IsFree(ds[k])
    decreases |ds| - from
  {
    if from >= |ds| then |ds| else if IsFree(ds[from]) then from else NextFree(ds, from + 1)
  }

  /** A descriptor whose first `n` pages have been taken. */
  function Less(d: Descriptor, n: nat): Descriptor
    requires n <= d.pages
  {
    d.(pages := d.pages - n, start := (d.start + n * PAGE) % WORD)
  }

  /** How many pages a request for `need` pages gets from a descriptor. */
  function Portion(d: Descriptor, need: nat): (n: nat)
    ensures n <= need && n <= d.pages
  {
    if need < d.pages then need else d.pages
  }

  /** The sizes of the runs that requests get until there are `need` pages, or none are left. */
  function Runs(ds: seq<Descriptor>, from: nat, need: nat): (r: seq<nat>)
    decreases need
  {
    var i := NextFree(ds, from);
    if need == 0 || i >= |ds| then [] else
      var n := Portion(ds[i], need);
      [n] + Runs(ds[i := Less(ds[i], n)], from, need - n)
  }

  /** What those requests leave. */
  function Left(ds: seq<Descriptor>, from: nat, need: nat): seq<Descriptor>
    decreases need
  {
    var i := NextFree(ds, from);
    if need == 0 || i >= |ds| then ds else
      var n := Portion(ds[i], need);
      Left(ds[i := Less(ds[i], n)], from, need - n)
  }

  function Pages(runs: seq<nat>): nat
  {
    if runs == [] then 0 else runs[0] + Pages(runs[1..])
  }

  lemma IsNextFree(ds: seq<Descriptor>, from: nat, i: nat)
    requires from <= i <= |ds| && (i < |ds| ==> IsFree(ds[i])) && forall k :: from <= k < i ==> !IsFree(ds[k])
    ensures NextFree(ds, from) == i
  {
    hide NextFree;
    var j := NextFree(ds, from);
    assert j <= |ds| by { NextFreeBound(ds, from); }
  }

  lemma {:induction false} NextFreeBound(ds: seq<Descriptor>, from: nat)
    ensures NextFree(ds, from) <= |ds|
    decreases |ds| - from
  {
    if from < |ds| { NextFreeBound(ds, from + 1); }
  }

  // ---------------------------------------------------------------- the bootstrapper

  /** Nothing is left in the descriptors before `index`. */
  ghost predicate Passed(ds: seq<Descriptor>, index: nat)
  {
    forall i :: 0 <= i < index && i < |ds| ==> !IsFree(ds[i])
  }

  /** Free memory ends at `size`. */
  ghost predicate Within(ds: seq<Descriptor>, size: nat)
  {
    forall i :: 0 <= i < |ds| && IsFreeMem(ds[i].kind) ==> End(ds[i]) <= size
  }

  ghost predicate AllFormed(ds: seq<Descriptor>)
  {
    forall i :: 0 <= i < |ds| ==> Formed(ds[i])
  }

  /** `calcMemSize`: where the last free page ends. */
  method CalcMemSize(ds: array<Descriptor>) returns (extent: nat)
    requires AllFormed(ds[..])
    ensures Within(ds[..], extent)
    ensures extent == 0 || exists i :: 0 <= i < ds.Length && IsFreeMem(ds[i].kind) && End(ds[i]) == extent
  {
    extent := 0;
    for i := 0 to ds.Length
      invariant Within(ds[..i], extent)
      invariant extent == 0 || exists k :: 0 <= k < i && IsFreeMem(ds[k].kind) && End(ds[k]) == extent
    {
      assert ds[..i + 1] == ds[..i] + [ds[i]];
      assert ds[..][i] == ds[i];
      if IsFreeMem(ds[i].kind) {
        var end := (ds[i].start + PAGE * ds[i].pages) % WORD;
        if end > extent {
          extent := end;
        }
      }
    }
    assert ds[..ds.Length] == ds[..];
  }

  /** Where the free address space starts after `pageCount` more pages; addresses have 64 bits. */
  function Advanced(next: nat, pageCount: nat): nat
  {
    (next + pageCount * PAGE) % WORD
  }

  predicate Reservable(next: nat, pageCount: nat, end: nat)
  {
    Advanced(next, pageCount) <= end
  }

  /** From every page there is a request that is granted although its range goes past the end. */
  lemma PastTheEnd(next: nat, end: nat) returns (pageCount: nat)
    requires next < WORD && next % PAGE == 0 && end < WORD
    ensures pageCount * PAGE < 2 * WORD && Reservable(next, pageCount, end) && next + pageCount * PAGE > end
  {
    pageCount := (WORD - next) / PAGE;
    assert next + pageCount * PAGE == WORD;
  }

  class UefiMemoryBootstrapper {
    const descriptors: array<Descriptor>
    const memSize: nat
    const mapsEnd: nat
    var descriptorIndex: nat
    var nextFreeVirtualPage: nat
    ghost const first: seq<Descriptor>
    ghost var handed: seq<PageSet>

    ghost predicate Valid()
      reads this, descriptors
    {
      && Conserved(first, descriptors[..], handed) && AllFormed(descriptors[..]) && Within(descriptors[..], memSize)
      && descriptorIndex <= descriptors.Length && Passed(descriptors[..], descriptorIndex)
    }

    /** The iterator over free ranges, made last, sets the index to 0. */
    constructor (descriptors: array<Descriptor>, memSize: nat, memoryEnd: nat, mapsEnd: nat)
      requires AllFormed(descriptors[..]) && Separate(Offers(descriptors[..])) && Within(descriptors[..], memSize)
      ensures Valid() && this.descriptors == descriptors && first == descriptors[..] && handed == [] && descriptorIndex == 0
      ensures nextFreeVirtualPage == memoryEnd && this.mapsEnd == mapsEnd && this.memSize == memSize
    {
      this.descriptors, this.memSize, this.mapsEnd := descriptors, memSize, mapsEnd;
      descriptorIndex, nextFreeVirtualPage := 0, memoryEnd;
      first, handed := descriptors[..], [];
      new;
      assert Offers(descriptors[..]) + [] == Offers(descriptors[..]);
    }

    /** The bootstrap allocator: pages from the first free descriptor past the one reported last. It
        fails exactly if that one holds all the pages that are left. */
    method AllocatePages(count: nat) returns (run: Option<PageSet>)
      requires Valid()
      modifies this`handed, descriptors
      ensures Valid() && (run.None? <==> forall i :: descriptorIndex < i < descriptors.Length ==> !IsFree(old(descriptors[..])[i]))
      ensures run.None? <==> forall i :: descriptorIndex < i < descriptors.Length && old(descriptors[..])[i].kind == Conventional ==> old(descriptors[..])[i].pages == 0
      ensures run.None? ==> descriptors[..] == old(descriptors[..]) && handed == old(handed)
      ensures run.Some? <==> NextFree(old(descriptors[..]), descriptorIndex + 1) < descriptors.Length
      ensures run.Some? ==>
        var ds, i := old(descriptors[..]), NextFree(old(descriptors[..]), descriptorIndex + 1);
        && ds[i].kind == Conventional && run.value == PageSet(ds[i].start, if count < ds[i].pages then count else ds[i].pages) && descriptors[..] == ds[i := Less(ds[i], run.value.count)]
      ensures run.Some? ==> handed == old(handed) + [run.value] && run.value.count <= count && (count > 0 ==> run.value.count > 0)
      ensures run.Some? ==> forall f: nat :: Offered(old(descriptors[..]), f) <==> Offered(descriptors[..], f) || InRun(run.value, f)
      ensures run.Some? ==> forall f: nat :: InRun(run.value, f) ==> !Offered(descriptors[..], f) && !HandedOut(old(handed), f)
    {
      hide Conserved, Offered, InRun, HandedOut, NextFree;
      var i := descriptorIndex + 1;
      while i < descriptors.Length
        invariant descriptorIndex < i && descriptors[..] == old(descriptors[..]) && Valid() && handed == old(handed)
        invariant forall k :: descriptorIndex < k < i && k < descriptors.Length ==> !IsFree(old(descriptors[..])[k])
      {
        var d := descriptors[i];
        if d.pages > 0 && IsFreeMem(d.kind) {
          var n := if count < d.pages then count else d.pages;
          run := Some(PageSet(d.start, n));
          IsNextFree(descriptors[..], descriptorIndex + 1, i);
          Take(i, d.(pages := d.pages - n, start := (d.start + n * PAGE) % WORD), run.value);
          return;
        }
        i := i + 1;
      }
      if descriptorIndex < descriptors.Length { IsNextFree(descriptors[..], descriptorIndex + 1, descriptors.Length); }
      run := None;
    }

    /** Updates a descriptor in place. */
    method Take(i: nat, d': Descriptor, run: PageSet)
      requires Valid() && descriptorIndex <= i < descriptors.Length && Cut(descriptors[i], d', run) && Formed(d') && End(d') <= End(descriptors[i])
      modifies this`handed, descriptors
      ensures Valid() && handed == old(handed) + [run] && descriptors[..] == old(descriptors[..])[i := d']
      ensures forall f: nat :: Offered(old(descriptors[..]), f) <==> Offered(descriptors[..], f) || InRun(run, f)
      ensures forall f: nat :: InRun(run, f) ==> !Offered(descriptors[..], f) && !HandedOut(old(handed), f)
    {
      hide Conserved, Offered, InRun, HandedOut;
      CutConserves(first, descriptors[..], handed, i, d', run);
      ghost var ds := descriptors[..];
      descriptors[i] := d';
      handed := handed + [run];
      assert descriptors[..] == ds[i := d'];
    }

    /** `move_next` of the iterator: reports all of the next free descriptor. Once it says that there is
        none, nothing free is left. */
    method MoveNext() returns (current: Option<PageSet>)
      requires Valid()
      modifies this`handed, this`descriptorIndex, descriptors
      ensures Valid() && old(descriptorIndex) <= descriptorIndex
      ensures current.None? ==> descriptors[..] == old(descriptors[..]) && handed == old(handed) && forall f: nat :: !Offered(descriptors[..], f)
      ensures current.Some? ==> handed == old(handed) + [current.value] && current.value.count > 0
      ensures current.Some? ==>
        var ds, i := old(descriptors[..]), descriptorIndex;
        && i < |ds| && ds[i].kind == Conventional && current.value == PageSet(ds[i].start, ds[i].pages) && descriptors[..] == ds[i := ds[i].(pages := 0)]
        && forall k :: old(descriptorIndex) <= k < i && ds[k].kind == Conventional ==> ds[k].pages == 0
      ensures current.None? ==> forall k :: 0 <= k < descriptors.Length && descriptors[k].kind == Conventional ==> descriptors[k].pages == 0
      ensures current.Some? ==> forall f: nat :: Offered(old(descriptors[..]), f) <==> Offered(descriptors[..], f) || InRun(current.value, f)
      ensures current.Some? ==> current.value.address / PAGE + current.value.count <= memSize / PAGE
      ensures current.Some? ==> FreeCount(descriptors[..]) < FreeCount(old(descriptors[..]))
    {
      hide Conserved, Offered, InRun, HandedOut;
      while descriptorIndex < descriptors.Length
        invariant descriptors[..] == old(descriptors[..]) && Valid() && handed == old(handed) && old(descriptorIndex) <= descriptorIndex
        invariant forall k :: old(descriptorIndex) <= k < descriptorIndex ==> !IsFree(old(descriptors[..])[k])
        decreases descriptors.Length - descriptorIndex
      {
        var i := descriptorIndex;
        var d := descriptors[i];
        if d.pages > 0 && IsFreeMem(d.kind) {
          current := Some(PageSet(d.start, d.pages));
          LastPage(d, memSize);
          FewerFree(descriptors[..], i, d.(pages := 0));
          Take(i, d.(pages := 0), current.value);
          return;
        }
        descriptorIndex := descriptorIndex + 1;
      }
      NothingOffered(descriptors[..]);
      current := None;
    }

    /** `reserveVirtualMemory`: address space is handed out from bottom to top. The range that is handed out
        ends where the address space ends or before, exactly if the sum does not wrap. */
    method ReserveVirtualMemory(pageCount: nat) returns (address: Option<nat>)
      requires nextFreeVirtualPage < WORD
      modifies this`nextFreeVirtualPage
      ensures address.Some? <==> Reservable(old(nextFreeVirtualPage), pageCount, mapsEnd)
      ensures address.None? ==> nextFreeVirtualPage == old(nextFreeVirtualPage)
      ensures address.Some? ==> address.value == old(nextFreeVirtualPage) && nextFreeVirtualPage == Advanced(old(nextFreeVirtualPage), pageCount) <= mapsEnd
      ensures address.Some? && mapsEnd < WORD ==> (address.value + pageCount * PAGE <= mapsEnd <==> address.value + pageCount * PAGE < WORD)
    {
      var next := Advanced(nextFreeVirtualPage, pageCount);
      if next > mapsEnd {
        return None;
      }
      address := Some(nextFreeVirtualPage);
      nextFreeVirtualPage := next;
    }
  }

  /** How many descriptors still have pages. */
  function FreeCount(ds: seq<Descriptor>): nat
  {
    if ds == [] then 0 else FreeCount(ds[..|ds| - 1]) + if IsFree(ds[|ds| - 1]) then 1 else 0
  }

  lemma {:induction false} FewerFree(ds: seq<Descriptor>, i: nat, d': Descriptor)
    requires i < |ds| && IsFree(ds[i]) && !IsFree(d')
    ensures FreeCount(ds[i := d']) < FreeCount(ds)
  {
    var n := |ds| - 1;
    if i < n {
      FewerFree(ds[..n], i, d');
      assert ds[i := d'][..n] == ds[..n][i := d'];
    } else {
      assert ds[i := d'][..n] == ds[..n];
    }
  }

  lemma LastPage(d: Descriptor, size: nat)
    requires d.start % PAGE == 0 && End(d) <= size
    ensures d.start / PAGE + d.pages <= size / PAGE
  {
    Shifted(d.start, d.pages);
  }

  lemma NothingOffered(ds: seq<Descriptor>)
    requires forall i :: 0 <= i < |ds| ==> !IsFree(ds[i])
    ensures forall f: nat :: !Offered(ds, f)
  {}

  /** The allocator skips the descriptor at the current index even while that one still has pages: it
      fails exactly if all pages that are left are that one's. */
  lemma OnlyCurrentLeft(ds: seq<Descriptor>, index: nat)
    requires Passed(ds, index) && Separate(Offers(ds))
    ensures (forall i :: index < i < |ds| ==> !IsFree(ds[i])) <==>
      (forall f: nat :: Offered(ds, f) ==> index < |ds| && InRun(Offer(ds[index]), f))
  {
    if i :| index < i < |ds| && IsFree(ds[i]) {
      var f := OtherLeft(ds, index, i);
    }
  }

  /** An example: before anything has been reported, with five free pages in the first descriptor and
      nothing else, there is nothing to allocate. */
  lemma FirstIsSkipped() returns (ds: seq<Descriptor>)
    ensures AllFormed(ds) && Passed(ds, 0) && Separate(Offers(ds))
    ensures NextFree(ds, 1) >= |ds| && Offered(ds, 0) && Offered(ds, 4)
  {
    ds := [Descriptor(Conventional, 0, 5)];
    assert InRun(Offer(ds[0]), 0) && InRun(Offer(ds[0]), 4);
  }

  lemma OtherLeft(ds: seq<Descriptor>, index: nat, i: nat) returns (f: nat)
    requires index < i < |ds| && IsFree(ds[i]) && Separate(Offers(ds))
    ensures Offered(ds, f) && !InRun(Offer(ds[index]), f)
  {
    f := ds[i].start / PAGE;
    assert InRun(Offer(ds[i]), f);
    assert Offers(ds)[i] == Offer(ds[i]) && Offers(ds)[index] == Offer(ds[index]);
  }
}
