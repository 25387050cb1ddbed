/** The boot loader's page-table builder (`map_page`, `map_pages`, `map_new_pages`,
    `create_page_tables`): tables in physical memory that implement a map from pages to entries. */
module BootPaging {
  import opened Options
  import opened PageTables

  /** The slots on the way from the top table to a table. */
  type Path = seq<bv64>

  /** The tables by the way that leads to them. */
  type Tree = map<Path, bv64>

  /** The entries that pages have been given. */
  type Mapping = bv64 -> Option<bv64>

  function Map(mapped: Mapping, page: bv64, e: bv64): Mapping
  {
    x => if x == page then Some(e) else mapped(x)
  }

  const SELF: bv64 := 511

  /** What writing the entry of `v` maps; nothing in the slot of the self-map. */
  function MapAt(mapped: Mapping, v: bv64, e: bv64): Mapping
  {
    if Idx(v, 4) == SELF then mapped else Map(mapped, VPage(v), e)
  }

  /** The way to the lowest table of `v`. */
  function Way(v: bv64): (p: Path)
    ensures |p| == 3 && p[0] == Idx(v, 4) && p[1] == Idx(v, 3) && p[2] == Idx(v, 2)
  {
    [Idx(v, 4), Idx(v, 3), Idx(v, 2)]
  }

  /** The table behind a slot: the self-map leads back to the top. */
  function Go(p: Path, i: bv64): Path
  {
    if p == [] && i == SELF then [] else p + [i]
  }

  /** The way that the walk for `v` takes, `n` tables down from the top. */
  function Route(v: bv64, n: nat): (p: Path)
    requires n <= 4
    ensures |p| <= n
  {
    if n == 0 then [] else Go(Route(v, n - 1), Idx(v, 5 - n))
  }

  /** Outside the self-map it goes down at every step. */
  lemma {:induction false} RouteIsWay(v: bv64, n: nat)
    requires Idx(v, 4) != SELF && n <= 3
    ensures Route(v, n) == Way(v)[..n]
  {
    hide Idx;
    if n > 0 { RouteIsWay(v, n - 1); }
  }

  /** Once it has left the top table it never comes back. */
  lemma {:induction false} RouteGrows(v: bv64, m: nat, n: nat)
    requires m <= n <= 4 && Route(v, m) != []
    ensures |Route(v, n)| == |Route(v, m)| + (n - m) && Route(v, m) <= Route(v, n)
    decreases n
  {
    hide Idx;
    if m < n { RouteGrows(v, m, n - 1); }
  }

  predicate InTable(i: bv64)
  {
    i < 512
  }

  // ---------------------------------------------------------------- memory

  function Write(mem: Memory, a: bv64, e: bv64): Memory
  {
    x => if x == a then e else mem(x)
  }

  /** `memset` of a page. */
  function Cleared(mem: Memory, page: bv64): Memory
  {
    x => if PageOf(x) == page then 0 else mem(x)
  }

  function PageOf(a: bv64): bv64
  {
    a & !0xFFF
  }

  lemma SlotPage(t: bv64, i: bv64)
    requires Aligned(t) && i < 512
    ensures PageOf(Slot(t, i)) == t
  {
    SlotInPage(t, i);
  }

  // ---------------------------------------------------------------- the tree of tables

  /** Every table has its place, its address and its parent; no address is used twice. Slot 511 of
      the top table belongs to the self-map. */
  ghost predicate Shaped(tree: Tree, root: bv64)
  {
    && [] in tree && tree[[]] == root
    && (forall p :: p in tree ==> |p| <= 3 && Aligned(tree[p]))
    && (forall p :: p in tree && p != [] ==> p[..|p| - 1] in tree && p[0] != SELF)
    && (forall p, k :: p in tree && 0 <= k < |p| ==> InTable(p[k]))
    && (forall p, q :: p in tree && q in tree && tree[p] == tree[q] ==> p == q)
  }

  /** The slot `i` of the table at `p` says what the tree says. */
  ghost predicate Linked(mem: Memory, tree: Tree, p: Path, i: bv64)
    requires p in tree
  {
    Leads(mem(Slot(tree[p], i))) == if p + [i] in tree then Some(tree[p + [i]]) else None
  }

  /** The upper tables hold the tree. */
  ghost predicate Upper(mem: Memory, tree: Tree)
  {
    forall p, i: bv64 :: p in tree && |p| < 3 && InTable(i) && (p != [] || i != SELF) ==> Linked(mem, tree, p, i)
  }

  /** The slot of `v` in its lowest table is mapped as `mapped` says, or not present. */
  ghost predicate Leaf(mem: Memory, tree: Tree, mapped: Mapping, v: bv64)
    requires Way(v) in tree
  {
    var e := mem(Slot(tree[Way(v)], Idx(v, 1)));
    match mapped(VPage(v))
    case None => !Present(e)
    case Some(x) => e == x
  }

  /** The lowest tables hold the mapped pages and no others. */
  ghost predicate Lowest(mem: Memory, tree: Tree, mapped: Mapping)
  {
    && (forall v {:trigger Way(v)} :: Way(v) in tree ==> Leaf(mem, tree, mapped, v))
    && (forall v {:trigger Way(v)} :: mapped(VPage(v)).Some? ==> Way(v) in tree)
  }

  ghost predicate Built(mem: Memory, root: bv64, tree: Tree, mapped: Mapping)
  {
    Shaped(tree, root) && SelfMapped(mem, root) && Upper(mem, tree) && Lowest(mem, tree, mapped)
  }

  // ---------------------------------------------------------------- what the walk finds

  /** The walk follows the tree, through the self-map too. */
  lemma {:induction false} WalkFollowsTree(mem: Memory, root: bv64, tree: Tree, v: bv64, level: nat)
    requires Shaped(tree, root) && SelfMapped(mem, root) && Upper(mem, tree) && 1 <= level <= 4
    ensures var p := Route(v, 4 - level); TableAt(mem, root, v, level) == if p in tree then Some(tree[p]) else None
    decreases 4 - level
  {
    hide Idx, Leads, Slot, Aligned;
    if level < 4 {
      WalkFollowsTree(mem, root, tree, v, level + 1);
      IdxRange(v, level + 1);
      var q, i := Route(v, 3 - level), Idx(v, level + 1);
      assert Route(v, 4 - level) == Go(q, i);
      if q in tree {
        if q != [] || i != SELF { assert Linked(mem, tree, q, i); }
      } else {
        assert (q + [i])[..|q|] == q;
      }
    }
  }

  /** The tables implement the map: the walk of any address outside the self-map finds the entry its
      page was given last, if that says "present". */
  lemma TranslationIsMapping(mem: Memory, root: bv64, tree: Tree, mapped: Mapping, v: bv64)
    requires Built(mem, root, tree, mapped) && Idx(v, 4) != SELF
    ensures Translate(mem, root, v) ==
      match mapped(VPage(v))
      case None => None
      case Some(e) => if Present(e) then Some(e) else None
  {
    hide Idx, Slot, Present, VPage, Shaped, Upper, SelfMapped, TableAt;
    WalkFollowsTree(mem, root, tree, v, 1);
    RouteIsWay(v, 3);
    assert Way(v)[..3] == Way(v);
    if Way(v) in tree { assert Leaf(mem, tree, mapped, v); }
  }

  // ---------------------------------------------------------------- one more table

  /** An entry that leads to a table. */
  function TableEntry(page: bv64): bv64
  {
    (page & ADDR_MASK) | (PRESENT | RW)
  }

  lemma TableEntryLeads(page: bv64)
    requires Aligned(page)
    ensures Leads(TableEntry(page)) == Some(page) && Frame(TableEntry(page)) == page
  {}

  /** The table's address with the two low bits: present and writable. */
  lemma TableEntryIs(page: bv64)
    requires page & 0xFFF == 0 && page & 0xFFF0_0000_0000_0000 == 0
    ensures TableEntry(page) == page | 3
  {}

  lemma AlignedIs(page: bv64)
    requires Aligned(page)
    ensures page & 0xFFF == 0 && page & 0xFFF0_0000_0000_0000 == 0
  {}

  /** Behind a slot without a table a page was cleared and linked, present and writable; otherwise
      nothing was written. */
  ghost predicate TableBehind(mem: Memory, mem': Memory, slot: bv64, page: bv64)
  {
    mem' == if Present(mem(slot)) then mem else Write(Cleared(mem, page), slot, page | 3)
  }

  lemma TableMade(mem: Memory, slot: bv64, page: bv64)
    requires Aligned(page) && !Present(mem(slot))
    ensures TableBehind(mem, Write(Cleared(mem, page), slot, TableEntry(page)), slot, page)
  {
    AlignedIs(page);
    TableEntryIs(page);
    hide Write, Cleared, TableEntry, Aligned, Present;
  }

  lemma TableThere(mem: Memory, slot: bv64)
    ensures Present(mem(slot)) ==> forall page :: TableBehind(mem, mem, slot, page)
  {
    hide Write, Cleared, Present;
  }

  lemma ZeroLeadsNowhere()
    ensures !Present(0) && Leads(0) == None
  {}

  /** What memory holds after a page has been cleared and an entry elsewhere been written. */
  lemma SlotsAfter(mem: Memory, page: bv64, t: bv64, i: bv64, e: bv64, u: bv64, j: bv64)
    requires Aligned(page) && Aligned(t) && Aligned(u) && InTable(i) && InTable(j) && t != page
    ensures Write(Cleared(mem, page), Slot(t, i), e)(Slot(u, j)) ==
      if u == t && j == i then e else if u == page then 0 else mem(Slot(u, j))
  {
    SlotPage(u, j);
    SlotPage(t, i);
    hide PageOf, Slot, Aligned;
    if Slot(u, j) == Slot(t, i) { SlotsApart(u, j, t, i); }
  }

  lemma SlotsAfterWrite(mem: Memory, t: bv64, i: bv64, e: bv64, u: bv64, j: bv64)
    requires Aligned(t) && Aligned(u) && InTable(i) && InTable(j)
    ensures Write(mem, Slot(t, i), e)(Slot(u, j)) == if u == t && j == i then e else mem(Slot(u, j))
  {
    hide Slot, Aligned;
    if Slot(u, j) == Slot(t, i) { SlotsApart(u, j, t, i); }
  }

  /** A place for a new table: below an upper table, in a slot that is not in use. */
  ghost predicate Vacant(tree: Tree, p: Path, i: bv64, page: bv64)
  {
    p in tree && |p| < 3 && InTable(i) && (p != [] || i != SELF) && p + [i] !in tree && Aligned(page) && page !in tree.Values
  }

  lemma ShapedAdd(tree: Tree, root: bv64, p: Path, i: bv64, page: bv64)
    requires Shaped(tree, root) && Vacant(tree, p, i, page)
    ensures Shaped(tree[p + [i] := page], root)
  {
    hide Aligned, InTable;
    assert (p + [i])[..|p|] == p;
  }

  lemma UpperAdd(mem: Memory, tree: Tree, root: bv64, p: Path, i: bv64, page: bv64)
    requires Shaped(tree, root) && Upper(mem, tree) && Vacant(tree, p, i, page)
    ensures Upper(Write(Cleared(mem, page), Slot(tree[p], i), TableEntry(page)), tree[p + [i] := page])
  {
    hide Aligned, InTable, Write, Cleared, Slot, Leads, TableEntry;
    var mem', tree' := Write(Cleared(mem, page), Slot(tree[p], i), TableEntry(page)), tree[p + [i] := page];
    ShapedAdd(tree, root, p, i, page);
    TableEntryLeads(page);
    ZeroLeadsNowhere();
    forall q, j: bv64 | q in tree' && |q| < 3 && InTable(j) && (q != [] || j != SELF) ensures Linked(mem', tree', q, j) {
      SlotsAfter(mem, page, tree[p], i, TableEntry(page), tree'[q], j);
      LinkedAdd(mem, mem', tree, root, p, i, page, q, j);
    }
  }

  lemma LinkedAdd(mem: Memory, mem': Memory, tree: Tree, root: bv64, p: Path, i: bv64, page: bv64, q: Path, j: bv64)
    requires Shaped(tree, root) && Upper(mem, tree) && Vacant(tree, p, i, page)
    requires q in tree || q == p + [i]
    requires |q| < 3 && InTable(j) && (q != [] || j != SELF)
    requires var u := tree[p + [i] := page][q];
      mem'(Slot(u, j)) == if u == tree[p] && j == i then TableEntry(page) else if u == page then 0 else mem(Slot(u, j))
    ensures Linked(mem', tree[p + [i] := page], q, j)
  {
    hide Aligned, InTable, Slot, Leads, TableEntry;
    TableEntryLeads(page);
    ZeroLeadsNowhere();
    if q == p + [i] {
      assert (q + [j])[..|q|] == q;
    } else {
      assert Linked(mem, tree, q, j);
      assert (q + [j])[..|q|] == q && (q + [j])[|q|] == j && (p + [i])[..|p|] == p && (p + [i])[|p|] == i;
    }
  }

  lemma LowestAdd(mem: Memory, tree: Tree, root: bv64, mapped: Mapping, p: Path, i: bv64, page: bv64)
    requires Shaped(tree, root) && Lowest(mem, tree, mapped) && Vacant(tree, p, i, page)
    ensures Lowest(Write(Cleared(mem, page), Slot(tree[p], i), TableEntry(page)), tree[p + [i] := page], mapped)
  {
    hide Aligned, Write, Cleared, Slot, Present, TableEntry, Idx, VPage;
    var mem', tree' := Write(Cleared(mem, page), Slot(tree[p], i), TableEntry(page)), tree[p + [i] := page];
    ShapedAdd(tree, root, p, i, page);
    ZeroLeadsNowhere();
    forall v {:trigger Way(v)} | Way(v) in tree' ensures Leaf(mem', tree', mapped, v) {
      IdxRange(v, 1);
      SlotsAfter(mem, page, tree[p], i, TableEntry(page), tree'[Way(v)], Idx(v, 1));
      if Way(v) in tree { assert Leaf(mem, tree, mapped, v); }
    }
  }

  /** A new, empty table changes no translation. */
  lemma BuiltAdd(mem: Memory, root: bv64, tree: Tree, mapped: Mapping, p: Path, i: bv64, page: bv64)
    requires Built(mem, root, tree, mapped) && Vacant(tree, p, i, page)
    ensures Built(Write(Cleared(mem, page), Slot(tree[p], i), TableEntry(page)), root, tree[p + [i] := page], mapped)
  {
    hide Aligned, Write, Cleared, Slot, Leads, TableEntry, Upper, Lowest;
    ShapedAdd(tree, root, p, i, page);
    UpperAdd(mem, tree, root, p, i, page);
    LowestAdd(mem, tree, root, mapped, p, i, page);
    assert InTable(SELF);
    SlotsAfter(mem, page, tree[p], i, TableEntry(page), root, SELF);
  }

  // ---------------------------------------------------------------- one more page

  lemma UpperSet(mem: Memory, tree: Tree, root: bv64, p: Path, i: bv64, e: bv64)
    requires Shaped(tree, root) && Upper(mem, tree) && p in tree && |p| == 3 && InTable(i)
    ensures Upper(Write(mem, Slot(tree[p], i), e), tree)
  {
    hide Aligned, InTable, Write, Slot, Leads;
    var mem' := Write(mem, Slot(tree[p], i), e);
    forall q, j: bv64 | q in tree && |q| < 3 && InTable(j) && (q != [] || j != SELF) ensures Linked(mem', tree, q, j) {
      SlotsAfterWrite(mem, tree[p], i, e, tree[q], j);
      assert Linked(mem, tree, q, j);
    }
  }

  lemma SameWay(v: bv64, w: bv64)
    ensures VPage(v) == VPage(w) <==> Way(v) == Way(w) && Idx(v, 1) == Idx(w, 1)
  {
    SamePage(v, w);
  }

  lemma LowestSet(mem: Memory, tree: Tree, root: bv64, mapped: Mapping, v: bv64, e: bv64)
    requires Shaped(tree, root) && Lowest(mem, tree, mapped) && Way(v) in tree
    ensures Lowest(Write(mem, Slot(tree[Way(v)], Idx(v, 1)), e), tree, Map(mapped, VPage(v), e))
  {
    hide Write, Slot, Present, Idx, VPage, Way, Leaf;
    var mem', mapped' := Write(mem, Slot(tree[Way(v)], Idx(v, 1)), e), Map(mapped, VPage(v), e);
    forall w {:trigger Way(w)} | Way(w) in tree ensures Leaf(mem', tree, mapped', w) {
      LeafSet(mem, tree, root, mapped, v, e, w);
    }
    forall w {:trigger Way(w)} | mapped'(VPage(w)).Some? ensures Way(w) in tree {
      SameWay(v, w);
    }
  }

  lemma LeafSet(mem: Memory, tree: Tree, root: bv64, mapped: Mapping, v: bv64, e: bv64, w: bv64)
    requires Shaped(tree, root) && Way(v) in tree && Way(w) in tree && Leaf(mem, tree, mapped, w)
    ensures Leaf(Write(mem, Slot(tree[Way(v)], Idx(v, 1)), e), tree, Map(mapped, VPage(v), e), w)
  {
    hide Aligned, Write, Slot, Present, Idx, VPage, Way, InTable;
    IndexInTable(v);
    IndexInTable(w);
    SlotsAfterWrite(mem, tree[Way(v)], Idx(v, 1), e, tree[Way(w)], Idx(w, 1));
    SameWay(v, w);
    assert tree[Way(v)] == tree[Way(w)] ==> Way(v) == Way(w);
  }

  lemma IndexInTable(v: bv64)
    ensures InTable(Idx(v, 1))
  {
    IdxRange(v, 1);
  }

  /** Writing the entry of `v` maps its page and changes no other. */
  lemma BuiltSet(mem: Memory, root: bv64, tree: Tree, mapped: Mapping, v: bv64, e: bv64)
    requires Built(mem, root, tree, mapped) && Way(v) in tree
    ensures Built(Write(mem, Slot(tree[Way(v)], Idx(v, 1)), e), root, tree, Map(mapped, VPage(v), e))
  {
    hide Aligned, Write, Slot, Leads, Upper, Lowest, Idx, VPage;
    IdxRange(v, 1);
    UpperSet(mem, tree, root, Way(v), Idx(v, 1), e);
    LowestSet(mem, tree, root, mapped, v, e);
    assert InTable(SELF);
    SlotsAfterWrite(mem, tree[Way(v)], Idx(v, 1), e, root, SELF);
  }

  // ---------------------------------------------------------------- the self-map again

  /** In slot 511 of the top table the last table of the walk is not a lowest table, and an entry
      written to it is an entry of an upper one. */
  lemma SelfSlotIsUpper(mem: Memory, root: bv64, tree: Tree, mapped: Mapping, v: bv64, t: bv64)
    requires Built(mem, root, tree, mapped) && TableAt(mem, root, v, 1) == Some(t)
    ensures Idx(v, 4) != SELF <==> exists p :: p in tree && |p| == 3 && tree[p] == t
  {
    hide Idx, Aligned, Slot, Leads, InTable, Lowest, Upper, SelfMapped, TableAt, Lower, Route;
    WalkFollowsTree(mem, root, tree, v, 1);
    if Idx(v, 4) != SELF { RouteIsWay(v, 3); } else { SelfRoute(v); }
  }

  lemma SelfRoute(v: bv64)
    requires Idx(v, 4) == SELF
    ensures |Route(v, 3)| < 3
  {
    hide Idx;
    assert Route(v, 1) == [];
  }

  /** An entry that leads where the slot leads already. */
  ghost predicate Harmless(tree: Tree, p: Path, e: bv64)
  {
    Leads(e) == if p in tree then Some(tree[p]) else None
  }

  /** Writing the entry of an address destroys the tables. */
  ghost predicate Harmful(tree: Tree, v: bv64, e: bv64)
  {
    Idx(v, 4) == SELF && !Harmless(tree, Route(v, 4), e)
  }

  /** An entry written to an upper table keeps the tables, whatever is mapped, exactly if it leads where
      the slot led before. */
  lemma UpperWrite(mem: Memory, root: bv64, tree: Tree, mapped: Mapping, p: Path, i: bv64, e: bv64)
    requires Built(mem, root, tree, mapped) && p in tree && |p| < 3 && InTable(i)
    ensures Harmless(tree, Go(p, i), e) ==> Built(Write(mem, Slot(tree[p], i), e), root, tree, mapped)
    ensures !Harmless(tree, Go(p, i), e) ==> forall m :: !Built(Write(mem, Slot(tree[p], i), e), root, tree, m)
  {
    hide Aligned, Write, Slot, Leads, Lowest, Upper;
    assert InTable(SELF);
    SlotsAfterWrite(mem, tree[p], i, e, tree[p], i);
    SlotsAfterWrite(mem, tree[p], i, e, root, SELF);
    UpperWritten(mem, tree, root, p, i, e);
    LowestStays(mem, tree, root, mapped, p, i, e);
    assert tree[p] == root ==> p == [];
  }

  /** An example: the last page of the address space, with no table missing. Mapping it to any frame but
      the top table overwrites the self-map. */
  lemma SelfMapLost(root: bv64, phys: bv64) returns (tree: Tree, v: bv64)
    requires Aligned(root) && Aligned(phys) && phys != root
    ensures Shaped(tree, root) && Idx(v, 4) == SELF && Route(v, 3) in tree && Missing(tree, v, 3) == 0
    ensures !Harmless(tree, Route(v, 4), Entry(phys, PRESENT | RW))
  {
    tree, v := map[[] := root], 0xFFFF_FFFF_FFFF_F000;
    LastPage();
    hide Idx, Entry, Aligned;
    assert Route(v, 0) == [] && Route(v, 1) == [] && Route(v, 2) == [] && Route(v, 3) == [] && Route(v, 4) == [];
    assert Missing(tree, v, 0) == 0 && Missing(tree, v, 1) == 0 && Missing(tree, v, 2) == 0;
    EntryLeads(phys);
  }

  lemma LastPage()
    ensures var v: bv64 := 0xFFFF_FFFF_FFFF_F000; Idx(v, 4) == SELF && Idx(v, 3) == SELF && Idx(v, 2) == SELF && Idx(v, 1) == SELF
  {}

  lemma EntryLeads(phys: bv64)
    requires Aligned(phys)
    ensures Leads(Entry(phys, PRESENT | RW)) == Some(phys)
  {}

  lemma UpperWritten(mem: Memory, tree: Tree, root: bv64, p: Path, i: bv64, e: bv64)
    requires Shaped(tree, root) && Upper(mem, tree) && p in tree && |p| < 3 && InTable(i)
    ensures Upper(Write(mem, Slot(tree[p], i), e), tree) <==> (p == [] && i == SELF) || Harmless(tree, Go(p, i), e)
  {
    hide Aligned, InTable, Write, Slot, Leads, Linked, Harmless, Shaped;
    var mem' := Write(mem, Slot(tree[p], i), e);
    forall q, j: bv64 | q in tree && |q| < 3 && InTable(j) && (q != [] || j != SELF)
      ensures Linked(mem', tree, q, j) <==> q != p || j != i || Harmless(tree, Go(p, i), e)
    {
      LinkedWritten(mem, tree, root, p, i, e, q, j);
    }
  }

  lemma LinkedWritten(mem: Memory, tree: Tree, root: bv64, p: Path, i: bv64, e: bv64, q: Path, j: bv64)
    requires Shaped(tree, root) && p in tree && InTable(i) && q in tree && InTable(j) && Linked(mem, tree, q, j) && (q != [] || j != SELF)
    ensures Linked(Write(mem, Slot(tree[p], i), e), tree, q, j) <==> q != p || j != i || Harmless(tree, Go(p, i), e)
  {
    hide Aligned, InTable, Write, Slot, Leads;
    SlotsAfterWrite(mem, tree[p], i, e, tree[q], j);
  }

  lemma LowestStays(mem: Memory, tree: Tree, root: bv64, mapped: Mapping, p: Path, i: bv64, e: bv64)
    requires Shaped(tree, root) && Lowest(mem, tree, mapped) && p in tree && |p| < 3 && InTable(i)
    ensures Lowest(Write(mem, Slot(tree[p], i), e), tree, mapped)
  {
    hide Aligned, Write, Slot, Present, Idx, VPage;
    var mem' := Write(mem, Slot(tree[p], i), e);
    forall v {:trigger Way(v)} | Way(v) in tree ensures Leaf(mem', tree, mapped, v) {
      IndexInTable(v);
      SlotsAfterWrite(mem, tree[p], i, e, tree[Way(v)], Idx(v, 1));
      assert Leaf(mem, tree, mapped, v);
    }
  }

  // ---------------------------------------------------------------- the builder

  /** `map_page`'s entry, and the kernel's `PageEntry`. */
  function Entry(phys: bv64, attrs: bv64): bv64
  {
    (phys & ADDR_MASK) | attrs
  }

  /** In memory, every address of the page of `v` is translated to the same place in the frame `phys`, by
      an entry with exactly the attributes `attrs`. */
  ghost predicate MapsTo(mem: Memory, root: bv64, v: bv64, phys: bv64, attrs: bv64)
  {
    forall w :: w & 0x0000_FFFF_FFFF_F000 == v & 0x0000_FFFF_FFFF_F000 ==>
      && Physical(mem, root, w) == Some(phys + (w & 0xFFF))
      && Translate(mem, root, w).Some? && Translate(mem, root, w).value & 0xFFF0_0000_0000_0FFF == attrs
  }

  /** No address of the page of `v` is translated. */
  ghost predicate Hidden(mem: Memory, root: bv64, v: bv64)
  {
    forall w :: w & 0x0000_FFFF_FFFF_F000 == v & 0x0000_FFFF_FFFF_F000 ==> Translate(mem, root, w) == None
  }

  /** A frame address and attributes that do not get into each other's way. */
  predicate Plain(phys: bv64, attrs: bv64)
  {
    phys & 0xFFF0_0000_0000_0FFF == 0 && attrs & 0x000F_FFFF_FFFF_F000 == 0
  }

  lemma EntryParts(phys: bv64, attrs: bv64)
    requires Plain(phys, attrs)
    ensures var e := Entry(phys, attrs);
      e & 0xFFF0_0000_0000_0FFF == attrs && Frame(e) == phys && (Present(e) <==> attrs & 1 != 0)
  {}

  lemma PageByNumber(v: bv64)
    ensures VPage(v) == v & 0x0000_FFFF_FFFF_F000 && Offset(v) == v & 0xFFF && Idx(v, 4) == (v >> 39) & 0x1FF
  {}

  lemma OnlyTopHarms(tree: Tree, v: bv64, e: bv64)
    ensures (v >> 39) & 0x1FF != 511 ==> !Harmful(tree, v, e)
  {
    hide Harmless, Route;
  }

  lemma SameTop(v: bv64, w: bv64)
    requires VPage(v) == VPage(w)
    ensures Idx(v, 4) == Idx(w, 4)
  {
    SamePage(v, w);
  }

  /** What memory shows of a page that has been given an entry. */
  lemma EntryShown(mem: Memory, root: bv64, tree: Tree, mapped: Mapping, v: bv64, phys: bv64, attrs: bv64)
    requires Built(mem, root, tree, mapped) && (v >> 39) & 0x1FF != 511 && Plain(phys, attrs)
    requires mapped(VPage(v)) == Some(Entry(phys, attrs))
    ensures if attrs & 1 != 0 then MapsTo(mem, root, v, phys, attrs) else Hidden(mem, root, v)
  {
    hide Built, Translate, TableAt, Entry, Frame, Present, Idx, VPage, Offset, Plain, Address;
    EntryParts(phys, attrs);
    PageByNumber(v);
    forall w | w & 0x0000_FFFF_FFFF_F000 == v & 0x0000_FFFF_FFFF_F000
      ensures attrs & 1 != 0 ==> Translate(mem, root, w) == Some(Entry(phys, attrs)) && Physical(mem, root, w) == Some(phys + (w & 0xFFF))
      ensures attrs & 1 == 0 ==> Translate(mem, root, w) == None
    {
      PageByNumber(w);
      AddressByNumbers(Entry(phys, attrs), w, phys);
      SameTop(v, w);
      TranslationIsMapping(mem, root, tree, mapped, w);
    }
  }

  /** What the firmware's page allocator answers from now on: the address of new pages, or a failure.
      New pages are never tables already. */
  type Answers = seq<Option<bv64>>

  /** Tables stay where they are. */
  ghost predicate Grown(tree: Tree, tree': Tree)
  {
    forall p :: p in tree ==> p in tree' && tree'[p] == tree[p]
  }

  /** The next table has been found or made at `p`. */
  ghost predicate Descended(t0: Tree, t1: Tree, a0: Answers, a1: Answers, p: Path, next: Option<bv64>)
  {
    if p in t0 then t1 == t0 && a1 == a0 && next == Some(t0[p])
    else if Granted(a0, 1) then next.Some? && next == a0[0] && t1 == t0[p := next.value] && a1 == a0[1..]
    else next == None && t1 == t0
  }

  ghost predicate Fresh(answers: Answers, tree: Tree)
  {
    && (forall i :: 0 <= i < |answers| && answers[i].Some? ==> Aligned(answers[i].value) && answers[i].value !in tree.Values)
    && (forall i, j :: 0 <= i < j < |answers| && answers[i].Some? && answers[j].Some? ==> answers[i].value != answers[j].value)
  }

  /** The next `n` allocations succeed. */
  predicate Granted(answers: Answers, n: nat)
  {
    n <= |answers| && forall i :: 0 <= i < n ==> answers[i].Some?
  }

  /** How many of the first `n` tables below the top one are missing on the way to `v`. */
  ghost function Missing(tree: Tree, v: bv64, n: nat): nat
    requires n <= 3
  {
    if n == 0 then 0 else Missing(tree, v, n - 1) + if Route(v, n) in tree then 0 else 1
  }

  lemma {:induction false} MissingRest(tree: Tree, root: bv64, v: bv64, m: nat, n: nat)
    requires Shaped(tree, root) && m <= n <= 3 && Route(v, m) !in tree
    ensures Missing(tree, v, n) == Missing(tree, v, m) + (n - m)
    decreases n
  {
    hide Route, Aligned, InTable;
    if m < n {
      MissingRest(tree, root, v, m, n - 1);
      NotBelow(tree, root, v, m, n);
    }
  }

  lemma {:induction false} NotBelow(tree: Tree, root: bv64, v: bv64, m: nat, n: nat)
    requires Shaped(tree, root) && m <= n <= 3 && Route(v, m) !in tree
    ensures Route(v, n) !in tree
    decreases n
  {
    hide Aligned, InTable, Idx;
    if m < n {
      NotBelow(tree, root, v, m, n - 1);
      assert Route(v, n)[..|Route(v, n)| - 1] == Route(v, n - 1);
    }
  }

  /** The first `n` tables below the top one on the way to `v`. */
  ghost function Tables(v: bv64, n: nat): set<Path>
    requires n <= 3
  {
    if n == 0 then {} else Tables(v, n - 1) + {Route(v, n)}
  }

  lemma {:induction false} TablesAre(v: bv64, n: nat, p: Path)
    requires n <= 3 && p in Tables(v, n)
    ensures exists m :: 1 <= m <= n && p == Route(v, m)
  {
    hide Route;
    if p != Route(v, n) { TablesAre(v, n - 1, p); }
  }

  /** The missing tables are different ones. */
  lemma {:induction false} MissingCount(tree: Tree, v: bv64, n: nat)
    requires n <= 3 && [] in tree
    ensures Missing(tree, v, n) == |Tables(v, n) - tree.Keys|
  {
    hide Route;
    if n > 0 {
      MissingCount(tree, v, n - 1);
      var q, old', new' := Route(v, n), Tables(v, n - 1) - tree.Keys, Tables(v, n) - tree.Keys;
      if q in tree {
        assert new' == old';
      } else {
        if q in old' {
          TablesAre(v, n - 1, q);
          var m :| 1 <= m <= n - 1 && q == Route(v, m);
          RouteGrows(v, m, n);
        }
        assert new' == old' + {q};
      }
    }
  }

  /** The first `n` tables on the way to `v` have been found or made. */
  ghost predicate Progress(t0: Tree, t1: Tree, a0: Answers, a1: Answers, v: bv64, n: nat, made: nat)
  {
    && n <= 3 && Route(v, n) in t1 && Grown(t0, t1)
    && (forall k :: n < k <= 3 ==> (Route(v, k) in t1 <==> Route(v, k) in t0))
    && made == Missing(t0, v, n) && Granted(a0, made) && a1 == a0[made..] && t1.Keys == t0.Keys + Tables(v, n)
  }

  lemma NoProgress(tree: Tree, answers: Answers, v: bv64)
    requires [] in tree
    ensures Route(v, 0) == [] && Progress(tree, tree, answers, answers, v, 0, 0)
  {
    assert answers[0..] == answers;
  }

  lemma ProgressOn(t0: Tree, t1: Tree, t2: Tree, a0: Answers, a1: Answers, a2: Answers, v: bv64, n: nat, made: nat) returns (made': nat)
    requires n < 3 && Progress(t0, t1, a0, a1, v, n, made) && [] in t1
    requires var q := Route(v, n + 1);
      if q in t1 then t2 == t1 && a2 == a1 else Granted(a1, 1) && t2 == t1[q := a1[0].value] && a2 == a1[1..]
    ensures Progress(t0, t2, a0, a2, v, n + 1, made')
  {
    hide Route;
    made' := if Route(v, n + 1) in t1 then made else made + 1;
    if Route(v, n + 1) !in t1 {
      assert a0[made + 1..] == a1[1..] && a0[made] == a1[0];
      forall k | n + 1 < k <= 3 ensures Route(v, k) != Route(v, n + 1) {
        RouteGrows(v, n + 1, k);
      }
    }
  }

  lemma ProgressFails(t0: Tree, t1: Tree, root: bv64, a0: Answers, a1: Answers, v: bv64, n: nat, made: nat)
    requires Shaped(t0, root) && n < 3 && Progress(t0, t1, a0, a1, v, n, made) && Route(v, n + 1) !in t1 && !Granted(a1, 1)
    ensures !Granted(a0, Missing(t0, v, 3)) && Grown(t0, t1)
  {
    hide Route, Shaped;
    MissingRest(t0, root, v, n + 1, 3);
    assert made < |a0| ==> a1[0] == a0[made];
  }

  lemma ProgressEnds(t0: Tree, t1: Tree, a0: Answers, a1: Answers, v: bv64, made: nat)
    requires Progress(t0, t1, a0, a1, v, 3, made)
    ensures Route(v, 3) in t1 && Granted(a0, Missing(t0, v, 3)) && a1 == a0[Missing(t0, v, 3)..]
    ensures Grown(t0, t1) && t1.Keys == t0.Keys + Tables(v, 3)
  {
    hide Missing, Granted, Route;
  }

  /** The slot used for the next table. */
  lemma RouteStep(v: bv64, n: nat)
    requires n < 4
    ensures Route(v, n + 1) == Go(Route(v, n), Idx(v, 4 - n)) && InTable(Idx(v, 4 - n)) && |Route(v, n)| <= n
  {
    IdxRange(v, 4 - n);
  }

  class PageTableBuilder {
    var mem: Memory
    var answers: Answers
    var root: bv64
    ghost var tree: Tree
    ghost var mapped: Mapping

    ghost predicate Valid()
      reads this
    {
      Built(mem, root, tree, mapped) && Fresh(answers, tree)
    }

    /** Boot services with any memory and any allocator; no tables yet. */
    constructor (mem: Memory, answers: Answers)
      ensures this.mem == mem && this.answers == answers
    {
      this.mem, this.answers, root := mem, answers, 0;
      tree, mapped := map[], Nothing();
    }

    /** `AllocatePages` */
    method Allocate() returns (page: Option<bv64>)
      modifies this`answers
      ensures old(answers) == [] ==> page == None && answers == []
      ensures old(answers) != [] ==> page == old(answers)[0] && answers == old(answers)[1..]
    {
      page := None;
      if answers != [] {
        page, answers := answers[0], answers[1..];
      }
    }

    /** `table` is the upper table at `p`. */
    ghost predicate At(table: bv64, p: Path)
      reads this
    {
      Valid() && p in tree && table == tree[p] && |p| < 3
    }

    /** The table behind a slot, made if it is missing. Like all of the builder it runs on any memory, but
        only promises something about tables that are a tree. */
    method Descend(table: bv64, i: bv64, ghost p: Path) returns (next: Option<bv64>)
      requires InTable(i)
      modifies this`mem, this`tree, this`answers
      ensures old(At(table, p)) ==> Valid() && Descended(old(tree), tree, old(answers), answers, Go(p, i), next)
      ensures old(At(table, p)) && next.Some? ==> TableBehind(old(mem), mem, Slot(table, i), next.value)
    {
      hide Aligned, Write, Cleared, Slot, Frame, Present, TableEntry, InTable, Shaped, Lowest, TableBehind;
      ghost var sound := At(table, p);
      if sound { SlotLeads(p, i); }
      var slot := Slot(table, i);
      var e := mem(slot);
      TableThere(mem, slot);
      if !Present(e) {
        var page := Allocate();
        if sound { FreshRest(old(answers), tree); }
        if page.None? {
          return None;
        }
        if sound {
          VacantNow(old(answers), tree, p, i);
          BuiltAdd(mem, root, tree, mapped, p, i, page.value);
          TableEntryLeads(page.value);
          TableMade(mem, slot, page.value);
        }
        e := TableEntry(page.value);
        mem := Write(Cleared(mem, page.value), slot, e);
        if sound { tree := tree[p + [i] := page.value]; }
      }
      next := Some(Frame(e));
    }

    /** What the slot of an upper table says. */
    lemma SlotLeads(p: Path, i: bv64)
      requires Valid() && p in tree && |p| < 3 && InTable(i)
      ensures Leads(mem(Slot(tree[p], i))) == if Go(p, i) in tree then Some(tree[Go(p, i)]) else None
      ensures [] in tree
    {
      hide Aligned, Slot, Leads, InTable, Lowest;
      if p != [] || i != SELF { assert Linked(mem, tree, p, i); }
    }

    /** So far the loop has found or made the tables on the way down to `level`. */
    ghost predicate OnRoute(t: bv64, v: bv64, level: int, tree0: Tree, answers0: Answers, made: nat)
      requires 1 <= level <= 4
      reads this
    {
      && Valid() && Shaped(tree0, root) && Progress(tree0, tree, answers0, answers, v, 4 - level, made)
      && Route(v, 4 - level) in tree && t == tree[Route(v, 4 - level)]
    }

    /** One round of that loop. */
    method NextTable(t: bv64, v: bv64, level: int, ghost tree0: Tree, ghost answers0: Answers, ghost made: nat) returns (next: Option<bv64>, ghost made': nat)
      requires 2 <= level <= 4
      modifies this`mem, this`tree, this`answers
      ensures old(OnRoute(t, v, level, tree0, answers0, made)) ==>
        if next.Some? then OnRoute(next.value, v, level - 1, tree0, answers0, made')
        else Valid() && !Granted(answers0, Missing(tree0, v, 3)) && Grown(tree0, tree)
    {
      hide Built, Shaped, Fresh, Route, Go, Idx, InTable, Progress, Missing, Granted, Tables;
      ghost var tree1, answers1, n, sound := tree, answers, 4 - level, OnRoute(t, v, level, tree0, answers0, made);
      made' := made;
      if sound { TopInTree(); }
      RouteStep(v, n);
      assert 4 - n == level;
      next := Descend(t, Idx(v, level), Route(v, n));
      if sound {
        if next.None? {
          ProgressFails(tree0, tree1, root, answers0, answers1, v, n, made);
        } else {
          made' := ProgressOn(tree0, tree1, tree, answers0, answers1, answers, v, n, made);
        }
      }
    }

    /** The loop from the top table to the lowest one. It succeeds exactly if the allocator answers for
        every missing table; tables made before it failed stay, empty. */
    method FindTable(v: bv64) returns (table: Option<bv64>)
      modifies this`mem, this`tree, this`answers
      ensures old(Valid()) ==> Valid() && Grown(old(tree), tree)
      ensures old(Valid()) ==> (table.Some? <==> Granted(old(answers), Missing(old(tree), v, 3)))
      ensures old(Valid()) && table.Some? ==>
        && Route(v, 3) in tree && table == Some(tree[Route(v, 3)]) && answers == old(answers)[Missing(old(tree), v, 3)..]
        && tree.Keys == old(tree).Keys + Tables(v, 3)
    {
      hide Built, Shaped, Fresh, Route, Idx, Progress, Missing, Granted, Tables;
      var level, t := 4, root;
      ghost var made, sound := 0, Valid();
      if sound {
        TopInTree();
        NoProgress(tree, answers, v);
      }
      while level >= 2
        invariant 1 <= level <= 4 && (sound ==> OnRoute(t, v, level, old(tree), old(answers), made))
      {
        var next;
        next, made := NextTable(t, v, level, old(tree), old(answers), made);
        if next.None? {
          return None;
        }
        t := next.value;
        level := level - 1;
      }
      if sound { ProgressEnds(old(tree), tree, old(answers), answers, v, made); }
      table := Some(t);
    }

    /** Maps one page. Without a table for every level it fails, and no page is mapped differently. An
        address in slot 511 of the top table is not refused: then the entry goes to an upper table, and
        the tables are kept exactly if it leads where its slot led before. */
    method MapPage(v: bv64, phys: bv64, attrs: bv64) returns (ok: bool)
      modifies this`mem, this`tree, this`answers, this`mapped
      ensures old(Valid()) ==> Grown(old(tree), tree) && (ok <==> Granted(old(answers), Missing(old(tree), v, 3)))
      ensures old(Valid()) && ok ==> Route(v, 3) in tree && answers == old(answers)[Missing(old(tree), v, 3)..]
      ensures old(Valid()) && ok ==> tree.Keys == old(tree).Keys + Tables(v, 3)
      ensures old(Valid()) ==> mapped == if ok then MapAt(old(mapped), v, Entry(phys, attrs)) else old(mapped)
      ensures old(Valid()) ==> (Valid() <==> !ok || !Harmful(tree, v, Entry(phys, attrs)))
      ensures old(Valid()) && ok && (v >> 39) & 0x1FF != 511 && Plain(phys, attrs) ==>
        if attrs & 1 != 0 then MapsTo(mem, root, v, phys, attrs) else Hidden(mem, root, v)
    {
      hide Built, Fresh, Route, Idx, InTable, VPage, Entry, Missing, Granted, Write, Slot, Harmful, MapAt, Tables;
      ghost var sound := Valid();
      var table := FindTable(v);
      if table.None? {
        return false;
      }
      IndexInTable(v);
      if sound { EntryWritten(v, Entry(phys, attrs)); }
      mem := Write(mem, Slot(table.value, Idx(v, 1)), Entry(phys, attrs));
      if sound {
        ghost var before := mapped;
        mapped := MapAt(mapped, v, Entry(phys, attrs));
        OnlyTopHarms(tree, v, Entry(phys, attrs));
        Shown(before, v, phys, attrs);
      }
      ok := true;
    }

    /** What writing the entry of an address does. */
    lemma EntryWritten(v: bv64, e: bv64)
      requires Valid() && Route(v, 3) in tree
      ensures Built(Write(mem, Slot(tree[Route(v, 3)], Idx(v, 1)), e), root, tree, MapAt(mapped, v, e)) <==> !Harmful(tree, v, e)
    {
      hide Built, Fresh, Route, Go, Idx, InTable, VPage, Write, Slot, Harmless, Map;
      RouteStep(v, 3);
      if Idx(v, 4) != SELF {
        RouteIsWay(v, 3);
        assert Way(v)[..3] == Way(v);
        BuiltSet(mem, root, tree, mapped, v, e);
      } else {
        SelfRoute(v);
        UpperWrite(mem, root, tree, mapped, Route(v, 3), Idx(v, 1), e);
      }
    }

    /** What memory shows of a page that has just been mapped. */
    lemma Shown(before: Mapping, v: bv64, phys: bv64, attrs: bv64)
      ensures (v >> 39) & 0x1FF != 511 && Plain(phys, attrs) && Valid() && mapped == MapAt(before, v, Entry(phys, attrs)) ==>
        if attrs & 1 != 0 then MapsTo(mem, root, v, phys, attrs) else Hidden(mem, root, v)
    {
      hide Built, Fresh, MapsTo, Hidden, Plain, Entry, VPage, Idx;
      PageByNumber(v);
      if (v >> 39) & 0x1FF != 511 && Plain(phys, attrs) && Valid() && mapped == MapAt(before, v, Entry(phys, attrs)) {
        EntryShown(mem, root, tree, mapped, v, phys, attrs);
      }
    }

    /** A run of which `done` pages have been written, the first `kept` of them without harm: then the tables
        were those of `t`. */
    ghost predicate Ran(tree0: Tree, mapped0: Mapping, v: bv64, phys: bv64, attrs: bv64, done: nat, kept: nat, t: Tree)
      reads this
    {
      && kept <= done && Grown(tree0, t) && Reached(t, v, kept)
      && (kept == done ==> Valid() && t == tree && mapped == MapRun(mapped0, v, phys, attrs, done))
      && (kept < done ==> Route(Nth(v, kept), 3) in t && Harmful(t, Nth(v, kept), Entry(Nth(phys, kept), attrs)))
    }

    /** The first `n` pages of a run have taken one allocation for each table that was missing. */
    ghost predicate Paid(tree0: Tree, answers0: Answers, v: bv64, n: nat)
      reads this
    {
      var k := Price(tree0, v, n);
      [] in tree && tree.Keys == tree0.Keys + RunTables(v, n) && Granted(answers0, k) && answers == answers0[k..]
    }

    /** What another page adds to that. */
    lemma PaidMore(tree0: Tree, answers0: Answers, v: bv64, n: nat)
      requires Paid(tree0, answers0, v, n)
      ensures var k, m := Price(tree0, v, n + 1), Missing(tree, Nth(v, n), 3);
        && tree.Keys + Tables(Nth(v, n), 3) == tree0.Keys + RunTables(v, n + 1)
        && (Granted(answers, m) <==> Granted(answers0, k)) && (Granted(answers0, k) ==> answers[m..] == answers0[k..])
    {
      hide Missing, Tables, Nth, RunTables, Price, Granted;
      PriceMore(tree0, tree, v, n);
      GrantedRest(answers0, Price(tree0, v, n), Missing(tree, Nth(v, n), 3));
    }

    /** One page of a run. */
    method RunPage(v: bv64, phys: bv64, attrs: bv64, virt: bv64, frame: bv64,
                   ghost tree0: Tree, ghost mapped0: Mapping, ghost answers0: Answers, ghost done: nat, ghost kept: nat, ghost t: Tree)
      returns (one: bool, ghost kept': nat, ghost t': Tree)
      requires Ran(tree0, mapped0, v, phys, attrs, done, kept, t) && virt == Nth(v, done) && frame == Nth(phys, done)
      requires kept == done ==> Paid(tree0, answers0, v, done)
      modifies this`mem, this`tree, this`answers, this`mapped
      ensures Ran(tree0, mapped0, v, phys, attrs, if one then done + 1 else done, kept', t') && (kept' == done ==> kept == done)
      ensures one && kept' == done + 1 ==> Paid(tree0, answers0, v, done + 1)
      ensures !one && kept' == done ==> !Granted(answers0, Price(tree0, v, done + 1))
    {
      hide Built, Shaped, Fresh, Route, Idx, VPage, Entry, Missing, Granted, MapRun, Nth, NextPage, Harmful, MapAt, Grown, Reached, Tables, RunTables, Price;
      RunStep(mapped0, v, phys, attrs, done);
      if kept == done { PaidMore(tree0, answers0, v, done); }
      one := MapPage(virt, frame, attrs);
      kept', t' := kept, t;
      if kept == done {
        t' := tree;
        ReachedMore(tree0, t, tree, v, kept);
        if one && !Harmful(tree, virt, Entry(frame, attrs)) { kept' := kept + 1; }
      }
    }

    /** Maps a run of pages to a run of frames; a failure leaves the pages before it mapped. The tables are
        kept up to the first page whose entry does harm, which only pages in slot 511 can do. Without harm it
        succeeds exactly if an allocation does for every table that is missing on the way to some page. */
    method MapPages(v: bv64, phys: bv64, attrs: bv64, pages: int) returns (ok: bool, ghost done: nat, ghost kept: nat, ghost t: Tree)
      requires Valid()
      modifies this`mem, this`tree, this`answers, this`mapped
      ensures Ran(old(tree), old(mapped), v, phys, attrs, done, kept, t)
      ensures if ok then done == (if pages < 0 then 0 else pages) else done < pages
      ensures kept == done ==> (ok <==> Granted(old(answers), Price(old(tree), v, if pages < 0 then 0 else pages)))
      ensures kept == done && ok ==> Paid(old(tree), old(answers), v, done)
    {
      hide Built, Fresh, MapRun, Nth, Ran, NextPage, Paid, Granted, Price;
      done, kept, t := 0, 0, tree;
      RunStarts(mapped, v, phys, attrs);
      NothingRan(v, phys, attrs);
      var virt, frame := v, phys;
      for i := 0 to if pages < 0 then 0 else pages
        invariant done == i && virt == Nth(v, i) && frame == Nth(phys, i)
        invariant Ran(old(tree), old(mapped), v, phys, attrs, done, kept, t)
        invariant kept == done ==> Paid(old(tree), old(answers), v, done)
      {
        var one;
        one, kept, t := RunPage(v, phys, attrs, virt, frame, old(tree), old(mapped), old(answers), done, kept, t);
        if !one {
          if kept == done { NotGranted(old(answers), old(tree), v, done + 1, pages); }
          return false, done, kept, t;
        }
        RunStep(mapped, v, phys, attrs, i);
        virt := NextPage(virt);
        frame := NextPage(frame);
        done := done + 1;
      }
      ok := true;
      if kept == done { AllGranted(old(tree), old(answers), v, done); }
    }

    lemma AllGranted(tree0: Tree, answers0: Answers, v: bv64, n: nat)
      requires Paid(tree0, answers0, v, n)
      ensures Granted(answers0, Price(tree0, v, n))
    {}

    lemma NothingRan(v: bv64, phys: bv64, attrs: bv64)
      requires Valid()
      ensures Ran(tree, mapped, v, phys, attrs, 0, 0, tree) && Paid(tree, answers, v, 0)
    {
      hide Built, Fresh, RunTables, Price, Granted;
      TopInTree();
      NoPrice(tree, answers, v);
    }

    /** New frames for a run of pages. */
    method MapNewPages(v: bv64, attrs: bv64, pages: int) returns (frames: Option<bv64>, ghost done: nat, ghost kept: nat, ghost t: Tree)
      requires Valid()
      modifies this`mem, this`tree, this`answers, this`mapped
      ensures !Granted(old(answers), 1) ==> frames == None && Valid() && tree == old(tree) && mapped == old(mapped)
      ensures Granted(old(answers), 1) ==>
        && Ran(old(tree), old(mapped), v, old(answers)[0].value, attrs, done, kept, t)
        && (if frames.Some? then frames == old(answers)[0] && done == (if pages < 0 then 0 else pages) else done < pages)
        && (kept == done ==> (frames.Some? <==> Granted(old(answers), 1 + Price(old(tree), v, if pages < 0 then 0 else pages))))
    {
      hide Built, Ran, Fresh, Paid, Price;
      if Granted(answers, 1) { GrantedRest(answers, 1, Price(tree, v, if pages < 0 then 0 else pages)); }
      done, kept, t := 0, 0, tree;
      frames := Allocate();
      FreshRest(old(answers), tree);
      if frames.Some? {
        var ok;
        ok, done, kept, t := MapPages(v, frames.value, attrs, pages);
        if !ok { frames := None; }
      }
    }

    /** The top table: cleared, and mapped into itself. */
    method CreatePageTables() returns (ok: bool)
      requires Fresh(answers, map[])
      modifies this
      ensures ok <==> Granted(old(answers), 1)
      ensures ok ==> Valid() && Some(root) == old(answers)[0] && answers == old(answers)[1..] && mapped == Nothing()
      ensures ok ==> RootOnly(mem, root)
    {
      hide Aligned, Write, Cleared, Slot, TableEntry, InTable, Built, RootOnly;
      var page := Allocate();
      if page.None? {
        return false;
      }
      root, tree, mapped := page.value, map[[] := page.value], Nothing();
      BuiltFirst(mem, root);
      RootTable(mem, root);
      mem := Write(Cleared(mem, root), Slot(root, SELF), TableEntry(root));
      ok := true;
    }

    // ---------------------------------------------------------------- the kernel's view

    /** Where the self-map shows the entry of `v`: at the slot that `MapPage` writes. */
    lemma EntrySeen(v: bv64)
      requires Valid()
      ensures Physical(mem, root, PtEntry(v)) == if Route(v, 3) in tree then Some(Slot(tree[Route(v, 3)], Idx(v, 1))) else None
      ensures Idx(v, 4) != SELF && mapped(VPage(v)).Some? ==> Route(v, 3) in tree && mem(Slot(tree[Route(v, 3)], Idx(v, 1))) == mapped(VPage(v)).value
    {
      hide Idx, Slot, Present, VPage, Shaped, Upper, SelfMapped, TableAt, Physical, Fresh, PtEntry, Route;
      WalkFollowsTree(mem, root, tree, v, 1);
      EntryReachesSlot(mem, root, v);
      if Idx(v, 4) != SELF {
        RouteIsWay(v, 3);
        assert Way(v)[..3] == Way(v);
        if Way(v) in tree { assert Leaf(mem, tree, mapped, v); }
      }
    }

    /** `mapNoTables` and `unMapNoInvalidate`: the kernel stores an entry through the self-map. It does what
        `MapPage` does when all tables are there. */
    method StoreEntry(v: bv64, e: bv64)
      requires Valid() && Route(v, 3) in tree
      modifies this`mem, this`mapped
      ensures mapped == MapAt(old(mapped), v, e)
      ensures Valid() <==> !Harmful(tree, v, e)
    {
      hide Built, Fresh, Route, Idx, VPage, Write, Slot, Physical, Harmful, MapAt, Granted, Missing;
      EntrySeen(v);
      EntryWritten(v, e);
      assert EntryAddr(PT_BASE, v) == PtEntry(v);
      var slot := Physical(mem, root, EntryAddr(PT_BASE, v)).value;
      assert slot == Slot(tree[Route(v, 3)], Idx(v, 1));
      mem := Write(mem, slot, e);
      mapped := MapAt(mapped, v, e);
    }

    lemma TopInTree()
      requires Valid()
      ensures Shaped(tree, root) && [] in tree && tree[[]] == root
    {}

  }

  function Nothing(): Mapping
  {
    _ => None
  }

  lemma BuiltFirst(mem: Memory, root: bv64)
    requires Aligned(root)
    ensures Built(Write(Cleared(mem, root), Slot(root, SELF), TableEntry(root)), root, map[[] := root], Nothing())
  {
    hide Aligned, Write, Cleared, Slot, TableEntry, Leads;
    var mem', tree: Tree := Write(Cleared(mem, root), Slot(root, SELF), TableEntry(root)), map[[] := root];
    TableEntryLeads(root);
    ZeroLeadsNowhere();
    forall p, i: bv64 | p in tree && |p| < 3 && InTable(i) && (p != [] || i != SELF) ensures Linked(mem', tree, p, i) {
      FirstSlots(mem, root, i);
      assert [i] !in tree && p + [i] == [i];
    }
    FirstSlots(mem, root, SELF);
  }

  lemma FirstSlots(mem: Memory, root: bv64, i: bv64)
    requires Aligned(root) && InTable(i)
    ensures Write(Cleared(mem, root), Slot(root, SELF), TableEntry(root))(Slot(root, i)) == if i == SELF then TableEntry(root) else 0
  {
    SlotPage(root, i);
    hide PageOf, Slot, Aligned, TableEntry;
    if Slot(root, i) == Slot(root, SELF) { SlotsApart(root, i, root, SELF); }
  }

  /** The new top table leads to itself in its last slot and nowhere else. */
  ghost predicate RootOnly(mem: Memory, root: bv64)
  {
    forall i :: 0 <= i < 512 ==> mem(Slot(root, i)) == if i == 511 then root | 3 else 0
  }

  lemma RootTable(mem: Memory, root: bv64)
    requires Aligned(root)
    ensures RootOnly(Write(Cleared(mem, root), Slot(root, SELF), TableEntry(root)), root)
  {
    AlignedIs(root);
    TableEntryIs(root);
    hide Write, Cleared, Slot, TableEntry, Aligned;
    forall i: bv64 | i < 512 ensures Write(Cleared(mem, root), Slot(root, SELF), TableEntry(root))(Slot(root, i)) == if i == 511 then root | 3 else 0 {
      FirstSlots(mem, root, i);
    }
  }

  // ---------------------------------------------------------------- runs of pages

  /** The `k`-th page of a run; addresses wrap around. */
  function Nth(a: bv64, k: nat): bv64
  {
    if k == 0 then a else NextPage(Nth(a, k - 1))
  }

  function NextPage(a: bv64): bv64
  {
    a + PAGE_BYTES
  }

  /** All tables for the first `n` pages of a run are there. */
  ghost predicate Reached(tree: Tree, v: bv64, n: nat)
  {
    forall k: nat :: k < n ==> Route(Nth(v, k), 3) in tree
  }

  lemma ReachedMore(tree0: Tree, tree: Tree, tree': Tree, v: bv64, n: nat)
    requires Grown(tree0, tree) && Grown(tree, tree') && Reached(tree, v, n)
    ensures Grown(tree0, tree') && Reached(tree', v, n)
    ensures Route(Nth(v, n), 3) in tree' ==> Reached(tree', v, n + 1)
  {
    hide Route, Nth;
  }

  /** The tables below the top one on the way to any of the first `n` pages of a run. */
  ghost function RunTables(v: bv64, n: nat): set<Path>
  {
    if n == 0 then {} else RunTables(v, n - 1) + Tables(Nth(v, n - 1), 3)
  }

  lemma {:induction false} RunTablesGrow(v: bv64, m: nat, n: nat)
    requires m <= n
    ensures RunTables(v, m) <= RunTables(v, n)
  {
    hide Tables, Nth;
    if m < n { RunTablesGrow(v, m, n - 1); }
  }

  /** How many allocations the first `n` pages of a run take. */
  ghost function Price(tree: Tree, v: bv64, n: nat): nat
  {
    |RunTables(v, n) - tree.Keys|
  }

  lemma PriceGrows(tree: Tree, v: bv64, m: nat, n: nat)
    requires m <= n
    ensures Price(tree, v, m) <= Price(tree, v, n)
  {
    hide RunTables;
    RunTablesGrow(v, m, n);
    Fewer(RunTables(v, m) - tree.Keys, RunTables(v, n) - tree.Keys);
  }

  lemma Fewer(a: set<Path>, b: set<Path>)
    requires a <= b
    ensures |a| <= |b|
  {
    assert b == a + (b - a);
  }

  lemma PriceMore(tree0: Tree, tree: Tree, v: bv64, n: nat)
    requires [] in tree && tree.Keys == tree0.Keys + RunTables(v, n)
    ensures Price(tree0, v, n + 1) == Price(tree0, v, n) + Missing(tree, Nth(v, n), 3)
    ensures tree.Keys + Tables(Nth(v, n), 3) == tree0.Keys + RunTables(v, n + 1)
  {
    hide Tables, Missing, Nth;
    MissingCount(tree, Nth(v, n), 3);
    NewOnes(RunTables(v, n), Tables(Nth(v, n), 3), tree0.Keys, tree.Keys);
    hide RunTables;
  }

  lemma NewOnes(a: set<Path>, b: set<Path>, had: set<Path>, have: set<Path>)
    requires have == had + a
    ensures |(a + b) - had| == |a - had| + |b - have| && have + b == had + (a + b)
  {
    assert (a + b) - had == (a - had) + (b - have);
    assert (a - had) * (b - have) == {};
  }

  lemma NoPrice(tree: Tree, answers: Answers, v: bv64)
    ensures RunTables(v, 0) == {} && Price(tree, v, 0) == 0 && Granted(answers, 0) && answers[0..] == answers && tree.Keys == tree.Keys + RunTables(v, 0)
  {
    assert RunTables(v, 0) - tree.Keys == {};
  }

  lemma GrantedRest(answers: Answers, m: nat, k: nat)
    requires Granted(answers, m)
    ensures Granted(answers[m..], k) <==> Granted(answers, m + k)
    ensures Granted(answers, m + k) ==> answers[m..][k..] == answers[m + k..]
  {
    if Granted(answers[m..], k) {
      forall i | 0 <= i < m + k ensures answers[i].Some? { if i >= m { assert answers[i] == answers[m..][i - m]; } }
    }
    if Granted(answers, m + k) {
      forall i | 0 <= i < k ensures answers[m..][i].Some? { assert answers[m..][i] == answers[m + i]; }
    }
  }

  lemma NotGranted(answers: Answers, tree: Tree, v: bv64, m: nat, n: nat)
    requires m <= n && !Granted(answers, Price(tree, v, m))
    ensures !Granted(answers, Price(tree, v, n))
  {
    hide Price;
    PriceGrows(tree, v, m, n);
  }

  function MapRun(mapped: Mapping, v: bv64, phys: bv64, attrs: bv64, n: nat): Mapping
  {
    if n == 0 then mapped else MapAt(MapRun(mapped, v, phys, attrs, n - 1), Nth(v, n - 1), Entry(Nth(phys, n - 1), attrs))
  }

  /** The first page of a run is the page asked for, and each other one is 4096 bytes behind the one before it. */
  lemma PagesFollow(a: bv64, k: nat)
    ensures Nth(a, 0) == a && Nth(a, k + 1) == Nth(a, k) + 0x1000
  {}

  /** What memory shows of a page in a run that has been mapped without harm, unless the run maps it again. */
  lemma RunShows(b: PageTableBuilder, tree0: Tree, mapped0: Mapping, v: bv64, phys: bv64, attrs: bv64, n: nat, t: Tree, i: nat)
    requires b.Ran(tree0, mapped0, v, phys, attrs, n, n, t) && i < n && (Nth(v, i) >> 39) & 0x1FF != 511
    requires forall j :: i < j < n ==> VPage(Nth(v, j)) != VPage(Nth(v, i))
    requires Plain(Nth(phys, i), attrs)
    ensures if attrs & 1 != 0 then MapsTo(b.mem, b.root, Nth(v, i), Nth(phys, i), attrs) else Hidden(b.mem, b.root, Nth(v, i))
  {
    hide Built, Fresh, MapsTo, Hidden, Plain, Entry, VPage, Idx, MapRun, Nth, Reached, Grown;
    PageByNumber(Nth(v, i));
    RunMaps(mapped0, v, phys, attrs, n, i);
    EntryShown(b.mem, b.root, b.tree, b.mapped, Nth(v, i), Nth(phys, i), attrs);
  }

  lemma RunStarts(mapped: Mapping, v: bv64, phys: bv64, attrs: bv64)
    ensures Nth(v, 0) == v && Nth(phys, 0) == phys && MapRun(mapped, v, phys, attrs, 0) == mapped
  {}

  lemma RunStep(mapped: Mapping, v: bv64, phys: bv64, attrs: bv64, n: nat)
    ensures Nth(v, n + 1) == NextPage(Nth(v, n)) && Nth(phys, n + 1) == NextPage(Nth(phys, n))
    ensures MapRun(mapped, v, phys, attrs, n + 1) == MapAt(MapRun(mapped, v, phys, attrs, n), Nth(v, n), Entry(Nth(phys, n), attrs))
  {}

  /** The last page of a run with a given number is what that page is mapped to. */
  lemma {:induction false} RunMaps(mapped: Mapping, v: bv64, phys: bv64, attrs: bv64, n: nat, i: nat)
    requires i < n && Idx(Nth(v, i), 4) != SELF && forall j :: i < j < n ==> VPage(Nth(v, j)) != VPage(Nth(v, i))
    ensures MapRun(mapped, v, phys, attrs, n)(VPage(Nth(v, i))) == Some(Entry(Nth(phys, i), attrs))
  {
    hide VPage, Entry, Nth;
    if i < n - 1 { RunMaps(mapped, v, phys, attrs, n - 1, i); }
  }

  /** Other pages stay as they are. */
  lemma {:induction false} RunKeeps(mapped: Mapping, v: bv64, phys: bv64, attrs: bv64, n: nat, page: bv64)
    requires forall j :: 0 <= j < n ==> VPage(Nth(v, j)) != page
    ensures MapRun(mapped, v, phys, attrs, n)(page) == mapped(page)
  {
    hide VPage, Entry, Nth;
    if n > 0 { RunKeeps(mapped, v, phys, attrs, n - 1, page); }
  }

  /** Mapping a page changes its translation, and that of no other page. */
  lemma OnlyThatPage(mem: Memory, mem': Memory, root: bv64, tree: Tree, tree': Tree, mapped: Mapping, v: bv64, e: bv64, w: bv64)
    requires Built(mem, root, tree, mapped) && Built(mem', root, tree', Map(mapped, VPage(v), e)) && Idx(w, 4) != SELF
    ensures Translate(mem', root, w) ==
      if VPage(w) != VPage(v) then Translate(mem, root, w) else if Present(e) then Some(e) else None
  {
    hide Built, VPage, Idx, Translate, Present;
    TranslationIsMapping(mem, root, tree, mapped, w);
    TranslationIsMapping(mem', root, tree', Map(mapped, VPage(v), e), w);
  }

  lemma FreshRest(answers: Answers, tree: Tree)
    requires Fresh(answers, tree)
    ensures answers != [] ==> Fresh(answers[1..], tree)
  {}

  lemma VacantNow(answers: Answers, tree: Tree, p: Path, i: bv64)
    requires Fresh(answers, tree) && Granted(answers, 1)
    requires p in tree && |p| < 3 && InTable(i) && (p != [] || i != SELF) && p + [i] !in tree
    ensures var page := answers[0].value; Vacant(tree, p, i, page) && Fresh(answers[1..], tree[p + [i] := page])
  {
    hide Aligned, InTable;
  }
}
