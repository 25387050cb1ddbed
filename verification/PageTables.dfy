/** Four-level page tables as the boot loader builds them in physical memory
    (`efi/src/main/cpp/virtual.cpp`), with the table mapped into itself through slot 511. */
module PageTables {
  import opened Options

  const PRESENT: bv64 := 1
  const RW: bv64 := 2
  const ADDR_MASK: bv64 := 0x000F_FFFF_FFFF_F000
  const PAGE_BYTES: bv64 := 0x1000
  const PT_BASE: bv64 := 0xFFFF_FF80_0000_0000

  // ---------------------------------------------------------------- addresses

  /** `PT_IDX`: nine bits of the address per level. */
  function Idx(v: bv64, level: nat): bv64
    requires 1 <= level <= 4
  {
    match level
    case 4 => (v >> 39) & 0x1FF
    case 3 => (v >> 30) & 0x1FF
    case 2 => (v >> 21) & 0x1FF
    case _ => (v >> 12) & 0x1FF
  }

  /** `PT_ENTRY`: where the self-map shows the entry that maps `v`. */
  function PtEntry(v: bv64): bv64
  {
    PT_BASE | ((v >> 9) & !7)
  }

  /** The kernel's `entryAddr`, with the start of the tables as a parameter. */
  function EntryAddr(tablesStart: bv64, v: bv64): bv64
  {
    tablesStart | ((v >> 9) & !7)
  }

  /** Physical address of a slot of a table. */
  function Slot(table: bv64, i: bv64): bv64
  {
    Plus(table, ByteOf(i))
  }

  function Plus(a: bv64, b: bv64): bv64
  {
    a + b
  }

  /** An entry has eight bytes. */
  function ByteOf(i: bv64): bv64
  {
    i << 3
  }

  predicate Aligned(a: bv64)
  {
    a & !ADDR_MASK == 0
  }

  lemma IdxRange(v: bv64, level: nat)
    requires 1 <= level <= 4
    ensures Idx(v, level) < 512
  {}

  /** The address of an entry has the indices of `v`, one level up, behind 511; its offset is the slot. */
  lemma EntryIndices(v: bv64)
    ensures Idx(PtEntry(v), 4) == 511
    ensures Idx(PtEntry(v), 3) == Idx(v, 4)
    ensures Idx(PtEntry(v), 2) == Idx(v, 3)
    ensures Idx(PtEntry(v), 1) == Idx(v, 2)
    ensures PtEntry(v) & 0xFFF == Idx(v, 1) << 3
  {}

  lemma SlotInPage(t: bv64, i: bv64)
    requires Aligned(t) && i < 512
    ensures Slot(t, i) & !0xFFF == t && Slot(t, i) & 0xFFF == i << 3
  {}

  /** Different slots have different addresses. */
  lemma SlotsApart(t: bv64, i: bv64, u: bv64, j: bv64)
    requires Aligned(t) && Aligned(u) && i < 512 && j < 512 && Slot(t, i) == Slot(u, j)
    ensures t == u && i == j
  {
    SlotInPage(t, i);
    SlotInPage(u, j);
    ShiftInjective(i, j);
  }

  lemma ShiftInjective(i: bv64, j: bv64)
    requires i < 512 && j < 512 && i << 3 == j << 3
    ensures i == j
  {}

  /** The page an address lies in, as far as the tables can tell. */
  function VPage(v: bv64): bv64
  {
    v & 0x0000_FFFF_FFFF_F000
  }

  /** Addresses with the same indices lie in the same page. */
  lemma SamePage(v: bv64, w: bv64)
    ensures VPage(v) == VPage(w) <==>
      Idx(v, 4) == Idx(w, 4) && Idx(v, 3) == Idx(w, 3) && Idx(v, 2) == Idx(w, 2) && Idx(v, 1) == Idx(w, 1)
  {
    FromIndices(v);
    FromIndices(w);
    PageIndices(v);
    PageIndices(w);
    hide *;
  }

  function Joined(i4: bv64, i3: bv64, i2: bv64, i1: bv64): bv64
  {
    (i4 << 39) | (i3 << 30) | (i2 << 21) | (i1 << 12)
  }

  lemma FromIndices(v: bv64)
    ensures VPage(v) == Joined(Idx(v, 4), Idx(v, 3), Idx(v, 2), Idx(v, 1))
  {}

  lemma PageIndices(v: bv64)
    ensures Idx(VPage(v), 4) == Idx(v, 4) && Idx(VPage(v), 3) == Idx(v, 3)
    ensures Idx(VPage(v), 2) == Idx(v, 2) && Idx(VPage(v), 1) == Idx(v, 1)
    ensures VPage(VPage(v)) == VPage(v)
  {}

  // ---------------------------------------------------------------- walking

  /** Contents of physical memory, by the address of the eight-byte slot. */
  type Memory = bv64 -> bv64

  predicate Present(e: bv64)
  {
    e & PRESENT != 0
  }

  /** The address part of an entry. */
  function Frame(e: bv64): bv64
  {
    e & ADDR_MASK
  }

  /** Where an entry leads. */
  function Leads(e: bv64): Option<bv64>
  {
    if Present(e) then Some(Frame(e)) else None
  }

  /** The table that the processor uses for `v` at a level. */
  function TableAt(mem: Memory, root: bv64, v: bv64, level: nat): Option<bv64>
    requires 1 <= level <= 4
    decreases 4 - level
  {
    if level == 4 then Some(root) else Lower(mem, TableAt(mem, root, v, level + 1), Idx(v, level + 1))
  }

  /** One step of the walk. */
  function Lower(mem: Memory, t: Option<bv64>, i: bv64): Option<bv64>
  {
    match t
    case None => None
    case Some(t) => Leads(mem(Slot(t, i)))
  }

  /** The entry that maps `v`, if it is present. */
  function Translate(mem: Memory, root: bv64, v: bv64): Option<bv64>
  {
    match TableAt(mem, root, v, 1)
    case None => None
    case Some(t) =>
      var e := mem(Slot(t, Idx(v, 1)));
      if Present(e) then Some(e) else None
  }

  /** A step of the walk in numbers: an entry has eight bytes, its bit 0 says "present", and bits 12 to 51
      are the address of the next table. */
  lemma StepByNumbers(mem: Memory, t: bv64, i: bv64)
    ensures var e := mem(t + (i << 3)); Lower(mem, Some(t), i) == if e & 1 != 0 then Some(e & 0x000F_FFFF_FFFF_F000) else None
  {
    hide *;
    SlotByNumbers(t, i);
    LowerIsLeads(mem, t, i);
    LeadsByNumbers(mem(Slot(t, i)));
  }

  lemma LowerIsLeads(mem: Memory, t: bv64, i: bv64)
    ensures Lower(mem, Some(t), i) == Leads(mem(Slot(t, i)))
  {
    hide Slot, Leads;
  }

  lemma LeadsByNumbers(e: bv64)
    ensures Leads(e) == if e & 1 != 0 then Some(e & 0x000F_FFFF_FFFF_F000) else None
  {}

  lemma SlotByNumbers(t: bv64, i: bv64)
    ensures Slot(t, i) == t + (i << 3)
  {
    SlotIsPlus(t, i);
    PlusIs(t, i << 3);
    hide *;
  }

  lemma SlotIsPlus(t: bv64, i: bv64)
    ensures Slot(t, i) == Plus(t, i << 3)
  {
    hide Plus;
  }

  lemma PlusIs(a: bv64, b: bv64)
    ensures Plus(a, b) == a + b
  {}

  /** The place in a frame that an address is translated to. */
  lemma AddressByNumbers(e: bv64, w: bv64, phys: bv64)
    requires Frame(e) == phys
    ensures Address(e, w) == phys + (w & 0xFFF)
  {
    hide Frame, Plus;
    PlusIs(phys, w & 0xFFF);
  }

  /** The indices in numbers: nine bits of the address for each level. */
  lemma IndicesByNumbers(v: bv64)
    ensures Idx(v, 4) == (v >> 39) & 0x1FF && Idx(v, 3) == (v >> 30) & 0x1FF && Idx(v, 2) == (v >> 21) & 0x1FF && Idx(v, 1) == (v >> 12) & 0x1FF
    ensures PtEntry(v) == 0xFFFF_FF80_0000_0000 | ((v >> 9) & 0xFFFF_FFFF_FFFF_FFF8)
  {}

  function Offset(v: bv64): bv64
  {
    v & 0xFFF
  }

  /** The physical address that an access to `v` reaches. */
  function Physical(mem: Memory, root: bv64, v: bv64): Option<bv64>
  {
    match Translate(mem, root, v)
    case None => None
    case Some(e) => Some(Address(e, v))
  }

  /** The byte of the page that `e` maps. */
  function Address(e: bv64, v: bv64): bv64
  {
    Plus(Frame(e), Offset(v))
  }

  // ---------------------------------------------------------------- the self-map

  /** Slot 511 of the top table leads back to it. */
  predicate SelfMapped(mem: Memory, root: bv64)
  {
    Aligned(root) && Leads(mem(Slot(root, 511))) == Some(root)
  }

  /** Through the self-map the tables of an entry's address are those of `v`, one level down. */
  lemma {:induction false} EntryTables(mem: Memory, root: bv64, v: bv64, level: nat)
    requires SelfMapped(mem, root) && 1 <= level <= 3
    ensures TableAt(mem, root, PtEntry(v), level) == TableAt(mem, root, v, level + 1)
    decreases 3 - level
  {
    EntryIndices(v);
    hide Idx, PtEntry, Lower;
    Top(mem, root);
    if level < 3 { EntryTables(mem, root, v, level + 1); }
  }

  lemma Top(mem: Memory, root: bv64)
    requires SelfMapped(mem, root)
    ensures Lower(mem, Some(root), 511) == Some(root)
  {}

  /** Reading or writing at `PtEntry(v)` reaches the slot of `v` in its lowest table, if there is one,
      and nothing otherwise. */
  lemma EntryReachesSlot(mem: Memory, root: bv64, v: bv64)
    requires SelfMapped(mem, root)
    ensures Physical(mem, root, PtEntry(v)) ==
      match TableAt(mem, root, v, 1)
      case None => None
      case Some(t) => Some(Slot(t, Idx(v, 1)))
  {
    hide Idx, PtEntry, Slot, Frame, Present, Offset, Address, SelfMapped;
    EntryTables(mem, root, v, 1);
    match TableAt(mem, root, v, 2)
    case None =>
    case Some(u) =>
      EntryAddress(mem(Slot(u, Idx(v, 2))), v);
  }

  /** An entry leads to a table, and the address of an entry in the table to its slot. */
  lemma EntryAddress(e: bv64, v: bv64)
    ensures Idx(PtEntry(v), 1) == Idx(v, 2) && Address(e, PtEntry(v)) == Slot(Frame(e), Idx(v, 1))
  {
    hide Idx, PtEntry, Frame, Offset, ByteOf, Plus;
    EntryOffset(v);
  }

  lemma EntryOffset(v: bv64)
    ensures Idx(PtEntry(v), 1) == Idx(v, 2) && Offset(PtEntry(v)) == ByteOf(Idx(v, 1))
  {
    EntryIndices(v);
  }

  /** The four addresses show the entries of `v` at all levels, where these exist. */
  ghost predicate Shows(mem: Memory, root: bv64, v: bv64, pt: bv64, pd: bv64, pdpt: bv64, pml4: bv64)
  {
    && Physical(mem, root, pt) == SlotAt(mem, root, v, 1) && Physical(mem, root, pd) == SlotAt(mem, root, v, 2)
    && Physical(mem, root, pdpt) == SlotAt(mem, root, v, 3) && Physical(mem, root, pml4) == Some(Slot(root, Idx(v, 4)))
  }

  /** Where the walk reads the entry of a level. */
  function SlotAt(mem: Memory, root: bv64, v: bv64, level: nat): Option<bv64>
    requires 1 <= level <= 4
  {
    match TableAt(mem, root, v, level)
    case None => None
    case Some(t) => Some(Slot(t, Idx(v, level)))
  }

  /** `PT_ENTRY` repeated: the entries of the upper tables, up to the top one. */
  lemma UpperEntries(mem: Memory, root: bv64, v: bv64)
    requires SelfMapped(mem, root)
    ensures var pt := PtEntry(v); var pd := PtEntry(pt); var pdpt := PtEntry(pd);
      Shows(mem, root, v, pt, pd, pdpt, PtEntry(pdpt))
  {
    hide Idx, PtEntry, Slot, Physical, TableAt;
    var pt := PtEntry(v);
    var pd := PtEntry(pt);
    var pdpt := PtEntry(pd);
    EntryIndices(v);
    EntryIndices(pt);
    EntryIndices(pd);
    EntryReachesSlot(mem, root, v);
    EntryReachesSlot(mem, root, pt);
    EntryReachesSlot(mem, root, pd);
    EntryReachesSlot(mem, root, pdpt);
    EntryTables(mem, root, v, 1);
    EntryTables(mem, root, v, 2);
    EntryTables(mem, root, v, 3);
    EntryTables(mem, root, pt, 1);
    EntryTables(mem, root, pt, 2);
    EntryTables(mem, root, pd, 1);
    TopTable(mem, root, v);
  }

  lemma TopTable(mem: Memory, root: bv64, v: bv64)
    ensures TableAt(mem, root, v, 4) == Some(root)
  {}

  /** `PT_COMPUTE_ENTRIES`, whatever the tables. */
  method ComputeEntries(v: bv64) returns (pt: bv64, pd: bv64, pdpt: bv64, pml4: bv64)
    ensures forall mem: Memory, root: bv64 :: SelfMapped(mem, root) ==> Shows(mem, root, v, pt, pd, pdpt, pml4)
  {
    hide PtEntry, SelfMapped, Shows;
    pt := PtEntry(v);
    pd := PtEntry(pt);
    pdpt := PtEntry(pd);
    pml4 := PtEntry(pdpt);
    forall mem: Memory, root: bv64 | SelfMapped(mem, root) ensures Shows(mem, root, v, pt, pd, pdpt, pml4) {
      UpperEntries(mem, root, v);
    }
  }

  // ---------------------------------------------------------------- other places for the self-map

  /** Start of the tables if the self-map were in another slot of the upper half. */
  function TablesStart(slot: bv64): bv64
  {
    0xFFFF_0000_0000_0000 | (slot << 39)
  }

  predicate UpperHalf(v: bv64)
  {
    v >> 47 == 0x1_FFFF
  }

  predicate InTop(slot: bv64)
  {
    256 <= slot < 512
  }

  /** `entryAddr` finds the self-map by or-ing in the start of the tables. For the upper half of the
      address space, where the sign bits are set, this works in slot 511 and in no other. */
  lemma EntryAddrNeedsLastSlot(slot: bv64, v: bv64)
    requires InTop(slot) && UpperHalf(v)
    ensures Idx(EntryAddr(TablesStart(slot), v), 4) == slot <==> slot == 511
  {}
}
