/** Two-level page tables of kernel/mm/vmm.c on values, and the flat map they implement. */
module VmmModel {
  import opened Words
  import opened Bitmap
  import opened PmmModel

  const PTE_PRESENT := 1
  const PTE_WRITABLE := 2
  const ENTRIES := 1024
  const PAGE_TABLE_SPAN := 0x40_0000

  /** The allocator, `page_directory`, and physical memory as 32-bit words (address a is word a / 4). */
  datatype VmState = VmState(pmm: PmmState, pd: seq<Word>, mem: seq<Word>)

  predicate Present(entry: Word) { entry % 2 == 1 }

  /** The frame an entry points at: `entry & ~0xFFF` divided by the page size. */
  function Frame(entry: Word): nat { entry / PAGE_SIZE }

  /** `(address & ~0xFFF) | flags`: a sum, unless the flags reach into the address. */
  function Entry(address: Word, flags: Word): (entry: Word)
    ensures Present(entry) <==> Present(flags)
  {
    if flags < PAGE_SIZE then address / PAGE_SIZE * PAGE_SIZE + flags else
    OrIsWord(address / PAGE_SIZE * PAGE_SIZE, flags);
    OrIsOdd(address / PAGE_SIZE * PAGE_SIZE, flags);
    Or(address / PAGE_SIZE * PAGE_SIZE, flags)
  }

  /** In either case it is the bitwise OR. */
  lemma EntryIsOr(address: Word, flags: Word)
    ensures Entry(address, flags) == Or(address / PAGE_SIZE * PAGE_SIZE, flags)
  {
    TwoToThe32();
    if flags < PAGE_SIZE {
      OrIsSum(address / PAGE_SIZE, flags, 12);
    }
  }

  /** The write and user bits of an entry are those of its flags. */
  lemma EntryBits(address: Word, flags: Word)
    ensures var e := Entry(address, flags); e / 2 % 2 == flags / 2 % 2 && e / 4 % 2 == flags / 4 % 2
  {
    EntryIsOr(address, flags);
    hide Or, Entry;
    var a: nat := address / PAGE_SIZE * 1024;
    assert address / PAGE_SIZE * PAGE_SIZE == 2 * (2 * a);
    OrHalves(2 * a, flags);
    OrHalves(a, flags / 2);
    OrIsOdd(2 * a, flags / 2);
    OrIsOdd(a, flags / 2 / 2);
    QuarterOdd(a, flags);
    QuarterOdd(address / PAGE_SIZE, flags);
  }

  lemma QuarterOdd(a: nat, flags: nat)
    ensures 2 * a % 2 == 0 && flags / 2 / 2 == flags / 4 && a * 1024 % 2 == 0
  {
    var q, r := flags / 4, flags % 4;
    assert flags == 4 * q + r;
    DivisionIs(flags, 2, 2 * q + r / 2, r % 2);
    DivisionIs(2 * q + r / 2, 2, q, r / 2);
    DivisionIs(2 * a, 2, a, 0);
    DivisionIs(a * 1024, 2, a * 512, 0);
  }

  function DirectoryIndex(virt: Word): nat { virt / PAGE_TABLE_SPAN }
  function TableIndex(virt: Word): nat { virt / PAGE_SIZE % ENTRIES }

  /** Frame f lies wholly in memory. */
  predicate InMemory(mem: seq<Word>, f: nat) { (f + 1) * ENTRIES <= |mem| }

  /** Entry j of the table in frame f. */
  function TableEntry(mem: seq<Word>, f: nat, j: nat): Word
    requires j < ENTRIES && InMemory(mem, f)
  {
    mem[f * ENTRIES + j]
  }

  /** Memory covers every frame that has a bit, and the directory has its 1024 entries. */
  ghost predicate Shaped(s: VmState) {
    |s.pd| == ENTRIES && |s.pmm.bits| * ENTRIES <= |s.mem|
  }

  /** Present directory entries hold distinct tables, each in a taken frame other than frame 0. */
  ghost predicate TablesDistinct(s: VmState) {
    && |s.pd| == ENTRIES
    && (forall i :: 0 <= i < ENTRIES && Present(s.pd[i]) ==>
         0 < Frame(s.pd[i]) < |s.pmm.bits| && s.pmm.bits[Frame(s.pd[i])])
    && (forall i, j :: 0 <= i < j < ENTRIES && Present(s.pd[i]) && Present(s.pd[j]) ==>
         Frame(s.pd[i]) != Frame(s.pd[j]))
  }

  ghost predicate WellFormed(s: VmState) {
    Sane(s.pmm) && Shaped(s) && TablesDistinct(s)
  }

  /** The hardware's walk for one virtual page: the table entry, if both levels are present. */
  function Walk(s: VmState, page: nat): (entry: Word)
    requires page < TWO_TO_THE_20 && |s.pd| == ENTRIES
    requires Present(s.pd[page / ENTRIES]) ==> InMemory(s.mem, Frame(s.pd[page / ENTRIES]))
    ensures entry == 0 || Present(entry)
  {
    var pde := s.pd[page / ENTRIES];
    if !Present(pde) then 0 else
    var pte := TableEntry(s.mem, Frame(pde), page % ENTRIES);
    if Present(pte) then pte else 0
  }

  /** The flat map: entry `page` of the sequence is the translation of that virtual page, 0 for none. */
  ghost function Flat(s: VmState): (flat: seq<Word>)
    requires WellFormed(s)
    ensures |flat| == TWO_TO_THE_20
    ensures forall page :: 0 <= page < TWO_TO_THE_20 ==> flat[page] == Walk(s, page)
  {
    seq(TWO_TO_THE_20, page requires 0 <= page < TWO_TO_THE_20 => Walk(s, page))
  }

  // ---------- vmm_map and vmm_unmap ----------

  /** Memory with every word of frame f cleared. */
  function Zeroed(mem: seq<Word>, f: nat): (r: seq<Word>)
    ensures |r| == |mem|
  {
    seq(|mem|, k requires 0 <= k < |mem| => if f * ENTRIES <= k < (f + 1) * ENTRIES then 0 else mem[k])
  }

  /** The first half of `vmm_map`: a directory entry for virt, from a fresh zeroed frame if there is none. */
  function EnsureTable(s: VmState, virt: Word): (VmState, Found)
    requires WellFormed(s)
  {
    var i := DirectoryIndex(virt);
    if Present(s.pd[i]) then (s, Page(Frame(s.pd[i]))) else
    var (pmm, r) := Alloc(s.pmm, 1);
    if !r.Page? then (s.(pmm := pmm), r) else
    AllocIsFind(s.pmm, 1);
    (VmState(pmm, s.pd[i := Entry(r.first * PAGE_SIZE, PTE_PRESENT + PTE_WRITABLE)], Zeroed(s.mem, r.first)), r)
  }

  /** `vmm_map`, and the frame of the table it wrote. */
  function Map(s: VmState, phys: Word, virt: Word, flags: Word): (VmState, Found)
    requires WellFormed(s)
  {
    var (t, r) := EnsureTable(s, virt);
    if !r.Page? then (t, r) else
    AllocIsFind(s.pmm, 1);
    (t.(mem := t.mem[r.first * ENTRIES + TableIndex(virt) := Entry(phys, flags)]), r)
  }

  predicate EmptyTable(mem: seq<Word>, f: nat)
    requires InMemory(mem, f)
  {
    forall j :: 0 <= j < ENTRIES ==> !Present(TableEntry(mem, f, j))
  }

  /** `vmm_unmap`. */
  function Unmap(s: VmState, virt: Word): VmState
    requires WellFormed(s)
  {
    var i := DirectoryIndex(virt);
    if !Present(s.pd[i]) then s else
    var f := Frame(s.pd[i]);
    var mem := s.mem[f * ENTRIES + TableIndex(virt) := 0];
    if EmptyTable(mem, f) then VmState(Free(s.pmm, f, 1), s.pd[i := 0], mem) else s.(mem := mem)
  }

  /** The table of directory entry i has no present entry other than the one for virt. */
  ghost predicate LastEntry(s: VmState, virt: Word)
    requires WellFormed(s)
  {
    var pde := s.pd[DirectoryIndex(virt)];
    Present(pde) && forall j :: 0 <= j < ENTRIES && j != TableIndex(virt) ==> !Present(TableEntry(s.mem, Frame(pde), j))
  }

  // ---------- refinement of the flat map ----------

  lemma EntryFields(f: nat)
    requires f < TWO_TO_THE_20
    ensures var e := Entry(f * PAGE_SIZE, PTE_PRESENT + PTE_WRITABLE); Present(e) && Frame(e) == f
  {
    assert f * PAGE_SIZE + 3 == 2 * (f * 2048 + 1) + 1;
  }

  /** A directory entry for a frame that was free keeps the tables distinct. */
  lemma NewTableDistinct(s: VmState, t: VmState, i: nat, f: nat, entry: Word)
    requires TablesDistinct(s) && i < ENTRIES && !Present(s.pd[i]) && Present(entry) && Frame(entry) == f
    requires 0 < f < |s.pmm.bits| && !s.pmm.bits[f]
    requires t.pd == s.pd[i := entry] && t.pmm.bits == Mark(s.pmm.bits, f, f + 1, true)
    ensures TablesDistinct(t)
  {
    forall j | 0 <= j < ENTRIES && Present(t.pd[j])
      ensures 0 < Frame(t.pd[j]) < |t.pmm.bits| && t.pmm.bits[Frame(t.pd[j])] && (j != i ==> Frame(t.pd[j]) != f)
    {
      if j != i { assert t.pd[j] == s.pd[j]; }
    }
  }

  lemma EnsureTableWellFormed(s: VmState, virt: Word)
    requires WellFormed(s) && EnsureTable(s, virt).1.Page?
    ensures var (t, r) := EnsureTable(s, virt);
      WellFormed(t) && Present(t.pd[DirectoryIndex(virt)]) && Frame(t.pd[DirectoryIndex(virt)]) == r.first
  {
    var i := DirectoryIndex(virt);
    var (t, r) := EnsureTable(s, virt);
    if !Present(s.pd[i]) {
      AllocIsFind(s.pmm, 1);
      EntryFields(r.first);
      NewTableDistinct(s, t, i, r.first, t.pd[i]);
    }
  }

  lemma EnsureTableKeepsFlat(s: VmState, virt: Word)
    requires WellFormed(s) && EnsureTable(s, virt).1.Page?
    ensures var (t, r) := EnsureTable(s, virt); WellFormed(t) && Flat(t) == Flat(s)
  {
    EnsureTableWellFormed(s, virt);
    var t := EnsureTable(s, virt).0;
    if !Present(s.pd[DirectoryIndex(virt)]) {
      AllocIsFind(s.pmm, 1);
      forall page | 0 <= page < TWO_TO_THE_20 ensures Walk(t, page) == Walk(s, page) {
      }
    }
  }

  lemma WriteEntryIsUpdate(t: VmState, virt: Word, entry: Word)
    requires WellFormed(t) && Present(t.pd[DirectoryIndex(virt)])
    ensures var k := Frame(t.pd[DirectoryIndex(virt)]) * ENTRIES + TableIndex(virt);
      && k < |t.mem| && WellFormed(t.(mem := t.mem[k := entry]))
      && Flat(t.(mem := t.mem[k := entry])) == Flat(t)[virt / PAGE_SIZE := if Present(entry) then entry else 0]
  {
    var f := Frame(t.pd[DirectoryIndex(virt)]);
    var u := t.(mem := t.mem[f * ENTRIES + TableIndex(virt) := entry]);
    forall page | 0 <= page < TWO_TO_THE_20
      ensures Walk(u, page) == Flat(t)[virt / PAGE_SIZE := if Present(entry) then entry else 0][page]
    {
    }
  }

  /** `vmm_map` is an update of the flat map at one virtual page, whether or not it created a table. */
  lemma MapRefinesFlat(s: VmState, phys: Word, virt: Word, flags: Word)
    requires WellFormed(s) && Map(s, phys, virt, flags).1.Page?
    ensures var t := Map(s, phys, virt, flags).0;
      && WellFormed(t)
      && Flat(t) == Flat(s)[virt / PAGE_SIZE := if Present(flags) then Entry(phys, flags) else 0]
  {
    EnsureTableWellFormed(s, virt);
    EnsureTableKeepsFlat(s, virt);
    hide Walk, EnsureTable, TablesDistinct;
    WriteEntryIsUpdate(EnsureTable(s, virt).0, virt, Entry(phys, flags));
  }

  /** Giving back a table without a present entry changes no translation. */
  lemma FreeTableKeepsFlat(s: VmState, i: nat)
    requires WellFormed(s) && i < ENTRIES && Present(s.pd[i]) && EmptyTable(s.mem, Frame(s.pd[i]))
    ensures var t := VmState(Free(s.pmm, Frame(s.pd[i]), 1), s.pd[i := 0], s.mem); WellFormed(t) && Flat(t) == Flat(s)
  {
    var t := VmState(Free(s.pmm, Frame(s.pd[i]), 1), s.pd[i := 0], s.mem);
    forall page | 0 <= page < TWO_TO_THE_20 ensures Walk(t, page) == Walk(s, page) {
    }
  }

  /** `vmm_unmap` removes one virtual page from the flat map, whether or not it freed a table. */
  lemma UnmapRefinesFlat(s: VmState, virt: Word)
    requires WellFormed(s)
    ensures WellFormed(Unmap(s, virt))
    ensures Flat(Unmap(s, virt)) == Flat(s)[virt / PAGE_SIZE := 0]
  {
    var i := DirectoryIndex(virt);
    if Present(s.pd[i]) {
      hide Walk;
      WriteEntryIsUpdate(s, virt, 0);
      var f := Frame(s.pd[i]);
      var t := s.(mem := s.mem[f * ENTRIES + TableIndex(virt) := 0]);
      if EmptyTable(t.mem, f) {
        FreeTableKeepsFlat(t, i);
      }
    } else {
      assert virt / PAGE_SIZE / ENTRIES == i;
    }
  }

  // ---------- permissions ----------

  /** Every present directory entry permits writing, and nothing to user code: its twelve flag bits are 3. */
  ghost predicate DirectoryFlags(s: VmState) {
    |s.pd| == ENTRIES && forall i :: 0 <= i < ENTRIES && Present(s.pd[i]) ==> s.pd[i] % 4096 == 3
  }

  /** Both levels of the walk set bit 1. */
  predicate Writable(s: VmState, page: nat)
    requires page < TWO_TO_THE_20 && WellFormed(s)
  {
    Walk(s, page) != 0 && Walk(s, page) / 2 % 2 == 1 && s.pd[page / ENTRIES] / 2 % 2 == 1
  }

  /** Both levels of the walk set bit 2. */
  predicate UserPage(s: VmState, page: nat)
    requires page < TWO_TO_THE_20 && WellFormed(s)
  {
    Walk(s, page) != 0 && Walk(s, page) / 4 % 2 == 1 && s.pd[page / ENTRIES] / 4 % 2 == 1
  }

  lemma FlagBits(entry: Word)
    requires entry % 4096 == 3
    ensures entry / 2 % 2 == 1 && entry / 4 % 2 == 0
  {
    var q := entry / 4096;
    assert entry == q * 4096 + 3;
    DivisionIs(entry, 2, q * 2048 + 1, 1);
    DivisionIs(q * 2048 + 1, 2, q * 1024, 1);
    DivisionIs(entry, 4, q * 1024, 3);
    DivisionIs(q * 1024, 2, q * 512, 0);
  }

  lemma WritableIffEntry(s: VmState, page: nat)
    requires WellFormed(s) && DirectoryFlags(s) && page < TWO_TO_THE_20
    ensures Writable(s, page) <==> Walk(s, page) / 2 % 2 == 1
    ensures !UserPage(s, page)
  {
    if Present(s.pd[page / ENTRIES]) {
      FlagBits(s.pd[page / ENTRIES]);
    }
  }

  lemma NewTableFlags(f: nat)
    requires f < TWO_TO_THE_20
    ensures Entry(f * PAGE_SIZE, PTE_PRESENT + PTE_WRITABLE) % 4096 == 3
  {
  }

  lemma MapKeepsFlags(s: VmState, phys: Word, virt: Word, flags: Word)
    requires WellFormed(s) && DirectoryFlags(s) && Map(s, phys, virt, flags).1.Page?
    ensures DirectoryFlags(Map(s, phys, virt, flags).0)
  {
    AllocIsFind(s.pmm, 1);
    if !Present(s.pd[DirectoryIndex(virt)]) {
      NewTableFlags(EnsureTable(s, virt).1.first);
    }
  }

  /** A mapping permits what its flags say, whether or not it needed a table; the other pages permit what they did. */
  lemma MapPermits(s: VmState, phys: Word, virt: Word, flags: Word)
    requires WellFormed(s) && DirectoryFlags(s) && Map(s, phys, virt, flags).1.Page?
    ensures var t := Map(s, phys, virt, flags).0;
      && WellFormed(t) && DirectoryFlags(t)
      && (Writable(t, virt / PAGE_SIZE) <==> flags % 2 == 1 && flags / 2 % 2 == 1)
      && (forall page :: 0 <= page < TWO_TO_THE_20 && page != virt / PAGE_SIZE ==>
           (Writable(t, page) <==> Writable(s, page)))
      && (forall page :: 0 <= page < TWO_TO_THE_20 ==> !UserPage(t, page))
  {
    MapRefinesFlat(s, phys, virt, flags);
    MapKeepsFlags(s, phys, virt, flags);
    EntryBits(phys, flags);
    var t := Map(s, phys, virt, flags).0;
    hide Walk, Map, Writable, UserPage, Entry, DirectoryFlags;
    forall page | 0 <= page < TWO_TO_THE_20
      ensures Writable(t, page) <==> Flat(t)[page] / 2 % 2 == 1
      ensures Writable(s, page) <==> Flat(s)[page] / 2 % 2 == 1
      ensures !UserPage(t, page)
    {
      WritableIffEntry(s, page);
      WritableIffEntry(t, page);
    }
  }

  lemma UnmapKeepsFlags(s: VmState, virt: Word)
    requires WellFormed(s) && DirectoryFlags(s)
    ensures DirectoryFlags(Unmap(s, virt))
  {
  }
}
