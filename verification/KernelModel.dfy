/** The allocator, the page tables and the heap of kernel/mm together, with an owner for every frame in use. */
module KernelModel {
  import opened Words
  import opened Bitmap
  import opened PmmModel
  import opened VmmModel

  const HEAP_MAGIC: Word := 0xdead_beef
  const HEADER_SIZE := 16
  const KERNEL_BASE := 0xC000_0000
  const MAX_REQUEST := 0xFFFF_EFF0

  /** What a taken frame is used for. Frames taken at boot are reserved, the static first page table among them. */
  datatype Owner = Reserved | HeapMeta | TaskStack | BlockFrame(start: nat) | TableFrame(index: nat)

  /**
   * The memory of the running kernel. `heap` and `head` are the frames of `struct heap` and of its list head, 0 before
   * `heap_create`. `blocks` maps the first frame of each live block to its requested size; like `owner`, it is not
   * stored anywhere by the kernel.
   */
  datatype Kernel = Kernel(vm: VmState, heap: nat, head: nat, blocks: map<nat, Word>, owner: map<nat, Owner>)

  /** `HIGHER_HALF` and `PHYSICAL`, modulo 2^32. */
  function HigherHalf(address: Word): Word { Wrap32(address + KERNEL_BASE) }
  function Physical(address: Word): Word { Wrap32(address - KERNEL_BASE) }

  lemma PhysicalInverts(address: Word)
    ensures Physical(HigherHalf(address)) == address && HigherHalf(Physical(address)) == address
  {
  }

  /** `DIV_CEILING(sizeof(struct heap_block) + n, PAGE_SIZE)` in 32 bits. */
  function PagesFor(n: Word): nat {
    Wrap32(HEADER_SIZE + n + (PAGE_SIZE - 1)) / PAGE_SIZE
  }

  /** The pages taken for a block hold its header and its bytes exactly when the sum did not wrap. */
  lemma BlockFitsIff(n: Word)
    ensures HEADER_SIZE + n <= PagesFor(n) * PAGE_SIZE <==> n <= MAX_REQUEST
    ensures n <= MAX_REQUEST ==> 0 < PagesFor(n) && (PagesFor(n) - 1) * PAGE_SIZE < HEADER_SIZE + n
  {
    if n <= MAX_REQUEST {
      assert Wrap32(HEADER_SIZE + n + (PAGE_SIZE - 1)) == HEADER_SIZE + n + (PAGE_SIZE - 1);
    } else {
      assert Wrap32(HEADER_SIZE + n + (PAGE_SIZE - 1)) == HEADER_SIZE + n + (PAGE_SIZE - 1) - TWO_TO_THE_32;
    }
  }

  predicate InRange(f: nat, lo: nat, hi: nat) { lo <= f < hi }

  /** The frames lo .. hi-1, all owned by the block that starts at lo. */
  function BlockOwners(lo: nat, hi: nat): map<nat, Owner> {
    map f: nat | lo <= f < hi && InRange(f, lo, hi) :: BlockFrame(lo)
  }

  function Frames(lo: nat, hi: nat): set<nat> {
    set f: nat | lo <= f < hi && InRange(f, lo, hi)
  }

  function Address(frame: nat): Word { Wrap32(frame * PAGE_SIZE) }

  /** The virtual page through which the header of the block at frame b is accessed. */
  function BlockPage(b: nat): nat { HigherHalf(Address(b)) / PAGE_SIZE }

  /** The four words of a block header, in field order: next, prev, size, magic. */
  function Header(mem: seq<Word>, b: nat): seq<Word>
    requires InMemory(mem, b)
  {
    mem[b * ENTRIES..b * ENTRIES + 4]
  }

  // ---------- the invariant ----------

  /** The set bits are exactly the owned frames. */
  ghost predicate BitsOwned(k: Kernel) {
    && (forall f :: f in k.owner ==> f < |k.vm.pmm.bits| && k.vm.pmm.bits[f])
    && (forall f :: 0 <= f < |k.vm.pmm.bits| && k.vm.pmm.bits[f] ==> f in k.owner)
  }

  ghost predicate OwnedAs(k: Kernel, f: nat, o: Owner) {
    f in k.owner && k.owner[f] == o
  }

  /** A frame belongs to a page table exactly when a present directory entry other than the first points at it. */
  ghost predicate TablesOwned(k: Kernel) {
    && |k.vm.pd| == ENTRIES
    && Present(k.vm.pd[0]) && OwnedAs(k, Frame(k.vm.pd[0]), Reserved)
    && (forall i :: 0 < i < ENTRIES && Present(k.vm.pd[i]) ==> OwnedAs(k, Frame(k.vm.pd[i]), TableFrame(i)))
    && (forall f :: f in k.owner && k.owner[f].TableFrame? ==>
         var i := k.owner[f].index; 0 < i < ENTRIES && Present(k.vm.pd[i]) && Frame(k.vm.pd[i]) == f)
  }

  /** A frame belongs to a block exactly when it lies in the range that block took. */
  ghost predicate BlocksOwned(k: Kernel) {
    && (forall b :: b in k.blocks ==> 0 < b && 0 < PagesFor(k.blocks[b]))
    && (forall b, f :: b in k.blocks && b <= f < b + PagesFor(k.blocks[b]) ==> OwnedAs(k, f, BlockFrame(b)))
    && (forall f :: f in k.owner && k.owner[f].BlockFrame? ==>
         var b := k.owner[f].start; b in k.blocks && b <= f < b + PagesFor(k.blocks[b]))
  }

  ghost predicate HeapOwned(k: Kernel) {
    && (forall f :: f in k.owner && k.owner[f] == HeapMeta ==> k.heap != 0 && (f == k.heap || f == k.head))
    && (k.heap == 0 ==> k.head == 0 && k.blocks == map[])
    && (k.heap != 0 ==>
         OwnedAs(k, k.heap, HeapMeta) && OwnedAs(k, k.head, HeapMeta) && k.heap != k.head && k.head != 0)
  }

  /** `h->head` points at the list head, whose links point back at itself. */
  ghost predicate HeadSelfLoop(k: Kernel) {
    k.heap != 0 ==>
      && InMemory(k.vm.mem, k.heap) && InMemory(k.vm.mem, k.head)
      && k.vm.mem[k.heap * ENTRIES] == Address(k.head)
      && Header(k.vm.mem, k.head) == [Address(k.head), Address(k.head), 0, HEAP_MAGIC]
  }

  /** A live block is mapped at its higher-half address and its header links to the list head. */
  ghost predicate BlockReady(k: Kernel, b: nat)
    requires WellFormed(k.vm) && b in k.blocks
  {
    && InMemory(k.vm.mem, b)
    && Header(k.vm.mem, b) == [Address(k.head), Address(k.head), k.blocks[b], HEAP_MAGIC]
    && Walk(k.vm, BlockPage(b)) == Entry(Address(b), PTE_PRESENT + PTE_WRITABLE)
  }

  /** The invariant, with the blocks outside `ready` still being set up. */
  ghost predicate InvFor(k: Kernel, ready: set<nat>) {
    && WellFormed(k.vm)
    && BitsOwned(k) && TablesOwned(k) && BlocksOwned(k) && HeapOwned(k)
    && HeadSelfLoop(k)
    && forall b :: b in ready ==> b in k.blocks && BlockReady(k, b)
  }

  ghost predicate Inv(k: Kernel) {
    InvFor(k, k.blocks.Keys)
  }

  // ---------- operations ----------

  function MapPage(k: Kernel, phys: Word, virt: Word, flags: Word): (Kernel, Found)
    requires WellFormed(k.vm)
  {
    var i := DirectoryIndex(virt);
    var (vm, r) := Map(k.vm, phys, virt, flags);
    var owner := if r.Page? && !Present(k.vm.pd[i]) then k.owner[r.first := TableFrame(i)] else k.owner;
    (k.(vm := vm, owner := owner), r)
  }

  function UnmapPage(k: Kernel, virt: Word): Kernel
    requires WellFormed(k.vm)
  {
    var pde := k.vm.pd[DirectoryIndex(virt)];
    var vm := Unmap(k.vm, virt);
    var freed := Present(pde) && !Present(vm.pd[DirectoryIndex(virt)]);
    k.(vm := vm, owner := if freed then k.owner - {Frame(pde)} else k.owner)
  }

  /** What a caller of `vmm_map` and `vmm_unmap` must respect: the pages of live blocks are the heap's own. */
  ghost predicate ForeignPage(blocks: set<nat>, virt: Word) {
    forall b :: b in blocks ==> BlockPage(b) != virt / PAGE_SIZE
  }

  /** Unmapping the last page of the static first table would hand a kernel frame to the allocator. */
  ghost predicate KeepsFirstTable(k: Kernel, virt: Word)
    requires WellFormed(k.vm)
  {
    DirectoryIndex(virt) == 0 ==> !LastEntry(k.vm, virt)
  }

  // ---------- vmm_map keeps the invariant ----------

  /** The frame written by `vmm_map` is a page table: no block and no heap frame is touched. */
  lemma MapTouchesOneFrame(k: Kernel, phys: Word, virt: Word, flags: Word)
    requires WellFormed(k.vm) && BitsOwned(k) && TablesOwned(k)
    requires MapPage(k, phys, virt, flags).1.Page?
    ensures var (t, r) := MapPage(k, phys, virt, flags);
      && |t.vm.mem| == |k.vm.mem|
      && (r.first in k.owner ==> k.owner[r.first] == Reserved || k.owner[r.first].TableFrame?)
      && forall w :: 0 <= w < |k.vm.mem| && w / ENTRIES != r.first ==> t.vm.mem[w] == k.vm.mem[w]
  {
    AllocIsFind(k.vm.pmm, 1);
    var i := DirectoryIndex(virt);
    var r := MapPage(k, phys, virt, flags).1;
    assert forall w :: (0 <= w && w / ENTRIES != r.first ==> w != r.first * ENTRIES + TableIndex(virt));
  }

  lemma MapKeepsBitsOwned(k: Kernel, phys: Word, virt: Word, flags: Word)
    requires WellFormed(k.vm) && BitsOwned(k)
    requires MapPage(k, phys, virt, flags).1.Page?
    ensures var t := MapPage(k, phys, virt, flags).0;
      && BitsOwned(t)
      && (forall f :: f in k.owner ==> OwnedAs(t, f, k.owner[f]))
      && (forall f :: f in t.owner && f !in k.owner ==> t.owner[f].TableFrame?)
  {
    AllocIsFind(k.vm.pmm, 1);
  }

  lemma EntryOfFrame(f: nat)
    requires f < TWO_TO_THE_20
    ensures var e := Entry(Address(f), PTE_PRESENT + PTE_WRITABLE); Present(e) && Frame(e) == f
  {
    assert Address(f) == f * PAGE_SIZE;
    EntryFields(f);
  }

  lemma NewTableOwned(k: Kernel, t: Kernel, i: nat, f: nat)
    requires TablesOwned(k) && 0 < i < ENTRIES && f !in k.owner && !Present(k.vm.pd[i])
    requires t.vm.pd == k.vm.pd[i := Entry(Address(f), PTE_PRESENT + PTE_WRITABLE)] && f < TWO_TO_THE_20
    requires t.owner == k.owner[f := TableFrame(i)]
    ensures TablesOwned(t)
  {
    EntryOfFrame(f);
    forall g | g in t.owner && t.owner[g].TableFrame?
      ensures var j := t.owner[g].index; 0 < j < ENTRIES && Present(t.vm.pd[j]) && Frame(t.vm.pd[j]) == g
    {
      if g != f { assert k.owner[g] == t.owner[g]; }
    }
    forall j | 0 < j < ENTRIES && Present(t.vm.pd[j]) ensures OwnedAs(t, Frame(t.vm.pd[j]), TableFrame(j)) {
      if j != i {
        assert OwnedAs(k, Frame(k.vm.pd[j]), TableFrame(j));
      }
    }
  }

  lemma MapKeepsTablesOwned(k: Kernel, phys: Word, virt: Word, flags: Word)
    requires WellFormed(k.vm) && BitsOwned(k) && TablesOwned(k)
    requires MapPage(k, phys, virt, flags).1.Page?
    ensures TablesOwned(MapPage(k, phys, virt, flags).0)
  {
    var i := DirectoryIndex(virt);
    var (t, r) := MapPage(k, phys, virt, flags);
    if !Present(k.vm.pd[i]) {
      AllocIsFind(k.vm.pmm, 1);
      NewTableOwned(k, t, i, r.first);
    }
  }

  /** The two states agree on every frame that is not a page table's. */
  ghost predicate SameOwners(k: Kernel, t: Kernel) {
    && (forall f :: f in k.owner && !k.owner[f].TableFrame? ==> OwnedAs(t, f, k.owner[f]))
    && (forall f :: f in t.owner && !t.owner[f].TableFrame? ==> OwnedAs(k, f, t.owner[f]))
  }

  lemma OwnersSurvive(k: Kernel, t: Kernel)
    requires BlocksOwned(k) && HeapOwned(k) && SameOwners(k, t)
    requires t.heap == k.heap && t.head == k.head && t.blocks == k.blocks
    ensures BlocksOwned(t) && HeapOwned(t)
  {
    hide PagesFor;
    forall b, f | b in t.blocks && b <= f < b + PagesFor(t.blocks[b]) ensures OwnedAs(t, f, BlockFrame(b)) {
      assert OwnedAs(k, f, BlockFrame(b));
    }
    forall f | f in t.owner && !t.owner[f].TableFrame? ensures f in k.owner && k.owner[f] == t.owner[f] {
      assert OwnedAs(k, f, t.owner[f]);
    }
  }

  /** The heap's own words and mappings are as they were. */
  ghost predicate SameHeapWords(k: Kernel, t: Kernel, ready: set<nat>)
    requires WellFormed(k.vm) && WellFormed(t.vm)
  {
    && |t.vm.mem| == |k.vm.mem|
    && (forall f :: f in k.owner && (k.owner[f] == HeapMeta || k.owner[f].BlockFrame?) && InMemory(k.vm.mem, f)
         ==> Header(t.vm.mem, f) == Header(k.vm.mem, f))
    && (forall b :: b in ready ==> Walk(t.vm, BlockPage(b)) == Walk(k.vm, BlockPage(b)))
  }

  lemma HeapSurvives(k: Kernel, t: Kernel, ready: set<nat>)
    requires InvFor(k, ready) && WellFormed(t.vm)
    requires t.heap == k.heap && t.head == k.head && t.blocks == k.blocks
    requires SameHeapWords(k, t, ready)
    ensures HeadSelfLoop(t)
    ensures forall b :: b in ready ==> BlockReady(t, b)
  {
    forall b | b in ready ensures BlockReady(t, b) {
      assert OwnedAs(k, b, BlockFrame(b));
    }
    if k.heap != 0 {
      assert Header(t.vm.mem, k.heap)[0] == Header(k.vm.mem, k.heap)[0];
    }
  }

  /** A mapping at the page of one of these blocks repeats the one the block has. */
  ghost predicate AgreesWithBlocks(blocks: set<nat>, phys: Word, virt: Word, flags: Word) {
    forall b :: b in blocks && BlockPage(b) == virt / PAGE_SIZE ==>
      Present(flags) && Entry(phys, flags) == Entry(Address(b), PTE_PRESENT + PTE_WRITABLE)
  }

  lemma MapKeepsHeapWords(k: Kernel, phys: Word, virt: Word, flags: Word, ready: set<nat>)
    requires InvFor(k, ready) && AgreesWithBlocks(ready, phys, virt, flags)
    requires MapPage(k, phys, virt, flags).1.Page?
    ensures var t := MapPage(k, phys, virt, flags).0; WellFormed(t.vm) && SameHeapWords(k, t, ready)
  {
    MapRefinesFlat(k.vm, phys, virt, flags);
    MapTouchesOneFrame(k, phys, virt, flags);
    var (t, r) := MapPage(k, phys, virt, flags);
    forall f | f in k.owner && (k.owner[f] == HeapMeta || k.owner[f].BlockFrame?) && InMemory(k.vm.mem, f)
      ensures Header(t.vm.mem, f) == Header(k.vm.mem, f)
    {
      HeaderUntouched(k.vm.mem, t.vm.mem, f, r.first);
    }
    forall b | b in ready ensures Walk(t.vm, BlockPage(b)) == Walk(k.vm, BlockPage(b)) {
      assert Flat(t.vm)[BlockPage(b)] == Walk(t.vm, BlockPage(b));
      assert BlockReady(k, b);
    }
  }

  lemma MapKeepsInv(k: Kernel, phys: Word, virt: Word, flags: Word, ready: set<nat>)
    requires InvFor(k, ready) && AgreesWithBlocks(ready, phys, virt, flags)
    requires MapPage(k, phys, virt, flags).1.Page?
    ensures InvFor(MapPage(k, phys, virt, flags).0, ready)
  {
    MapKeepsBitsOwned(k, phys, virt, flags);
    MapKeepsTablesOwned(k, phys, virt, flags);
    MapKeepsHeapWords(k, phys, virt, flags, ready);
    OwnersSurvive(k, MapPage(k, phys, virt, flags).0);
    HeapSurvives(k, MapPage(k, phys, virt, flags).0, ready);
  }

  lemma UnmappedBlockBreaksInv(k: Kernel, b: nat)
    requires WellFormed(k.vm) && b in k.blocks
    requires Walk(k.vm, BlockPage(b)) != Entry(Address(b), PTE_PRESENT + PTE_WRITABLE)
    ensures !Inv(k)
  {
    assert Inv(k) ==> BlockReady(k, b);
  }

  lemma MapBreaksBlock(s: VmState, phys: Word, virt: Word, flags: Word, b: nat)
    requires WellFormed(s) && Map(s, phys, virt, flags).1.Page? && BlockPage(b) == virt / PAGE_SIZE
    requires Present(flags) ==> Entry(phys, flags) != Entry(Address(b), PTE_PRESENT + PTE_WRITABLE)
    ensures var t := Map(s, phys, virt, flags).0;
      WellFormed(t) && Walk(t, BlockPage(b)) != Entry(Address(b), PTE_PRESENT + PTE_WRITABLE)
  {
    MapRefinesFlat(s, phys, virt, flags);
    assert Flat(Map(s, phys, virt, flags).0)[BlockPage(b)] == if Present(flags) then Entry(phys, flags) else 0;
  }

  /** Mapping a page keeps the invariant exactly when it leaves the mappings of the live blocks as they are. */
  lemma MapKeepsInvIff(k: Kernel, phys: Word, virt: Word, flags: Word)
    requires Inv(k) && MapPage(k, phys, virt, flags).1.Page?
    ensures Inv(MapPage(k, phys, virt, flags).0) <==> AgreesWithBlocks(k.blocks.Keys, phys, virt, flags)
  {
    hide Map;
    var t := MapPage(k, phys, virt, flags).0;
    if AgreesWithBlocks(k.blocks.Keys, phys, virt, flags) {
      MapKeepsInv(k, phys, virt, flags, k.blocks.Keys);
    } else {
      var b :| b in k.blocks && BlockPage(b) == virt / PAGE_SIZE
        && !(Present(flags) && Entry(phys, flags) == Entry(Address(b), PTE_PRESENT + PTE_WRITABLE));
      MapBreaksBlock(k.vm, phys, virt, flags, b);
      UnmappedBlockBreaksInv(t, b);
    }
  }

  lemma HeaderUntouched(before: seq<Word>, after: seq<Word>, f: nat, g: nat)
    requires f != g && |after| == |before| && InMemory(before, f)
    requires forall w :: 0 <= w < |before| && w / ENTRIES != g ==> after[w] == before[w]
    ensures Header(after, f) == Header(before, f)
  {
    forall w | f * ENTRIES <= w < f * ENTRIES + 4 ensures after[w] == before[w] {
      assert w / ENTRIES == f;
    }
  }

  // ---------- vmm_unmap keeps the invariant ----------

  lemma UnmapTouchesOneFrame(k: Kernel, virt: Word)
    requires WellFormed(k.vm)
    ensures var t := UnmapPage(k, virt);
      && |t.vm.mem| == |k.vm.mem|
      && forall w :: 0 <= w < |k.vm.mem| && w / ENTRIES != Frame(k.vm.pd[DirectoryIndex(virt)]) ==>
           t.vm.mem[w] == k.vm.mem[w]
  {
    var f := Frame(k.vm.pd[DirectoryIndex(virt)]);
    assert forall w :: (0 <= w && w / ENTRIES != f ==> w != f * ENTRIES + TableIndex(virt));
  }

  /** The table's frame goes back to the allocator exactly when the entry removed was its last present one. */
  lemma UnmapFreesTableIff(s: VmState, virt: Word)
    requires WellFormed(s)
    ensures var i, t := DirectoryIndex(virt), Unmap(s, virt);
      if LastEntry(s, virt) then
        t.pd == s.pd[i := 0] && t.pmm == Free(s.pmm, Frame(s.pd[i]), 1)
      else
        t.pd == s.pd && t.pmm == s.pmm
  {
    var i := DirectoryIndex(virt);
    if Present(s.pd[i]) {
      var f := Frame(s.pd[i]);
      var mem := s.mem[f * ENTRIES + TableIndex(virt) := 0];
      assert forall j :: 0 <= j < ENTRIES ==>
        TableEntry(mem, f, j) == if j == TableIndex(virt) then 0 else TableEntry(s.mem, f, j);
      assert EmptyTable(mem, f) <==> LastEntry(s, virt);
    }
  }

  lemma UnmapKeepsOwners(k: Kernel, virt: Word)
    requires WellFormed(k.vm) && BitsOwned(k) && TablesOwned(k) && KeepsFirstTable(k, virt)
    ensures var t := UnmapPage(k, virt);
      && BitsOwned(t) && TablesOwned(t)
      && (forall f :: f in k.owner && !k.owner[f].TableFrame? ==> OwnedAs(t, f, k.owner[f]))
      && (forall f :: f in t.owner ==> OwnedAs(k, f, t.owner[f]))
  {
    UnmapFreesTableIff(k.vm, virt);
  }

  lemma UnmapKeepsHeapWords(k: Kernel, virt: Word)
    requires Inv(k) && ForeignPage(k.blocks.Keys, virt)
    ensures WellFormed(UnmapPage(k, virt).vm) && SameHeapWords(k, UnmapPage(k, virt), k.blocks.Keys)
  {
    hide Walk, PagesFor;
    var t := UnmapPage(k, virt);
    UnmapRefinesFlat(k.vm, virt);
    UnmapTouchesOneFrame(k, virt);
    var g := Frame(k.vm.pd[DirectoryIndex(virt)]);
    if Present(k.vm.pd[DirectoryIndex(virt)]) {
      forall f | f in k.owner && (k.owner[f] == HeapMeta || k.owner[f].BlockFrame?) && InMemory(k.vm.mem, f)
        ensures Header(t.vm.mem, f) == Header(k.vm.mem, f)
      {
        assert f != g;
        HeaderUntouched(k.vm.mem, t.vm.mem, f, g);
      }
    }
    forall b | b in k.blocks ensures Walk(t.vm, BlockPage(b)) == Walk(k.vm, BlockPage(b)) {
      assert Flat(t.vm)[BlockPage(b)] == Flat(k.vm)[BlockPage(b)];
    }
  }

  lemma UnmapKeepsInv(k: Kernel, virt: Word)
    requires Inv(k) && ForeignPage(k.blocks.Keys, virt) && KeepsFirstTable(k, virt)
    ensures Inv(UnmapPage(k, virt))
  {
    UnmapKeepsOwners(k, virt);
    UnmapKeepsHeapWords(k, virt);
    OwnersSurvive(k, UnmapPage(k, virt));
    HeapSurvives(k, UnmapPage(k, virt), k.blocks.Keys);
  }

  lemma UnmapBreaksBlock(s: VmState, virt: Word, b: nat)
    requires WellFormed(s) && BlockPage(b) == virt / PAGE_SIZE
    ensures WellFormed(Unmap(s, virt)) && Walk(Unmap(s, virt), BlockPage(b)) == 0
  {
    UnmapRefinesFlat(s, virt);
    assert Flat(Unmap(s, virt))[BlockPage(b)] == 0;
  }

  lemma UnmapBreaksInv(k: Kernel, virt: Word)
    requires WellFormed(k.vm) && !(ForeignPage(k.blocks.Keys, virt) && KeepsFirstTable(k, virt))
    ensures !Inv(UnmapPage(k, virt))
  {
    if !KeepsFirstTable(k, virt) {
      UnmapFreesTableIff(k.vm, virt);
    } else {
      var b :| b in k.blocks && BlockPage(b) == virt / PAGE_SIZE;
      UnmapBreaksBlock(k.vm, virt, b);
      UnmappedBlockBreaksInv(UnmapPage(k, virt), b);
    }
  }

  /**
   * Unmapping a page keeps the invariant exactly when the page is not a live block's and the static first table is not
   * emptied: emptying it would hand a frame of the kernel image to the allocator.
   */
  lemma UnmapKeepsInvIff(k: Kernel, virt: Word)
    requires Inv(k)
    ensures Inv(UnmapPage(k, virt)) <==> ForeignPage(k.blocks.Keys, virt) && KeepsFirstTable(k, virt)
  {
    hide Unmap;
    if ForeignPage(k.blocks.Keys, virt) && KeepsFirstTable(k, virt) {
      UnmapKeepsInv(k, virt);
    } else {
      UnmapBreaksInv(k, virt);
    }
  }

  // ---------- writes outside the page tables ----------

  /** A store into a frame that is no page table leaves every translation alone. */
  lemma WriteKeepsFlat(s: VmState, w: nat, v: Word)
    requires WellFormed(s) && w < |s.mem|
    requires forall i :: 0 <= i < ENTRIES && Present(s.pd[i]) ==> Frame(s.pd[i]) != w / ENTRIES
    ensures var t := s.(mem := s.mem[w := v]); WellFormed(t) && Flat(t) == Flat(s)
  {
    var t := s.(mem := s.mem[w := v]);
    forall page | 0 <= page < TWO_TO_THE_20 ensures Walk(t, page) == Walk(s, page) {
      var f, j := Frame(s.pd[page / ENTRIES]), page % ENTRIES;
      assert (f * ENTRIES + j) / ENTRIES == f;
    }
  }

  lemma SameWalks(s: VmState, t: VmState)
    requires WellFormed(s) && WellFormed(t) && s.pd == t.pd && s.mem == t.mem
    ensures Flat(s) == Flat(t)
  {
    forall page | 0 <= page < TWO_TO_THE_20 ensures Walk(s, page) == Walk(t, page) {
    }
  }

  lemma WordKeepsFlat(s: VmState, b: nat, w: nat, v: Word)
    requires WellFormed(s) && InMemory(s.mem, b) && w < ENTRIES
    requires forall i :: 0 <= i < ENTRIES && Present(s.pd[i]) ==> Frame(s.pd[i]) != b
    ensures var t := s.(mem := s.mem[b * ENTRIES + w := v]); WellFormed(t) && Flat(t) == Flat(s)
  {
    assert (b * ENTRIES + w) / ENTRIES == b;
    WriteKeepsFlat(s, b * ENTRIES + w, v);
  }

  /** Frame b's first four words overwritten. */
  function WithHeader(mem: seq<Word>, b: nat, next: Word, prev: Word, size: Word, magic: Word): seq<Word>
    requires InMemory(mem, b)
  {
    mem[b * ENTRIES := next][b * ENTRIES + 1 := prev][b * ENTRIES + 2 := size][b * ENTRIES + 3 := magic]
  }

  lemma WithHeaderWords(mem: seq<Word>, b: nat, next: Word, prev: Word, size: Word, magic: Word)
    requires InMemory(mem, b)
    ensures var r := WithHeader(mem, b, next, prev, size, magic);
      && |r| == |mem| && Header(r, b) == [next, prev, size, magic]
      && forall w :: 0 <= w < |mem| && w / ENTRIES != b ==> r[w] == mem[w]
  {
  }

  lemma WithHeaderKeepsFlat(s: VmState, b: nat, next: Word, prev: Word, size: Word, magic: Word)
    requires WellFormed(s) && InMemory(s.mem, b)
    requires forall i :: 0 <= i < ENTRIES && Present(s.pd[i]) ==> Frame(s.pd[i]) != b
    ensures var t := s.(mem := WithHeader(s.mem, b, next, prev, size, magic)); WellFormed(t) && Flat(t) == Flat(s)
  {
    hide Flat, Walk, WellFormed, Frame, Present;
    WordKeepsFlat(s, b, 0, next);
    var s1 := s.(mem := s.mem[b * ENTRIES + 0 := next]);
    WordKeepsFlat(s1, b, 1, prev);
    var s2 := s1.(mem := s1.mem[b * ENTRIES + 1 := prev]);
    WordKeepsFlat(s2, b, 2, size);
    var s3 := s2.(mem := s2.mem[b * ENTRIES + 2 := size]);
    WordKeepsFlat(s3, b, 3, magic);
    assert s3.mem[b * ENTRIES + 3 := magic] == WithHeader(s.mem, b, next, prev, size, magic);
  }

  lemma NoTableIn(k: Kernel, f: nat)
    requires WellFormed(k.vm) && TablesOwned(k)
    requires f in k.owner && (k.owner[f] == HeapMeta || k.owner[f].BlockFrame?)
    ensures forall i :: 0 <= i < ENTRIES && Present(k.vm.pd[i]) ==> Frame(k.vm.pd[i]) != f
  {
  }

  // ---------- heap_alloc ----------

  /** The `pmm_alloc` of `heap_alloc`, with the block entered in the ledger. */
  function TakeBlock(k: Kernel, n: Word): (Kernel, Found)
  {
    var (pmm, r) := Alloc(k.vm.pmm, PagesFor(n));
    if !r.Page? then (k.(vm := k.vm.(pmm := pmm)), r) else
    var b := r.first;
    (k.(vm := k.vm.(pmm := pmm), blocks := k.blocks[b := n],
        owner := k.owner + BlockOwners(b, b + PagesFor(n))), r)
  }

  /**
   * A request whose page count wraps is answered with one page or with none at all. In the second case the block is
   * frame 0, whoever owns it, and the allocator's cursor goes back to the start.
   */
  lemma OversizedBlock(k: Kernel, n: Word)
    requires n > MAX_REQUEST
    ensures PagesFor(n) == if n < 0xFFFF_FFF1 then 0 else 1
    ensures n < 0xFFFF_FFF1 ==>
      TakeBlock(k, n).1 == Page(0) && TakeBlock(k, n).0.vm.pmm == k.vm.pmm.(cursor := 0)
  {
    assert Wrap32(HEADER_SIZE + n + (PAGE_SIZE - 1)) == HEADER_SIZE + n + (PAGE_SIZE - 1) - TWO_TO_THE_32;
  }

  /** t is k with the free range b .. b+PagesFor(n)-1 taken for a block of n bytes. */
  ghost predicate Takes(k: Kernel, t: Kernel, b: nat, n: Word) {
    && t == k.(vm := t.vm, blocks := k.blocks[b := n], owner := t.owner)
    && t.vm.pd == k.vm.pd && t.vm.mem == k.vm.mem
    && t.vm.pmm.bits == Mark(k.vm.pmm.bits, b, b + PagesFor(n), true)
    && 0 < b && 0 < PagesFor(n) && b + PagesFor(n) <= |k.vm.pmm.bits|
    && (forall f :: b <= f < b + PagesFor(n) ==> f !in k.owner)
    && t.owner == k.owner + BlockOwners(b, b + PagesFor(n))
  }

  lemma BlockRange(k: Kernel, b: nat)
    requires BlocksOwned(k) && b in k.blocks
    ensures forall f :: b <= f < b + PagesFor(k.blocks[b]) ==> f in k.owner && k.owner[f] == BlockFrame(b)
  {
    forall f | b <= f < b + PagesFor(k.blocks[b]) ensures f in k.owner && k.owner[f] == BlockFrame(b) {
      assert OwnedAs(k, f, BlockFrame(b));
    }
  }

  lemma BlockStartOwned(k: Kernel, b: nat)
    requires BlocksOwned(k) && b in k.blocks
    ensures b in k.owner
  {
    BlockRange(k, b);
  }

  lemma TakesBits(k: Kernel, t: Kernel, b: nat, n: Word)
    requires Takes(k, t, b, n) && BitsOwned(k)
    ensures BitsOwned(t)
  {
  }

  lemma TakesTables(k: Kernel, t: Kernel, b: nat, n: Word)
    requires Takes(k, t, b, n) && TablesOwned(k)
    ensures TablesOwned(t)
  {
  }

  lemma TakesBlocks(k: Kernel, t: Kernel, b: nat, n: Word)
    requires Takes(k, t, b, n) && BlocksOwned(k) && HeapOwned(k) && k.heap != 0
    ensures b !in k.blocks && BlocksOwned(t) && HeapOwned(t)
  {
    if b in k.blocks { BlockStartOwned(k, b); }
    forall c, f | c in t.blocks && c <= f < c + PagesFor(t.blocks[c]) ensures OwnedAs(t, f, BlockFrame(c)) {
      if c != b { assert OwnedAs(k, f, BlockFrame(c)); }
    }
  }

  lemma TakeBlockTakes(k: Kernel, n: Word)
    requires WellFormed(k.vm) && BitsOwned(k) && 0 < PagesFor(n) && TakeBlock(k, n).1.Page?
    ensures var (t, r) := TakeBlock(k, n); Takes(k, t, r.first, n) && Sane(t.vm.pmm)
  {
    AllocIsFind(k.vm.pmm, PagesFor(n));
  }

  /** Blocks are ready whatever the allocator does, as long as memory and directory are as they were. */
  lemma BlocksStayReady(k: Kernel, t: Kernel)
    requires WellFormed(k.vm) && WellFormed(t.vm) && t.vm.pd == k.vm.pd && t.vm.mem == k.vm.mem && t.head == k.head
    requires forall c :: c in k.blocks ==> BlockReady(k, c)
    ensures forall c :: c in k.blocks && c in t.blocks && t.blocks[c] == k.blocks[c] ==> BlockReady(t, c)
  {
    forall c | c in k.blocks && c in t.blocks && t.blocks[c] == k.blocks[c] ensures BlockReady(t, c) {
      assert BlockReady(k, c);
      assert Walk(t.vm, BlockPage(c)) == Walk(k.vm, BlockPage(c));
    }
  }

  lemma TakesKeepsInv(k: Kernel, t: Kernel, b: nat, n: Word)
    requires Inv(k) && k.heap != 0 && Takes(k, t, b, n) && Sane(t.vm.pmm)
    ensures b !in k.blocks && InvFor(t, k.blocks.Keys) && OwnedAs(t, b, BlockFrame(b)) && InMemory(t.vm.mem, b)
  {
    TakesBits(k, t, b, n);
    TakesTables(k, t, b, n);
    TakesBlocks(k, t, b, n);
    assert WellFormed(t.vm);
    BlocksStayReady(k, t);
  }

  lemma TakeBlockKeepsInv(k: Kernel, n: Word)
    requires Inv(k) && k.heap != 0 && 0 < PagesFor(n) && TakeBlock(k, n).1.Page?
    ensures var (t, r) := TakeBlock(k, n);
      && r.first !in k.blocks && t.blocks == k.blocks[r.first := n]
      && InvFor(t, k.blocks.Keys) && OwnedAs(t, r.first, BlockFrame(r.first)) && 0 < r.first < TWO_TO_THE_20
      && InMemory(t.vm.mem, r.first)
  {
    TakeBlockTakes(k, n);
    var (t, r) := TakeBlock(k, n);
    TakesKeepsInv(k, t, r.first, n);
  }

  lemma BlockPagesDistinct(b: nat, c: nat)
    requires b < TWO_TO_THE_20 && c < TWO_TO_THE_20 && b != c
    ensures BlockPage(b) != BlockPage(c)
  {
    assert BlockPage(b) == (b + KERNEL_BASE / PAGE_SIZE) % TWO_TO_THE_20;
    assert BlockPage(c) == (c + KERNEL_BASE / PAGE_SIZE) % TWO_TO_THE_20;
  }

  /** The `vmm_map` of `heap_alloc`: the first frame of the block, at its higher-half address. */
  function MapBlock(t: Kernel, b: nat): (Kernel, Found)
    requires WellFormed(t.vm)
  {
    var virt := HigherHalf(Address(b));
    MapPage(t, Physical(virt), virt, PTE_PRESENT + PTE_WRITABLE)
  }

  lemma MapBlockKeepsInv(t: Kernel, b: nat, ready: set<nat>)
    requires InvFor(t, ready) && b in t.blocks && b !in ready && b < TWO_TO_THE_20
    requires MapBlock(t, b).1.Page?
    ensures var u := MapBlock(t, b).0;
      && InvFor(u, ready) && u == t.(vm := u.vm, owner := u.owner) && |u.vm.mem| == |t.vm.mem|
      && OwnedAs(u, b, BlockFrame(b))
      && Walk(u.vm, BlockPage(b)) == Entry(Address(b), PTE_PRESENT + PTE_WRITABLE)
  {
    var virt := HigherHalf(Address(b));
    PhysicalInverts(Address(b));
    BlockIsOwned(t, b);
    forall c | c in ready ensures BlockPage(c) != virt / PAGE_SIZE {
      BlockIsOwned(t, c);
      BlockPagesDistinct(b, c);
    }
    MapKeepsInv(t, Physical(virt), virt, PTE_PRESENT + PTE_WRITABLE, ready);
    MapRefinesFlat(t.vm, Physical(virt), virt, PTE_PRESENT + PTE_WRITABLE);
    MapKeepsBitsOwned(t, Physical(virt), virt, PTE_PRESENT + PTE_WRITABLE);
    MapTouchesOneFrame(t, Physical(virt), virt, PTE_PRESENT + PTE_WRITABLE);
    assert Flat(MapBlock(t, b).0.vm)[BlockPage(b)] == Entry(Address(b), PTE_PRESENT + PTE_WRITABLE);
  }

  lemma BlockIsOwned(k: Kernel, b: nat)
    requires BitsOwned(k) && BlocksOwned(k) && b in k.blocks && |k.vm.pmm.bits| <= TWO_TO_THE_20
    ensures OwnedAs(k, b, BlockFrame(b)) && 0 < b < TWO_TO_THE_20
  {
    assert OwnedAs(k, b, BlockFrame(b));
  }

  /** Whatever was asked for, the frames taken leave the page tables sound, and the first of them is memory. */
  lemma TakeBlockKeepsTables(k: Kernel, n: Word)
    requires Inv(k) && k.heap != 0 && TakeBlock(k, n).1.Page?
    ensures var (t, r) := TakeBlock(k, n);
      && WellFormed(t.vm) && InMemory(t.vm.mem, r.first) && r.first < TWO_TO_THE_20
      && (PagesFor(n) == 0 ==> r.first == 0 && t.vm == k.vm.(pmm := k.vm.pmm.(cursor := 0)) && t.owner == k.owner)
  {
    if PagesFor(n) > 0 {
      TakeBlockKeepsInv(k, n);
    }
  }

  lemma MapKeepsSize(s: VmState, phys: Word, virt: Word, flags: Word)
    requires WellFormed(s)
    ensures |Map(s, phys, virt, flags).0.mem| == |s.mem|
  {
    AllocIsFind(s.pmm, 1);
  }

  /** `heap_alloc`: the frames, the mapping of the first of them, and the header. */
  function HeapAlloc(k: Kernel, n: Word): (Kernel, Found)
    requires Inv(k) && k.heap != 0
  {
    var (t, r) := TakeBlock(k, n);
    if !r.Page? then (t, r) else
    TakeBlockKeepsTables(k, n);
    var (u, r') := MapBlock(t, r.first);
    if !r'.Page? then (u, r') else
    var virt := HigherHalf(Address(r.first));
    MapKeepsSize(t.vm, Physical(virt), virt, PTE_PRESENT + PTE_WRITABLE);
    (u.(vm := u.vm.(mem := WithHeader(u.vm.mem, r.first, Address(k.head), Address(k.head), n, HEAP_MAGIC))), r)
  }

  /** A block's frame written on leaves the list head and the other blocks' headers as they were. */
  lemma OtherHeadersKept(u: Kernel, t: Kernel, b: nat, ready: set<nat>)
    requires InvFor(u, ready) && OwnedAs(u, b, BlockFrame(b)) && b !in ready && WellFormed(t.vm)
    requires t == u.(vm := u.vm.(mem := t.vm.mem)) && |t.vm.mem| == |u.vm.mem|
    requires forall w :: 0 <= w < |u.vm.mem| && w / ENTRIES != b ==> t.vm.mem[w] == u.vm.mem[w]
    requires Flat(t.vm) == Flat(u.vm)
    ensures HeadSelfLoop(t)
    ensures forall c :: c in ready ==> BlockReady(t, c)
  {
    forall c | c in ready ensures BlockReady(t, c) {
      assert BlockReady(u, c);
      HeaderUntouched(u.vm.mem, t.vm.mem, c, b);
      assert Flat(t.vm)[BlockPage(c)] == Flat(u.vm)[BlockPage(c)];
    }
    if u.heap != 0 {
      HeaderUntouched(u.vm.mem, t.vm.mem, u.head, b);
      assert u.heap * ENTRIES / ENTRIES == u.heap;
    }
  }

  /** Filling in the header of a block that is taken and mapped makes it ready and disturbs no other. */
  lemma HeaderCompletesBlock(u: Kernel, b: nat, ready: set<nat>)
    requires InvFor(u, ready) && u.heap != 0 && b in u.blocks && b !in ready && InMemory(u.vm.mem, b)
    requires OwnedAs(u, b, BlockFrame(b)) && Walk(u.vm, BlockPage(b)) == Entry(Address(b), PTE_PRESENT + PTE_WRITABLE)
    ensures var mem := WithHeader(u.vm.mem, b, Address(u.head), Address(u.head), u.blocks[b], HEAP_MAGIC);
      InvFor(u.(vm := u.vm.(mem := mem)), ready + {b})
  {
    var mem := WithHeader(u.vm.mem, b, Address(u.head), Address(u.head), u.blocks[b], HEAP_MAGIC);
    var t := u.(vm := u.vm.(mem := mem));
    NoTableIn(u, b);
    WithHeaderWords(u.vm.mem, b, Address(u.head), Address(u.head), u.blocks[b], HEAP_MAGIC);
    WithHeaderKeepsFlat(u.vm, b, Address(u.head), Address(u.head), u.blocks[b], HEAP_MAGIC);
    OtherHeadersKept(u, t, b, ready);
    OwnersSurvive(u, t);
    assert BitsOwned(t) && TablesOwned(t);
    assert BlockReady(t, b) by {
      assert Flat(t.vm)[BlockPage(b)] == Flat(u.vm)[BlockPage(b)];
    }
  }

  lemma AllocMapsBlock(k: Kernel, n: Word)
    requires Inv(k) && k.heap != 0 && 0 < PagesFor(n) && HeapAlloc(k, n).1.Page?
    ensures var (t, r) := TakeBlock(k, n);
      && r.first !in k.blocks && WellFormed(t.vm)
      && var u := MapBlock(t, r.first).0;
         && InvFor(u, k.blocks.Keys) && u.heap != 0 && u.blocks == k.blocks[r.first := n] && InMemory(u.vm.mem, r.first)
         && OwnedAs(u, r.first, BlockFrame(r.first)) && u.head == k.head
         && Walk(u.vm, BlockPage(r.first)) == Entry(Address(r.first), PTE_PRESENT + PTE_WRITABLE)
  {
    TakeBlockKeepsInv(k, n);
    var (t, r) := TakeBlock(k, n);
    MapBlockKeepsInv(t, r.first, k.blocks.Keys);
  }

  lemma HeapAllocKeepsInv(k: Kernel, n: Word)
    requires Inv(k) && k.heap != 0 && 0 < PagesFor(n) && HeapAlloc(k, n).1.Page?
    ensures Inv(HeapAlloc(k, n).0)
  {
    AllocMapsBlock(k, n);
    var (t, r) := TakeBlock(k, n);
    HeaderCompletesBlock(MapBlock(t, r.first).0, r.first, k.blocks.Keys);
    assert k.blocks.Keys + {r.first} == HeapAlloc(k, n).0.blocks.Keys;
  }

  lemma FrameZeroIsForeign(k: Kernel)
    requires BitsOwned(k) && BlocksOwned(k) && Sane(k.vm.pmm)
    ensures 0 in k.owner && !k.owner[0].BlockFrame?
  {
  }

  /**
   * `heap_alloc` keeps the invariant exactly when the page count of the request did not wrap to 0. If it did, the
   * header goes to frame 0, which is somebody else's.
   */
  lemma HeapAllocKeepsInvIff(k: Kernel, n: Word)
    requires Inv(k) && k.heap != 0 && HeapAlloc(k, n).1.Page?
    ensures var (t, r) := HeapAlloc(k, n);
      && (Inv(t) <==> 0 < PagesFor(n))
      && (OwnedAs(t, r.first, BlockFrame(r.first)) <==> 0 < PagesFor(n))
  {
    if 0 < PagesFor(n) {
      HeapAllocKeepsInv(k, n);
      AllocMapsBlock(k, n);
    } else {
      TakeBlockKeepsTables(k, n);
      FrameZeroIsForeign(k);
      EmptyBlockUnowned(k, n);
    }
  }

  lemma EmptyBlockUnowned(k: Kernel, n: Word)
    requires Inv(k) && k.heap != 0 && HeapAlloc(k, n).1.Page? && PagesFor(n) == 0
    requires 0 in k.owner && !k.owner[0].BlockFrame?
    ensures var (t, r) := HeapAlloc(k, n);
      r.first == 0 && 0 in t.blocks && !OwnedAs(t, 0, BlockFrame(0)) && !BlocksOwned(t)
  {
    TakeBlockKeepsTables(k, n);
    var (t, r) := TakeBlock(k, n);
    var virt := HigherHalf(Address(0));
    MapKeepsBitsOwned(t, Physical(virt), virt, PTE_PRESENT + PTE_WRITABLE);
  }

  // ---------- heap_free ----------

  /** The `pmm_free` of `heap_free`, with the block struck from the ledger. */
  function GiveBlock(k: Kernel, b: nat): Kernel
    requires b in k.blocks
  {
    var pages := PagesFor(k.blocks[b]);
    k.(vm := k.vm.(pmm := Free(k.vm.pmm, b, pages)), blocks := k.blocks - {b},
       owner := k.owner - Frames(b, b + pages))
  }

  /** `heap_free` of a live block: its frames first, then the mapping of its first page. */
  function HeapFree(k: Kernel, b: nat): Kernel
    requires Inv(k) && b in k.blocks
  {
    GiveBlockKeepsInv(k, b);
    UnmapPage(GiveBlock(k, b), HigherHalf(Address(b)))
  }

  lemma GivesBits(k: Kernel, b: nat)
    requires BitsOwned(k) && b in k.blocks
    ensures BitsOwned(GiveBlock(k, b))
  {
  }

  lemma GivesTables(k: Kernel, b: nat)
    requires TablesOwned(k) && BlocksOwned(k) && b in k.blocks
    ensures TablesOwned(GiveBlock(k, b))
  {
    BlockRange(k, b);
    var t := GiveBlock(k, b);
    forall i | 0 < i < ENTRIES && Present(t.vm.pd[i]) ensures OwnedAs(t, Frame(t.vm.pd[i]), TableFrame(i)) {
      assert OwnedAs(k, Frame(k.vm.pd[i]), TableFrame(i));
    }
  }

  lemma GivesBlocks(k: Kernel, b: nat)
    requires BlocksOwned(k) && HeapOwned(k) && b in k.blocks
    ensures BlocksOwned(GiveBlock(k, b)) && HeapOwned(GiveBlock(k, b))
  {
    BlockRange(k, b);
    var t := GiveBlock(k, b);
    forall c, f | c in t.blocks && c <= f < c + PagesFor(t.blocks[c]) ensures OwnedAs(t, f, BlockFrame(c)) {
      BlockRange(k, c);
      assert k.owner[f] == BlockFrame(c) && c != b;
      assert f !in Frames(b, b + PagesFor(k.blocks[b]));
    }
  }

  lemma GivesWellFormed(k: Kernel, b: nat)
    requires WellFormed(k.vm) && TablesOwned(k) && BlocksOwned(k) && b in k.blocks
    ensures WellFormed(GiveBlock(k, b).vm)
  {
    BlockRange(k, b);
    var t := GiveBlock(k, b);
    forall i | 0 <= i < ENTRIES && Present(t.vm.pd[i]) ensures t.vm.pmm.bits[Frame(t.vm.pd[i])] {
      assert i > 0 ==> OwnedAs(k, Frame(k.vm.pd[i]), TableFrame(i));
    }
  }

  lemma GiveBlockKeepsInv(k: Kernel, b: nat)
    requires Inv(k) && b in k.blocks
    ensures Inv(GiveBlock(k, b))
  {
    var t := GiveBlock(k, b);
    GivesBits(k, b);
    GivesTables(k, b);
    GivesBlocks(k, b);
    GivesWellFormed(k, b);
    BlocksStayReady(k, t);
  }

  /** Freeing a live block keeps the invariant unless its page is the last one in the static first table. */
  lemma HeapFreeKeepsInvIff(k: Kernel, b: nat)
    requires Inv(k) && b in k.blocks
    ensures Inv(HeapFree(k, b)) <==> KeepsFirstTable(k, HigherHalf(Address(b)))
  {
    GiveBlockKeepsInv(k, b);
    var t := GiveBlock(k, b);
    forall c | c in t.blocks ensures BlockPage(c) != HigherHalf(Address(b)) / PAGE_SIZE {
      BlockIsOwned(k, b);
      BlockIsOwned(k, c);
      BlockPagesDistinct(b, c);
    }
    UnmapKeepsInvIff(t, HigherHalf(Address(b)));
  }
}
