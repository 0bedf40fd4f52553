/** The kernel heap of kernel/mm/heap.c: blocks carved out of whole pages, headers written through their mappings. */
module Heap {
  import opened Words
  import opened PmmModel
  import opened VmmModel
  import opened KernelModel
  import opened KernelRuns
  import opened Vmm

  /** The address `heap_alloc` returns for the block whose first frame is b. */
  function UserPointer(b: nat): Word { Wrap32(HigherHalf(Address(b)) + HEADER_SIZE) }

  /** The block behind a pointer: what `heap_free` computes from it. */
  function BlockAddress(ptr: Word): Word { Wrap32(ptr - HEADER_SIZE) }
  function BlockFrameOf(ptr: Word): nat { Physical(BlockAddress(ptr)) / PAGE_SIZE }

  /** `heap_free` finds the frame that `heap_alloc` took. */
  lemma PointerFindsBlock(b: nat)
    requires b < TWO_TO_THE_20
    ensures BlockAddress(UserPointer(b)) == HigherHalf(Address(b)) && BlockFrameOf(UserPointer(b)) == b
    ensures HigherHalf(Address(b)) % PAGE_SIZE == 0 && Address(b) == b * PAGE_SIZE
    ensures UserPointer(b) == HigherHalf(Address(b)) + 16
  {
    PhysicalInverts(Address(b));
    WrapAligned(b * PAGE_SIZE + KERNEL_BASE);
  }

  lemma WrapAligned(x: nat)
    requires x % PAGE_SIZE == 0
    ensures Wrap32(x) % PAGE_SIZE == 0
  {
  }

  lemma AddressExact(f: nat)
    requires f * PAGE_SIZE < TWO_TO_THE_32
    ensures Address(f) == f * PAGE_SIZE && Frame(f * PAGE_SIZE) == f
  {
  }

  /** Block b's first page is mapped to frame b, which is memory and not a page table. */
  ghost predicate MappedIn(s: VmState, b: nat) {
    && WellFormed(s) && b < TWO_TO_THE_20 && InMemory(s.mem, b)
    && Walk(s, BlockPage(b)) == Entry(Address(b), PTE_PRESENT + PTE_WRITABLE)
    && forall i :: 0 <= i < ENTRIES && Present(s.pd[i]) ==> Frame(s.pd[i]) != b
  }

  /** `h->head` is in frame h and its links point back at the head; neither frame is the block's. */
  ghost predicate HeadIn(s: VmState, h: nat, head: nat, b: nat) {
    && InMemory(s.mem, h) && InMemory(s.mem, head) && h != b && head != b && Address(head) == head * PAGE_SIZE
    && s.mem[h * ENTRIES] == Address(head) && s.mem[head * ENTRIES + 1] == Address(head)
  }

  /** The links of block b point at the head, whose links point back at itself. */
  ghost predicate LinkedIn(s: VmState, head: nat, b: nat) {
    && InMemory(s.mem, b) && InMemory(s.mem, head) && Address(head) == head * PAGE_SIZE
    && s.mem[b * ENTRIES] == Address(head) && s.mem[b * ENTRIES + 1] == Address(head)
    && s.mem[head * ENTRIES] == Address(head) && s.mem[head * ENTRIES + 1] == Address(head)
  }

  /** The header before ptr is aligned and mapped to memory. */
  predicate HeaderReadable(s: VmState, ptr: Word)
    requires WellFormed(s)
  {
    var at := Wrap32(BlockAddress(ptr) + 12);
    at % 4 == 0 && Walk(s, at / PAGE_SIZE) != 0 && InMemory(s.mem, Frame(Walk(s, at / PAGE_SIZE)))
  }

  /** The last word of that header. */
  function MagicWord(s: VmState, ptr: Word): Word
    requires WellFormed(s) && HeaderReadable(s, ptr)
  {
    var at := Wrap32(BlockAddress(ptr) + 12);
    s.mem[Frame(Walk(s, at / PAGE_SIZE)) * ENTRIES + at % PAGE_SIZE / 4]
  }

  class KernelHeap {
    const vm: PageTables
    /** `kernel_heap`: the address of `struct heap`, 0 before `heap_create`. */
    var heap: Word
    ghost var head: nat
    ghost var blocks: map<nat, Word>
    ghost var owner: map<nat, Owner>

    ghost function State(): Kernel
      reads this, vm.pmm, vm.pmm.bitmap, vm.directory, vm.mem
    {
      Kernel(vm.State(), Frame(heap), head, blocks, owner)
    }

    /** Starts without a heap; `owner` says what the frames in use are for. */
    constructor (vm: PageTables, ghost owner: map<nat, Owner>)
      ensures this.vm == vm && State() == Kernel(vm.State(), 0, 0, map[], owner) && heap == 0
    {
      this.vm, this.owner := vm, owner;
      heap, head, blocks := 0, 0, map[];
    }

    /** The five stores of `heap_create`, through the pointers they go through. */
    method LinkHead(h: Word, hd: Word)
      requires vm.Wired() && h % PAGE_SIZE == 0 && hd % PAGE_SIZE == 0 && h != hd
      requires InMemory(vm.mem[..], Frame(h)) && InMemory(vm.mem[..], Frame(hd))
      modifies vm.mem
      ensures vm.mem[..] == WithHeader(old(vm.mem[..])[Frame(h) * ENTRIES := hd], Frame(hd), hd, hd, 0, HEAP_MAGIC)
    {
      ghost var before := vm.mem[..];
      assert h / 4 == Frame(h) * ENTRIES && hd / 4 == Frame(hd) * ENTRIES && Frame(h) != Frame(hd);
      vm.mem[h / 4] := hd;
      vm.mem[vm.mem[h / 4] / 4] := vm.mem[h / 4];
      vm.mem[vm.mem[h / 4] / 4 + 1] := vm.mem[h / 4];
      vm.mem[vm.mem[h / 4] / 4 + 2] := 0;
      vm.mem[vm.mem[h / 4] / 4 + 3] := HEAP_MAGIC;
      assert vm.mem[..] == WithHeader(before[Frame(h) * ENTRIES := hd], Frame(hd), hd, hd, 0, HEAP_MAGIC);
    }

    /** `pmm_alloc(1)` for the heap's own use. */
    method TakeFrame() returns (r: Outcome<Word>)
      requires vm.Wired() && Sane(vm.pmm.State()) && TakeMeta(State()).1 != Overrun
      modifies this`owner, vm.pmm`lastPage, vm.pmm.bitmap
      ensures r.Done? <==> TakeMeta(old(State())).1.Page?
      ensures r.Done? ==> State() == TakeMeta(old(State())).0
      ensures r.Done? ==> r.value == TakeMeta(old(State())).1.first * PAGE_SIZE
      ensures vm.mem[..] == old(vm.mem[..])
    {
      ghost var k := State();
      AllocIsFind(k.vm.pmm, 1);
      r := vm.pmm.Allocate(1);
      assert vm.directory[..] == k.vm.pd && vm.mem[..] == k.vm.mem;
      if r.Done? {
        AddressExact(TakeMeta(k).1.first);
        owner := TakeMeta(k).0.owner;
      }
    }

    /** `heap_create`. */
    method Create() returns (r: Outcome<Word>)
      requires vm.Wired() && BaseInv(State()) && heap == 0 && HeapCreate(State()).1 != Overrun
      modifies this, vm.pmm`lastPage, vm.pmm.bitmap, vm.mem
      ensures var (after, found) := HeapCreate(old(State()));
        if found.Page? then r == Done(heap) && State() == after && heap % PAGE_SIZE == 0 else r == Panic
    {
      hide Walk, WithHeader, PagesFor;
      ghost var k := State();
      r := TakeFrame();
      if r.Panic? {
        return;
      }
      TakeMetaKeepsBase(k);
      var hd := TakeFrame();
      if hd.Panic? {
        return Panic;
      }
      TwoMetaFrames(k);
      LinkHead(r.value, hd.value);
      heap, head := r.value, Frame(hd.value);
    }

    ghost predicate Mapped(b: nat)
      reads vm.pmm, vm.pmm.bitmap, vm.directory, vm.mem
    {
      vm.Wired() && MappedIn(vm.State(), b)
    }

    /** A store to field i of the header at a block's virtual address. */
    method WriteField(block: Word, i: nat, w: Word, ghost b: nat)
      requires Mapped(b) && block == HigherHalf(Address(b)) && i < 4
      modifies vm.mem
      ensures Mapped(b) && vm.State() == old(vm.State()).(mem := old(vm.mem[..])[b * ENTRIES + i := w])
    {
      ghost var s := vm.State();
      FieldAddress(b, i);
      vm.Write(block + 4 * i, w);
      assert (b * ENTRIES + i) / ENTRIES == b;
      WriteKeepsFlat(s, b * ENTRIES + i, w);
      assert Flat(vm.State())[BlockPage(b)] == Flat(s)[BlockPage(b)];
    }

    /** A load of field i of the header at a block's virtual address. */
    method ReadField(block: Word, i: nat, ghost b: nat) returns (w: Word)
      requires Mapped(b) && block == HigherHalf(Address(b)) && i < 4
      ensures w == vm.mem[b * ENTRIES + i]
    {
      FieldAddress(b, i);
      w := vm.Read(block + 4 * i);
    }

    /** The four stores that fill in a block's header, each through `h->head` as the code reads it. */
    method FillHeader(block: Word, n: Word, ghost b: nat)
      requires Mapped(b) && block == HigherHalf(Address(b))
      requires heap % PAGE_SIZE == 0 && HeadIn(vm.State(), Frame(heap), head, b)
      modifies vm.mem
      ensures vm.State() == old(vm.State()).(mem :=
        WithHeader(old(vm.mem[..]), b, Address(head), Address(head), n, HEAP_MAGIC))
    {
      hide Walk, HigherHalf, WellFormed;
      WordOfFrame(heap);
      FirstWord(head);
      WriteField(block, 0, vm.mem[heap / 4], b);
      assert vm.mem[heap / 4] == Address(head);
      WriteField(block, 1, vm.mem[vm.mem[heap / 4] / 4 + 1], b);
      FillBody(block, n, b);
    }

    method FillBody(block: Word, n: Word, ghost b: nat)
      requires Mapped(b) && block == HigherHalf(Address(b))
      modifies vm.mem
      ensures vm.State() == old(vm.State()).(mem :=
        old(vm.mem[..])[b * ENTRIES + 2 := n][b * ENTRIES + 3 := HEAP_MAGIC])
    {
      WriteField(block, 2, n, b);
      WriteField(block, 3, HEAP_MAGIC, b);
    }

    /** `heap_alloc`. */
    method Alloc(n: Word) returns (r: Outcome<Word>)
      requires vm.Wired() && Inv(State()) && heap != 0 && heap % PAGE_SIZE == 0
      requires HeapAlloc(State(), n).1 != Overrun
      modifies this, vm.pmm`lastPage, vm.pmm.bitmap, vm.directory, vm.mem
      ensures var (after, found) := HeapAlloc(old(State()), n);
        if found.Page? then r == Done(UserPointer(found.first)) && State() == after && heap == old(heap) else r == Panic
    {
      AllocParts(State(), n);
      r := AllocBlock(n, State());
    }

    /** The code of `heap_alloc`, from a state in which its parts go together. */
    method AllocBlock(n: Word, ghost k: Kernel) returns (r: Outcome<Word>)
      requires vm.Wired() && State() == k && Sane(k.vm.pmm) && heap % PAGE_SIZE == 0
      requires TakeBlock(k, n).1 != Overrun
      requires TakeBlock(k, n).1.Page? ==>
        && CanPlace(TakeBlock(k, n).0, TakeBlock(k, n).1.first)
        && MapBlock(TakeBlock(k, n).0, TakeBlock(k, n).1.first).1 != Overrun
      modifies this, vm.pmm`lastPage, vm.pmm.bitmap, vm.directory, vm.mem
      ensures heap == old(heap)
      ensures var (t, taken) := TakeBlock(k, n);
        if taken.Page? && MapBlock(t, taken.first).1.Page?
        then r == Done(UserPointer(taken.first)) && State() == WithBlock(MapBlock(t, taken.first).0, taken.first, n)
        else r == Panic
    {
      hide TakeBlock, PagesFor, WithBlock, MapBlock, MappedIn, HeadIn, WellFormed, Sane;
      r := Panic;
      var frames := TakePages(PagesFor(n), n);
      if frames.Done? {
        var block := HigherHalf(frames.value);
        var placed := Place(block, n, TakeBlock(k, n).0, TakeBlock(k, n).1.first);
        if placed.Done? {
          r := Done(Wrap32(block + HEADER_SIZE));
        }
      }
    }

    /** `heap_alloc` once it has the block's frames. */
    method Place(block: Word, n: Word, ghost t: Kernel, ghost b: nat) returns (r: Outcome<Word>)
      requires vm.Wired() && State() == t && CanPlace(t, b) && MapBlock(t, b).1 != Overrun
      requires block == HigherHalf(Address(b)) && heap % PAGE_SIZE == 0
      modifies this`owner, vm.pmm`lastPage, vm.pmm.bitmap, vm.directory, vm.mem
      ensures r.Done? <==> MapBlock(t, b).1.Page?
      ensures r.Done? ==> State() == WithBlock(MapBlock(t, b).0, b, n)
    {
      r := MapFirst(block, b);
      if r.Done? {
        FillHeader(block, n, b);
      }
    }

    /** `pmm_alloc(pages)` in `heap_alloc`. */
    method TakePages(pages: nat, n: Word) returns (r: Outcome<Word>)
      requires vm.Wired() && Sane(vm.pmm.State()) && pages == PagesFor(n)
      requires TakeBlock(State(), n).1 != Overrun
      modifies this`blocks, this`owner, vm.pmm`lastPage, vm.pmm.bitmap
      ensures r.Done? <==> TakeBlock(old(State()), n).1.Page?
      ensures r.Done? ==> State() == TakeBlock(old(State()), n).0
      ensures r.Done? ==> r.value == Address(TakeBlock(old(State()), n).1.first)
    {
      ghost var k := State();
      if pages > 0 {
        AllocIsFind(k.vm.pmm, pages);
      }
      r := vm.pmm.Allocate(pages);
      assert vm.directory[..] == k.vm.pd && vm.mem[..] == k.vm.mem;
      if r.Done? {
        AddressExact(TakeBlock(k, n).1.first);
        blocks, owner := TakeBlock(k, n).0.blocks, TakeBlock(k, n).0.owner;
      }
    }

    /** The `vmm_map` of `heap_alloc`. */
    method MapFirst(block: Word, ghost b: nat) returns (r: Outcome<Word>)
      requires vm.Wired() && WellFormed(vm.State()) && block == HigherHalf(Address(b))
      requires MapBlock(State(), b).1 != Overrun
      modifies this`owner, vm.pmm`lastPage, vm.pmm.bitmap, vm.directory, vm.mem
      ensures r.Done? <==> MapBlock(old(State()), b).1.Page?
      ensures r.Done? ==> State() == MapBlock(old(State()), b).0
    {
      ghost var k := State();
      var m := vm.MapPage(Physical(block), block, PTE_PRESENT + PTE_WRITABLE);
      if m.Panic? {
        return Panic;
      }
      owner := MapBlock(k, b).0.owner;
      return Done(block);
    }

    /** ptr came from `heap_alloc` and its block has not been freed. */
    ghost predicate Live(ptr: Word)
      requires WellFormed(vm.State())
      reads this, vm.pmm, vm.pmm.bitmap, vm.directory, vm.mem
    {
      && BlockFrameOf(ptr) in blocks && ptr == UserPointer(BlockFrameOf(ptr))
      && KeepsFirstTable(State(), BlockAddress(ptr))
    }

    /** `block->magic`. */
    method ReadMagic(ptr: Word) returns (magic: Word)
      requires vm.Wired() && WellFormed(vm.State()) && HeaderReadable(vm.State(), ptr)
      ensures magic == MagicWord(vm.State(), ptr)
    {
      magic := vm.Read(Wrap32(BlockAddress(ptr) + 12));
    }

    /**
     * `heap_free`: a bad magic number is reported and nothing changes. The header must be readable, and a good magic
     * number must be that of a live block.
     */
    method Free(ptr: Word)
      requires vm.Wired() && Inv(State()) && HeaderReadable(vm.State(), ptr)
      requires MagicWord(vm.State(), ptr) == HEAP_MAGIC ==> Live(ptr)
      modifies this`blocks, this`owner, vm.pmm.bitmap, vm.directory, vm.mem
      ensures if old(MagicWord(vm.State(), ptr)) == HEAP_MAGIC
        then old(BlockFrameOf(ptr) in blocks) && State() == HeapFree(old(State()), BlockFrameOf(ptr))
        else State() == old(State())
    {
      var block := BlockAddress(ptr);
      var magic := ReadMagic(ptr);
      if magic != HEAP_MAGIC {
        return;
      }
      ghost var k, b := State(), BlockFrameOf(ptr);
      LiveMagic(k, ptr);
      LiveHeader(k, b);
      GiveBlockKeepsInv(k, b);
      FreeBlock(block, b);
    }

    /** The rest of `heap_free` for a live block. */
    method FreeBlock(block: Word, ghost b: nat)
      requires vm.Wired() && b in blocks && block == HigherHalf(Address(b))
      requires MappedIn(vm.State(), b) && LinkedIn(vm.State(), head, b) && vm.State().mem[b * ENTRIES + 2] == blocks[b]
      requires b + PagesFor(blocks[b]) <= 8 * vm.pmm.bitmap.Length && WellFormed(GiveBlock(State(), b).vm)
      modifies this`blocks, this`owner, vm.pmm.bitmap, vm.directory, vm.mem
      ensures State() == KernelModel.UnmapPage(GiveBlock(old(State()), b), block)
    {
      ghost var k := State();
      Unlink(block, b);
      var size := ReadField(block, 2, b);
      GivePages(PagesFor(size), block, b);
      UnmapBlock(block, GiveBlock(k, b));
    }

    /** `vmm_unmap((uintptr_t)block)`. */
    method UnmapBlock(block: Word, ghost t: Kernel)
      requires vm.Wired() && State() == t && WellFormed(t.vm)
      modifies this`owner, vm.pmm.bitmap, vm.directory, vm.mem
      ensures State() == KernelModel.UnmapPage(t, block)
    {
      vm.UnmapPage(block);
      owner := KernelModel.UnmapPage(t, block).owner;
    }

    /** `block->prev->next = block->next; block->next->prev = block->prev`: on a self-loop this changes nothing. */
    method Unlink(block: Word, ghost b: nat)
      requires Mapped(b) && block == HigherHalf(Address(b))
      requires LinkedIn(vm.State(), head, b)
      modifies vm.mem
      ensures vm.mem[..] == old(vm.mem[..])
    {
      FirstWord(head);
      var prev := ReadField(block, 1, b);
      var next := ReadField(block, 0, b);
      Restore(prev / 4, next);
      next := ReadField(block, 0, b);
      prev := ReadField(block, 1, b);
      Restore(next / 4 + 1, prev);
    }

    /** A store of the value that is already there. */
    method Restore(w: nat, v: Word)
      requires w < vm.mem.Length && vm.mem[..][w] == v
      modifies vm.mem
      ensures vm.mem[..] == old(vm.mem[..])
    {
      vm.mem[w] := v;
    }

    /** `pmm_free(PHYSICAL(block), pages)`. */
    method GivePages(pages: nat, block: Word, ghost b: nat)
      requires b in blocks && b < TWO_TO_THE_20 && block == HigherHalf(Address(b)) && pages == PagesFor(blocks[b])
      requires b + pages <= 8 * vm.pmm.bitmap.Length && vm.Wired()
      modifies this`blocks, this`owner, vm.pmm.bitmap
      ensures State() == GiveBlock(old(State()), b)
    {
      ghost var k := State();
      PhysicalInverts(Address(b));
      AddressExact(b);
      vm.pmm.Release(Physical(block), pages);
      assert vm.directory[..] == k.vm.pd && vm.mem[..] == k.vm.mem;
      blocks, owner := GiveBlock(k, b).blocks, GiveBlock(k, b).owner;
    }
  }

  /** If the block at frame b can be mapped, its header can be written then, and the list head is intact. */
  ghost predicate CanPlace(t: Kernel, b: nat) {
    && WellFormed(t.vm) && Address(b) == b * PAGE_SIZE
    && (MapBlock(t, b).1.Page? ==>
         var u := MapBlock(t, b).0; MappedIn(u.vm, b) && HeadIn(u.vm, u.heap, u.head, b))
  }

  /** The kernel with block b's header filled in. */
  function WithBlock(u: Kernel, b: nat, n: Word): Kernel
    requires InMemory(u.vm.mem, b)
  {
    u.(vm := u.vm.(mem := WithHeader(u.vm.mem, b, Address(u.head), Address(u.head), n, HEAP_MAGIC)))
  }

  /** `heap_alloc` is its allocation, its mapping and its header, one after the other. */
  lemma AllocParts(k: Kernel, n: Word)
    requires Inv(k) && k.heap != 0
    ensures var (t, r) := TakeBlock(k, n);
      if !r.Page? then HeapAlloc(k, n).1 == r else
      && CanPlace(t, r.first)
      && var (u, r') := MapBlock(t, r.first);
         if r'.Page? then HeapAlloc(k, n) == (WithBlock(u, r.first, n), r) else HeapAlloc(k, n).1 == r'
  {
    var (t, r) := TakeBlock(k, n);
    if r.Page? {
      TakeBlockKeepsTables(k, n);
      AddressExact(r.first);
      if MapBlock(t, r.first).1.Page? {
        AllocPlaces(k, n);
      }
    }
  }

  lemma AllocPlaces(k: Kernel, n: Word)
    requires Inv(k) && k.heap != 0 && HeapAlloc(k, n).1.Page?
    ensures var (t, r) := TakeBlock(k, n);
      && r.Page? && WellFormed(t.vm)
      && var (b, u) := (r.first, MapBlock(t, r.first).0);
      && MappedIn(u.vm, b) && HeadIn(u.vm, u.heap, u.head, b) && u.head == k.head
  {
    TakeBlockKeepsTables(k, n);
    var (t, r) := TakeBlock(k, n);
    if PagesFor(n) > 0 {
      TakeBlockKeepsInv(k, n);
      BlockPlaced(t, r.first, k.blocks.Keys);
    } else {
      EmptyBlockPlaced(k, t);
    }
  }

  /** The same for the block of no frames that a wrapped page count asks for: it is mapped to frame 0. */
  lemma EmptyBlockPlaced(k: Kernel, t: Kernel)
    requires Inv(k) && k.heap != 0 && t.vm == k.vm.(pmm := k.vm.pmm.(cursor := 0)) && t.owner == k.owner
    requires t.heap == k.heap && t.head == k.head && MapBlock(t, 0).1.Page?
    ensures var u := MapBlock(t, 0).0;
      MappedIn(u.vm, 0) && HeadIn(u.vm, u.heap, u.head, 0) && u.head == t.head
  {
    hide Walk, Map, PagesFor;
    var virt, rw := HigherHalf(Address(0)), PTE_PRESENT + PTE_WRITABLE;
    var rewound := k.(vm := t.vm);
    RewoundKeepsInv(k, rewound);
    PhysicalInverts(Address(0));
    forall c | c in k.blocks ensures BlockPage(c) != virt / PAGE_SIZE {
      BlockIsOwned(k, c);
      BlockPagesDistinct(0, c);
    }
    MapKeepsInv(rewound, Physical(virt), virt, rw, k.blocks.Keys);
    MapRefinesFlat(t.vm, Physical(virt), virt, rw);
    MapKeepsSize(t.vm, Physical(virt), virt, rw);
    HeadLinks(MapPage(rewound, Physical(virt), virt, rw).0, k.blocks.Keys);
    assert Flat(MapBlock(t, 0).0.vm)[BlockPage(0)] == Entry(Address(0), rw);
  }

  lemma RewoundKeepsInv(k: Kernel, t: Kernel)
    requires Inv(k) && t == k.(vm := k.vm.(pmm := k.vm.pmm.(cursor := 0)))
    ensures InvFor(t, k.blocks.Keys)
  {
    hide Walk, PagesFor, Header;
    OwnersSurvive(k, t);
    BlocksStayReady(k, t);
  }

  lemma BlockPlaced(t: Kernel, b: nat, ready: set<nat>)
    requires InvFor(t, ready) && b in t.blocks && b !in ready && b < TWO_TO_THE_20
    requires InMemory(t.vm.mem, b) && OwnedAs(t, b, BlockFrame(b)) && t.heap != 0 && MapBlock(t, b).1.Page?
    ensures var u := MapBlock(t, b).0;
      MappedIn(u.vm, b) && HeadIn(u.vm, u.heap, u.head, b) && u.head == t.head
  {
    hide Walk, Map, PagesFor;
    MapBlockKeepsInv(t, b, ready);
    NoTableIn(MapBlock(t, b).0, b);
    HeadWords(MapBlock(t, b).0, ready, b);
  }

  /** The two frames of a new heap are distinct and their addresses exact. */
  lemma TwoMetaFrames(k: Kernel)
    requires BaseInv(k) && HeapCreate(k).1.Page?
    ensures var (t, r) := TakeMeta(k);
      var (u, r') := TakeMeta(t);
      && r.Page? && r'.Page? && r.first != r'.first && HeapCreate(k).1 == r
      && InMemory(k.vm.mem, r.first) && InMemory(k.vm.mem, r'.first) && u.vm.mem == k.vm.mem
      && Address(r'.first) == r'.first * PAGE_SIZE && Frame(r.first * PAGE_SIZE) == r.first
      && Frame(r'.first * PAGE_SIZE) == r'.first && r.first * PAGE_SIZE % PAGE_SIZE == 0
  {
    TakeMetaKeepsBase(k);
    var (t, r) := TakeMeta(k);
    TakeMetaKeepsBase(t);
    assert r.first in t.owner;
    AllocIsFind(k.vm.pmm, 1);
    AllocIsFind(t.vm.pmm, 1);
    AddressExact(r.first);
    AddressExact(TakeMeta(t).1.first);
  }

  lemma WordOfFrame(a: Word)
    requires a % PAGE_SIZE == 0
    ensures a / 4 == Frame(a) * ENTRIES
  {
  }

  lemma FirstWord(f: nat)
    requires Address(f) == f * PAGE_SIZE
    ensures Address(f) / 4 == f * ENTRIES
  {
  }

  /** A live block's header, as `heap_free` reads it. */
  lemma LiveHeader(k: Kernel, b: nat)
    requires Inv(k) && b in k.blocks
    ensures MappedIn(k.vm, b) && LinkedIn(k.vm, k.head, b)
    ensures k.vm.mem[b * ENTRIES + 2] == k.blocks[b] && k.vm.mem[b * ENTRIES + 3] == HEAP_MAGIC == 0xdead_beef
    ensures b + PagesFor(k.blocks[b]) <= |k.vm.pmm.bits|
  {
    BlockIsOwned(k, b);
    NoTableIn(k, b);
    assert BlockReady(k, b);
    HeadWords(k, k.blocks.Keys, b);
    var h := Header(k.vm.mem, b);
    assert h[0] == k.vm.mem[b * ENTRIES] && h[1] == k.vm.mem[b * ENTRIES + 1];
    assert h[2] == k.vm.mem[b * ENTRIES + 2] && h[3] == k.vm.mem[b * ENTRIES + 3];
    assert OwnedAs(k, b + PagesFor(k.blocks[b]) - 1, BlockFrame(b));
  }

  /** The address of word i of virtual page q, split into page and offset. */
  lemma WordOfPage(q: nat, i: nat)
    requires q < TWO_TO_THE_20 && i < 4
    ensures var at := PAGE_SIZE * q + 4 * i;
      at < TWO_TO_THE_32 && at % 4 == 0 && at / PAGE_SIZE == q && at % PAGE_SIZE / 4 == i
  {
    assert PAGE_SIZE * q + 4 * i == 4 * (1024 * q + i);
  }

  lemma BlockAddressIsPage(b: nat)
    requires b < TWO_TO_THE_20
    ensures BlockPage(b) < TWO_TO_THE_20 && HigherHalf(Address(b)) == PAGE_SIZE * BlockPage(b)
  {
    var q := if b + 0xC0000 < TWO_TO_THE_20 then b + 0xC0000 else b + 0xC0000 - TWO_TO_THE_20;
    assert HigherHalf(Address(b)) == PAGE_SIZE * q;
  }

  lemma FieldAddress(b: nat, i: nat)
    requires b < TWO_TO_THE_20 && i < 4
    ensures var at := HigherHalf(Address(b)) + 4 * i;
      at < TWO_TO_THE_32 && at % 4 == 0 && at / PAGE_SIZE == BlockPage(b) && at % PAGE_SIZE / 4 == i
    ensures var e := Entry(Address(b), PTE_PRESENT + PTE_WRITABLE); Frame(e) == b && e != 0
  {
    EntryOfFrame(b);
    BlockAddressIsPage(b);
    WordOfPage(BlockPage(b), i);
  }

  /** A live pointer leads to its block: the header is readable and its magic number intact. */
  lemma LiveMagic(k: Kernel, ptr: Word)
    requires Inv(k) && BlockFrameOf(ptr) in k.blocks && ptr == UserPointer(BlockFrameOf(ptr))
    ensures BlockFrameOf(ptr) < TWO_TO_THE_20 && BlockAddress(ptr) == HigherHalf(Address(BlockFrameOf(ptr)))
    ensures HeaderReadable(k.vm, ptr) && MagicWord(k.vm, ptr) == HEAP_MAGIC
  {
    LiveHeader(k, BlockFrameOf(ptr));
    MagicOf(k.vm, BlockFrameOf(ptr));
  }

  lemma MagicOf(s: VmState, b: nat)
    requires MappedIn(s, b) && s.mem[b * ENTRIES + 3] == HEAP_MAGIC
    ensures BlockAddress(UserPointer(b)) == HigherHalf(Address(b))
    ensures HeaderReadable(s, UserPointer(b)) && MagicWord(s, UserPointer(b)) == HEAP_MAGIC
  {
    MagicAddress(b);
    EntryOfFrame(b);
  }

  lemma MagicAddress(b: nat)
    requires b < TWO_TO_THE_20
    ensures BlockAddress(UserPointer(b)) == HigherHalf(Address(b))
    ensures var at := Wrap32(BlockAddress(UserPointer(b)) + 12);
      at % 4 == 0 && at / PAGE_SIZE == BlockPage(b) && at % PAGE_SIZE / 4 == 3
    ensures Entry(Address(b), PTE_PRESENT + PTE_WRITABLE) != 0
  {
    var q := BlockPage(b);
    BlockAddressIsPage(b);
    assert UserPointer(b) == PAGE_SIZE * q + 16;
    assert BlockAddress(UserPointer(b)) == PAGE_SIZE * q;
    WordOfPage(q, 3);
  }

  /** What the self-loop invariant says about the words `heap_alloc` reads. */
  lemma HeadLinks(u: Kernel, ready: set<nat>)
    requires InvFor(u, ready) && u.heap != 0
    ensures InMemory(u.vm.mem, u.heap) && InMemory(u.vm.mem, u.head) && u.head != 0
    ensures u.vm.mem[u.heap * ENTRIES] == Address(u.head)
    ensures u.vm.mem[u.head * ENTRIES] == Address(u.head) && u.vm.mem[u.head * ENTRIES + 1] == Address(u.head)
    ensures Address(u.head) == u.head * PAGE_SIZE
  {
    assert Header(u.vm.mem, u.head)[0] == u.vm.mem[u.head * ENTRIES];
    assert Header(u.vm.mem, u.head)[1] == u.vm.mem[u.head * ENTRIES + 1];
  }

  /** The heap's own frames are no block's. */
  lemma HeadWords(u: Kernel, ready: set<nat>, b: nat)
    requires InvFor(u, ready) && u.heap != 0 && OwnedAs(u, b, BlockFrame(b))
    ensures InMemory(u.vm.mem, u.heap) && InMemory(u.vm.mem, u.head) && u.heap != b && u.head != b
    ensures u.vm.mem[u.heap * ENTRIES] == Address(u.head)
    ensures u.vm.mem[u.head * ENTRIES] == Address(u.head) && u.vm.mem[u.head * ENTRIES + 1] == Address(u.head)
    ensures Address(u.head) == u.head * PAGE_SIZE
  {
    HeadLinks(u, ready);
  }
}
