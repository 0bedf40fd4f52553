/** Whole runs of the kernel's memory operations: what every reachable state satisfies. */
module KernelRuns {
  import opened Words
  import opened Bitmap
  import opened PmmModel
  import opened VmmModel
  import opened KernelModel

  // ---------- heap_create and stores into a block ----------

  /** `pmm_alloc(1)`, and what the frame is for. */
  function TakeFor(k: Kernel, use: Owner): (Kernel, Found) {
    var (pmm, r) := Alloc(k.vm.pmm, 1);
    (k.(vm := k.vm.(pmm := pmm), owner := if r.Page? then k.owner[r.first := use] else k.owner), r)
  }

  /** One frame for the heap's own use. */
  function TakeMeta(k: Kernel): (Kernel, Found) { TakeFor(k, HeapMeta) }

  /** The parts of the invariant that do not speak of the heap. */
  ghost predicate BaseInv(k: Kernel) {
    WellFormed(k.vm) && BitsOwned(k) && TablesOwned(k) && BlocksOwned(k)
  }

  /** An owner for one frame that had none leaves the tables and blocks owned as they were. */
  lemma NewOwnerKeepsOthers(k: Kernel, t: Kernel, f: nat, o: Owner)
    requires TablesOwned(k) && BlocksOwned(k) && f !in k.owner && !o.TableFrame? && !o.BlockFrame?
    requires t.vm.pd == k.vm.pd && t.blocks == k.blocks && t.owner == k.owner[f := o]
    ensures TablesOwned(t) && BlocksOwned(t)
  {
    forall i | 0 < i < ENTRIES && Present(t.vm.pd[i]) ensures OwnedAs(t, Frame(t.vm.pd[i]), TableFrame(i)) {
      assert OwnedAs(k, Frame(k.vm.pd[i]), TableFrame(i));
    }
    forall b, f | b in t.blocks && b <= f < b + PagesFor(t.blocks[b]) ensures OwnedAs(t, f, BlockFrame(b)) {
      assert OwnedAs(k, f, BlockFrame(b));
    }
  }

  lemma TakeForKeepsBits(k: Kernel, use: Owner)
    requires WellFormed(k.vm) && BitsOwned(k) && TakeFor(k, use).1.Page?
    ensures var (t, r) := TakeFor(k, use);
      && WellFormed(t.vm) && BitsOwned(t)
      && t == k.(vm := k.vm.(pmm := t.vm.pmm), owner := k.owner[r.first := use])
      && 0 < r.first && InMemory(k.vm.mem, r.first) && r.first !in k.owner
  {
    AllocIsFind(k.vm.pmm, 1);
    hide Alloc, Find;
  }

  lemma TakeForKeepsBase(k: Kernel, use: Owner)
    requires BaseInv(k) && TakeFor(k, use).1.Page? && !use.TableFrame? && !use.BlockFrame?
    ensures var (t, r) := TakeFor(k, use);
      && BaseInv(t) && t == k.(vm := k.vm.(pmm := t.vm.pmm), owner := k.owner[r.first := use])
      && 0 < r.first && InMemory(k.vm.mem, r.first) && r.first !in k.owner
  {
    TakeForKeepsBits(k, use);
    hide TakeFor, PagesFor, Mark;
    var (t, r) := TakeFor(k, use);
    NewOwnerKeepsOthers(k, t, r.first, use);
  }

  lemma TakeMetaKeepsBase(k: Kernel)
    requires BaseInv(k) && TakeMeta(k).1.Page?
    ensures var (t, r) := TakeMeta(k);
      && BaseInv(t) && t == k.(vm := k.vm.(pmm := t.vm.pmm), owner := k.owner[r.first := HeapMeta])
      && 0 < r.first && InMemory(k.vm.mem, r.first) && r.first !in k.owner
  {
    TakeForKeepsBase(k, HeapMeta);
  }

  /** The page for a new task's stack, which nothing ever gives back. */
  function TakeStack(k: Kernel): (Kernel, Found) { TakeFor(k, TaskStack) }

  /** A stack page is none of the heap's own frames. */
  lemma StackKeepsHeap(k: Kernel, t: Kernel, f: nat)
    requires HeapOwned(k) && HeadSelfLoop(k) && f !in k.owner && t.owner == k.owner[f := TaskStack]
    requires t.vm.mem == k.vm.mem && t.heap == k.heap && t.head == k.head && t.blocks == k.blocks
    ensures HeapOwned(t) && HeadSelfLoop(t)
  {
  }

  lemma TakeStackKeepsInv(k: Kernel)
    requires Inv(k) && TakeStack(k).1.Page?
    ensures Inv(TakeStack(k).0)
  {
    TakeForKeepsBase(k, TaskStack);
    StackKeepsHeap(k, TakeStack(k).0, TakeStack(k).1.first);
    hide Walk, PagesFor, HeapOwned, HeadSelfLoop;
    BlocksStayReady(k, TakeStack(k).0);
  }

  /** `heap_create`. */
  function HeapCreate(k: Kernel): (Kernel, Found)
    requires BaseInv(k)
  {
    var (t, r) := TakeMeta(k);
    if !r.Page? then (t, r) else
    var (u, r') := TakeMeta(t);
    if !r'.Page? then (u, r') else
    TakeMetaKeepsBase(k);
    TakeMetaKeepsBase(t);
    var mem := u.vm.mem[r.first * ENTRIES := Address(r'.first)];
    (u.(vm := u.vm.(mem := WithHeader(mem, r'.first, Address(r'.first), Address(r'.first), 0, HEAP_MAGIC)),
        heap := r.first, head := r'.first), r)
  }

  /** The stores of `heap_create` make the self-loop and touch no page table. */
  lemma HeadWritten(s: VmState, h: nat, head: nat)
    requires WellFormed(s) && InMemory(s.mem, h) && InMemory(s.mem, head) && h != head
    requires forall i :: 0 <= i < ENTRIES && Present(s.pd[i]) ==> Frame(s.pd[i]) != h && Frame(s.pd[i]) != head
    ensures var a := Address(head);
      var mem := WithHeader(s.mem[h * ENTRIES := a], head, a, a, 0, HEAP_MAGIC);
      && |mem| == |s.mem| && WellFormed(s.(mem := mem)) && Flat(s.(mem := mem)) == Flat(s)
      && mem[h * ENTRIES] == Address(head)
      && Header(mem, head) == [Address(head), Address(head), 0, HEAP_MAGIC]
  {
    hide Flat, Walk;
    WordKeepsFlat(s, h, 0, Address(head));
    var t := s.(mem := s.mem[h * ENTRIES + 0 := Address(head)]);
    WithHeaderKeepsFlat(t, head, Address(head), Address(head), 0, HEAP_MAGIC);
    WithHeaderWords(t.mem, head, Address(head), Address(head), 0, HEAP_MAGIC);
    assert h * ENTRIES / ENTRIES == h;
  }

  lemma HeapCreateEstablishesInv(k: Kernel)
    requires Inv(k) && k.heap == 0 && HeapCreate(k).1.Page?
    ensures Inv(HeapCreate(k).0) && HeapCreate(k).0.heap != 0
    ensures Flat(HeapCreate(k).0.vm) == Flat(k.vm) && HeapCreate(k).0.vm.pd == k.vm.pd
  {
    hide Walk, WithHeader, PagesFor;
    TakeMetaKeepsBase(k);
    var (t, r) := TakeMeta(k);
    TakeMetaKeepsBase(t);
    var (u, r') := TakeMeta(t);
    NoTableIn(u, r.first);
    NoTableIn(u, r'.first);
    HeadWritten(u.vm, r.first, r'.first);
    SameWalks(u.vm, k.vm);
    var z := HeapCreate(k).0;
    assert BitsOwned(z) && TablesOwned(z) && BlocksOwned(z);
  }

  /** A word of block b that belongs to its user and lies on the block's mapped first page. */
  predicate UserWord(k: Kernel, b: nat, w: nat) {
    b in k.blocks && 4 <= w < ENTRIES && 4 * w + 4 <= HEADER_SIZE + k.blocks[b]
  }

  function StoreWord(k: Kernel, b: nat, w: nat, v: Word): Kernel
    requires Inv(k) && UserWord(k, b, w)
  {
    assert BlockReady(k, b);
    k.(vm := k.vm.(mem := k.vm.mem[b * ENTRIES + w := v]))
  }

  lemma StoreKeepsHeaders(mem: seq<Word>, b: nat, w: nat, v: Word, f: nat)
    requires InMemory(mem, b) && InMemory(mem, f) && 4 <= w < ENTRIES
    ensures Header(mem[b * ENTRIES + w := v], f) == Header(mem, f)
  {
  }

  lemma StoreKeepsFlat(k: Kernel, b: nat, w: nat, v: Word)
    requires Inv(k) && UserWord(k, b, w)
    ensures var t := StoreWord(k, b, w, v).vm; WellFormed(t) && Flat(t) == Flat(k.vm)
  {
    assert BlockReady(k, b);
    assert OwnedAs(k, b, BlockFrame(b));
    NoTableIn(k, b);
    WordKeepsFlat(k.vm, b, w, v);
  }

  lemma StoreKeepsHeapWords(k: Kernel, b: nat, w: nat, v: Word)
    requires Inv(k) && UserWord(k, b, w)
    ensures WellFormed(StoreWord(k, b, w, v).vm) && SameHeapWords(k, StoreWord(k, b, w, v), k.blocks.Keys)
  {
    StoreKeepsFlat(k, b, w, v);
    assert BlockReady(k, b);
    hide Walk, PagesFor;
    var t := StoreWord(k, b, w, v);
    forall f | f in k.owner && InMemory(k.vm.mem, f) ensures Header(t.vm.mem, f) == Header(k.vm.mem, f) {
      StoreKeepsHeaders(k.vm.mem, b, w, v, f);
    }
    forall c | c in k.blocks ensures Walk(t.vm, BlockPage(c)) == Walk(k.vm, BlockPage(c)) {
      assert Flat(t.vm)[BlockPage(c)] == Flat(k.vm)[BlockPage(c)];
    }
  }

  lemma StoreKeepsInv(k: Kernel, b: nat, w: nat, v: Word)
    requires Inv(k) && UserWord(k, b, w)
    ensures Inv(StoreWord(k, b, w, v)) && Flat(StoreWord(k, b, w, v).vm) == Flat(k.vm)
  {
    StoreKeepsFlat(k, b, w, v);
    StoreKeepsHeapWords(k, b, w, v);
    OwnersSurvive(k, StoreWord(k, b, w, v));
    HeapSurvives(k, StoreWord(k, b, w, v), k.blocks.Keys);
  }

  // ---------- steps and runs ----------

  datatype Op =
    | CreateHeap
    | AllocBlock(size: Word)
    | FreeBlock(block: nat)
    | MapAt(phys: Word, virt: Word, flags: Word)
    | UnmapAt(virt: Word)
    | StoreAt(block: nat, word: nat, value: Word)
    | NewStack

  /** What the kernel's callers must respect; nothing here limits sizes of memory or the order of operations. */
  ghost predicate Legal(k: Kernel, op: Op)
    requires Inv(k)
  {
    match op
    case CreateHeap => k.heap == 0
    case AllocBlock(n) => k.heap != 0 && 0 < PagesFor(n)
    case FreeBlock(b) => b in k.blocks && KeepsFirstTable(k, HigherHalf(Address(b)))
    case MapAt(phys, virt, flags) => AgreesWithBlocks(k.blocks.Keys, phys, virt, flags)
    case UnmapAt(virt) => ForeignPage(k.blocks.Keys, virt) && KeepsFirstTable(k, virt)
    case StoreAt(b, w, v) => UserWord(k, b, w)
    case NewStack => true
  }

  /** The next state; the second part says whether the allocator gave out, in which case the machine halts. */
  ghost function Step(k: Kernel, op: Op): (Kernel, Found)
    requires Inv(k) && Legal(k, op)
  {
    match op
    case CreateHeap => HeapCreate(k)
    case AllocBlock(n) => HeapAlloc(k, n)
    case FreeBlock(b) => (HeapFree(k, b), Page(b))
    case MapAt(phys, virt, flags) => MapPage(k, phys, virt, flags)
    case UnmapAt(virt) => (UnmapPage(k, virt), Page(0))
    case StoreAt(b, w, v) => (StoreWord(k, b, w, v), Page(b))
    case NewStack => TakeStack(k)
  }

  /** Every operation keeps the whole invariant, nested table allocations and frees included. */
  lemma StepKeepsInv(k: Kernel, op: Op)
    requires Inv(k) && Legal(k, op) && Step(k, op).1.Page?
    ensures Inv(Step(k, op).0)
  {
    match op
    case CreateHeap => HeapCreateEstablishesInv(k);
    case AllocBlock(n) => HeapAllocKeepsInv(k, n);
    case FreeBlock(b) => HeapFreeKeepsInvIff(k, b);
    case MapAt(phys, virt, flags) => MapKeepsInv(k, phys, virt, flags, k.blocks.Keys);
    case UnmapAt(virt) => UnmapKeepsInv(k, virt);
    case StoreAt(b, w, v) => StoreKeepsInv(k, b, w, v);
    case NewStack => TakeStackKeepsInv(k);
  }

  ghost predicate LegalRun(k: Kernel, ops: seq<Op>)
    requires Inv(k)
    decreases |ops|
  {
    ops == [] ||
    (Legal(k, ops[0]) &&
     (Step(k, ops[0]).1.Page? ==> (StepKeepsInv(k, ops[0]); LegalRun(Step(k, ops[0]).0, ops[1..]))))
  }

  /** The state a run reaches: after its last operation, or where the machine halted. */
  ghost function RunOps(k: Kernel, ops: seq<Op>): (t: Kernel)
    requires Inv(k) && LegalRun(k, ops)
    ensures Inv(t)
    decreases |ops|
  {
    if ops == [] || !Step(k, ops[0]).1.Page? then k else
    StepKeepsInv(k, ops[0]);
    RunOps(Step(k, ops[0]).0, ops[1..])
  }

  /** The state `vmm_install` starts from: the static first table, every taken frame reserved, no heap. */
  ghost predicate Booted(k: Kernel) {
    && WellFormed(k.vm) && BitsOwned(k)
    && Present(k.vm.pd[0]) && (forall i :: 0 < i < ENTRIES ==> !Present(k.vm.pd[i]))
    && (forall f :: f in k.owner ==> k.owner[f] == Reserved)
    && k.heap == 0 && k.head == 0 && k.blocks == map[]
  }

  lemma BootedHasInv(k: Kernel)
    requires Booted(k)
    ensures Inv(k)
  {
    assert Frame(k.vm.pd[0]) in k.owner;
  }

  // ---------- the frames in use ----------

  /** The frames reserved at boot stay so, and no others become so; a stack page stays one from when it is taken. */
  lemma StepKeepsOwner(k: Kernel, op: Op, f: nat, o: Owner)
    requires Inv(k) && Legal(k, op) && Step(k, op).1.Page? && (o == Reserved || o == TaskStack)
    ensures OwnedAs(Step(k, op).0, f, o) <==>
      OwnedAs(k, f, o) || (o == TaskStack && op.NewStack? && f == Step(k, op).1.first)
  {
    match op
    case CreateHeap =>
      TakeMetaKeepsBase(k);
      TakeMetaKeepsBase(TakeMeta(k).0);
    case AllocBlock(n) => AllocKeepsOwner(k, n, f, o);
    case FreeBlock(b) => FreeKeepsOwner(k, b, f, o);
    case MapAt(phys, virt, flags) => MapKeepsBitsOwned(k, phys, virt, flags);
    case UnmapAt(virt) =>
      UnmapKeepsOwners(k, virt);
      if OwnedAs(UnmapPage(k, virt), f, o) { assert OwnedAs(k, f, o); }
    case StoreAt(b, w, v) =>
    case NewStack => TakeForKeepsBase(k, TaskStack);
  }

  lemma AllocKeepsOwner(k: Kernel, n: Word, f: nat, o: Owner)
    requires Inv(k) && k.heap != 0 && 0 < PagesFor(n) && HeapAlloc(k, n).1.Page? && !o.BlockFrame? && !o.TableFrame?
    ensures OwnedAs(HeapAlloc(k, n).0, f, o) <==> OwnedAs(k, f, o)
  {
    TakeBlockTakes(k, n);
    TakeBlockKeepsInv(k, n);
    var (t, r) := TakeBlock(k, n);
    var virt := HigherHalf(Address(r.first));
    MapKeepsBitsOwned(t, Physical(virt), virt, PTE_PRESENT + PTE_WRITABLE);
  }

  lemma FreeKeepsOwner(k: Kernel, b: nat, f: nat, o: Owner)
    requires Inv(k) && b in k.blocks && KeepsFirstTable(k, HigherHalf(Address(b))) && !o.BlockFrame? && !o.TableFrame?
    ensures OwnedAs(HeapFree(k, b), f, o) <==> OwnedAs(k, f, o)
  {
    GiveBlockKeepsInv(k, b);
    BlockRange(k, b);
    var t := GiveBlock(k, b);
    hide PagesFor, Walk;
    UnmapKeepsOwners(t, HigherHalf(Address(b)));
    if OwnedAs(HeapFree(k, b), f, o) { assert OwnedAs(t, f, o); }
    if OwnedAs(k, f, o) { assert OwnedAs(t, f, o); }
  }

  /** The stack pages a run takes. */
  ghost function Stacks(k: Kernel, ops: seq<Op>): set<nat>
    requires Inv(k) && LegalRun(k, ops)
    decreases |ops|
  {
    if ops == [] || !Step(k, ops[0]).1.Page? then {} else
    StepKeepsInv(k, ops[0]);
    (if ops[0].NewStack? then {Step(k, ops[0]).1.first} else {}) + Stacks(Step(k, ops[0]).0, ops[1..])
  }

  lemma {:induction false} RunKeepsOwner(k: Kernel, ops: seq<Op>, f: nat, o: Owner)
    requires Inv(k) && LegalRun(k, ops) && (o == Reserved || o == TaskStack)
    ensures OwnedAs(RunOps(k, ops), f, o) <==> OwnedAs(k, f, o) || (o == TaskStack && f in Stacks(k, ops))
    decreases |ops|
  {
    if ops != [] && Step(k, ops[0]).1.Page? {
      StepKeepsInv(k, ops[0]);
      StepKeepsOwner(k, ops[0], f, o);
      RunKeepsOwner(Step(k, ops[0]).0, ops[1..], f, o);
    }
  }

  ghost predicate InHeapMeta(k: Kernel, f: nat) { k.heap != 0 && (f == k.heap || f == k.head) }
  ghost predicate InBlock(k: Kernel, f: nat, b: nat) { b in k.blocks && b <= f < b + PagesFor(k.blocks[b]) }
  ghost predicate InSomeBlock(k: Kernel, f: nat) { exists b :: InBlock(k, f, b) }
  ghost predicate IsTable(k: Kernel, f: nat, i: nat)
    requires |k.vm.pd| == ENTRIES
  {
    0 < i < ENTRIES && Present(k.vm.pd[i]) && Frame(k.vm.pd[i]) == f
  }
  ghost predicate IsSomeTable(k: Kernel, f: nat)
    requires |k.vm.pd| == ENTRIES
  {
    exists i :: IsTable(k, f, i)
  }

  /**
   * After every run from boot, the set bits are exactly the frames set at boot, the heap's two frames, the ranges of
   * the live blocks, the on-demand page tables and the stack pages the run took, and no frame is in two of these.
   */
  lemma RunPartition(boot: Kernel, ops: seq<Op>, f: nat)
    requires Booted(boot) && Inv(boot) && LegalRun(boot, ops) && f < |boot.vm.pmm.bits|
    ensures var k, stack := RunOps(boot, ops), f in Stacks(boot, ops);
      && |k.vm.pmm.bits| == |boot.vm.pmm.bits|
      && (k.vm.pmm.bits[f] <==>
           boot.vm.pmm.bits[f] || InHeapMeta(k, f) || InSomeBlock(k, f) || IsSomeTable(k, f) || stack)
      && !(boot.vm.pmm.bits[f] && (InHeapMeta(k, f) || InSomeBlock(k, f) || IsSomeTable(k, f) || stack))
      && !(InHeapMeta(k, f) && (InSomeBlock(k, f) || IsSomeTable(k, f) || stack))
      && !(InSomeBlock(k, f) && (IsSomeTable(k, f) || stack))
      && !(IsSomeTable(k, f) && stack)
      && (forall b, c :: InBlock(k, f, b) && InBlock(k, f, c) ==> b == c)
      && (forall i, j :: IsTable(k, f, i) && IsTable(k, f, j) ==> i == j)
  {
    var k := RunOps(boot, ops);
    RunKeepsFreed(boot, ops);
    RunKeepsOwner(boot, ops, f, Reserved);
    RunKeepsOwner(boot, ops, f, TaskStack);
    assert boot.vm.pmm.bits[f] <==> OwnedAs(k, f, Reserved);
    OwnerIsUse(k, f);
  }

  /** The owner of a frame says which use it has, and it has no other. */
  lemma OwnerIsUse(k: Kernel, f: nat)
    requires Inv(k)
    ensures InHeapMeta(k, f) <==> OwnedAs(k, f, HeapMeta)
    ensures forall b: nat :: InBlock(k, f, b) <==> OwnedAs(k, f, BlockFrame(b))
    ensures forall i: nat :: IsTable(k, f, i) <==> OwnedAs(k, f, TableFrame(i))
  {
    forall b: nat ensures InBlock(k, f, b) <==> OwnedAs(k, f, BlockFrame(b)) {
      if InBlock(k, f, b) { assert OwnedAs(k, f, BlockFrame(b)); }
    }
    forall i: nat ensures IsTable(k, f, i) <==> OwnedAs(k, f, TableFrame(i)) {
      if IsTable(k, f, i) { assert OwnedAs(k, Frame(k.vm.pd[i]), TableFrame(i)); }
    }
  }

  // ---------- freed frames ----------

  /** The cursor never moves back, and what is free behind it stays free. */
  ghost predicate KeepsFreed(k: Kernel, t: Kernel) {
    && t.vm.pmm.limit == k.vm.pmm.limit && |t.vm.pmm.bits| == |k.vm.pmm.bits|
    && k.vm.pmm.cursor <= t.vm.pmm.cursor
    && forall f :: f in t.owner && f !in k.owner ==> k.vm.pmm.cursor <= f
  }

  lemma MapKeepsFreed(k: Kernel, phys: Word, virt: Word, flags: Word)
    requires WellFormed(k.vm) && MapPage(k, phys, virt, flags).1.Page?
    ensures KeepsFreed(k, MapPage(k, phys, virt, flags).0)
  {
    AllocIsFind(k.vm.pmm, 1);
  }

  lemma AllocKeepsFreed(k: Kernel, n: Word)
    requires Inv(k) && k.heap != 0 && 0 < PagesFor(n) && HeapAlloc(k, n).1.Page?
    ensures KeepsFreed(k, HeapAlloc(k, n).0)
    ensures k.vm.pmm.cursor <= HeapAlloc(k, n).1.first
    ensures HeapAlloc(k, n).1.first + PagesFor(n) <= HeapAlloc(k, n).0.vm.pmm.cursor
  {
    AllocIsFind(k.vm.pmm, PagesFor(n));
    TakeBlockKeepsInv(k, n);
    var (t, r) := TakeBlock(k, n);
    var virt := HigherHalf(Address(r.first));
    MapKeepsFreed(t, Physical(virt), virt, PTE_PRESENT + PTE_WRITABLE);
  }

  lemma StepKeepsFreed(k: Kernel, op: Op)
    requires Inv(k) && Legal(k, op) && Step(k, op).1.Page?
    ensures KeepsFreed(k, Step(k, op).0)
  {
    match op
    case CreateHeap =>
      AllocIsFind(k.vm.pmm, 1);
      TakeMetaKeepsBase(k);
      AllocIsFind(TakeMeta(k).0.vm.pmm, 1);
    case AllocBlock(n) => AllocKeepsFreed(k, n);
    case FreeBlock(b) =>
      GiveBlockKeepsInv(k, b);
      UnmapFreesTableIff(GiveBlock(k, b).vm, HigherHalf(Address(b)));
    case MapAt(phys, virt, flags) => MapKeepsFreed(k, phys, virt, flags);
    case UnmapAt(virt) => UnmapFreesTableIff(k.vm, virt);
    case StoreAt(b, w, v) =>
    case NewStack => AllocIsFind(k.vm.pmm, 1);
  }

  /** A frame that is free behind the cursor is never used again, by the heap, for a page table or for a stack. */
  lemma {:induction false} RunKeepsFreed(k: Kernel, ops: seq<Op>)
    requires Inv(k) && LegalRun(k, ops)
    ensures KeepsFreed(k, RunOps(k, ops))
    decreases |ops|
  {
    if ops != [] && Step(k, ops[0]).1.Page? {
      StepKeepsInv(k, ops[0]);
      StepKeepsFreed(k, ops[0]);
      RunKeepsFreed(Step(k, ops[0]).0, ops[1..]);
    }
  }

  // ---------- where the search stops ----------

  /** The search did not read past the bitmap, and it left the allocator bounded. */
  ghost predicate StopsCleanly(r: (Kernel, Found)) {
    r.1 != Overrun && (r.1.Page? ==> Bounded(r.0.vm.pmm))
  }

  lemma OnePageWithinLimit(s: PmmState)
    requires Sane(s) && Bounded(s)
    ensures Alloc(s, 1).1 != Overrun && (Alloc(s, 1).1.Page? ==> Bounded(Alloc(s, 1).0))
  {
    OnePageStays(s);
    AllocWithinLimit(s, 1);
  }

  lemma CreateWithinLimit(k: Kernel)
    requires BaseInv(k) && Bounded(k.vm.pmm)
    ensures StopsCleanly(HeapCreate(k))
  {
    OnePageWithinLimit(k.vm.pmm);
    if TakeMeta(k).1.Page? {
      TakeMetaKeepsBase(k);
      OnePageWithinLimit(TakeMeta(k).0.vm.pmm);
    }
  }

  lemma MapWithinLimit(k: Kernel, phys: Word, virt: Word, flags: Word)
    requires WellFormed(k.vm) && Bounded(k.vm.pmm)
    ensures StopsCleanly(MapPage(k, phys, virt, flags))
  {
    OnePageWithinLimit(k.vm.pmm);
  }

  /** The only request that can step over the count is a block of several pages. */
  ghost predicate BlockStays(k: Kernel, op: Op)
    requires Inv(k) && Legal(k, op)
  {
    op.AllocBlock? ==> 0 < PagesFor(op.size) && RequestStays(k.vm.pmm, PagesFor(op.size))
  }

  lemma AllocBlockWithinLimit(k: Kernel, n: Word)
    requires Inv(k) && Bounded(k.vm.pmm) && k.heap != 0 && 0 < PagesFor(n)
    requires 0 < PagesFor(n) && RequestStays(k.vm.pmm, PagesFor(n))
    ensures StopsCleanly(HeapAlloc(k, n))
  {
    AllocWithinLimit(k.vm.pmm, PagesFor(n));
    var (t, r) := TakeBlock(k, n);
    if r.Page? {
      TakeBlockKeepsInv(k, n);
      var virt := HigherHalf(Address(r.first));
      MapWithinLimit(t, Physical(virt), virt, PTE_PRESENT + PTE_WRITABLE);
    }
  }

  lemma GivesKeepCursor(k: Kernel, op: Op)
    requires Inv(k) && Legal(k, op) && (op.FreeBlock? || op.UnmapAt? || op.StoreAt?)
    ensures Step(k, op).0.vm.pmm.cursor == k.vm.pmm.cursor && Step(k, op).0.vm.pmm.limit == k.vm.pmm.limit
    ensures |Step(k, op).0.vm.pmm.bits| == |k.vm.pmm.bits|
  {
    match op
    case FreeBlock(b) =>
      GiveBlockKeepsInv(k, b);
      UnmapFreesTableIff(GiveBlock(k, b).vm, HigherHalf(Address(b)));
    case UnmapAt(virt) => UnmapFreesTableIff(k.vm, virt);
    case StoreAt(b, w, v) =>
  }

  /**
   * With no sentinel at all, every operation but the allocation of a block that does not fit below the count ends
   * below it or in the "out of memory" panic. Page tables, stacks and the heap's frames are single pages, which always
   * do.
   */
  lemma StepWithinLimit(k: Kernel, op: Op)
    requires Inv(k) && Legal(k, op) && Bounded(k.vm.pmm) && BlockStays(k, op)
    ensures StopsCleanly(Step(k, op))
  {
    match op {
      case CreateHeap => CreateWithinLimit(k);
      case AllocBlock(n) => AllocBlockWithinLimit(k, n);
      case MapAt(phys, virt, flags) => MapWithinLimit(k, phys, virt, flags);
      case NewStack => OnePageWithinLimit(k.vm.pmm);
      case _ => GivesKeepCursor(k, op);
    }
  }

  /** Every block the run allocates fits below the count when it is asked for. */
  ghost predicate BlocksStay(k: Kernel, ops: seq<Op>)
    requires Inv(k) && LegalRun(k, ops)
    decreases |ops|
  {
    ops == [] ||
    (BlockStays(k, ops[0]) &&
     (Step(k, ops[0]).1.Page? ==> (StepKeepsInv(k, ops[0]); BlocksStay(Step(k, ops[0]).0, ops[1..]))))
  }

  /** No operation of the run reads past the bitmap. */
  ghost predicate NeverOverruns(k: Kernel, ops: seq<Op>)
    requires Inv(k) && LegalRun(k, ops)
    decreases |ops|
  {
    ops == [] ||
    (Step(k, ops[0]).1 != Overrun &&
     (Step(k, ops[0]).1.Page? ==> (StepKeepsInv(k, ops[0]); NeverOverruns(Step(k, ops[0]).0, ops[1..]))))
  }

  lemma {:induction false} RunWithinLimit(k: Kernel, ops: seq<Op>)
    requires Inv(k) && LegalRun(k, ops) && Bounded(k.vm.pmm) && BlocksStay(k, ops)
    ensures NeverOverruns(k, ops) && Bounded(RunOps(k, ops).vm.pmm)
    decreases |ops|
  {
    if ops != [] {
      StepWithinLimit(k, ops[0]);
      if Step(k, ops[0]).1.Page? {
        StepKeepsInv(k, ops[0]);
        RunWithinLimit(Step(k, ops[0]).0, ops[1..]);
      }
    }
  }

  // ---------- the sentinel over runs ----------

  ghost predicate SentinelReserved(k: Kernel) {
    Sentinel(k.vm.pmm) && OwnedAs(k, k.vm.pmm.limit, Reserved)
  }

  /** Under the sentinel a block of any size stays below the count. */
  lemma BlockUnderSentinel(k: Kernel, op: Op)
    requires Inv(k) && Legal(k, op) && Sentinel(k.vm.pmm)
    ensures BlockStays(k, op)
  {
    if op.AllocBlock? {
      RequestStaysIff(k.vm.pmm, PagesFor(op.size));
    }
  }

  lemma SentinelFromOwner(k: Kernel, t: Kernel)
    requires SentinelReserved(k) && BitsOwned(t)
    requires OwnedAs(t, k.vm.pmm.limit, Reserved) && t.vm.pmm.limit == k.vm.pmm.limit
    requires t.vm.pmm.cursor <= k.vm.pmm.limit
    ensures SentinelReserved(t)
  {
  }

  /** While page `pmm_page_count` stays reserved, the only way a step fails is the "out of memory" panic. */
  lemma StepUnderSentinel(k: Kernel, op: Op)
    requires Inv(k) && Legal(k, op) && SentinelReserved(k)
    ensures Step(k, op).1 != Overrun
    ensures Step(k, op).1.Page? ==> SentinelReserved(Step(k, op).0)
  {
    BlockUnderSentinel(k, op);
    StepWithinLimit(k, op);
    if Step(k, op).1.Page? {
      StepKeepsInv(k, op);
      StepKeepsOwner(k, op, k.vm.pmm.limit, Reserved);
      StepKeepsFreed(k, op);
      SentinelFromOwner(k, Step(k, op).0);
    }
  }

  /** So the sentinel lasts for the whole run, and no search in it reads past the bitmap. */
  lemma {:induction false} RunUnderSentinel(k: Kernel, ops: seq<Op>)
    requires Inv(k) && LegalRun(k, ops) && SentinelReserved(k)
    ensures NeverOverruns(k, ops) && SentinelReserved(RunOps(k, ops))
    decreases |ops|
  {
    if ops != [] {
      StepUnderSentinel(k, ops[0]);
      if Step(k, ops[0]).1.Page? {
        StepKeepsInv(k, ops[0]);
        RunUnderSentinel(Step(k, ops[0]).0, ops[1..]);
      }
    }
  }

  // ---------- the flat map over steps ----------

  /** Each step's effect on the flat map: one page at most, and none for what only the heap sees. */
  lemma StepRefinesFlat(k: Kernel, op: Op)
    requires Inv(k) && Legal(k, op) && Step(k, op).1.Page?
    ensures Inv(Step(k, op).0)
    ensures var (t, r) := Step(k, op);
      Flat(t.vm) == match op
        case AllocBlock(n) => Flat(k.vm)[BlockPage(r.first) := Entry(Address(r.first), PTE_PRESENT + PTE_WRITABLE)]
        case FreeBlock(b) => Flat(k.vm)[BlockPage(b) := 0]
        case MapAt(phys, virt, flags) =>
          Flat(k.vm)[virt / PAGE_SIZE := if Present(flags) then Entry(phys, flags) else 0]
        case UnmapAt(virt) => Flat(k.vm)[virt / PAGE_SIZE := 0]
        case _ => Flat(k.vm)
  {
    StepKeepsInv(k, op);
    match op
    case CreateHeap => HeapCreateEstablishesInv(k);
    case AllocBlock(n) => AllocRefinesFlat(k, op);
    case FreeBlock(b) =>
      GiveBlockKeepsInv(k, b);
      UnmapRefinesFlat(GiveBlock(k, b).vm, HigherHalf(Address(b)));
      SameWalks(GiveBlock(k, b).vm, k.vm);
    case MapAt(phys, virt, flags) => MapRefinesFlat(k.vm, phys, virt, flags);
    case UnmapAt(virt) => UnmapRefinesFlat(k.vm, virt);
    case StoreAt(b, w, v) => StoreKeepsInv(k, b, w, v);
    case NewStack => SameWalks(TakeStack(k).0.vm, k.vm);
  }

  /** The page a step adds to the flat map, in a table that is present afterwards. */
  ghost predicate Adds(s: VmState, t: VmState, page: nat, entry: Word)
    requires WellFormed(s) && WellFormed(t)
  {
    && page < TWO_TO_THE_20 && entry != 0
    && Flat(t) == Flat(s)[page := entry]
    && forall i :: 0 <= i < ENTRIES && Present(t.pd[i]) ==> Present(s.pd[i]) || i == page / ENTRIES
  }

  lemma HeapAllocAdds(k: Kernel, n: Word)
    requires Inv(k) && k.heap != 0 && 0 < PagesFor(n) && HeapAlloc(k, n).1.Page?
    ensures var (z, r) := HeapAlloc(k, n);
      WellFormed(z.vm) && Adds(k.vm, z.vm, BlockPage(r.first), Entry(Address(r.first), PTE_PRESENT + PTE_WRITABLE))
  {
    TakeBlockKeepsInv(k, n);
    TakeBlockTakes(k, n);
    var (t, r) := TakeBlock(k, n);
    BlockMappingAdds(k, t, r.first);
    AddsThenHeader(k.vm, MapBlock(t, r.first).0.vm, BlockPage(r.first),
      Entry(Address(r.first), PTE_PRESENT + PTE_WRITABLE), r.first, Address(k.head), n);
  }

  lemma AllocRefinesFlat(k: Kernel, op: Op)
    requires Inv(k) && Legal(k, op) && Step(k, op).1.Page? && op.AllocBlock?
    ensures var (z, r) := Step(k, op);
      WellFormed(z.vm) && Adds(k.vm, z.vm, BlockPage(r.first), Entry(Address(r.first), PTE_PRESENT + PTE_WRITABLE))
  {
    HeapAllocAdds(k, op.size);
    assert Step(k, op) == HeapAlloc(k, op.size);
  }

  lemma AddsThenHeader(s: VmState, u: VmState, page: nat, entry: Word, b: nat, link: Word, n: Word)
    requires WellFormed(s) && WellFormed(u) && Adds(s, u, page, entry) && InMemory(u.mem, b)
    requires forall i :: 0 <= i < ENTRIES && Present(u.pd[i]) ==> Frame(u.pd[i]) != b
    ensures var z := u.(mem := WithHeader(u.mem, b, link, link, n, HEAP_MAGIC));
      WellFormed(z) && Adds(s, z, page, entry)
  {
    WithHeaderKeepsFlat(u, b, link, link, n, HEAP_MAGIC);
  }

  /** The mapping made for block b, before its header is written. */
  lemma BlockMappingAdds(k: Kernel, t: Kernel, b: nat)
    requires WellFormed(k.vm) && WellFormed(t.vm) && BitsOwned(t) && TablesOwned(t)
    requires t.vm.pd == k.vm.pd && t.vm.mem == k.vm.mem && b < TWO_TO_THE_20 && OwnedAs(t, b, BlockFrame(b))
    requires MapBlock(t, b).1.Page?
    ensures var u := MapBlock(t, b).0;
      && WellFormed(u.vm) && InMemory(u.vm.mem, b)
      && Adds(k.vm, u.vm, BlockPage(b), Entry(Address(b), PTE_PRESENT + PTE_WRITABLE))
      && forall i :: 0 <= i < ENTRIES && Present(u.vm.pd[i]) ==> Frame(u.vm.pd[i]) != b
  {
    hide Walk, Map;
    var virt := HigherHalf(Address(b));
    PhysicalInverts(Address(b));
    MapRefinesFlat(t.vm, Physical(virt), virt, PTE_PRESENT + PTE_WRITABLE);
    SameWalks(t.vm, k.vm);
    MapKeepsBitsOwned(t, Physical(virt), virt, PTE_PRESENT + PTE_WRITABLE);
    MapKeepsTablesOwned(t, Physical(virt), virt, PTE_PRESENT + PTE_WRITABLE);
    MapPresence(t.vm, Physical(virt), virt, PTE_PRESENT + PTE_WRITABLE);
    MapTouchesOneFrame(t, Physical(virt), virt, PTE_PRESENT + PTE_WRITABLE);
    NoTableIn(MapBlock(t, b).0, b);
  }

  /** After `vmm_map` the directory entry it used is present and the others are as they were. */
  lemma MapPresence(s: VmState, phys: Word, virt: Word, flags: Word)
    requires WellFormed(s) && Map(s, phys, virt, flags).1.Page?
    ensures var t := Map(s, phys, virt, flags).0;
      && |t.pd| == ENTRIES
      && forall i :: 0 <= i < ENTRIES ==> (Present(t.pd[i]) <==> Present(s.pd[i]) || i == virt / PAGE_SIZE / ENTRIES)
  {
    EnsureTableWellFormed(s, virt);
    PageOfAddress(virt);
  }

  // ---------- no empty tables ----------

  ghost function At(s: VmState, i: nat, j: nat): Word
    requires WellFormed(s) && i < ENTRIES && j < ENTRIES
  {
    Flat(s)[i * ENTRIES + j]
  }

  /** Every on-demand table translates at least one page. */
  ghost predicate Tight(s: VmState)
    requires WellFormed(s)
  {
    forall i :: 0 < i < ENTRIES && Present(s.pd[i]) ==> exists j :: 0 <= j < ENTRIES && At(s, i, j) != 0
  }

  lemma AtAfterMap(s: VmState, t: VmState, page: nat, entry: Word, i: nat, j: nat)
    requires WellFormed(s) && WellFormed(t) && Adds(s, t, page, entry) && i < ENTRIES && j < ENTRIES
    ensures At(s, i, j) != 0 ==> At(t, i, j) != 0
    ensures i == page / ENTRIES && j == page % ENTRIES ==> At(t, i, j) != 0
  {
  }

  lemma TightAfterMap(s: VmState, t: VmState, page: nat, entry: Word)
    requires WellFormed(s) && WellFormed(t) && Tight(s) && Adds(s, t, page, entry)
    ensures Tight(t)
  {
    forall i | 0 < i < ENTRIES && Present(t.pd[i]) ensures exists j :: 0 <= j < ENTRIES && At(t, i, j) != 0 {
      if i == page / ENTRIES {
        AtAfterMap(s, t, page, entry, i, page % ENTRIES);
      } else {
        var j :| 0 <= j < ENTRIES && At(s, i, j) != 0;
        AtAfterMap(s, t, page, entry, i, j);
      }
    }
  }

  lemma AtIsEntry(s: VmState, i: nat, j: nat)
    requires WellFormed(s) && i < ENTRIES && j < ENTRIES
    requires Present(s.pd[i]) && Present(TableEntry(s.mem, Frame(s.pd[i]), j))
    ensures At(s, i, j) != 0
  {
    PageParts(i, j);
  }

  lemma AtAfterUnmap(s: VmState, virt: Word, i: nat, j: nat)
    requires WellFormed(s) && i < ENTRIES && j < ENTRIES && (i != DirectoryIndex(virt) || j != TableIndex(virt))
    ensures WellFormed(Unmap(s, virt)) && At(Unmap(s, virt), i, j) == At(s, i, j)
  {
    hide Walk, Unmap;
    UnmapRefinesFlat(s, virt);
    PageParts(i, j);
    PageOfAddress(virt);
  }

  lemma PageParts(i: nat, j: nat)
    requires j < ENTRIES
    ensures (i * ENTRIES + j) / ENTRIES == i && (i * ENTRIES + j) % ENTRIES == j
  {
  }

  lemma PageOfAddress(virt: Word)
    ensures virt / PAGE_SIZE / ENTRIES == DirectoryIndex(virt) && virt / PAGE_SIZE % ENTRIES == TableIndex(virt)
  {
  }

  lemma TightAfterUnmap(s: VmState, virt: Word)
    requires WellFormed(s) && Tight(s)
    ensures WellFormed(Unmap(s, virt)) && Tight(Unmap(s, virt))
  {
    UnmapRefinesFlat(s, virt);
    UnmapFreesTableIff(s, virt);
    forall i | 0 < i < ENTRIES && Present(Unmap(s, virt).pd[i])
      ensures exists j :: 0 <= j < ENTRIES && At(Unmap(s, virt), i, j) != 0
    {
      TightTable(s, virt, i);
    }
  }

  lemma TightTable(s: VmState, virt: Word, i: nat)
    requires WellFormed(s) && Tight(s) && 0 < i < ENTRIES && Present(s.pd[i])
    requires i == DirectoryIndex(virt) ==> !LastEntry(s, virt)
    ensures WellFormed(Unmap(s, virt)) && exists j :: 0 <= j < ENTRIES && At(Unmap(s, virt), i, j) != 0
  {
    var j: nat;
    if i == DirectoryIndex(virt) {
      j :| j < ENTRIES && j != TableIndex(virt) && Present(TableEntry(s.mem, Frame(s.pd[i]), j));
      AtIsEntry(s, i, j);
    } else {
      j :| j < ENTRIES && At(s, i, j) != 0;
    }
    AtAfterUnmap(s, virt, i, j);
  }

  lemma TightIfSame(s: VmState, t: VmState)
    requires WellFormed(s) && WellFormed(t) && Tight(s) && Flat(t) == Flat(s) && t.pd == s.pd
    ensures Tight(t)
  {
    forall i | 0 < i < ENTRIES && Present(t.pd[i]) ensures exists j :: 0 <= j < ENTRIES && At(t, i, j) != 0 {
      var j :| 0 <= j < ENTRIES && At(s, i, j) != 0;
      assert At(t, i, j) == At(s, i, j);
    }
  }

  /** Every mapping requested carries `PTE_PRESENT`. */
  ghost predicate MapsPresent(op: Op) { op.MapAt? ==> op.flags % 2 == PTE_PRESENT }

  lemma AllocKeepsTight(k: Kernel, op: Op)
    requires Inv(k) && Legal(k, op) && Step(k, op).1.Page? && op.AllocBlock? && Tight(k.vm)
    ensures WellFormed(Step(k, op).0.vm) && Tight(Step(k, op).0.vm)
  {
    AllocRefinesFlat(k, op);
    var (t, r) := Step(k, op);
    TightAfterMap(k.vm, t.vm, BlockPage(r.first), Entry(Address(r.first), PTE_PRESENT + PTE_WRITABLE));
  }

  lemma FreeKeepsTight(k: Kernel, op: Op)
    requires Inv(k) && Legal(k, op) && op.FreeBlock? && Tight(k.vm)
    ensures WellFormed(Step(k, op).0.vm) && Tight(Step(k, op).0.vm)
  {
    var b := op.block;
    GiveBlockKeepsInv(k, b);
    SameWalks(GiveBlock(k, b).vm, k.vm);
    TightIfSame(k.vm, GiveBlock(k, b).vm);
    TightAfterUnmap(GiveBlock(k, b).vm, HigherHalf(Address(b)));
  }

  lemma TightAfterMapping(s: VmState, phys: Word, virt: Word, flags: Word)
    requires WellFormed(s) && Present(flags) && Map(s, phys, virt, flags).1.Page? && Tight(s)
    ensures WellFormed(Map(s, phys, virt, flags).0) && Tight(Map(s, phys, virt, flags).0)
  {
    MapRefinesFlat(s, phys, virt, flags);
    MapPresence(s, phys, virt, flags);
    TightAfterMap(s, Map(s, phys, virt, flags).0, virt / PAGE_SIZE, Entry(phys, flags));
  }

  lemma MapKeepsTight(k: Kernel, op: Op)
    requires Inv(k) && Legal(k, op) && Step(k, op).1.Page? && op.MapAt? && MapsPresent(op) && Tight(k.vm)
    ensures WellFormed(Step(k, op).0.vm) && Tight(Step(k, op).0.vm)
  {
    TightAfterMapping(k.vm, op.phys, op.virt, op.flags);
    assert Step(k, op).0.vm == Map(k.vm, op.phys, op.virt, op.flags).0;
  }

  lemma OthersKeepTight(k: Kernel, op: Op)
    requires Inv(k) && Legal(k, op) && Step(k, op).1.Page? && Tight(k.vm)
    requires op.CreateHeap? || op.StoreAt? || op.NewStack?
    ensures WellFormed(Step(k, op).0.vm) && Tight(Step(k, op).0.vm)
  {
    if op.CreateHeap? {
      HeapCreateEstablishesInv(k);
    } else if op.StoreAt? {
      StoreKeepsInv(k, op.block, op.word, op.value);
    } else {
      TakeStackKeepsInv(k);
      SameWalks(TakeStack(k).0.vm, k.vm);
    }
    TightIfSame(k.vm, Step(k, op).0.vm);
  }

  /** With every mapping present, no step leaves an on-demand table that translates nothing. */
  lemma StepKeepsTight(k: Kernel, op: Op)
    requires Inv(k) && Legal(k, op) && Step(k, op).1.Page? && MapsPresent(op) && Tight(k.vm)
    ensures WellFormed(Step(k, op).0.vm) && Tight(Step(k, op).0.vm)
  {
    match op
    case AllocBlock(_) => AllocKeepsTight(k, op);
    case FreeBlock(_) => FreeKeepsTight(k, op);
    case MapAt(_, _, _) => MapKeepsTight(k, op);
    case UnmapAt(virt) => TightAfterUnmap(k.vm, virt);
    case _ => OthersKeepTight(k, op);
  }

  lemma {:induction false} RunKeepsTight(k: Kernel, ops: seq<Op>)
    requires Inv(k) && LegalRun(k, ops) && Tight(k.vm) && forall i :: 0 <= i < |ops| ==> MapsPresent(ops[i])
    ensures Tight(RunOps(k, ops).vm)
    decreases |ops|
  {
    if ops != [] && Step(k, ops[0]).1.Page? {
      StepKeepsInv(k, ops[0]);
      StepKeepsTight(k, ops[0]);
      assert forall i :: 0 <= i < |ops| - 1 ==> ops[1..][i] == ops[i + 1];
      RunKeepsTight(Step(k, ops[0]).0, ops[1..]);
    }
  }

  lemma {:induction false} CountIsCardinal(bits: seq<bool>, n: nat, owned: set<nat>)
    requires n <= |bits| && forall f :: f in owned <==> 0 <= f < n && bits[f]
    ensures Count(bits[..n]) == |owned|
  {
    if n == 0 {
      assert owned == {};
    } else {
      assert bits[..n][..n - 1] == bits[..n - 1];
      CountIsCardinal(bits, n - 1, owned - {n - 1});
    }
  }

  /** Memory in use is the number of owned frames, whatever has been allocated, mapped and freed. */
  lemma UseIsOwnership(k: Kernel)
    requires Inv(k)
    ensures Count(k.vm.pmm.bits) == |k.owner|
    ensures UsedBytes(k.vm.pmm.bits) == Wrap32(PAGE_SIZE * |k.owner|)
  {
    CountIsCardinal(k.vm.pmm.bits, |k.vm.pmm.bits|, k.owner.Keys);
    assert k.vm.pmm.bits[..|k.vm.pmm.bits|] == k.vm.pmm.bits;
  }

  /** Nothing above the first 4 MiB is translated. */
  ghost predicate NothingMapped(k: Kernel)
    requires WellFormed(k.vm)
  {
    forall page :: ENTRIES <= page < TWO_TO_THE_20 ==> Flat(k.vm)[page] == 0
  }

  /** An on-demand table keeps something mapped above the first 4 MiB. */
  lemma TableMapsPage(s: VmState, i: nat)
    requires WellFormed(s) && Tight(s) && 0 < i < ENTRIES && Present(s.pd[i])
    ensures exists page :: ENTRIES <= page < TWO_TO_THE_20 && Flat(s)[page] != 0
  {
    var j :| 0 <= j < ENTRIES && At(s, i, j) != 0;
    var page := i * ENTRIES + j;
    assert Flat(s)[page] == At(s, i, j);
  }

  lemma NoTablesLeft(k: Kernel)
    requires Inv(k) && Tight(k.vm) && NothingMapped(k)
    ensures forall f :: f in k.owner ==> !k.owner[f].TableFrame?
  {
    forall f | f in k.owner ensures !k.owner[f].TableFrame? {
      if k.owner[f].TableFrame? {
        TableMapsPage(k.vm, k.owner[f].index);
      }
    }
  }

  /**
   * Unmapping everything gives every page table back: a run of present mappings that ends with no block live and
   * nothing mapped above 4 MiB ends with exactly the frames set at boot, the heap's two and the stack pages it took.
   */
  lemma EverythingReturned(boot: Kernel, ops: seq<Op>, f: nat)
    requires Booted(boot) && Inv(boot) && LegalRun(boot, ops) && forall i :: 0 <= i < |ops| ==> MapsPresent(ops[i])
    requires f < |boot.vm.pmm.bits|
    requires RunOps(boot, ops).blocks == map[] && NothingMapped(RunOps(boot, ops))
    ensures var k := RunOps(boot, ops);
      && |k.vm.pmm.bits| == |boot.vm.pmm.bits|
      && (k.vm.pmm.bits[f] <==> boot.vm.pmm.bits[f] || InHeapMeta(k, f) || f in Stacks(boot, ops))
  {
    var k := RunOps(boot, ops);
    assert Tight(boot.vm);
    RunKeepsTight(boot, ops);
    NoTablesLeft(k);
    RunPartition(boot, ops, f);
    OwnerIsUse(k, f);
  }

  // ---------- permissions ----------

  /** No operation gives user code access to anything, or takes write access from a page table. */
  lemma StepKeepsFlags(k: Kernel, op: Op)
    requires Inv(k) && Legal(k, op) && Step(k, op).1.Page? && DirectoryFlags(k.vm)
    ensures DirectoryFlags(Step(k, op).0.vm)
  {
    match op
    case AllocBlock(n) =>
      TakeBlockKeepsInv(k, n);
      var (t, r) := TakeBlock(k, n);
      var virt := HigherHalf(Address(r.first));
      TakeBlockTakes(k, n);
      MapKeepsFlags(t.vm, Physical(virt), virt, PTE_PRESENT + PTE_WRITABLE);
    case FreeBlock(b) =>
      GiveBlockKeepsInv(k, b);
      UnmapKeepsFlags(GiveBlock(k, b).vm, HigherHalf(Address(b)));
    case MapAt(phys, virt, flags) => MapKeepsFlags(k.vm, phys, virt, flags);
    case UnmapAt(virt) => UnmapKeepsFlags(k.vm, virt);
    case CreateHeap => HeapCreateEstablishesInv(k);
    case _ =>
  }

  lemma {:induction false} RunKeepsFlags(k: Kernel, ops: seq<Op>)
    requires Inv(k) && LegalRun(k, ops) && DirectoryFlags(k.vm)
    ensures var t := RunOps(k, ops).vm;
      DirectoryFlags(t) && forall page :: 0 <= page < TWO_TO_THE_20 ==> !UserPage(t, page)
    decreases |ops|
  {
    if ops != [] && Step(k, ops[0]).1.Page? {
      StepKeepsInv(k, ops[0]);
      StepKeepsFlags(k, ops[0]);
      RunKeepsFlags(Step(k, ops[0]).0, ops[1..]);
    } else {
      forall page | 0 <= page < TWO_TO_THE_20
        ensures !UserPage(k.vm, page)
      {
        WritableIffEntry(k.vm, page);
      }
    }
  }

  // ---------- the identity map ----------

  /** The first 4 MiB translate to themselves, as the kernel and its page tables need. */
  ghost predicate Identity(s: VmState)
    requires WellFormed(s)
  {
    forall page :: 0 <= page < ENTRIES ==> Flat(s)[page] == Entry(page * PAGE_SIZE, PTE_PRESENT + PTE_WRITABLE)
  }

  /** The step leaves the first 4 MiB alone, or maps a page there to itself again. */
  ghost predicate SparesIdentity(k: Kernel, op: Op)
    requires Inv(k) && Legal(k, op) && Step(k, op).1.Page?
  {
    match op
    case AllocBlock(n) => !(0x4_0000 <= Step(k, op).1.first < 0x4_0400)
    case FreeBlock(b) => !(0x4_0000 <= b < 0x4_0400)
    case MapAt(phys, virt, flags) => virt / PAGE_SIZE < ENTRIES ==>
      Present(flags) && Entry(phys, flags) == Entry(virt / PAGE_SIZE * PAGE_SIZE, PTE_PRESENT + PTE_WRITABLE)
    case UnmapAt(virt) => virt / PAGE_SIZE >= ENTRIES
    case _ => true
  }

  /** A block's first page lies in the first 4 MiB exactly when its frame lies in the 4 MiB from 1 GiB on. */
  lemma LowBlockPage(b: nat)
    requires b < TWO_TO_THE_20
    ensures BlockPage(b) < ENTRIES <==> 0x4_0000 <= b < 0x4_0400
    ensures Entry(Address(b), PTE_PRESENT + PTE_WRITABLE) == b * PAGE_SIZE + PTE_PRESENT + PTE_WRITABLE
    ensures BlockPage(b) != b && BlockPage(b) < TWO_TO_THE_20
  {
    var page := if b + 0xC_0000 < TWO_TO_THE_20 then b + 0xC_0000 else b + 0xC_0000 - TWO_TO_THE_20;
    assert HigherHalf(Address(b)) == PAGE_SIZE * page;
  }

  lemma UpdateKeepsIdentityIff(s: VmState, t: VmState, page: nat, entry: Word)
    requires WellFormed(s) && WellFormed(t) && Identity(s) && page < TWO_TO_THE_20 && Flat(t) == Flat(s)[page := entry]
    ensures Identity(t) <==> page >= ENTRIES || entry == Entry(page * PAGE_SIZE, PTE_PRESENT + PTE_WRITABLE)
  {
    assert Flat(t)[page] == entry;
  }

  /** The frame of a block that is allocated or freed is one of the bitmap's. */
  lemma SmallBlock(k: Kernel, op: Op)
    requires Inv(k) && Legal(k, op) && Step(k, op).1.Page?
    ensures op.AllocBlock? ==> Step(k, op).1.first < |k.vm.pmm.bits|
    ensures op.FreeBlock? ==> op.block < |k.vm.pmm.bits|
  {
    if op.AllocBlock? {
      AllocIsFind(k.vm.pmm, PagesFor(op.size));
    } else if op.FreeBlock? {
      BlockIsOwned(k, op.block);
    }
  }

  lemma OneBlock(k: Kernel, b: nat, c: nat, f: nat)
    requires BlocksOwned(k) && InBlock(k, f, b) && InBlock(k, f, c)
    ensures b == c
  {
    BlockRange(k, b);
    BlockRange(k, c);
    assert k.owner[f] == BlockFrame(b) && k.owner[f] == BlockFrame(c);
  }

  /** Mapping block b's page over the identity map damages it exactly where the page is a low one. */
  lemma BlockKeepsIdentityIff(s: VmState, t: VmState, b: nat, entry: Word)
    requires WellFormed(s) && WellFormed(t) && Identity(s) && b < TWO_TO_THE_20
    requires entry == 0 || entry == Entry(Address(b), PTE_PRESENT + PTE_WRITABLE)
    requires BlockPage(b) < TWO_TO_THE_20 && Flat(t) == Flat(s)[BlockPage(b) := entry]
    ensures Identity(t) <==> !(0x4_0000 <= b < 0x4_0400)
  {
    LowBlockPage(b);
    UpdateKeepsIdentityIff(s, t, BlockPage(b), entry);
  }

  lemma AllocKeepsIdentityIff(k: Kernel, op: Op)
    requires Inv(k) && Legal(k, op) && Step(k, op).1.Page? && Identity(k.vm) && op.AllocBlock?
    ensures WellFormed(Step(k, op).0.vm) && (Identity(Step(k, op).0.vm) <==> SparesIdentity(k, op))
  {
    AllocRefinesFlat(k, op);
    var (t, r) := Step(k, op);
    SmallBlock(k, op);
    BlockKeepsIdentityIff(k.vm, t.vm, r.first, Entry(Address(r.first), PTE_PRESENT + PTE_WRITABLE));
  }

  /**
   * The identity map of the first 4 MiB survives a step exactly when the step spares it. For a heap block it does
   * unless the block's frame is one of the 1024 from 1 GiB on, whose higher-half addresses wrap to the bottom.
   */
  lemma StepKeepsIdentityIff(k: Kernel, op: Op)
    requires Inv(k) && Legal(k, op) && Step(k, op).1.Page? && Identity(k.vm)
    ensures WellFormed(Step(k, op).0.vm) && (Identity(Step(k, op).0.vm) <==> SparesIdentity(k, op))
  {
    hide Walk, PagesFor, HeapAlloc;
    StepRefinesFlat(k, op);
    var t := Step(k, op).0;
    match op
    case AllocBlock(n) => AllocKeepsIdentityIff(k, op);
    case FreeBlock(b) =>
      BlockIsOwned(k, b);
      LowBlockPage(b);
      BlockKeepsIdentityIff(k.vm, t.vm, b, 0);
    case MapAt(phys, virt, flags) =>
      UpdateKeepsIdentityIff(k.vm, t.vm, virt / PAGE_SIZE, if Present(flags) then Entry(phys, flags) else 0);
    case UnmapAt(virt) => UpdateKeepsIdentityIff(k.vm, t.vm, virt / PAGE_SIZE, 0);
    case _ =>
  }

  /** Every step of the run spares the identity map. */
  ghost predicate RunSparesIdentity(k: Kernel, ops: seq<Op>)
    requires Inv(k) && LegalRun(k, ops)
    decreases |ops|
  {
    ops == [] || !Step(k, ops[0]).1.Page? ||
    (SparesIdentity(k, ops[0]) && (StepKeepsInv(k, ops[0]); RunSparesIdentity(Step(k, ops[0]).0, ops[1..])))
  }

  lemma {:induction false} RunKeepsIdentity(k: Kernel, ops: seq<Op>)
    requires Inv(k) && LegalRun(k, ops) && Identity(k.vm) && RunSparesIdentity(k, ops)
    ensures Identity(RunOps(k, ops).vm)
    decreases |ops|
  {
    if ops != [] && Step(k, ops[0]).1.Page? {
      StepKeepsInv(k, ops[0]);
      StepKeepsIdentityIff(k, ops[0]);
      RunKeepsIdentity(Step(k, ops[0]).0, ops[1..]);
    }
  }

  /** Maps and unmaps stay above the first 4 MiB. */
  predicate AboveFirstTable(op: Op) {
    op.MapAt? || op.UnmapAt? ==> op.virt / PAGE_SIZE >= ENTRIES
  }

  /** On a machine with at most 1 GiB of managed memory every run does that maps and unmaps above the first 4 MiB. */
  lemma {:induction false} SmallMachineSparesIdentity(k: Kernel, ops: seq<Op>)
    requires Inv(k) && LegalRun(k, ops) && |k.vm.pmm.bits| <= 0x4_0000
    requires forall i :: 0 <= i < |ops| ==> AboveFirstTable(ops[i])
    ensures RunSparesIdentity(k, ops)
    decreases |ops|
  {
    if ops != [] && Step(k, ops[0]).1.Page? {
      StepKeepsInv(k, ops[0]);
      StepKeepsFreed(k, ops[0]);
      assert AboveFirstTable(ops[0]);
      SmallBlock(k, ops[0]);
      assert forall i :: 0 <= i < |ops| - 1 ==> ops[1..][i] == ops[i + 1];
      SmallMachineSparesIdentity(Step(k, ops[0]).0, ops[1..]);
    }
  }

  /**
   * Two live blocks share no page. A block's user range ends inside its own pages exactly for requests whose size, with
   * the header, did not wrap.
   */
  lemma UserRangesDisjoint(k: Kernel, b: nat, c: nat)
    requires Inv(k) && b in k.blocks && c in k.blocks && b < c
    ensures b * PAGE_SIZE + HEADER_SIZE + k.blocks[b] <= (b + PagesFor(k.blocks[b])) * PAGE_SIZE
       <==> k.blocks[b] <= MAX_REQUEST
    ensures b + PagesFor(k.blocks[b]) <= c
  {
    BlockFitsIff(k.blocks[b]);
    BlockRange(k, c);
    if c < b + PagesFor(k.blocks[b]) {
      OneBlock(k, b, c, c);
    }
  }
}
