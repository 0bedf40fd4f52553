/** The mappings `vmm_install` makes: the identity-mapped first 4 MiB and the kernel's sections. */
module VmmInstall {
  import opened Words
  import opened PmmModel
  import opened VmmModel
  import opened KernelModel
  import opened KernelRuns
  import opened Vmm

  /** One mapping loop: addresses from .. end-1 in steps of a page, at a fixed distance, with the same flags. */
  datatype Section = Section(from: Word, end: Word, delta: Word, flags: Word)

  /** The loop's address does not wrap and its mappings are present. */
  predicate Loops(sec: Section) {
    sec.end <= TWO_TO_THE_32 - PAGE_SIZE && sec.flags % 2 == PTE_PRESENT
  }

  function Virtual(sec: Section, phys: int): Word { Wrap32(phys + sec.delta) }

  /** The calls of one mapping loop as operations. */
  function SectionOps(sec: Section): seq<Op>
    decreases sec.end - sec.from
  {
    if sec.from >= sec.end || sec.from + PAGE_SIZE >= TWO_TO_THE_32 then [] else
    [MapAt(sec.from, Virtual(sec, sec.from), sec.flags)] + SectionOps(sec.(from := sec.from + PAGE_SIZE))
  }

  /** The loop itself; it stops where a mapping fails. */
  ghost function MapSection(s: VmState, sec: Section): (VmState, Found)
    requires WellFormed(s) && Loops(sec)
    decreases sec.end - sec.from
  {
    if sec.from >= sec.end then (s, Page(0)) else
    var (t, r) := Map(s, sec.from, Virtual(sec, sec.from), sec.flags);
    if !r.Page? then (t, r) else
    MapRefinesFlat(s, sec.from, Virtual(sec, sec.from), sec.flags);
    MapSection(t, sec.(from := sec.from + PAGE_SIZE))
  }

  /** The virtual page the loop maps at its k-th turn. */
  function PageAt(sec: Section, k: nat): nat { Virtual(sec, sec.from + k * PAGE_SIZE) / PAGE_SIZE }

  /** None of the loop's turns maps this page. */
  ghost predicate Misses(sec: Section, page: nat) {
    forall k: nat :: sec.from + k * PAGE_SIZE < sec.end ==> PageAt(sec, k) != page
  }

  lemma PageAtStep(sec: Section, k: nat)
    ensures PageAt(sec, k) == ((sec.from + sec.delta) / PAGE_SIZE + k) % TWO_TO_THE_20
  {
    var x: nat := sec.from + sec.delta;
    var y := x + k * PAGE_SIZE;
    assert y / PAGE_SIZE == x / PAGE_SIZE + k;
    WrapPage(y);
    assert PageAt(sec, k) == Wrap32(y) / PAGE_SIZE;
  }

  /** Wrapping an address wraps its page number. */
  lemma WrapPage(x: nat)
    ensures Wrap32(x) / PAGE_SIZE == x / PAGE_SIZE % TWO_TO_THE_20
  {
    WrapIsMod(x);
    var q, w := x / TWO_TO_THE_32, Wrap32(x);
    assert x == PAGE_SIZE * (q * TWO_TO_THE_20) + w;
    assert x / PAGE_SIZE == q * TWO_TO_THE_20 + w / PAGE_SIZE;
  }

  /** Every page of the section translates to the frame it came from. */
  ghost predicate Translates(flat: seq<Word>, sec: Section)
    requires |flat| == TWO_TO_THE_20 && Loops(sec)
  {
    forall k: nat :: sec.from + k * PAGE_SIZE < sec.end ==>
      flat[PageAt(sec, k)] == Entry(sec.from + k * PAGE_SIZE, sec.flags)
  }

  /** The two maps agree wherever the section's loop does not write. */
  ghost predicate SameElsewhere(before: seq<Word>, after: seq<Word>, sec: Section)
    requires |before| == |after| == TWO_TO_THE_20
  {
    forall page :: 0 <= page < TWO_TO_THE_20 && Misses(sec, page) ==> after[page] == before[page]
  }

  function Rest(sec: Section): Section
    requires Loops(sec) && sec.from < sec.end
  {
    sec.(from := sec.from + PAGE_SIZE)
  }

  lemma PageAtRest(sec: Section, k: nat)
    requires Loops(sec) && sec.from < sec.end && 0 < k
    ensures PageAt(Rest(sec), k - 1) == PageAt(sec, k)
    ensures Rest(sec).from + (k - 1) * PAGE_SIZE == sec.from + k * PAGE_SIZE
    ensures sec.from + k * PAGE_SIZE < sec.end ==> PageAt(sec, k) != PageAt(sec, 0)
  {
    assert sec.from + PAGE_SIZE + (k - 1) * PAGE_SIZE == sec.from + k * PAGE_SIZE;
    if sec.from + k * PAGE_SIZE < sec.end {
      PageAtStep(sec, k);
      PageAtStep(sec, 0);
    }
  }

  lemma TranslatesStep(mid: seq<Word>, after: seq<Word>, sec: Section)
    requires |mid| == |after| == TWO_TO_THE_20 && Loops(sec) && sec.from < sec.end
    requires mid[PageAt(sec, 0)] == Entry(sec.from, sec.flags)
    requires Translates(after, Rest(sec)) && SameElsewhere(mid, after, Rest(sec))
    ensures Translates(after, sec)
  {
    forall k: nat | sec.from + k * PAGE_SIZE < sec.end
      ensures after[PageAt(sec, k)] == Entry(sec.from + k * PAGE_SIZE, sec.flags)
    {
      if k > 0 {
        PageAtRest(sec, k);
      } else {
        forall j: nat | Rest(sec).from + j * PAGE_SIZE < sec.end ensures PageAt(Rest(sec), j) != PageAt(sec, 0) {
          PageAtRest(sec, j + 1);
        }
        assert Misses(Rest(sec), PageAt(sec, 0));
      }
    }
  }

  lemma MissesRest(sec: Section, page: nat)
    requires Loops(sec) && sec.from < sec.end && Misses(sec, page)
    ensures Misses(Rest(sec), page) && PageAt(sec, 0) != page
  {
    assert sec.from + 0 * PAGE_SIZE < sec.end;
    forall j: nat | Rest(sec).from + j * PAGE_SIZE < sec.end ensures PageAt(Rest(sec), j) != page {
      PageAtRest(sec, j + 1);
    }
  }

  /** A section's loop maps each of its pages to the frame it came from and leaves every other page alone. */
  lemma {:induction false} SectionTranslates(s: VmState, sec: Section)
    requires WellFormed(s) && Loops(sec) && MapSection(s, sec).1.Page?
    ensures var t := MapSection(s, sec).0;
      WellFormed(t) && Translates(Flat(t), sec) && SameElsewhere(Flat(s), Flat(t), sec)
    decreases sec.end - sec.from
  {
    if sec.from < sec.end {
      var t := Map(s, sec.from, Virtual(sec, sec.from), sec.flags).0;
      MapRefinesFlat(s, sec.from, Virtual(sec, sec.from), sec.flags);
      SectionTranslates(t, Rest(sec));
      var z := MapSection(t, Rest(sec)).0;
      TranslatesStep(Flat(t), Flat(z), sec);
      forall page | 0 <= page < TWO_TO_THE_20 && Misses(sec, page) ensures Flat(z)[page] == Flat(s)[page] {
        MissesRest(sec, page);
      }
    }
  }

  // ---------- the boot state ----------

  /** The first page table: entry i maps page i to itself. */
  ghost predicate IdentityTable(mem: seq<Word>, f: nat) {
    && InMemory(mem, f)
    && forall i :: 0 <= i < ENTRIES ==> TableEntry(mem, f, i) == Entry(i * PAGE_SIZE, PTE_PRESENT + PTE_WRITABLE)
  }

  /** The state once the two initialization loops are done and directory entry 0 is set. */
  ghost predicate BootState(s: VmState, firstTable: nat) {
    && Sane(s.pmm) && Shaped(s) && IdentityTable(s.mem, firstTable)
    && 0 < firstTable < |s.pmm.bits| && s.pmm.bits[firstTable]
    && s.pd[0] == Entry(Address(firstTable), PTE_PRESENT + PTE_WRITABLE)
    && forall i :: 0 < i < ENTRIES ==> s.pd[i] == PTE_WRITABLE
  }

  lemma AddressOfFrame(f: nat)
    requires f < TWO_TO_THE_20
    ensures Address(f) == f * PAGE_SIZE
  {
  }

  /** At boot exactly the first 4 MiB are translated, each page to itself. */
  lemma BootIsIdentity(s: VmState, firstTable: nat)
    requires BootState(s, firstTable)
    ensures WellFormed(s) && Identity(s) && DirectoryFlags(s)
    ensures s.pd[0] == firstTable * 4096 + 3 && forall i :: 0 < i < 1024 ==> s.pd[i] == 2
    ensures forall page :: 0 <= page < TWO_TO_THE_20 ==>
      Flat(s)[page] == if page < 1024 then page * 4096 + 3 else 0
  {
    EntryOfFrame(firstTable);
    AddressOfFrame(firstTable);
    NewTableFlags(firstTable);
    forall page | 0 <= page < TWO_TO_THE_20
      ensures Walk(s, page) == if page < ENTRIES then Entry(page * PAGE_SIZE, PTE_PRESENT + PTE_WRITABLE) else 0
      ensures page < 1024 ==> Walk(s, page) == page * 4096 + 3
    {
      if page < ENTRIES {
        EntryOfFrame(page);
      }
    }
  }

  /** The kernel whose every taken frame is reserved, before any heap exists. */
  ghost function BootKernel(s: VmState): Kernel {
    Kernel(s, 0, 0, map[], map f: nat | 0 <= f < |s.pmm.bits| && s.pmm.bits[f] :: Reserved)
  }

  lemma BootKernelBooted(s: VmState, firstTable: nat)
    requires BootState(s, firstTable)
    ensures Booted(BootKernel(s)) && Inv(BootKernel(s))
  {
    EntryOfFrame(firstTable);
    BootedHasInv(BootKernel(s));
  }

  /** Before there is a heap, a mapping loop is a run of the kernel's map operation. */
  lemma {:induction false} SectionIsRun(k: Kernel, sec: Section)
    requires Inv(k) && k.blocks == map[] && Loops(sec)
    ensures LegalRun(k, SectionOps(sec))
    ensures MapSection(k.vm, sec).1.Page? ==> RunOps(k, SectionOps(sec)).vm == MapSection(k.vm, sec).0
    decreases sec.end - sec.from
  {
    if sec.from < sec.end {
      var op := MapAt(sec.from, Virtual(sec, sec.from), sec.flags);
      assert SectionOps(sec)[0] == op && SectionOps(sec)[1..] == SectionOps(Rest(sec));
      assert Legal(k, op);
      if Step(k, op).1.Page? {
        StepKeepsInv(k, op);
        SectionIsRun(Step(k, op).0, Rest(sec));
      }
    }
  }

  // ---------- vmm_install ----------

  /** The mapping loops one after the other. */
  ghost function MapSections(s: VmState, secs: seq<Section>): (VmState, Found)
    requires WellFormed(s) && forall i :: 0 <= i < |secs| ==> Loops(secs[i])
    decreases |secs|
  {
    if secs == [] then (s, Page(0)) else
    var (t, r) := MapSection(s, secs[0]);
    if !r.Page? then (t, r) else
    SectionTranslates(s, secs[0]);
    MapSections(t, secs[1..])
  }

  lemma SectionTurn(s: VmState, sec: Section)
    requires WellFormed(s) && Loops(sec) && sec.from < sec.end
    ensures var (t, r) := Map(s, sec.from, Virtual(sec, sec.from), sec.flags);
      if r.Page? then WellFormed(t) && MapSection(s, sec) == MapSection(t, Rest(sec)) else MapSection(s, sec) == (t, r)
  {
    if Map(s, sec.from, Virtual(sec, sec.from), sec.flags).1.Page? {
      MapRefinesFlat(s, sec.from, Virtual(sec, sec.from), sec.flags);
    }
  }

  /** One mapping loop. */
  method MapLoop(vm: PageTables, sec: Section) returns (r: Outcome<()>)
    requires vm.Wired() && WellFormed(vm.State()) && Loops(sec) && MapSection(vm.State(), sec).1 != Overrun
    modifies vm.pmm`lastPage, vm.pmm.bitmap, vm.directory, vm.mem
    ensures r.Done? <==> old(MapSection(vm.State(), sec)).1.Page?
    ensures r.Done? ==> vm.State() == old(MapSection(vm.State(), sec)).0 && WellFormed(vm.State())
  {
    ghost var goal, s := MapSection(vm.State(), sec), vm.State();
    var left := sec;
    while left.from < left.end
      invariant left == sec.(from := left.from)
      invariant s == vm.State() && WellFormed(s) && MapSection(s, left) == goal
      decreases left.end - left.from
    {
      SectionTurn(s, left);
      r := vm.MapPage(left.from, Virtual(left, left.from), left.flags);
      if r.Panic? {
        return Panic;
      }
      s, left := vm.State(), Rest(left);
    }
    return Done(());
  }

  /** The distance from the sections to where `vmm_install` maps them. */
  function SectionDelta(textStart: Word): Word { Wrap32(textStart - KERNEL_BASE) }

  /**
   * A section is mapped to the higher half, at KERNEL_BASE plus its distance from the kernel's start, exactly when the
   * kernel is linked at 1 GiB or at 3 GiB; linked at 2 MiB it is mapped from 0x40400000 on.
   */
  lemma SectionDeltaIff(textStart: Word, phys: Word)
    requires textStart <= phys
    ensures Wrap32(phys + SectionDelta(textStart)) == HigherHalf(phys - textStart)
      <==> textStart == 0x4000_0000 || textStart == 0xC000_0000
    ensures textStart == 0x20_0000 ==> Wrap32(textStart + SectionDelta(textStart)) == 0x4040_0000
  {
  }

  /** The sections in the order `vmm_install` maps them; the frame buffer only outside text mode. */
  function Layout(text: (Word, Word), rodata: (Word, Word), data: (Word, Word), bss: (Word, Word),
                  vbeMode: nat, fb: (Word, Word)): seq<Section>
  {
    var delta, rw := SectionDelta(text.0), PTE_PRESENT + PTE_WRITABLE;
    [Section(text.0, text.1, delta, PTE_PRESENT), Section(rodata.0, rodata.1, delta, PTE_PRESENT),
     Section(data.0, data.1, delta, rw), Section(bss.0, bss.1, delta, rw)]
    + if vbeMode != 3 then [Section(fb.0, fb.1, 0, rw)] else []
  }

  /** No section from the i-th on maps this page. */
  ghost predicate MissesFrom(secs: seq<Section>, i: nat, page: nat) {
    forall j :: i <= j < |secs| ==> Misses(secs[j], page)
  }

  lemma MissesTail(secs: seq<Section>, i: nat, page: nat)
    requires secs != []
    ensures MissesFrom(secs, i + 1, page) <==> MissesFrom(secs[1..], i, page)
  {
    forall j | i <= j < |secs| - 1 ensures secs[1..][j] == secs[j + 1] {
    }
    if MissesFrom(secs[1..], i, page) {
      forall j | i + 1 <= j < |secs| ensures Misses(secs[j], page) {
        assert secs[1..][j - 1] == secs[j];
      }
    }
  }

  /** Pages that no section maps keep their translation. */
  lemma {:induction false} SectionsMiss(s: VmState, secs: seq<Section>, page: nat)
    requires WellFormed(s) && (forall i :: 0 <= i < |secs| ==> Loops(secs[i])) && MapSections(s, secs).1.Page?
    requires page < TWO_TO_THE_20 && MissesFrom(secs, 0, page)
    ensures var t := MapSections(s, secs).0; WellFormed(t) && Flat(t)[page] == Flat(s)[page]
    decreases |secs|
  {
    if secs != [] {
      SectionTranslates(s, secs[0]);
      MissesTail(secs, 0, page);
      SectionsMiss(MapSection(s, secs[0]).0, secs[1..], page);
    }
  }

  /** What the first section maps stays mapped where the others miss it. */
  lemma {:induction false} FirstTranslates(s: VmState, secs: seq<Section>, k: nat)
    requires WellFormed(s) && (forall j :: 0 <= j < |secs| ==> Loops(secs[j])) && MapSections(s, secs).1.Page?
    requires secs != [] && secs[0].from + k * PAGE_SIZE < secs[0].end && MissesFrom(secs, 1, PageAt(secs[0], k))
    ensures var t := MapSections(s, secs).0;
      WellFormed(t) && Flat(t)[PageAt(secs[0], k)] == Entry(secs[0].from + k * PAGE_SIZE, secs[0].flags)
  {
    hide Misses, Flat, WellFormed, MapSection, Virtual, SameElsewhere;
    SectionTranslates(s, secs[0]);
    MissesTail(secs, 0, PageAt(secs[0], k));
    SectionsMiss(MapSection(s, secs[0]).0, secs[1..], PageAt(secs[0], k));
  }

  /** Where the later sections do not map over it, each section translates to the frames it came from. */
  lemma {:induction false} SectionsTranslate(s: VmState, secs: seq<Section>, i: nat, k: nat)
    requires WellFormed(s) && (forall j :: 0 <= j < |secs| ==> Loops(secs[j])) && MapSections(s, secs).1.Page?
    requires i < |secs| && secs[i].from + k * PAGE_SIZE < secs[i].end && MissesFrom(secs, i + 1, PageAt(secs[i], k))
    ensures var t := MapSections(s, secs).0;
      WellFormed(t) && Flat(t)[PageAt(secs[i], k)] == Entry(secs[i].from + k * PAGE_SIZE, secs[i].flags)
    decreases |secs|
  {
    hide PageAt, Walk, Misses;
    if i == 0 {
      FirstTranslates(s, secs, k);
    } else {
      SectionTranslates(s, secs[0]);
      MissesTail(secs, i, PageAt(secs[i], k));
      assert secs[1..][i - 1] == secs[i];
      SectionsTranslate(MapSection(s, secs[0]).0, secs[1..], i - 1, k);
    }
  }

  /** A range of addresses mapped at a distance, without regard to flags. */
  function Range(range: (Word, Word), delta: Word): Section { Section(range.0, range.1, delta, 1) }

  lemma MissesAnyFlags(sec: Section, flags: Word, page: nat)
    ensures Misses(sec.(flags := flags), page) <==> Misses(sec, page)
  {
    forall k: nat ensures PageAt(sec.(flags := flags), k) == PageAt(sec, k) {
    }
  }

  /** `- virt_base + phys_base`. */
  function Distance(textStart: Word): Word { Wrap32(textStart - 0xC000_0000) }

  /** The virtual page of step k of a kernel section. */
  function KernelPage(textStart: Word, from: Word, k: nat): nat {
    Wrap32(from + k * 4096 + Distance(textStart)) / 4096
  }

  /** Page is mapped by none of these ranges. */
  ghost predicate Outside(ranges: seq<(Word, Word)>, delta: Word, page: nat) {
    forall j :: 0 <= j < |ranges| ==> Misses(Range(ranges[j], delta), page)
  }

  /** In graphics mode the frame buffer ends up mapped to itself, read-write. */
  lemma FrameBufferIsMapped(s: VmState, text: (Word, Word), rodata: (Word, Word), data: (Word, Word),
                            bss: (Word, Word), vbeMode: nat, fb: (Word, Word), k: nat)
    requires var layout := Layout(text, rodata, data, bss, vbeMode, fb);
      WellFormed(s) && (forall i :: 0 <= i < |layout| ==> Loops(layout[i])) && MapSections(s, layout).1.Page?
    requires vbeMode != 3 && fb.0 + k * 4096 < fb.1
    ensures var t := MapSections(s, Layout(text, rodata, data, bss, vbeMode, fb)).0;
      && WellFormed(t) && fb.0 + k * 4096 < TWO_TO_THE_32
      && Flat(t)[(fb.0 + k * 4096) / 4096] == Entry(fb.0 + k * 4096, 3)
  {
    var layout := Layout(text, rodata, data, bss, vbeMode, fb);
    assert layout[4] == Section(fb.0, fb.1, 0, 3);
    assert Loops(layout[4]) && PageAt(layout[4], k) == (fb.0 + k * 4096) / 4096;
    SectionsTranslate(s, layout, 4, k);
  }

  /** Page is mapped by no kernel section from the i-th on, nor by the frame buffer in graphics mode. */
  ghost predicate OutsideFrom(ranges: seq<(Word, Word)>, i: nat, vbeMode: nat, fb: (Word, Word), page: nat)
    requires |ranges| == 4 && i <= 4
  {
    && Outside(ranges[i..], Distance(ranges[0].0), page)
    && (vbeMode != 3 ==> Misses(Range(fb, 0), page))
  }

  lemma LayoutMisses(ranges: seq<(Word, Word)>, vbeMode: nat, fb: (Word, Word), i: nat, page: nat)
    requires |ranges| == 4 && i <= 4 && OutsideFrom(ranges, i, vbeMode, fb, page)
    ensures MissesFrom(Layout(ranges[0], ranges[1], ranges[2], ranges[3], vbeMode, fb), i, page)
  {
    var layout := Layout(ranges[0], ranges[1], ranges[2], ranges[3], vbeMode, fb);
    var delta := Distance(ranges[0].0);
    forall j | i <= j < |layout| ensures Misses(layout[j], page) {
      if j < 4 {
        assert ranges[i..][j - i] == ranges[j];
        MissesAnyFlags(Range(ranges[j], delta), layout[j].flags, page);
      } else {
        MissesAnyFlags(Range(fb, 0), layout[4].flags, page);
      }
    }
  }

  /**
   * The kernel's text, read-only data, data and bss end up mapped at a fixed distance, the first two for reading only
   * and the others for writing too, wherever no later range maps the same page.
   */
  lemma KernelIsMapped(s: VmState, ranges: seq<(Word, Word)>, vbeMode: nat, fb: (Word, Word), i: nat, k: nat)
    requires |ranges| == 4 && i < 4
    requires var layout := Layout(ranges[0], ranges[1], ranges[2], ranges[3], vbeMode, fb);
      WellFormed(s) && (forall j :: 0 <= j < |layout| ==> Loops(layout[j])) && MapSections(s, layout).1.Page?
    requires ranges[i].0 + k * 4096 < ranges[i].1
    requires OutsideFrom(ranges, i + 1, vbeMode, fb, KernelPage(ranges[0].0, ranges[i].0, k))
    ensures var t := MapSections(s, Layout(ranges[0], ranges[1], ranges[2], ranges[3], vbeMode, fb)).0;
      && WellFormed(t) && ranges[i].0 + k * 4096 < TWO_TO_THE_32
      && Flat(t)[KernelPage(ranges[0].0, ranges[i].0, k)] == Entry(ranges[i].0 + k * 4096, if i < 2 then 1 else 3)
  {
    var layout := Layout(ranges[0], ranges[1], ranges[2], ranges[3], vbeMode, fb);
    assert layout[i] == Section(ranges[i].0, ranges[i].1, SectionDelta(ranges[0].0), if i < 2 then 1 else 3);
    LayoutMisses(ranges, vbeMode, fb, i + 1, PageAt(layout[i], k));
    SectionsTranslate(s, layout, i, k);
  }

  /** Every page outside them keeps its boot translation: in text mode the frame buffer's do as well. */
  lemma OthersKeepBoot(s: VmState, ranges: seq<(Word, Word)>, vbeMode: nat, fb: (Word, Word), page: nat)
    requires |ranges| == 4 && page < TWO_TO_THE_20
    requires var layout := Layout(ranges[0], ranges[1], ranges[2], ranges[3], vbeMode, fb);
      WellFormed(s) && (forall j :: 0 <= j < |layout| ==> Loops(layout[j])) && MapSections(s, layout).1.Page?
    requires OutsideFrom(ranges, 0, vbeMode, fb, page)
    ensures var t := MapSections(s, Layout(ranges[0], ranges[1], ranges[2], ranges[3], vbeMode, fb)).0;
      WellFormed(t) && Flat(t)[page] == Flat(s)[page]
  {
    LayoutMisses(ranges, vbeMode, fb, 0, page);
    SectionsMiss(s, Layout(ranges[0], ranges[1], ranges[2], ranges[3], vbeMode, fb), page);
  }

  /** The two loops that set up the directory and the static first table. */
  method SetUp(vm: PageTables, firstTable: nat)
    requires vm.Wired() && Sane(vm.pmm.State()) && |vm.pmm.State().bits| * ENTRIES <= vm.mem.Length
    requires 0 < firstTable < |vm.pmm.State().bits| && vm.pmm.State().bits[firstTable]
    modifies vm.directory, vm.mem
    ensures BootState(vm.State(), firstTable) && vm.pmm.State() == old(vm.pmm.State())
    ensures forall w :: 0 <= w < vm.mem.Length && w / ENTRIES != firstTable ==> vm.mem[w] == old(vm.mem[w])
  {
    var rw := PTE_PRESENT + PTE_WRITABLE;
    ghost var before := vm.mem[..];
    for i := 0 to ENTRIES
      invariant forall j :: 0 <= j < i ==> vm.directory[j] == PTE_WRITABLE
      invariant vm.mem[..] == before
    {
      vm.directory[i] := PTE_WRITABLE;
    }
    for i := 0 to ENTRIES
      invariant forall j :: 0 <= j < ENTRIES ==> vm.directory[j] == PTE_WRITABLE
      invariant forall w :: 0 <= w < vm.mem.Length ==>
        vm.mem[w] == if firstTable * ENTRIES <= w < firstTable * ENTRIES + i
          then Entry((w - firstTable * ENTRIES) * PAGE_SIZE, rw) else before[w]
    {
      vm.mem[firstTable * ENTRIES + i] := Entry(i * 0x1000, rw);
    }
    vm.directory[0] := Entry(Address(firstTable), rw);
    assert IdentityTable(vm.mem[..], firstTable);
  }

  /** A mapping loop takes one page at a time, so it never reads past the bitmap, sentinel or not. */
  lemma {:induction false} SectionWithinLimit(s: VmState, sec: Section)
    requires WellFormed(s) && Loops(sec) && Bounded(s.pmm)
    ensures MapSection(s, sec).1 != Overrun
    ensures MapSection(s, sec).1.Page? ==> Bounded(MapSection(s, sec).0.pmm)
    decreases sec.end - sec.from
  {
    if sec.from < sec.end {
      var (t, r) := Map(s, sec.from, Virtual(sec, sec.from), sec.flags);
      OnePageWithinLimit(s.pmm);
      if r.Page? {
        MapRefinesFlat(s, sec.from, Virtual(sec, sec.from), sec.flags);
        SectionWithinLimit(t, Rest(sec));
      }
    }
  }

  /** `vmm_install`: ends with the boot identity map and every section mapped, or panics for want of a table. */
  method Install(vm: PageTables, firstTable: nat, text: (Word, Word), rodata: (Word, Word), data: (Word, Word),
                 bss: (Word, Word), vbeMode: nat, fb: (Word, Word)) returns (r: Outcome<()>)
    requires vm.Wired() && Sane(vm.pmm.State()) && |vm.pmm.State().bits| * ENTRIES <= vm.mem.Length
    requires 0 < firstTable < |vm.pmm.State().bits| && vm.pmm.State().bits[firstTable]
    requires forall i :: 0 <= i < |Layout(text, rodata, data, bss, vbeMode, fb)| ==>
      Loops(Layout(text, rodata, data, bss, vbeMode, fb)[i])
    requires Bounded(vm.pmm.State())
    modifies vm.pmm`lastPage, vm.pmm.bitmap, vm.directory, vm.mem
    ensures exists s :: (BootState(s, firstTable) && WellFormed(s) && s.pmm == old(vm.pmm.State())
      && var (t, found) := MapSections(s, Layout(text, rodata, data, bss, vbeMode, fb));
         if r.Done? then found.Page? && vm.State() == t else found == OutOfMemory)
  {
    SetUp(vm, firstTable);
    ghost var s := vm.State();
    BootIsIdentity(s, firstTable);
    var layout := Layout(text, rodata, data, bss, vbeMode, fb);
    for i := 0 to |layout|
      invariant WellFormed(vm.State()) && Bounded(vm.pmm.State())
      invariant MapSections(vm.State(), layout[i..]) == MapSections(s, layout)
    {
      assert layout[i..][0] == layout[i] && layout[i..][1..] == layout[i + 1..];
      SectionWithinLimit(vm.State(), layout[i]);
      r := MapLoop(vm, layout[i]);
      if r.Panic? {
        return Panic;
      }
    }
    return Done(());
  }
}
