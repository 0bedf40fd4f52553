/** The virtual memory manager of kernel/mm/vmm.c: a page directory and page tables written in place. */
module Vmm {
  import opened Words
  import opened PmmModel
  import opened Pmm
  import opened VmmModel

  class PageTables {
    const pmm: PhysicalMemory
    /** `page_directory`. */
    const directory: array<Word>
    /** Physical memory: address a is word a / 4. Page tables are written through their physical addresses. */
    const mem: array<Word>

    ghost predicate Wired() {
      && directory.Length == ENTRIES && directory != mem
      && directory as object != pmm.bitmap && mem as object != pmm.bitmap
    }

    ghost function State(): VmState
      reads pmm, pmm.bitmap, directory, mem
    {
      VmState(pmm.State(), directory[..], mem[..])
    }

    /** `directory` and `mem` stand for the kernel's static directory and for physical memory. */
    constructor (pmm: PhysicalMemory, directory: array<Word>, mem: array<Word>)
      requires directory.Length == ENTRIES && directory != mem
      requires directory as object != pmm.bitmap && mem as object != pmm.bitmap
      ensures this.pmm == pmm && this.directory == directory && this.mem == mem && Wired()
    {
      this.pmm, this.directory, this.mem := pmm, directory, mem;
    }

    /** The loop that clears a new page table. */
    method ClearFrame(f: nat)
      requires InMemory(mem[..], f)
      modifies mem
      ensures mem[..] == Zeroed(old(mem[..]), f)
    {
      ghost var before := mem[..];
      for i := 0 to ENTRIES
        invariant forall k :: 0 <= k < mem.Length ==>
          mem[k] == if f * ENTRIES <= k < f * ENTRIES + i then 0 else before[k]
      {
        mem[f * ENTRIES + i] := 0;
      }
      assert mem[..] == Zeroed(before, f);
    }

    /** The first half of `vmm_map`: allocates, clears and enters a page table if there is none. */
    method EnsureTable(virt: Word) returns (r: Outcome<()>)
      requires Wired() && WellFormed(State())
      requires VmmModel.EnsureTable(State(), virt).1 != Overrun
      modifies pmm`lastPage, pmm.bitmap, directory, mem
      ensures State() == VmmModel.EnsureTable(old(State()), virt).0
      ensures r.Done? <==> VmmModel.EnsureTable(old(State()), virt).1.Page?
    {
      ghost var s := State();
      var pdindex := DirectoryIndex(virt);
      if !Present(directory[pdindex]) {
        AllocIsFind(s.pmm, 1);
        var newTable := pmm.Allocate(1);
        assert directory[..] == s.pd && mem[..] == s.mem;
        if newTable.Panic? {
          return Panic;
        }
        ghost var f := Alloc(s.pmm, 1).1.first;
        assert newTable.value == f * PAGE_SIZE;
        ClearFrame(newTable.value / PAGE_SIZE);
        directory[pdindex] := Entry(newTable.value, PTE_PRESENT + PTE_WRITABLE);
        assert directory[..] == s.pd[pdindex := Entry(f * PAGE_SIZE, PTE_PRESENT + PTE_WRITABLE)];
      }
      return Done(());
    }

    /** `vmm_map`: panics if it needs a table and there is no frame for it. */
    method MapPage(phys: Word, virt: Word, flags: Word) returns (r: Outcome<()>)
      requires Wired() && WellFormed(State())
      requires Map(State(), phys, virt, flags).1 != Overrun
      modifies pmm`lastPage, pmm.bitmap, directory, mem
      ensures State() == Map(old(State()), phys, virt, flags).0
      ensures r.Done? <==> Map(old(State()), phys, virt, flags).1.Page?
    {
      ghost var s := State();
      r := EnsureTable(virt);
      if r.Done? {
        EnsureTableWellFormed(s, virt);
        var pt := Frame(directory[DirectoryIndex(virt)]);
        mem[pt * ENTRIES + TableIndex(virt)] := Entry(phys, flags);
      }
    }

    /** The scan of `vmm_unmap` for a present entry. */
    method IsEmpty(pt: nat) returns (empty: bool)
      requires InMemory(mem[..], pt)
      ensures empty == EmptyTable(mem[..], pt)
    {
      empty := true;
      for i := 0 to ENTRIES
        invariant empty && forall j :: 0 <= j < i ==> !Present(TableEntry(mem[..], pt, j))
      {
        if Present(mem[pt * ENTRIES + i]) {
          assert Present(TableEntry(mem[..], pt, i));
          empty := false;
          break;
        }
      }
    }

    /** `vmm_unmap`. */
    method UnmapPage(virt: Word)
      requires Wired() && WellFormed(State())
      modifies pmm.bitmap, directory, mem
      ensures State() == Unmap(old(State()), virt)
    {
      ghost var s := State();
      var pdindex := DirectoryIndex(virt);
      if Present(directory[pdindex]) {
        var pt := Frame(directory[pdindex]);
        mem[pt * ENTRIES + TableIndex(virt)] := 0;
        assert mem[..] == s.mem[pt * ENTRIES + TableIndex(virt) := 0];
        var empty := IsEmpty(pt);
        if empty {
          pmm.Release(Wrap32(pt * PAGE_SIZE), 1);
          assert Wrap32(pt * PAGE_SIZE) / PAGE_SIZE == pt;
          directory[pdindex] := 0;
        }
      }
    }

    /** The word at a translated virtual address. */
    method Read(virt: Word) returns (w: Word)
      requires Wired() && WellFormed(State()) && virt % 4 == 0
      requires Walk(State(), virt / PAGE_SIZE) != 0 && InMemory(mem[..], Frame(Walk(State(), virt / PAGE_SIZE)))
      ensures w == mem[Frame(Walk(State(), virt / PAGE_SIZE)) * ENTRIES + virt % PAGE_SIZE / 4]
    {
      var pt := Frame(directory[DirectoryIndex(virt)]);
      var pte := mem[pt * ENTRIES + TableIndex(virt)];
      w := mem[Frame(pte) * ENTRIES + virt % PAGE_SIZE / 4];
    }

    method Write(virt: Word, w: Word)
      requires Wired() && WellFormed(State()) && virt % 4 == 0
      requires Walk(State(), virt / PAGE_SIZE) != 0 && InMemory(mem[..], Frame(Walk(State(), virt / PAGE_SIZE)))
      modifies mem
      ensures State() == old(State()).(mem :=
        old(mem[..])[Frame(old(Walk(State(), virt / PAGE_SIZE))) * ENTRIES + virt % PAGE_SIZE / 4 := w])
    {
      var pt := Frame(directory[DirectoryIndex(virt)]);
      var pte := mem[pt * ENTRIES + TableIndex(virt)];
      mem[Frame(pte) * ENTRIES + virt % PAGE_SIZE / 4] := w;
    }
  }
}
