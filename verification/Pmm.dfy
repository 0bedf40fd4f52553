/** The physical memory manager of kernel/mm/pmm.c: a bitmap in memory, a cursor, and the code that updates them. */
module Pmm {
  import opened Words
  import opened Bitmap
  import opened PmmModel

  // ---------- the boot-time memory map ----------

  const MULTIBOOT_MEMORY_AVAILABLE := 1
  const ONE_MIB := 0x10_0000

  /** The low halves of one multiboot memory map entry. */
  datatype Region = Region(addr: Word, len: Word, kind: Word)

  /** An available region at or above 1 MiB. */
  predicate High(r: Region) {
    r.kind == MULTIBOOT_MEMORY_AVAILABLE && r.addr >= ONE_MIB
  }

  /** The number of steps the clearing loop takes through a region. */
  function PageCount(r: Region): nat { (r.len + PAGE_SIZE - 1) / PAGE_SIZE }

  /** The page behind a region's last one, not reduced to 32 bits. */
  function EndPage(r: Region): nat { r.addr / PAGE_SIZE + PageCount(r) }

  /** Page lies among the n pages from `first` on, where page 0 follows the last page below 4 GiB. */
  predicate InSpan(first: nat, n: nat, page: nat) {
    page < TWO_TO_THE_20 && if first <= page then page - first < n else page + TWO_TO_THE_20 - first < n
  }

  /** The pages whose bits the clearing loop reaches for a region. */
  predicate Covers(r: Region, page: nat) {
    High(r) && InSpan(r.addr / PAGE_SIZE, PageCount(r), page)
  }

  /** They are the pages of the addresses the loop computes, in 32 bits. */
  lemma CoversIff(r: Region, page: nat)
    requires r.len <= TWO_TO_THE_32 - PAGE_SIZE
    ensures Covers(r, page) <==>
      r.kind == 1 && r.addr >= 0x10_0000
      && exists i: nat :: i * 4096 < r.len && Wrap32(r.addr + i * 4096) / 4096 == page
  {
    if Covers(r, page) {
      var first := r.addr / PAGE_SIZE;
      var i: nat := if first <= page then page - first else page + TWO_TO_THE_20 - first;
      StepOfLoop(r, i * 4096);
      assert i * 4096 < r.len && Wrap32(r.addr + i * 4096) / 4096 == page;
    }
    forall i: nat | i * 4096 < r.len
      ensures InSpan(r.addr / PAGE_SIZE, PageCount(r), Wrap32(r.addr + i * 4096) / 4096)
    {
      StepOfLoop(r, i * 4096);
    }
  }

  ghost predicate Covered(regions: seq<Region>, page: nat) {
    exists j :: 0 <= j < |regions| && Covers(regions[j], page)
  }

  /** The bytes of bitmap reserved for a kernel region of this length. */
  function BitmapSize(len: Word): nat {
    (len / PAGE_SIZE / 8 + (PAGE_SIZE - 1)) / PAGE_SIZE * PAGE_SIZE
  }

  /** k is the first available region at or above 1 MiB. */
  ghost predicate IsKernelRegion(regions: seq<Region>, k: nat) {
    k < |regions| && High(regions[k]) && forall j :: 0 <= j < k ==> !High(regions[j])
  }

  /** The kernel image ends inside region k, with memory left behind it and room for the bitmap's address. */
  predicate KernelFits(regions: seq<Region>, k: nat, end: Word) {
    && k < |regions| && regions[k].addr <= end < regions[k].addr + regions[k].len
    && end + BitmapSize(regions[k].len) < TWO_TO_THE_32
  }

  /** The map after the kernel region's start is moved past the bitmap that is placed at `end`. */
  function Adjusted(regions: seq<Region>, k: nat, end: Word): seq<Region>
    requires KernelFits(regions, k, end)
  {
    var r := regions[k];
    regions[k := Region(end + BitmapSize(r.len), r.len - (end - r.addr), r.kind)]
  }

  /** The number of bits in the bitmap. */
  function BitmapBits(regions: seq<Region>, k: nat): nat
    requires k < |regions|
  {
    8 * BitmapSize(regions[k].len)
  }

  /** The clearing loop only clears pages that have a bit. */
  ghost predicate ClearsInside(regions: seq<Region>, k: nat, end: Word)
    requires KernelFits(regions, k, end)
  {
    forall page: nat :: Covered(Adjusted(regions, k, end), page) ==> page < BitmapBits(regions, k)
  }

  /** No region's pages go past 4 GiB and on from page 0. */
  ghost predicate NoneWraps(regions: seq<Region>) {
    forall j :: 0 <= j < |regions| && High(regions[j]) ==> EndPage(regions[j]) <= TWO_TO_THE_20
  }

  function Min(a: nat, b: nat): nat { if a < b then a else b }

  /**
   * The clearing loop stays inside the bitmap exactly when every available region at or above 1 MiB that is not empty
   * ends, or passes 4 GiB, within the pages that have a bit, the kernel's own region counted with its adjusted end.
   */
  lemma ClearsInsideIff(regions: seq<Region>, k: nat, end: Word)
    requires KernelFits(regions, k, end)
    ensures var after := Adjusted(regions, k, end);
      ClearsInside(regions, k, end) <==>
      forall j :: 0 <= j < |after| && High(after[j]) && after[j].len > 0 ==>
        Min(EndPage(after[j]), TWO_TO_THE_20) <= BitmapBits(regions, k)
  {
    var after := Adjusted(regions, k, end);
    forall j | 0 <= j < |after| && High(after[j]) && after[j].len > 0
      ensures ClearsInside(regions, k, end) ==> Min(EndPage(after[j]), TWO_TO_THE_20) <= BitmapBits(regions, k)
    {
      var last := Min(EndPage(after[j]), TWO_TO_THE_20) - 1;
      assert Covers(after[j], last);
      assert Covered(after, last);
    }
    BitsBelow(regions[k].len);
  }

  lemma BitsBelow(len: Word)
    ensures 8 * BitmapSize(len) <= TWO_TO_THE_20
  {
  }

  /** A machine on which it does not: 256 MiB of memory, and a kernel that ends 128 KiB above 2 MiB. */
  lemma ClearingLeavesBitmap()
    ensures var regions := [Region(0, 0x9_F000, 1), Region(ONE_MIB, 0xFF0_0000, 1)];
      && IsKernelRegion(regions, 1) && KernelFits(regions, 1, 0x22_0000) && !ClearsInside(regions, 1, 0x22_0000)
  {
    var regions := [Region(0, 0x9_F000, 1), Region(ONE_MIB, 0xFF0_0000, 1)];
    assert BitmapSize(regions[1].len) == 0x2000;
    var after := Adjusted(regions, 1, 0x22_0000);
    assert after[1] == Region(0x22_2000, 0xFDE_0000, 1);
    assert Covers(after[1], 0x1_0001);
    assert Covered(after, 0x1_0001);
  }

  /** The offset counter of the clearing loop leaves the region exactly for lengths that do not wrap it. */
  lemma OffsetLeavesIff(len: Word)
    ensures (exists i: nat :: len <= Wrap32(i * PAGE_SIZE)) <==> len <= TWO_TO_THE_32 - PAGE_SIZE
  {
    forall i: nat ensures Wrap32(i * PAGE_SIZE) <= TWO_TO_THE_32 - PAGE_SIZE {
      WrapIsMod(i * PAGE_SIZE);
      MultipleOfPage(i);
    }
    assert Wrap32((TWO_TO_THE_20 - 1) * PAGE_SIZE) == TWO_TO_THE_32 - PAGE_SIZE;
  }

  lemma MultipleOfPage(i: nat)
    ensures i * PAGE_SIZE % TWO_TO_THE_32 <= TWO_TO_THE_32 - PAGE_SIZE
  {
    assert i * PAGE_SIZE % TWO_TO_THE_32 == i % TWO_TO_THE_20 * PAGE_SIZE;
  }

  /**
   * What the installation needs of its caller: the kernel image ends, page-aligned, inside region k; the offset
   * counter does not wrap in any region; and every page it clears has a bit in the bitmap.
   */
  ghost predicate Installable(regions: seq<Region>, k: nat, end: Word) {
    && IsKernelRegion(regions, k) && KernelFits(regions, k, end) && end % PAGE_SIZE == 0
    && (forall j :: 0 <= j < |regions| ==> Adjusted(regions, k, end)[j].len <= TWO_TO_THE_32 - PAGE_SIZE)
    && ClearsInside(regions, k, end)
  }

  /** The bits `pmm_install` leaves behind. */
  ghost function InstalledState(regions: seq<Region>, k: nat, end: Word): PmmState
    requires Installable(regions, k, end)
  {
    var after := Adjusted(regions, k, end);
    var bits := seq(BitmapBits(regions, k), page requires 0 <= page => !Covered(after, page));
    PmmState(bits, 0, regions[k].len / PAGE_SIZE)
  }

  /**
   * How much is measured out: a bitmap of whole pages, the fewest that hold a bit for every eight of the region's
   * pages; the count of its pages; and the region that is left behind the bitmap.
   */
  lemma InstallMeasures(regions: seq<Region>, k: nat, end: Word)
    requires Installable(regions, k, end)
    ensures var s, after := InstalledState(regions, k, end), Adjusted(regions, k, end);
      var size, need := |s.bits| / 8, regions[k].len / 4096 / 8;
      && |s.bits| == 8 * size && size % 4096 == 0 && need <= size < need + 4096
      && s.cursor == 0 && s.limit * 4096 <= regions[k].len < (s.limit + 1) * 4096
      && after[k] == Region(end + size, regions[k].len - (end - regions[k].addr), regions[k].kind)
      && |after| == |regions| && forall j :: 0 <= j < |regions| && j != k ==> after[j] == regions[j]
  {
  }

  /**
   * What the run theorems assume of their first state: the count is within the bitmap, and page 0 is reserved unless
   * some region passes 4 GiB, where the clearing loop goes on from page 0.
   */
  lemma InstallIsSaneIff(regions: seq<Region>, k: nat, end: Word)
    requires Installable(regions, k, end)
    ensures Bounded(InstalledState(regions, k, end))
    ensures Sane(InstalledState(regions, k, end)) <==> NoneWraps(Adjusted(regions, k, end))
  {
    var after := Adjusted(regions, k, end);
    ClearsInsideIff(regions, k, end);
    AdjustedEndGrows(regions, k, end);
    BitsBelow(regions[k].len);
    assert Min(EndPage(after[k]), TWO_TO_THE_20) <= BitmapBits(regions, k);
    forall j | 0 <= j < |after| && High(after[j]) ensures Covers(after[j], 0) <==> EndPage(after[j]) > TWO_TO_THE_20 {
    }
    if !NoneWraps(after) {
      var j :| 0 <= j < |after| && High(after[j]) && EndPage(after[j]) > TWO_TO_THE_20;
      assert Covers(after[j], 0);
    }
  }

  /** A machine whose memory reaches almost to 4 GiB: the adjusted region passes it, and page 0 is given out. */
  lemma LargeMachineFreesPageZero()
    ensures var regions := [Region(ONE_MIB, 0xFFEF_0000, 1)];
      Installable(regions, 0, 0x22_0000) && !Sane(InstalledState(regions, 0, 0x22_0000))
  {
    var regions := [Region(ONE_MIB, 0xFFEF_0000, 1)];
    assert BitmapSize(regions[0].len) == 0x2_0000;
    var after := Adjusted(regions, 0, 0x22_0000);
    assert after == [Region(0x24_0000, 0xFFDD_0000, 1)];
    ClearsInsideIff(regions, 0, 0x22_0000);
    InstallIsSaneIff(regions, 0, 0x22_0000);
    assert EndPage(after[0]) == 0x10_0010;
  }

  /** The adjusted region ends past the region it came from, by the size of the bitmap. */
  lemma AdjustedEndGrows(regions: seq<Region>, k: nat, end: Word)
    requires Installable(regions, k, end)
    ensures var r, r' := regions[k], Adjusted(regions, k, end)[k];
      r'.addr + r'.len == r.addr + r.len + BitmapSize(r.len)
  {
  }

  /**
   * Where no other region covers them, the pages of the kernel image and the bitmap keep their bits exactly as far as
   * the kernel's own region does not come round to them from beyond 4 GiB.
   */
  lemma KernelAndBitmapStaySetIff(regions: seq<Region>, k: nat, end: Word, page: nat)
    requires Installable(regions, k, end)
    requires regions[k].addr / PAGE_SIZE <= page < (end + BitmapSize(regions[k].len)) / PAGE_SIZE
    requires page < BitmapBits(regions, k)
    requires forall j :: 0 <= j < |regions| && j != k ==> !Covers(regions[j], page)
    ensures InstalledState(regions, k, end).bits[page] <==>
      EndPage(Adjusted(regions, k, end)[k]) <= TWO_TO_THE_20 + page
  {
    var after := Adjusted(regions, k, end);
    BitsBelow(regions[k].len);
    forall j | 0 <= j < |after| && j != k ensures !Covers(after[j], page) {
      assert after[j] == regions[j];
    }
    assert Covers(after[k], page) <==> EndPage(after[k]) > TWO_TO_THE_20 + page;
    assert Covered(after, page) <==> Covers(after[k], page);
  }

  /** Installation leaves the sentinel exactly when bit `pmm_page_count` exists and no region covers that page. */
  lemma InstallSentinelIff(regions: seq<Region>, k: nat, end: Word)
    requires Installable(regions, k, end)
    ensures var s := InstalledState(regions, k, end);
      Sentinel(s) <==> s.limit < |s.bits| && !Covered(Adjusted(regions, k, end), s.limit)
  {
  }

  /**
   * After installation every request respects `pmm_page_count` exactly when the count is 0, or no region covers the
   * page at the count and it has a bit, or no region covers the page before it.
   */
  lemma InstallRespectsLimitIff(regions: seq<Region>, k: nat, end: Word)
    requires Installable(regions, k, end)
    ensures var s, after := InstalledState(regions, k, end), Adjusted(regions, k, end);
      (forall n | n > 0 :: RequestStays(s, n)) <==>
      s.limit == 0 || (s.limit < |s.bits| && !Covered(after, s.limit)) || !Covered(after, s.limit - 1)
  {
    InstallIsSaneIff(regions, k, end);
    SearchRespectsLimitIff(InstalledState(regions, k, end));
  }

  /**
   * The count is a region length but the bits are absolute page numbers, so it fails on every machine whose kernel
   * region is longer than the address its bitmap ends at.
   */
  lemma InstallLosesTheLimit(regions: seq<Region>, k: nat, end: Word)
    requires Installable(regions, k, end)
    requires (end + BitmapSize(regions[k].len)) / PAGE_SIZE < regions[k].len / PAGE_SIZE
    ensures !Sentinel(InstalledState(regions, k, end))
    ensures !forall n | n > 0 :: RequestStays(InstalledState(regions, k, end), n)
  {
    var limit, after := regions[k].len / PAGE_SIZE, Adjusted(regions, k, end);
    AdjustedEndGrows(regions, k, end);
    assert Covers(after[k], limit - 1) && Covers(after[k], limit);
    assert Covered(after, limit - 1) && Covered(after, limit);
    InstallRespectsLimitIff(regions, k, end);
  }

  /** Such a machine: 640 KiB, then 31 MiB from 1 MiB on, with a kernel linked at 2 MiB that is 128 KiB long. */
  lemma OrdinaryMachineLosesTheLimit()
    ensures var regions := [Region(0, 0x9_F000, 1), Region(ONE_MIB, 0x1F0_0000, 1)];
      && Installable(regions, 1, 0x22_0000)
      && var s := InstalledState(regions, 1, 0x22_0000);
         !Sentinel(s) && !forall n | n > 0 :: RequestStays(s, n)
  {
    var regions := [Region(0, 0x9_F000, 1), Region(ONE_MIB, 0x1F0_0000, 1)];
    assert BitmapSize(regions[1].len) == 0x1000;
    var after := Adjusted(regions, 1, 0x22_0000);
    assert after[1] == Region(0x22_1000, 0x1DE_0000, 1) && after[0] == regions[0];
    ClearsInsideIff(regions, 1, 0x22_0000);
    InstallLosesTheLimit(regions, 1, 0x22_0000);
  }

  lemma CoveredStep(regions: seq<Region>, i: nat, page: nat)
    requires i < |regions|
    ensures Covered(regions[..i + 1], page) <==> Covered(regions[..i], page) || Covers(regions[i], page)
  {
    if Covered(regions[..i], page) {
      var j :| 0 <= j < i && Covers(regions[..i][j], page);
      assert Covers(regions[..i + 1][j], page);
    }
    if Covers(regions[i], page) {
      assert Covers(regions[..i + 1][i], page);
    }
    if Covered(regions[..i + 1], page) && !Covers(regions[i], page) {
      var j :| 0 <= j < i + 1 && Covers(regions[..i + 1][j], page);
      assert Covers(regions[..i][j], page);
    }
  }

  /** The bits after n steps of the clearing loop. */
  function Cleared(bits: seq<bool>, first: nat, n: nat): (r: seq<bool>)
    ensures |r| == |bits|
  {
    seq(|bits|, page requires 0 <= page < |bits| => bits[page] && !InSpan(first, n, page))
  }

  /** The page that follows n pages after `first`. */
  function PageAfter(first: nat, n: nat): nat
    requires first < TWO_TO_THE_20 && n < TWO_TO_THE_20
  {
    if first + n < TWO_TO_THE_20 then first + n else first + n - TWO_TO_THE_20
  }

  lemma ClearedNext(bits: seq<bool>, first: nat, n: nat)
    requires first < TWO_TO_THE_20 && n < TWO_TO_THE_20 && PageAfter(first, n) < |bits| <= TWO_TO_THE_20
    ensures Cleared(bits, first, n + 1) == Cleared(bits, first, n)[PageAfter(first, n) := false]
  {
  }

  /** One step of the clearing loop, in bytes and in pages. */
  lemma StepOfLoop(r: Region, o: nat)
    requires o < r.len <= TWO_TO_THE_32 - PAGE_SIZE && o % PAGE_SIZE == 0
    ensures o / PAGE_SIZE < PageCount(r) && o / PAGE_SIZE < TWO_TO_THE_20
    ensures Wrap32(r.addr + o) / PAGE_SIZE == PageAfter(r.addr / PAGE_SIZE, o / PAGE_SIZE)
    ensures Wrap32(o + PAGE_SIZE) == o + PAGE_SIZE && (o + PAGE_SIZE) / PAGE_SIZE == o / PAGE_SIZE + 1
    ensures PageAfter(r.addr / PAGE_SIZE, o / PAGE_SIZE) < Min(EndPage(r), TWO_TO_THE_20)
  {
  }

  // ---------- the manager ----------

  class PhysicalMemory {
    const bitmap: array<bv8>
    const pageCount: Word
    const usableMem: Word
    var lastPage: nat

    ghost function State(): PmmState
      reads this, bitmap
    {
      PmmState(Bits(bitmap[..]), lastPage, pageCount)
    }

    /** `pmm_install` after its flag check, with region k found by the first loop. */
    constructor Install(mmap: array<Region>, k: nat, end: Word)
      requires k < mmap.Length && Installable(mmap[..], k, end)
      modifies mmap
      ensures fresh(bitmap)
      ensures State() == old(InstalledState(mmap[..], k, end))
      ensures mmap[..] == old(Adjusted(mmap[..], k, end))
      ensures usableMem == old(mmap[k].len)
    {
      var size := BitmapSize(mmap[k].len);
      usableMem := mmap[k].len;
      pageCount := mmap[k].len / PAGE_SIZE;
      bitmap := new bv8[size](_ => 0xFF);
      lastPage := 0;
      new;
      ghost var after := Adjusted(mmap[..], k, end);
      ClearsInsideIff(mmap[..], k, end);
      BitsBelow(mmap[k].len);
      mmap[k] := Region(end + size, mmap[k].len - (end - mmap[k].addr), mmap[k].kind);
      assert mmap[..] == after;
      AllOnes(bitmap[..]);
      hide Get, Covers, Min, EndPage;
      for i := 0 to mmap.Length
        invariant mmap[..] == after && lastPage == 0 && |Bits(bitmap[..])| == 8 * size
        invariant forall page :: 0 <= page < 8 * size ==> Bits(bitmap[..])[page] == !Covered(after[..i], page)
      {
        ClearRegion(mmap[i]);
        forall page | 0 <= page < 8 * size
          ensures Bits(bitmap[..])[page] == !Covered(after[..i + 1], page)
        {
          CoveredStep(after, i, page);
        }
      }
      assert after[..mmap.Length] == after;
      assert Bits(bitmap[..]) == old(InstalledState(mmap[..], k, end)).bits;
    }

    /** The inner clearing loop: the page of every 4096-byte step into an available high region. */
    method ClearRegion(r: Region)
      requires r.len <= TWO_TO_THE_32 - PAGE_SIZE && 8 * bitmap.Length <= TWO_TO_THE_20
      requires High(r) && r.len > 0 ==> Min(EndPage(r), TWO_TO_THE_20) <= 8 * bitmap.Length
      modifies bitmap
      ensures forall page :: 0 <= page < 8 * bitmap.Length ==>
        Bits(bitmap[..])[page] == (old(Bits(bitmap[..]))[page] && !Covers(r, page))
    {
      ghost var bits, first := Bits(bitmap[..]), r.addr / PAGE_SIZE;
      assert Cleared(bits, first, 0) == bits;
      hide InSpan, Get;
      var o: nat := 0;
      while o < r.len
        invariant o % PAGE_SIZE == 0 && o / PAGE_SIZE <= PageCount(r)
        invariant Bits(bitmap[..]) == if High(r) then Cleared(bits, first, o / PAGE_SIZE) else bits
      {
        StepOfLoop(r, o);
        if High(r) {
          ClearedNext(bits, first, o / PAGE_SIZE);
          BitmapClear(bitmap, Wrap32(r.addr + o) / PAGE_SIZE);
        }
        o := Wrap32(o + PAGE_SIZE);
      }
      assert High(r) ==> o / PAGE_SIZE == PageCount(r);
    }

    /** The marking loop of `pmm_find_pages`. */
    method TakePages(firstPage: nat, pages: nat)
      requires firstPage + pages <= 8 * bitmap.Length
      modifies bitmap
      ensures Bits(bitmap[..]) == Mark(old(Bits(bitmap[..])), firstPage, firstPage + pages, true)
    {
      ghost var bits := Bits(bitmap[..]);
      for i := 0 to pages
        invariant Bits(bitmap[..]) == Mark(bits, firstPage, firstPage + i, true)
      {
        BitmapSet(bitmap, firstPage + i);
      }
    }

    /** One turn of the search loop: a free page is counted, a taken one moves the cursor past what was counted. */
    method Turn(pages: nat, ghost s: PmmState) returns (next: nat)
      requires State() == s && s.cursor + pages < |s.bits|
      modifies `lastPage
      ensures State() == s.(cursor := lastPage)
      ensures if s.bits[s.cursor + pages]
        then next == 0 && lastPage == s.cursor + (if pages == 0 then 1 else pages)
        else next == pages + 1 && lastPage == s.cursor
    {
      var taken := BitmapGet(bitmap, lastPage + pages);
      if !taken {
        return pages + 1;
      }
      lastPage := lastPage + if pages == 0 then 1 else pages;
      return 0;
    }

    /** The search loop of `pmm_find_pages`, up to the run it takes; the cursor stays at the run's first page. */
    method Scan(n: Word, ghost s: PmmState, ghost goal: Found) returns (r: Found)
      requires 0 < n && s == State() && goal == Search(s.bits, s.limit, s.cursor, 0, n) && goal != Overrun
      modifies `lastPage
      ensures r == goal && (r.Page? ==> lastPage == r.first) && (r.OutOfMemory? ==> lastPage == pageCount)
    {
      hide Search;
      var pages: nat, firstPage := 0, lastPage;
      while pages < n
        invariant pages < n && firstPage == lastPage && State() == s.(cursor := lastPage)
        invariant goal == Search(s.bits, s.limit, lastPage, pages, n)
        decreases if lastPage <= |s.bits| then |s.bits| - lastPage else 0, n - pages
      {
        if lastPage == pageCount {
          SearchAtLimit(s, pages, n);
          return OutOfMemory;
        }
        SearchTurn(s, lastPage, pages, n);
        pages := Turn(pages, s.(cursor := lastPage));
        if pages == n {
          return Page(firstPage);
        }
        firstPage := lastPage;
      }
    }

    /** `pmm_find_pages`. Its caller must know that the search does not leave the bitmap. */
    method FindPages(n: Word) returns (r: Found)
      requires Find(State(), n).1 != Overrun
      modifies `lastPage, bitmap
      ensures State() == Find(old(State()), n).0
      ensures r == Find(old(State()), n).1
    {
      if n == 0 {
        return Page(0);
      }
      ghost var s := State();
      r := Scan(n, s, Search(s.bits, s.limit, s.cursor, 0, n));
      if r.Page? {
        FindTakesRun(s, n);
        TakePages(r.first, n);
        lastPage := lastPage + n;
      }
    }

    /** `pmm_alloc`, which returns an address or panics. */
    method Allocate(n: Word) returns (r: Outcome<Word>)
      requires Find(State(), n).1 != Overrun && Alloc(State(), n).1 != Overrun
      modifies `lastPage, bitmap
      ensures State() == Alloc(old(State()), n).0
      ensures match Alloc(old(State()), n).1
        case Page(p) => r == Done(Wrap32(p * PAGE_SIZE))
        case _ => r == Panic
    {
      var pages := FindPages(n);
      if pages == Page(0) {
        lastPage := 0;
        pages := FindPages(n);
      }
      if pages.OutOfMemory? { return Panic; }
      return Done(Wrap32(pages.first * PAGE_SIZE));
    }

    /** `pmm_free`. */
    method Release(address: Word, n: Word)
      requires address / PAGE_SIZE + n <= 8 * bitmap.Length
      modifies bitmap
      ensures State() == Free(old(State()), address / PAGE_SIZE, n)
    {
      var page := address / PAGE_SIZE;
      ghost var bits := Bits(bitmap[..]);
      for i := 0 to n
        invariant Bits(bitmap[..]) == Mark(bits, page, page + i, false)
      {
        BitmapClear(bitmap, page + i);
      }
    }

    /** `pmm_bitmap[i] & (1 << bit)`. */
    method TestBit(i: nat, bit: nat) returns (taken: bool)
      requires i < bitmap.Length && bit < 8
      ensures taken == State().bits[8 * i + bit]
    {
      BitIndex(bitmap[..], i, bit);
      taken := BitOf(bitmap[i], bit);
    }

    /** The bit loop of `pmm_get_used_mem` over one byte. */
    method AddByte(i: nat, before: Word) returns (usedBytes: Word)
      requires i < bitmap.Length
      requires before == UsedBelow(State().bits, 8 * i)
      ensures usedBytes == UsedBelow(State().bits, 8 * i + 8)
    {
      usedBytes := before;
      ghost var bits := State().bits;
      for bit := 0 to 8
        invariant usedBytes == UsedBelow(bits, 8 * i + bit)
      {
        UsedNext(bits, 8 * i + bit);
        var taken := TestBit(i, bit);
        if taken {
          usedBytes := Wrap32(usedBytes + PAGE_SIZE);
        }
      }
    }

    /** `pmm_get_used_mem`: skips zero bytes and adds a page for each bit set in the others. */
    method GetUsedMem() returns (usedBytes: Word)
      ensures usedBytes == UsedBytes(State().bits)
    {
      usedBytes := 0;
      ghost var bits := Bits(bitmap[..]);
      for i := 0 to bitmap.Length
        invariant usedBytes == UsedBelow(bits, 8 * i)
      {
        if bitmap[i] != 0 {
          usedBytes := AddByte(i, usedBytes);
        } else {
          ZeroByte(bitmap[..], i);
        }
      }
      assert bits[..8 * bitmap.Length] == bits;
    }

    /** `pmm_get_total_mem`. */
    method GetTotalMem() returns (total: Word)
      ensures total == TotalBytes(State().bits)
    {
      total := Wrap32(bitmap.Length * PAGE_SIZE * 8);
    }
  }

  lemma {:induction false} CountNext(bits: seq<bool>, k: nat)
    requires k < |bits|
    ensures Count(bits[..k + 1]) == Count(bits[..k]) + if bits[k] then 1 else 0
  {
    assert bits[..k + 1][..k] == bits[..k];
  }

  lemma BitIndex(bytes: seq<bv8>, i: nat, bit: nat)
    requires i < |bytes| && bit < 8
    ensures Bits(bytes)[8 * i + bit] == BitOf(bytes[i], bit)
  {
    assert (8 * i + bit) / 8 == i && (8 * i + bit) % 8 == bit;
  }

  /** The running total of `pmm_get_used_mem` once the bits below k are counted. */
  ghost function UsedBelow(bits: seq<bool>, k: nat): Word
    requires k <= |bits|
  {
    UsedBytes(bits[..k])
  }

  lemma {:induction false} UsedNext(bits: seq<bool>, k: nat)
    requires k < |bits|
    ensures UsedBelow(bits, k + 1) == if bits[k] then Wrap32(UsedBelow(bits, k) + PAGE_SIZE) else UsedBelow(bits, k)
  {
    CountNext(bits, k);
    WrapAdd(PAGE_SIZE * Count(bits[..k]), PAGE_SIZE);
  }

  lemma {:induction false} ZeroByte(bytes: seq<bv8>, i: nat)
    requires i < |bytes| && bytes[i] == 0
    ensures Count(Bits(bytes)[..8 * i + 8]) == Count(Bits(bytes)[..8 * i])
  {
    var bits := Bits(bytes);
    var zeros := bits[8 * i..8 * i + 8];
    assert bits[..8 * i + 8] == bits[..8 * i] + zeros;
    forall j | 0 <= j < 8 ensures !zeros[j] {
      BitIndex(bytes, i, j);
      ShiftIsMask(j);
    }
    CountAppend(bits[..8 * i], zeros);
    CountConstant(zeros, false);
  }

  /** The first loop of `pmm_install`: the first available region at or above 1 MiB, if there is one. */
  method FindKernelRegion(mmap: array<Region>) returns (k: nat)
    ensures if exists j :: 0 <= j < mmap.Length && High(mmap[j]) then IsKernelRegion(mmap[..], k) else k == mmap.Length
  {
    k := mmap.Length;
    for i := 0 to mmap.Length
      invariant k == mmap.Length ==> forall j :: 0 <= j < i ==> !High(mmap[j])
      invariant k < mmap.Length ==> IsKernelRegion(mmap[..], k)
      invariant k <= mmap.Length
    {
      if mmap[i].kind == MULTIBOOT_MEMORY_AVAILABLE {
        if mmap[i].addr >= ONE_MIB && k == mmap.Length {
          k := i;
        }
      }
    }
  }

  /** `pmm_install`: panics unless bit 6 of the multiboot flags promises a memory map. */
  method PmmInstall(flags: Word, mmap: array<Region>, end: Word) returns (r: Outcome<PhysicalMemory>)
    requires forall k :: IsKernelRegion(mmap[..], k) ==> Installable(mmap[..], k, end)
    requires exists j :: 0 <= j < mmap.Length && High(mmap[j])
    modifies mmap
    ensures r.Panic? <==> flags / 64 % 2 == 0
    ensures r.Panic? ==> mmap[..] == old(mmap[..])
    ensures r.Done? ==> Bounded(r.value.State()) && (Sane(r.value.State()) <==> NoneWraps(mmap[..]))
    ensures r.Done? ==> exists k :: (IsKernelRegion(old(mmap[..]), k)
      && r.value.State() == InstalledState(old(mmap[..]), k, end) && mmap[..] == Adjusted(old(mmap[..]), k, end))
  {
    if flags / 64 % 2 == 0 {
      return Panic;
    }
    var k := FindKernelRegion(mmap);
    InstallIsSaneIff(mmap[..], k, end);
    var pmm := new PhysicalMemory.Install(mmap, k, end);
    return Done(pmm);
  }
}
