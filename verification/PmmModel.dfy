/** The page search of kernel/mm/pmm.c on values: what it finds, where it stops, and what whole runs keep. */
module PmmModel {
  import opened Words
  import opened Bitmap

  /** `pmm_bitmap`, `pmm_last_page` and `pmm_page_count`. */
  datatype PmmState = PmmState(bits: seq<bool>, cursor: nat, limit: nat)

  /** How a search ends: a first page, the "out of memory" panic, or a read past the bitmap's last bit. */
  datatype Found = Page(first: nat) | OutOfMemory | Overrun

  /** Pages p .. p+n-1 exist in the bitmap and are all free. */
  ghost predicate FreeRun(bits: seq<bool>, p: nat, n: nat) {
    p + n <= |bits| && forall i :: p <= i < p + n ==> !bits[i]
  }

  /** Bit `pmm_page_count` exists and is set, and the cursor has not passed it. */
  ghost predicate Sentinel(s: PmmState) {
    s.cursor <= s.limit < |s.bits| && s.bits[s.limit]
  }

  /** No page number overflows a 32-bit address, and page 0 is never free. */
  ghost predicate Sane(s: PmmState) {
    0 < |s.bits| <= TWO_TO_THE_20 && s.bits[0]
  }

  /** One turn of the search loop after another, from `pages` free pages counted at the cursor. */
  function Search(bits: seq<bool>, limit: nat, cursor: nat, pages: nat, n: nat): Found
    requires pages < n
    decreases if cursor <= |bits| then |bits| - cursor else 0, n - pages
  {
    if cursor == limit then OutOfMemory
    else if cursor + pages >= |bits| then Overrun
    else if !bits[cursor + pages] then
      if pages + 1 == n then Page(cursor) else Search(bits, limit, cursor, pages + 1, n)
    else Search(bits, limit, cursor + (if pages == 0 then 1 else pages), 0, n)
  }

  /** `pmm_find_pages`. */
  function Find(s: PmmState, n: nat): (PmmState, Found) {
    if n == 0 then (s, Page(0)) else
    match Search(s.bits, s.limit, s.cursor, 0, n)
    case Page(p) => (PmmState(Mark(s.bits, p, p + n, true), p + n, s.limit), Page(p))
    case OutOfMemory => (s.(cursor := s.limit), OutOfMemory)
    case Overrun => (s, Overrun)
  }

  /** `pmm_alloc`: a first page of 0 is taken for a failure and searched again from the start. */
  function Alloc(s: PmmState, n: nat): (PmmState, Found) {
    var (s1, r) := Find(s, n);
    if r == Page(0) then Find(s1.(cursor := 0), n) else (s1, r)
  }

  /** `pmm_free`. */
  function Free(s: PmmState, page: nat, n: nat): PmmState {
    s.(bits := Mark(s.bits, page, page + n, false))
  }

  // ---------- the search ----------

  /** One turn of the loop away from the limit. */
  lemma {:induction false} SearchTurn(s: PmmState, cursor: nat, pages: nat, n: nat)
    requires pages < n && cursor != s.limit && Search(s.bits, s.limit, cursor, pages, n) != Overrun
    ensures cursor + pages < |s.bits|
    ensures Search(s.bits, s.limit, cursor, pages, n) ==
      if s.bits[cursor + pages] then Search(s.bits, s.limit, cursor + (if pages == 0 then 1 else pages), 0, n)
      else if pages + 1 == n then Page(cursor)
      else Search(s.bits, s.limit, cursor, pages + 1, n)
  {
  }

  lemma {:induction false} SearchAtLimit(s: PmmState, pages: nat, n: nat)
    requires pages < n
    ensures Search(s.bits, s.limit, s.limit, pages, n) == OutOfMemory
  {
  }

  /** Whatever the bitmap holds, the skip by `pages` never jumps over a page where a run starts. */
  lemma {:induction false} SearchSkipsNoStart(bits: seq<bool>, limit: nat, cursor: nat, pages: nat, n: nat)
    requires pages < n && FreeRun(bits, cursor, pages)
    ensures match Search(bits, limit, cursor, pages, n)
      case Page(p) => cursor <= p && FreeRun(bits, p, n) && forall q :: cursor <= q < p ==> !FreeRun(bits, q, n)
      case OutOfMemory => cursor <= limit && forall q :: cursor <= q < limit ==> !FreeRun(bits, q, n)
      case Overrun => forall q :: cursor <= q ==> !FreeRun(bits, q, n)
    decreases if cursor <= |bits| then |bits| - cursor else 0, n - pages
  {
    if cursor == limit || cursor + pages >= |bits| {
    } else if !bits[cursor + pages] {
      if pages + 1 < n { SearchSkipsNoStart(bits, limit, cursor, pages + 1, n); }
    } else {
      var next := cursor + if pages == 0 then 1 else pages;
      forall q | cursor <= q < next ensures !FreeRun(bits, q, n) {
        assert q <= cursor + pages < q + n;
      }
      SearchSkipsNoStart(bits, limit, next, 0, n);
    }
  }

  /** A barrier just below or at the limit that no free run crosses. */
  ghost predicate Barrier(bits: seq<bool>, limit: nat, cursor: nat) {
    cursor == limit || (limit < |bits| && bits[limit]) || (0 < limit <= |bits| && bits[limit - 1])
  }

  /** With a barrier the search ends within the limit. */
  lemma {:induction false} SearchStopsAtBarrier(bits: seq<bool>, limit: nat, cursor: nat, pages: nat, n: nat)
    requires pages < n && FreeRun(bits, cursor, pages)
    requires cursor + pages <= limit <= |bits|
    requires Barrier(bits, limit, cursor)
    ensures match Search(bits, limit, cursor, pages, n)
      case Page(p) => p + n <= limit
      case OutOfMemory => true
      case Overrun => false
    decreases |bits| - cursor, n - pages
  {
    if cursor != limit && cursor + pages < |bits| {
      if !bits[cursor + pages] {
        if pages + 1 < n { SearchStopsAtBarrier(bits, limit, cursor, pages + 1, n); }
      } else {
        SearchStopsAtBarrier(bits, limit, cursor + if pages == 0 then 1 else pages, 0, n);
      }
    }
  }

  /** Without one the search steps over the limit and never stops there. */
  lemma {:induction false} SearchMissesLimit(bits: seq<bool>, limit: nat, cursor: nat, pages: nat, n: nat)
    requires pages < n && FreeRun(bits, cursor, pages)
    requires cursor != limit && 0 < limit <= |bits| && !bits[limit - 1]
    requires limit < |bits| ==> !bits[limit]
    ensures Search(bits, limit, cursor, pages, n) != OutOfMemory
    decreases if cursor <= |bits| then |bits| - cursor else 0, n - pages
  {
    if cursor + pages < |bits| {
      if bits[cursor + pages] {
        SearchMissesLimit(bits, limit, cursor + if pages == 0 then 1 else pages, 0, n);
      } else if pages + 1 < n {
        SearchMissesLimit(bits, limit, cursor, pages + 1, n);
      }
    }
  }

  /** A search either panics or returns a run below the limit. */
  ghost predicate Stays(r: Found, limit: nat, n: nat) {
    r == OutOfMemory || (r.Page? && r.first + n <= limit)
  }

  ghost predicate RequestStays(s: PmmState, n: nat)
    requires 0 < n
  {
    Stays(Search(s.bits, s.limit, s.cursor, 0, n), s.limit, n)
  }

  /** The cursor has not passed the limit, and the bitmap reaches it. */
  predicate Bounded(s: PmmState) {
    s.cursor <= s.limit <= |s.bits|
  }

  /** Some run of n free pages at or after the cursor ends by the limit. */
  ghost predicate Fits(s: PmmState, n: nat) {
    exists p :: s.cursor <= p && p + n <= s.limit && FreeRun(s.bits, p, n)
  }

  /** One request respects `pmm_page_count` exactly when there is a barrier or a run below the count to take. */
  lemma RequestStaysIff(s: PmmState, n: nat)
    requires Bounded(s) && 0 < n
    ensures RequestStays(s, n) <==> Barrier(s.bits, s.limit, s.cursor) || Fits(s, n)
  {
    if Barrier(s.bits, s.limit, s.cursor) {
      SearchStopsAtBarrier(s.bits, s.limit, s.cursor, 0, n);
    } else {
      SearchMissesLimit(s.bits, s.limit, s.cursor, 0, n);
      SearchSkipsNoStart(s.bits, s.limit, s.cursor, 0, n);
    }
  }

  /** So a request for one page always does, whatever `pmm_install` left behind. */
  lemma OnePageStays(s: PmmState)
    requires Bounded(s)
    ensures RequestStays(s, 1)
  {
    RequestStaysIff(s, 1);
    if !Barrier(s.bits, s.limit, s.cursor) {
      assert FreeRun(s.bits, s.limit - 1, 1);
    }
  }

  /** `pmm_find_pages` respects `pmm_page_count` for every request exactly when there is a barrier. */
  lemma SearchRespectsLimitIff(s: PmmState)
    requires Bounded(s)
    ensures (forall n | n > 0 :: RequestStays(s, n)) <==> Barrier(s.bits, s.limit, s.cursor)
  {
    forall n | n > 0 ensures Barrier(s.bits, s.limit, s.cursor) ==> RequestStays(s, n) {
      RequestStaysIff(s, n);
    }
    var large := |s.bits| + 1;
    RequestStaysIff(s, large);
    assert RequestStays(s, large) ==> Barrier(s.bits, s.limit, s.cursor);
  }

  /** The least page at or after the cursor that starts a free run below the limit. */
  ghost predicate IsFirstFit(s: PmmState, n: nat, p: nat) {
    && s.cursor <= p && p + n <= s.limit && FreeRun(s.bits, p, n)
    && forall q :: s.cursor <= q < p ==> !FreeRun(s.bits, q, n)
  }

  ghost predicate NoFit(s: PmmState, n: nat) {
    forall q :: s.cursor <= q && q + n <= s.limit ==> !FreeRun(s.bits, q, n)
  }

  /** With the sentinel set the search is first-fit, and it panics exactly when nothing fits. */
  lemma FindIsFirstFit(s: PmmState, n: nat)
    requires Sentinel(s) && 0 < n
    ensures Find(s, n).1 != Overrun
    ensures forall p :: Find(s, n).1 == Page(p) <==> IsFirstFit(s, n, p)
    ensures Find(s, n).1 == OutOfMemory <==> NoFit(s, n)
    ensures Sentinel(Find(s, n).0)
  {
    SearchSkipsNoStart(s.bits, s.limit, s.cursor, 0, n);
    SearchStopsAtBarrier(s.bits, s.limit, s.cursor, 0, n);
  }

  /** What a successful search changes: exactly the run it returns, and the cursor. */
  lemma FindTakesRun(s: PmmState, n: nat)
    requires 0 < n && Find(s, n).1.Page?
    ensures var (t, r) := Find(s, n);
      && s.cursor <= r.first && FreeRun(s.bits, r.first, n) && r.first + n <= |s.bits|
      && t == PmmState(Mark(s.bits, r.first, r.first + n, true), r.first + n, s.limit)
  {
    SearchSkipsNoStart(s.bits, s.limit, s.cursor, 0, n);
  }

  // ---------- pmm_alloc ----------

  /** With page 0 reserved and a positive count, `pmm_alloc` is one search and never returns address 0. */
  lemma AllocIsFind(s: PmmState, n: nat)
    requires Sane(s) && 0 < n
    ensures Alloc(s, n) == Find(s, n)
    ensures Alloc(s, n).1.Page? ==>
      var (t, r) := Alloc(s, n);
      && 0 < r.first && s.cursor <= r.first && r.first + n <= |s.bits| && FreeRun(s.bits, r.first, n)
      && t == PmmState(Mark(s.bits, r.first, r.first + n, true), r.first + n, s.limit) && Sane(t)
  {
    if Find(s, n).1.Page? {
      FindTakesRun(s, n);
    }
  }

  /** A request that stays below the limit leaves the allocator bounded. */
  lemma AllocWithinLimit(s: PmmState, n: nat)
    requires Sane(s) && Bounded(s) && 0 < n && RequestStays(s, n)
    ensures Alloc(s, n).1 != Overrun && (Alloc(s, n).1.Page? ==> Bounded(Alloc(s, n).0))
  {
    AllocIsFind(s, n);
  }

  /** The retry is taken exactly for an empty request, or when page 0 itself starts the run. */
  lemma RetryIff(s: PmmState, n: nat)
    ensures Find(s, n).1 == Page(0) <==> n == 0 || (s.cursor == 0 && s.limit != 0 && FreeRun(s.bits, 0, n))
  {
    if n > 0 && s.cursor <= |s.bits| {
      SearchSkipsNoStart(s.bits, s.limit, s.cursor, 0, n);
    }
  }

  /** When it is taken for a run at page 0, that run stays taken and another one is given out. */
  lemma RetryLosesRun(s: PmmState, n: nat)
    requires 0 < n && s.cursor == 0 && s.limit != 0 && FreeRun(s.bits, 0, n) && Alloc(s, n).1.Page?
    ensures var (t, r) := Alloc(s, n);
      && n <= r.first && FreeRun(s.bits, r.first, n)
      && forall i :: 0 <= i < |s.bits| ==> t.bits[i] == (s.bits[i] || i < n || r.first <= i < r.first + n)
  {
    RetryIff(s, n);
    FindTakesRun(s, n);
    var u := Find(s, n).0.(cursor := 0);
    FindTakesRun(u, n);
    var first := Alloc(s, n).1.first;
    assert !u.bits[first];
    forall i | first <= i < first + n ensures !s.bits[i] {
      assert !u.bits[i];
    }
  }

  /**
   * An empty request undoes the order of allocation: it sends the cursor back to 0, so a block that was taken with
   * the cursor there, and freed, is handed out a second time.
   */
  lemma EmptyRequestReuses(s: PmmState, n: nat)
    requires Sane(s) && 0 < n && Alloc(s, n).1.Page?
    ensures var (t, r) := Alloc(s, n);
      var (u, zero) := Alloc(Free(t, r.first, n), 0);
      && zero == Page(0) && u == s.(cursor := 0)
      && (s.cursor == 0 ==> Alloc(u, n) == Alloc(s, n))
  {
    AllocIsFind(s, n);
    var (t, r) := Alloc(s, n);
    assert Free(t, r.first, n).bits == s.bits;
  }

  // ---------- whole runs ----------

  datatype Request = Take(count: nat) | Give(page: nat, count: nat)

  /** A run's last state, the ranges (first page, count) it handed out, and whether it stopped early. */
  datatype Service = Service(last: PmmState, taken: seq<(nat, nat)>, stopped: bool)

  /** Requests are for at least one page, and frees name pages of the bitmap other than page 0. */
  ghost predicate LegalRequest(s: PmmState, op: Request) {
    match op
    case Take(n) => 0 < n
    case Give(p, n) => 0 < p && p + n <= |s.bits|
  }

  ghost predicate LegalRequests(s: PmmState, ops: seq<Request>) {
    forall i :: 0 <= i < |ops| ==> LegalRequest(s, ops[i])
  }

  /** No free names the page at the limit. */
  ghost predicate SparesSentinel(s: PmmState, ops: seq<Request>) {
    forall i :: 0 <= i < |ops| && ops[i].Give? ==> !(ops[i].page <= s.limit < ops[i].page + ops[i].count)
  }

  function Serve(s: PmmState, ops: seq<Request>): Service
    decreases ops
  {
    if ops == [] then Service(s, [], false) else
    match ops[0]
    case Give(p, n) => Serve(Free(s, p, n), ops[1..])
    case Take(n) =>
      var (t, r) := Alloc(s, n);
      if !r.Page? then Service(t, [], true) else
      var rest := Serve(t, ops[1..]);
      rest.(taken := [(r.first, n)] + rest.taken)
  }

  /** Ranges in increasing order, each starting at or past the end of the one before. */
  ghost predicate Ascending(taken: seq<(nat, nat)>, from: nat, to: nat) {
    && (forall i :: 0 <= i < |taken| ==> from <= taken[i].0 && taken[i].0 + taken[i].1 <= to && 0 < taken[i].1)
    && (forall i, j :: 0 <= i < j < |taken| ==> taken[i].0 + taken[i].1 <= taken[j].0)
  }

  function Total(taken: seq<(nat, nat)>): nat {
    if taken == [] then 0 else taken[0].1 + Total(taken[1..])
  }

  lemma AscendingCons(first: (nat, nat), rest: seq<(nat, nat)>, from: nat, mid: nat, to: nat)
    requires from <= first.0 && 0 < first.1 && first.0 + first.1 <= mid <= to && Ascending(rest, mid, to)
    ensures Ascending([first] + rest, from, to)
  {
  }

  lemma TotalCons(first: (nat, nat), rest: seq<(nat, nat)>)
    ensures Total([first] + rest) == first.1 + Total(rest)
  {
    assert ([first] + rest)[1..] == rest;
  }

  /** However frees are interleaved, no page is handed out twice and addresses only grow. */
  lemma {:induction false} RunAscends(s: PmmState, ops: seq<Request>)
    requires Sane(s) && LegalRequests(s, ops)
    ensures var r := Serve(s, ops);
      Sane(r.last) && (!r.stopped ==> Ascending(r.taken, s.cursor, r.last.cursor) && s.cursor <= r.last.cursor)
    ensures Ascending(Serve(s, ops).taken, s.cursor, |s.bits|)
    ensures forall i :: 0 <= i < |Serve(s, ops).taken| ==> 0 < Serve(s, ops).taken[i].0
    decreases ops
  {
    if ops != [] {
      match ops[0] {
        case Give(p, n) =>
          assert LegalRequests(Free(s, p, n), ops[1..]) by {
            assert forall i :: 0 <= i < |ops| - 1 ==> ops[1..][i] == ops[i + 1];
          }
          RunAscends(Free(s, p, n), ops[1..]);
        case Take(n) =>
          AllocIsFind(s, n);
          var (t, r) := Alloc(s, n);
          if r.Page? {
            assert LegalRequests(t, ops[1..]) by {
              assert forall i :: 0 <= i < |ops| - 1 ==> ops[1..][i] == ops[i + 1];
            }
            RunAscends(t, ops[1..]);
            var rest := Serve(t, ops[1..]);
            if !rest.stopped { AscendingCons((r.first, n), rest.taken, s.cursor, t.cursor, rest.last.cursor); }
            AscendingCons((r.first, n), rest.taken, s.cursor, t.cursor, |s.bits|);
          }
      }
    }
  }

  /** Addresses are page numbers times 4096, without wrap-around, so they grow strictly as well. */
  lemma AddressesAscend(s: PmmState, ops: seq<Request>, i: nat, j: nat)
    requires Sane(s) && LegalRequests(s, ops)
    requires i < j < |Serve(s, ops).taken|
    ensures var a, b := Serve(s, ops).taken[i], Serve(s, ops).taken[j];
      0 < Wrap32(a.0 * PAGE_SIZE) && Wrap32(a.0 * PAGE_SIZE) + a.1 * PAGE_SIZE <= Wrap32(b.0 * PAGE_SIZE)
  {
    RunAscends(s, ops);
  }

  lemma {:induction false} TotalFits(taken: seq<(nat, nat)>, from: nat, to: nat)
    requires from <= to && Ascending(taken, from, to)
    ensures from + Total(taken) <= to
  {
    if taken != [] {
      var next := taken[0].0 + taken[0].1;
      forall i | 0 <= i < |taken| - 1 ensures next <= taken[1..][i].0 {
        assert taken[1..][i] == taken[i + 1];
      }
      TotalFits(taken[1..], next, to);
    }
  }

  /** Freed pages never come back: over its whole life the allocator hands out at most the pages past its cursor. */
  lemma LifetimeBudget(s: PmmState, ops: seq<Request>)
    requires Sane(s) && LegalRequests(s, ops) && s.cursor <= |s.bits|
    ensures s.cursor + Total(Serve(s, ops).taken) <= |s.bits|
  {
    RunAscends(s, ops);
    TotalFits(Serve(s, ops).taken, s.cursor, |s.bits|);
  }

  /** With the sentinel, no run reads past the bitmap and nothing at or above the limit is handed out. */
  lemma {:induction false} SentinelHoldsThroughout(s: PmmState, ops: seq<Request>)
    requires Sane(s) && Sentinel(s) && LegalRequests(s, ops) && SparesSentinel(s, ops)
    ensures Sentinel(Serve(s, ops).last)
    ensures forall i :: 0 <= i < |Serve(s, ops).taken| ==>
      Serve(s, ops).taken[i].0 + Serve(s, ops).taken[i].1 <= s.limit
    decreases ops
  {
    if ops != [] {
      assert forall i :: 0 <= i < |ops| - 1 ==> ops[1..][i] == ops[i + 1];
      match ops[0] {
        case Give(p, n) =>
          SentinelHoldsThroughout(Free(s, p, n), ops[1..]);
        case Take(n) =>
          AllocIsFind(s, n);
          FindIsFirstFit(s, n);
          var (t, r) := Alloc(s, n);
          if r.Page? {
            assert IsFirstFit(s, n, r.first);
            SentinelHoldsThroughout(t, ops[1..]);
          }
      }
    }
  }

  // ---------- memory in use ----------

  /** Every free in the run gives back pages that are all taken at that moment. */
  ghost predicate FreesLive(s: PmmState, ops: seq<Request>)
    decreases ops
  {
    ops == [] ||
    match ops[0]
    case Give(p, n) =>
      p + n <= |s.bits| && (forall i :: p <= i < p + n ==> s.bits[i]) && FreesLive(Free(s, p, n), ops[1..])
    case Take(n) => Alloc(s, n).1.Page? ==> FreesLive(Alloc(s, n).0, ops[1..])
  }

  function Given(ops: seq<Request>): nat {
    if ops == [] then 0 else (if ops[0].Give? then ops[0].count else 0) + Given(ops[1..])
  }

  lemma TakeCounts(s: PmmState, n: nat)
    requires Sane(s) && 0 < n && Alloc(s, n).1.Page?
    ensures Sane(Alloc(s, n).0) && Count(Alloc(s, n).0.bits) == Count(s.bits) + n
  {
    AllocIsFind(s, n);
    CountMark(s.bits, Alloc(s, n).1.first, Alloc(s, n).1.first + n, true);
  }

  /** The pages in use are those in use at the start, plus those taken, minus those given back. */
  lemma {:induction false} UseIsConserved(s: PmmState, ops: seq<Request>)
    requires Sane(s) && LegalRequests(s, ops) && FreesLive(s, ops) && !Serve(s, ops).stopped
    ensures Count(Serve(s, ops).last.bits) == Count(s.bits) + Total(Serve(s, ops).taken) - Given(ops)
    decreases ops
  {
    hide Count;
    if ops != [] {
      assert forall i :: 0 <= i < |ops| - 1 ==> ops[1..][i] == ops[i + 1];
      match ops[0] {
        case Give(p, n) =>
          CountMark(s.bits, p, p + n, false);
          UseIsConserved(Free(s, p, n), ops[1..]);
        case Take(n) =>
          var (t, r) := Alloc(s, n);
          TakeCounts(s, n);
          UseIsConserved(t, ops[1..]);
          TotalCons((r.first, n), Serve(t, ops[1..]).taken);
          assert Serve(s, ops).last.bits == Serve(t, ops[1..]).last.bits;
      }
    }
  }

  /** `pmm_get_used_mem` and `pmm_get_total_mem`. */
  function UsedBytes(bits: seq<bool>): Word { Wrap32(PAGE_SIZE * Count(bits)) }
  function TotalBytes(bits: seq<bool>): Word { Wrap32(PAGE_SIZE * |bits|) }

  /** The byte count is exact unless all 2^20 pages are in use, when it wraps to 0. */
  lemma {:induction false} UsedBytesExactIff(bits: seq<bool>)
    requires |bits| <= TWO_TO_THE_20
    ensures UsedBytes(bits) == PAGE_SIZE * Count(bits) <==> Count(bits) < TWO_TO_THE_20
    ensures |bits| < TWO_TO_THE_20 ==> UsedBytes(bits) <= TotalBytes(bits) == PAGE_SIZE * |bits|
    ensures |bits| == TWO_TO_THE_20 ==> TotalBytes(bits) == 0
  {
  }
}
