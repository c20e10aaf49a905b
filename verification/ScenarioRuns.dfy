/** The histories of `Scenarios`, carried out on a fresh arena. */
module ScenarioRuns {
  import opened Pages
  import opened Spans
  import opened GuestView
  import opened SpaceSpec
  import opened SpaceOps
  import opened FixedCommit
  import opened Gaps
  import opened AddressSpace
  import opened SpaceRuns
  import opened TracedSpace
  import opened Scenarios

  /** An arena with room for two host pages, each of more than one guest page. */
  predicate Roomy(base: nat, size: nat, page: nat) {
    && 0 < base && GUEST_PAGE < page && Aligned(base, page) && Aligned(size, page) && Aligned(LOWEST_USABLE, page)
    && LOWEST_USABLE + 2 * page <= size && Aligned(base, GUEST_PAGE) && Aligned(LOWEST_USABLE, GUEST_PAGE) && Aligned(page, GUEST_PAGE)
  }

  /** As on a host with pages of 16 KB. */
  lemma UsuallyRoomy(base: nat, size: nat, page: nat, guest: nat, lowest: nat)
    requires page == base == 0x4000 && size == 0x20000 && guest == GUEST_PAGE && lowest == LOWEST_USABLE
    ensures Roomy(base, size, page)
  {
    AlignedIsMultiple(base, page);
    AlignedIsMultiple(size, page);
    AlignedIsMultiple(lowest, page);
    AlignedIsMultiple(base, guest);
    AlignedIsMultiple(lowest, guest);
  }

  /** The first host page above the lowest 64 KB. */
  function First(base: nat): nat { base + LOWEST_USABLE }

  lemma FirstIsPage(base: nat, size: nat, page: nat)
    requires Roomy(base, size, page)
    ensures var at := First(base);
      && Aligned(at, page) && Aligned(at + page, page) && Aligned(at + 2 * page, page)
      && AlignDown(at, page) == at && AlignUp(at + page, page) == at + page && AlignUp(at + 2 * page, page) == at + 2 * page
  {
    var at := First(base);
    AlignedSum(base, LOWEST_USABLE, page);
    AlignedSum(at, page, page);
    AlignedSum(at + page, page, page);
    AlignedFixed(at, page);
    AlignedFixed(at + page, page);
    AlignedFixed(at + 2 * page, page);
  }

  /** The rest of that page after its first guest page. */
  lemma RestOfPage(base: nat, size: nat, page: nat)
    requires Roomy(base, size, page)
    ensures var at := First(base); AlignDown(at + 0x1000, GUEST_PAGE) == at + 0x1000 && AlignUp(at + page, GUEST_PAGE) == at + page
  {
    var at := First(base);
    AlignedSum(base, LOWEST_USABLE, GUEST_PAGE);
    AlignedSum(at, GUEST_PAGE, GUEST_PAGE);
    AlignedSum(at, page, GUEST_PAGE);
    AlignedFixed(at + 0x1000, GUEST_PAGE);
    AlignedFixed(at + page, GUEST_PAGE);
  }

  lemma FreshRoom(s: Space)
    requires Initial(s) && Roomy(s.base, s.size, s.page)
    ensures Full(s.free, First(s.base), s.Top())
  {
    forall a | First(s.base) <= a < s.Top() ensures At(s.free, a).Some? {
      AtSnoc([], s.free[0], a);
      assert [] + [s.free[0]] == s.free;
    }
  }

  /** An arena whose first usable page is mapped. */
  method MapFirst(base: nat, size: nat, page: nat, p: Prot) returns (h: History)
    requires Roomy(base, size, page)
    ensures fresh(h) && fresh(h.space) && h.Faithful() && h.ops == [Commit(First(base), First(base) + page, p)]
    ensures h.space.base == base && h.space.size == size && h.space.page == page
  {
    h := new History(base, size, page);
    FirstIsPage(base, size, page);
    FreshRoom(h.space.Now());
    assert Full(h.space.free, First(base), First(base) + page);
    var ok := h.CommitFixed(First(base), page, p, true);
  }

  /** Every state of the history is of the one arena, and valid. */
  lemma StateOf(h: History, k: nat)
    requires h.Faithful() && k < |h.states|
    ensures Valid(h.states[k]) && h.states[k].base == h.space.base && h.states[k].size == h.space.size && h.states[k].page == h.space.page
  {
    RunKeepsValid(h.states, h.ops, k);
    RunKeepsArena(h.states, h.ops, k, |h.ops|);
  }

  lemma StepOf(h: History, k: nat)
    requires h.Faithful() && k < |h.ops|
    ensures 0 < h.states[k].page == h.space.page && Does(h.ops[k], h.states[k], h.states[k + 1])
  {
    StateOf(h, k);
  }

  /** A committed byte is not free. */
  lemma NotAllFree(s: Space, lo: nat, hi: nat)
    requires Valid(s) && s.base <= lo < hi <= s.Top() && s.Cell(lo).Some?
    ensures !Full(s.free, lo, hi)
  {
    PagesOwnedOnce(s, lo);
    assert At(s.free, lo).Some? ==> s.Free(lo);
  }

  /** The byte after the first guest page of the first usable page. */
  function Second(base: nat): nat { First(base) + 0x1000 }

  lemma FirstCommitted(s: Space, t: Space, u: Space, at: nat, hi: nat, lo: nat, end: nat)
    requires 0 < s.page && 0 < t.page && Does(Commit(at, hi, RW), s, t) && Does(Write(lo, end), t, u)
    ensures u.Cell(at).Some? && u.Cell(at).value.prot == RW
  {
    assert t.Cell(at) == Some(FreshCell(s, RW));
  }

  /** The first usable page is mapped writable, and 7 stored in it. */
  method MapAndStore(base: nat, size: nat, page: nat) returns (h: History)
    requires Roomy(base, size, page)
    ensures fresh(h) && fresh(h.space) && h.Faithful() && h.space.base == base && h.space.size == size && h.space.page == page
    ensures h.ops == [Commit(First(base), First(base) + page, RW), Write(Second(base), Second(base) + 1)]
    ensures h.space.bytes(Second(base)) == 7
  {
    h := MapFirst(base, size, page, RW);
    var data := [7];
    h.Store(Second(base), data);
    assert h.space.bytes(Second(base) + 0) == data[0];
  }

  lemma MappedAndStored(h: History, base: nat, page: nat)
    requires h.Faithful() && h.ops == [Commit(First(base), First(base) + page, RW), Write(Second(base), Second(base) + 1)]
    ensures h.space.Now().Cell(First(base)).Some? && h.space.Now().Cell(First(base)).value.prot == RW
    ensures h.states[2] == h.space.Now()
  {
    StepOf(h, 0);
    StepOf(h, 1);
    FirstCommitted(h.states[0], h.states[1], h.states[2], First(base), First(base) + page, Second(base), Second(base) + 1);
  }

  /** A release of whole guest pages in the arena. */
  method GiveBack(h: History, address: nat, amount: nat)
    requires h.Faithful() && 0 < amount && h.space.base <= address && address + amount <= h.space.base + h.space.size
    requires AlignDown(address, GUEST_PAGE) == address && AlignUp(address + amount, GUEST_PAGE) == address + amount
    modifies h, h.space
    ensures h.Faithful() && old(h.states) <= h.states && h.ops == old(h.ops) + [Release(address, address + amount)]
  {
    var ok := h.Release(address, amount);
  }

  /** A fixed commit of whole host pages over memory that is not all free. */
  method MapOver(h: History, address: nat, amount: nat, p: Prot)
    requires h.Faithful() && 0 < amount && h.space.base <= address && address + amount <= h.space.base + h.space.size
    requires AlignDown(address, h.space.page) == address && AlignUp(address + amount, h.space.page) == address + amount
    requires h.space.Now().Cell(address).Some?
    modifies h, h.space
    ensures h.Faithful() && old(h.states) <= h.states && h.ops == old(h.ops) + [CommitOver(address, address + amount, p)]
  {
    NotAllFree(h.space.Now(), address, address + amount);
    var ok := h.CommitFixed(address, amount, p, true);
  }

  /** Then all but the first guest page is given back. */
  method MapStoreRelease(base: nat, size: nat, page: nat) returns (h: History, ghost t: Space)
    requires Roomy(base, size, page)
    ensures fresh(h) && fresh(h.space) && h.Faithful() && h.space.base == base && h.space.size == size && h.space.page == page
    ensures |h.ops| == 3 && h.ops[2] == Release(Second(base), First(base) + page) && h.states[2] == t
    ensures t.Cell(First(base)).Some? && t.Cell(First(base)).value.prot == RW && t.bytes(Second(base)) == 7
  {
    h := MapAndStore(base, size, page);
    t := h.space.Now();
    MappedAndStored(h, base, page);
    RestOfPage(base, size, page);
    GiveBack(h, Second(base), page - 0x1000);
  }

  lemma HeadStays(h: History, base: nat, page: nat, t: Space)
    requires h.Faithful() && |h.ops| == 3 && h.ops[2] == Release(Second(base), First(base) + page) && h.states[2] == t
    requires t.Cell(First(base)).Some?
    ensures h.space.Now().Cell(First(base)) == t.Cell(First(base))
  {
    StepOf(h, 2);
  }

  /** Mapping the page over, read-only. */
  method MapReleaseMap(base: nat, size: nat, page: nat) returns (h: History, ghost t: Space)
    requires Roomy(base, size, page)
    ensures h.Faithful() && h.space.page == page && h.space.base == base && |h.ops| == 4 && h.states[2] == t
    ensures h.ops[2] == Release(Second(base), First(base) + page) && h.ops[3] == CommitOver(First(base), First(base) + page, RO)
    ensures t.Cell(First(base)).Some? && t.Cell(First(base)).value.prot == RW && t.bytes(Second(base)) == 7
  {
    h, t := MapStoreRelease(base, size, page);
    HeadStays(h, base, page, t);
    FirstIsPage(base, size, page);
    MapOver(h, First(base), page, RO);
  }

  /** The guest page that stayed has lost write permission. */
  predicate WriteLost(u: Space, v: Space, a: nat) {
    u.Cell(a).Some? && u.Cell(a).value.prot == RW && v.Cell(a).Some? && v.Cell(a).value.prot == RO && !KeepsPermissions(u, v, a)
  }

  /** The byte stored before shows up in memory newly committed and recorded as never written. */
  predicate StaleSeen(u: Space, v: Space, b: nat) {
    u.Cell(b).None? && v.Cell(b).Some? && !v.Cell(b).value.written && v.bytes(b) == 7
  }

  lemma LosesWrite(t: Space, u: Space, v: Space, a: nat, p: nat)
    requires 0 < t.page == p && t.Cell(a).Some? && t.Cell(a).value.prot == RW && Does(Release(a + 0x1000, a + p), t, u)
    requires 0 < u.page == p && Does(CommitOver(a, a + p, RO), u, v)
    ensures WriteLost(u, v, a)
  {
    NeighbourLosesWrite(t, u, v, a, p);
  }

  lemma SeesStale(t: Space, u: Space, v: Space, a: nat, p: nat)
    requires 0 < t.page == p && 0x1000 < p && t.Cell(a).Some? && t.bytes(a + 0x1000) == 7
    requires Aligned(a, p) && Does(Release(a + 0x1000, a + p), t, u)
    requires 0 < u.page == p && Does(CommitOver(a, a + p, RO), u, v)
    ensures StaleSeen(u, v, a + 0x1000)
  {
    StaleByteReappears(t, u, v, a, a + 0x1000, p);
  }

  /** What the history of `MapReleaseMap` goes through last. */
  lemma LastTwoSteps(h: History, a: nat, page: nat, t: Space)
    requires h.Faithful() && h.space.page == page && |h.ops| == 4 && h.states[2] == t
    requires h.ops[2] == Release(a + 0x1000, a + page) && h.ops[3] == CommitOver(a, a + page, RO)
    ensures 0 < t.page == page && Does(Release(a + 0x1000, a + page), t, h.states[3])
    ensures 0 < h.states[3].page == page && Does(CommitOver(a, a + page, RO), h.states[3], h.states[4])
  {
    StepOf(h, 2);
    StepOf(h, 3);
  }

  /** `NeighbourLosesWrite` and `StaleByteReappears` happen: a page is mapped writable and stored
      to, all but its first guest page is unmapped, and the whole page is mapped read-only. */
  method NeighbourRun(base: nat, size: nat, page: nat) returns (h: History)
    requires Roomy(base, size, page)
    ensures h.Faithful() && |h.ops| == 4
    ensures WriteLost(h.states[3], h.states[4], First(base)) && StaleSeen(h.states[3], h.states[4], Second(base))
  {
    ghost var t;
    h, t := MapReleaseMap(base, size, page);
    FirstIsPage(base, size, page);
    NeighbourHurt(h, First(base), page, t);
  }

  lemma NeighbourHurt(h: History, a: nat, page: nat, t: Space)
    requires h.Faithful() && h.space.page == page && |h.ops| == 4 && h.states[2] == t && 0x1000 < page && Aligned(a, page)
    requires h.ops[2] == Release(a + 0x1000, a + page) && h.ops[3] == CommitOver(a, a + page, RO)
    requires t.Cell(a).Some? && t.Cell(a).value.prot == RW && t.bytes(a + 0x1000) == 7
    ensures WriteLost(h.states[3], h.states[4], a) && StaleSeen(h.states[3], h.states[4], a + 0x1000)
  {
    LastTwoSteps(h, a, page, t);
    LosesWrite(t, h.states[3], h.states[4], a, page);
    SeesStale(t, h.states[3], h.states[4], a, page);
  }

  lemma LowestIsPage(base: nat, size: nat, page: nat)
    requires Roomy(base, size, page)
    ensures AlignDown(base, GUEST_PAGE) == base && AlignUp(base + page, GUEST_PAGE) == base + page
  {
    AlignedSum(base, page, GUEST_PAGE);
    AlignedFixed(base, GUEST_PAGE);
    AlignedFixed(base + page, GUEST_PAGE);
  }

  method ReleaseLowest(h: History, base: nat, page: nat)
    requires h.Faithful() && h.ops == [] && h.space.base == base && h.space.page == page <= h.space.size && page <= LOWEST_USABLE
    requires AlignDown(base, GUEST_PAGE) == base && AlignUp(base + page, GUEST_PAGE) == base + page
    modifies h, h.space
    ensures h.Faithful() && |h.ops| == 1 && h.states[0] == old(h.space.Now()) && h.states[1].Free(base) && !LowKept(h.states[1])
  {
    ghost var s := h.space.Now();
    GiveBack(h, base, page);
    assert h.states[0] == s;
    StepOf(h, 0);
    LowPageBecomesFree(s, h.states[1], page);
  }

  /** `LowPageBecomesFree` happens on a fresh arena. */
  method LowPageRun(base: nat, size: nat, page: nat) returns (h: History)
    requires Roomy(base, size, page) && page <= LOWEST_USABLE
    ensures h.Faithful() && |h.ops| == 1 && Initial(h.states[0]) && h.states[1].Free(base) && !LowKept(h.states[1])
  {
    h := new History(base, size, page);
    LowestIsPage(base, size, page);
    ReleaseLowest(h, base, page);
  }

  lemma MappedFirst(h: History, at: nat, page: nat, p: Prot)
    requires h.Faithful() && h.ops == [Commit(at, at + page, p)] && 0 < page
    ensures h.space.Now().Cell(at).Some? && h.space.base <= at && at + page <= h.space.base + h.space.size
  {
    StepOf(h, 0);
    FitsArena(h.states[0], at, at + page);
    assert h.states[1].Cell(at).Some?;
    StateOf(h, 0);
  }

  lemma FitsArena(s: Space, lo: nat, hi: nat)
    requires Valid(s) && FreeRun(s, lo, hi)
    ensures s.base <= lo && hi <= s.Top()
  {
    assert At(s.free, lo).Some? && At(s.free, hi - 1).Some?;
    assert s.Free(lo) && s.Free(hi - 1);
  }

  method MapOverFirst(h: History, at: nat, page: nat)
    requires h.Faithful() && h.space.page == page && h.ops == [Commit(at, at + page, NONE)]
    requires AlignDown(at, page) == at && AlignUp(at + page, page) == at + page
    modifies h, h.space
    ensures h.Faithful() && |h.ops| == 2 && Honoured(h.states[1], at) && !Honoured(h.states[2], at)
  {
    MappedFirst(h, at, page, NONE);
    MapOver(h, at, page, RO);
    NotHonoured(h, at, page);
  }

  /** `FixedCommitNotHonoured` happens. */
  method NotHonouredRun(base: nat, size: nat, page: nat) returns (h: History)
    requires Roomy(base, size, page)
    ensures h.Faithful() && |h.ops| == 2 && Honoured(h.states[1], First(base)) && !Honoured(h.states[2], First(base))
  {
    h := MapFirst(base, size, page, NONE);
    FirstIsPage(base, size, page);
    MapOverFirst(h, First(base), page);
  }

  lemma NotHonoured(h: History, a: nat, page: nat)
    requires h.Faithful() && h.space.page == page && h.ops == [Commit(a, a + page, NONE), CommitOver(a, a + page, RO)]
    ensures Honoured(h.states[1], a) && !Honoured(h.states[2], a)
  {
    StepOf(h, 0);
    StepOf(h, 1);
    FixedCommitNotHonoured(h.states[0], h.states[1], h.states[2], a, page);
  }

  lemma BelowIsClear(s: Space, lo: nat, hi: nat)
    requires Valid(s) && hi <= s.base
    ensures Clear(s.free, lo, hi)
  {
    forall a | lo <= a < hi ensures At(s.free, a).None? {
      assert s.Free(a) ==> s.base <= a;
    }
  }

  /** Adopts everything below the arena. */
  method AdoptBelow(h: History)
    requires h.Faithful() && 0 < h.space.base
    modifies h, h.space
    ensures h.Faithful() && old(h.states) <= h.states && h.ops == old(h.ops) + [AdoptOutside(0, h.space.base, RW)]
  {
    BelowIsClear(h.space.Now(), 0, h.space.base);
    var ok := h.AdoptExternalMapping(0, h.space.base, RW);
  }

  /** `OutsideEpochChanges` happens, below the arena. */
  method OutsideRun(base: nat, size: nat, page: nat) returns (h: History)
    requires Roomy(base, size, page)
    ensures h.Faithful() && |h.ops| == 2
    ensures h.states[1].Cell(0).Some? && !HasEpoch(h.states[2], 0, h.states[1].Cell(0).value.epoch)
  {
    h := new History(base, size, page);
    AdoptBelow(h);
    AdoptBelow(h);
    OutsideChanged(h, base);
  }

  lemma OutsideChanged(h: History, hi: nat)
    requires h.Faithful() && h.ops == [AdoptOutside(0, hi, RW), AdoptOutside(0, hi, RW)]
    ensures h.states[1].Cell(0).Some? && !HasEpoch(h.states[2], 0, h.states[1].Cell(0).value.epoch)
  {
    StepOf(h, 0);
    StepOf(h, 1);
    OutsideEpochChanges(h.states[0], h.states[1], h.states[2], 0, hi);
  }

  lemma SecondPageIsGap(s: Space, at: nat, page: nat, u: Space)
    requires Valid(s) && 0 < page && FreeRun(s, at, at + 2 * page) && Commits(s, u, at, at + page, RW)
    ensures Clear(u.committed, at + page, at + 2 * page) && IsGap(u.committed, at, at + 2 * page, Span(at + page, page, ()))
  {
    forall a | at + page <= a < at + 2 * page ensures At(u.committed, a).None? {
      assert At(s.free, a).Some? && s.Free(a);
      PagesOwnedOnce(s, a);
      assert s.Cell(a).None?;
    }
    assert At(u.committed, at + page - 1).Some?;
  }

  /** A fresh arena with its first usable page mapped, without its history. */
  method MapFirstPlain(base: nat, size: nat, page: nat) returns (space: GuestAddressSpace)
    requires Roomy(base, size, page)
    ensures fresh(space) && space.Inv() && space.base == base && space.size == size && space.page == page
    ensures var at := First(base);
      && Full(space.committed, at, at + page) && Clear(space.committed, at + page, at + 2 * page)
      && IsGap(space.committed, at, at + 2 * page, Span(at + page, page, ()))
  {
    space := new GuestAddressSpace(base, size, page);
    ghost var s := space.Now();
    FirstIsPage(base, size, page);
    FreshRoom(s);
    ghost var refused;
    var ok, notify;
    ok, notify, refused := space.CommitFixed(First(base), page, RW, true, (g: Extent) => true);
    FirstOfTwo(s, space.Now(), First(base), page);
  }

  lemma FirstOfTwo(s: Space, u: Space, at: nat, page: nat)
    requires Valid(s) && s.page == page && FreeRun(s, at, at + 2 * page) && Commits(s, u, at, at + page, RW)
    ensures Full(u.committed, at, at + page) && Clear(u.committed, at + page, at + 2 * page)
    ensures IsGap(u.committed, at, at + 2 * page, Span(at + page, page, ()))
  {
    SecondPageIsGap(s, at, page, u);
    forall a | at <= a < at + page ensures At(u.committed, a).Some? {}
  }

  /** A fixed commit of whole host pages, not all of them free. */
  method CommitOverGaps(space: GuestAddressSpace, lo: nat, hi: nat, gapOk: Extent -> bool, ghost s: Space)
    returns (ghost u: Space, ghost refused: seq<Extent>)
    requires space.Inv() && s == space.Now() && space.base <= lo < hi <= space.base + space.size && !Full(space.free, lo, hi)
    requires AlignDown(lo, space.page) == lo && AlignUp(hi, space.page) == hi
    modifies space
    ensures u == space.Now() && FixedOver(s, u, lo, hi, refused, RW) && TurnedDown(s.committed, lo, hi, refused, gapOk)
  {
    var ok, notify;
    var length := hi - lo;
    assert lo + length == hi;
    ok, notify, refused := space.CommitFixed(lo, length, RW, true, gapOk);
    u := space.Now();
  }

  /** Asks for two pages, the first of them mapped already, from a host that refuses the second. */
  method RefuseSecond(space: GuestAddressSpace, at: nat, page: nat, gapOk: Extent -> bool)
    requires space.Inv() && space.page == page && First(space.base) == at && at + 2 * page <= space.base + space.size
    requires Aligned(at, page) && Aligned(at + page, page) && AlignDown(at, page) == at && AlignUp(at + 2 * page, page) == at + 2 * page
    requires Full(space.committed, at, at + page) && IsGap(space.committed, at, at + 2 * page, Span(at + page, page, ()))
    requires forall g :: !gapOk(g)
    modifies space
    ensures !space.Now().Free(at + page) && space.Now().PageClear(at + page) && !space.Inv()
  {
    ghost var s := space.Now();
    FirstIsTaken(s, at, page);
    ghost var u, refused := CommitOverGaps(space, at, at + 2 * page, gapOk, s);
    SecondPageLost(s, u, at, page, refused, gapOk);
  }

  lemma FirstIsTaken(s: Space, at: nat, page: nat)
    requires Valid(s) && s.page == page && s.base <= at && at + 2 * page <= s.Top() && Full(s.committed, at, at + page)
    ensures !Full(s.free, at, at + 2 * page)
  {
    assert At(s.committed, at).Some? && s.Cell(at).Some?;
    NotAllFree(s, at, at + 2 * page);
  }

  /** `RefusedPageIsLost` happens. */
  method RefusedRun(base: nat, size: nat, page: nat) returns (space: GuestAddressSpace)
    requires Roomy(base, size, page)
    ensures space.page == page && 0 < page && !space.Inv()
    ensures !space.Now().Free(First(base) + page) && space.Now().PageClear(First(base) + page)
  {
    space := MapFirstPlain(base, size, page);
    FirstIsPage(base, size, page);
    RefuseSecond(space, First(base), page, (g: Extent) => false);
  }

  lemma SecondPageLost(s: Space, u: Space, at: nat, page: nat, refused: seq<Extent>, gapOk: Extent -> bool)
    requires Valid(s) && s.page == page && First(s.base) == at && at + 2 * page <= s.Top() && Aligned(at, page) && Aligned(at + page, page)
    requires Full(s.committed, at, at + page) && IsGap(s.committed, at, at + 2 * page, Span(at + page, page, ()))
    requires FixedOver(s, u, at, at + 2 * page, refused, RW) && TurnedDown(s.committed, at, at + 2 * page, refused, gapOk)
    requires forall g :: !gapOk(g)
    ensures !u.Free(at + page) && u.page == page && u.PageClear(at + page) && !Valid(u)
  {
    forall a | at + page <= a < at + 2 * page ensures At(refused, a).Some? {
      assert Span(at + page, page, ()).Has(a);
    }
    RefusedPageIsLost(s, u, at, page, refused);
  }
}
