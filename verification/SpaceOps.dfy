/** The operations of the address space as relations between its states, the invariant each
    keeps, and what each does to memory it was not asked about. */
module SpaceOps {
  import opened Pages
  import opened Spans
  import opened GuestView
  import opened RangeEdit
  import opened SpaceSpec

  // ---- Committing free memory ----

  function FreshCell(s: Space, p: Prot): Cell { Cell(p, s.nextEpoch, p.write) }

  /** [lo, hi) leaves the free list, is recorded under a new epoch, reads as zero and gets
      the host access of `p`; nothing else changes. */
  ghost predicate Commits(s: Space, t: Space, lo: int, hi: int, p: Prot) {
    && SameArena(s, t)
    && Taken(s.free, t.free, lo, hi)
    && Recorded(s.committed, t.committed, lo, hi, FreshCell(s, p))
    && t.nextEpoch == s.nextEpoch + 1
    && (forall a :: t.bytes(a) == if lo <= a < hi then 0 else s.bytes(a))
    && (forall a :: t.host(a) == if lo <= a < hi then ToHost(p) else s.host(a))
  }

  /** [lo, hi) is whole host pages, all of them free. */
  ghost predicate FreeRun(s: Space, lo: int, hi: int) {
    && 0 < s.page && 0 <= lo < hi
    && Aligned(lo, s.page) && Aligned(hi, s.page)
    && Full(s.free, lo, hi)
  }

  lemma CommitKeepsValid(s: Space, t: Space, lo: int, hi: int, p: Prot)
    requires Valid(s) && FreeRun(s, lo, hi) && Commits(s, t, lo, hi, p)
    ensures Valid(t)
  {
    forall a ensures t.Cell(a) == if lo <= a < hi then Some(FreshCell(s, p)) else s.Cell(a) {}
    forall a ensures t.Free(a) <==> s.Free(a) && !(lo <= a < hi) {}
    OccupyKeepsOwnership(s, t, lo, hi);
  }

  // ---- Releasing ----

  /** [lo, hi) stops being committed; every host page it touches that is then empty becomes
      free, unreadable and zero; nothing else changes. */
  ghost predicate Releases(s: Space, t: Space, lo: nat, hi: nat)
    requires 0 < s.page
  {
    var outer, outerEnd := AlignDown(lo, s.page), AlignUp(hi, s.page);
    && SameArena(s, t)
    && Gapped(t.free)
    && Dropped(s.committed, t.committed, lo, hi)
    && t.nextEpoch == s.nextEpoch
    && (forall a :: t.Free(a) <==> s.Free(a) || VacantPage(t.committed, s.page, outer, outerEnd, a))
    && (forall a :: t.bytes(a) == if VacantPage(t.committed, s.page, outer, outerEnd, a) then 0 else s.bytes(a))
    && (forall a :: t.host(a) == if VacantPage(t.committed, s.page, outer, outerEnd, a) then NO_ACCESS else s.host(a))
  }

  lemma ReleaseKeepsValid(s: Space, t: Space, lo: nat, hi: nat)
    requires Valid(s) && s.base <= lo < hi <= s.Top() && Releases(s, t, lo, hi)
    ensures Valid(t)
  {
    forall a ensures t.Cell(a) == if lo <= a < hi then None else s.Cell(a) {}
    AlignDownGreatest(lo, s.base, s.page);
    AlignedSum(s.base, s.size, s.page);
    AlignUpLeast(hi, s.Top(), s.page);
    VacateKeepsOwnership(s, t, lo, hi, AlignDown(lo, s.page), AlignUp(hi, s.page));
  }

  // ---- Protecting ----

  /** The request a protection change of [address, address + size) makes: rounded outward,
      with the host pages lying wholly inside it as the strict part. */
  function MakeRequest(address: nat, size: nat, p: Prot, page: nat): Request
    requires 0 < page
  {
    Request(AlignDown(address, page), AlignUp(address + size, page),
            AlignUp(address, page), AlignDown(address + size, page), p)
  }

  ghost predicate Protects(s: Space, t: Space, q: Request) {
    && SameArena(s, t)
    && t.free == s.free
    && t.committed == Coalesced(Reprotected(s.committed, q))
    && t.nextEpoch == s.nextEpoch
    && t.bytes == s.bytes
    && (forall a :: t.host(a) == if q.prot.write && q.begin <= a < q.end then READ_WRITE else s.host(a))
  }

  /** A change of protection keeps every byte's commitment and epoch, and changes its
      protection to what was asked or to that joined with what it had. */
  ghost predicate SameMapping(s: Space, t: Space, q: Request) {
    forall a :: match s.Cell(a)
      case None => t.Cell(a).None?
      case Some(c) =>
        t.Cell(a).Some? &&
        var d := t.Cell(a).value;
        if q.begin <= a < q.end
        then d == Reprotect(c, true, q.prot) || d == Reprotect(c, false, q.prot)
        else d == c
  }

  lemma ProtectPointwise(s: Space, t: Space, q: Request)
    requires ListsOk(s) && q.begin < q.end && Protects(s, t, q)
    ensures ListsOk(t) && SameMapping(s, t, q)
  {
    ReprotectedOrdered(s.committed, q);
    CoalescedShape(Reprotected(s.committed, q));
    forall a ensures
      match s.Cell(a)
      case None => t.Cell(a).None?
      case Some(c) =>
        t.Cell(a).Some? &&
        var d := t.Cell(a).value;
        if q.begin <= a < q.end
        then d == Reprotect(c, true, q.prot) || d == Reprotect(c, false, q.prot)
        else d == c
    {
      var i := ReprotectedAt(s.committed, q, a);
      CoalescedAt(Reprotected(s.committed, q), a);
    }
  }

  lemma ProtectKeepsValid(s: Space, t: Space, q: Request)
    requires Valid(s) && q.begin < q.end && Protects(s, t, q)
    ensures Valid(t)
  {
    ProtectPointwise(s, t, q);
    forall a ensures t.Cell(a).Some? <==> s.Cell(a).Some? {}
    OccupyKeepsOwnership(s, t, 0, 0);
  }

  // ---- Mappings made by other means ----

  /** [lo, hi) leaves the free list and is recorded as `cell`; memory is not touched. */
  ghost predicate Adopts(s: Space, t: Space, lo: int, hi: int, cell: Cell) {
    && SameArena(s, t)
    && Taken(s.free, t.free, lo, hi)
    && Recorded(s.committed, t.committed, lo, hi, cell)
    && cell.epoch == s.nextEpoch && t.nextEpoch == s.nextEpoch + 1
    && t.bytes == s.bytes && t.host == s.host
  }

  lemma AdoptKeepsValid(s: Space, t: Space, lo: int, hi: int, cell: Cell)
    requires Valid(s) && FreeRun(s, lo, hi) && Adopts(s, t, lo, hi, cell)
    ensures Valid(t)
  {
    forall a ensures t.Cell(a) == if lo <= a < hi then Some(cell) else s.Cell(a) {}
    forall a ensures t.Free(a) <==> s.Free(a) && !(lo <= a < hi) {}
    OccupyKeepsOwnership(s, t, lo, hi);
  }

  /** A span that starts inside a host page leaves the free bytes before it on that page. */
  lemma AdoptInsidePage(s: Space, t: Space, lo: nat, hi: nat, cell: Cell)
    requires Valid(s) && lo < hi && Full(s.free, lo, hi) && Adopts(s, t, lo, hi, cell) && !Aligned(lo, s.page)
    ensures !Valid(t)
  {
    var h := AlignDown(lo, s.page);
    assert At(s.free, lo).Some? && s.Free(lo) && At(s.free, h).Some?;
    assert t.Free(h) && At(t.free, lo).None?;
    AlignedFixed(h, s.page);
    assert !t.PageFree(h);
  }

  /** A span that stops inside a host page leaves the free bytes after it. */
  lemma AdoptPartOfPage(s: Space, t: Space, lo: nat, hi: nat, cell: Cell)
    requires Valid(s) && lo < hi && Full(s.free, lo, hi) && Adopts(s, t, lo, hi, cell) && !Aligned(hi, s.page)
    ensures !Valid(t)
  {
    var h := AlignDown(hi - 1, s.page);
    AlignedSum(h, s.page, s.page);
    assert At(s.free, hi - 1).Some? && s.Free(hi - 1) && At(s.free, hi).Some?;
    assert t.Free(hi) && At(t.free, hi - 1).None?;
    SamePage(h, hi, s.page);
    assert !t.PageFree(hi);
  }

  lemma AdoptValidIff(s: Space, t: Space, lo: nat, hi: nat, cell: Cell)
    requires Valid(s) && s.base <= lo < hi <= s.Top() && Full(s.free, lo, hi) && Adopts(s, t, lo, hi, cell)
    ensures Valid(t) <==> Aligned(lo, s.page) && Aligned(hi, s.page)
  {
    if !Aligned(lo, s.page) {
      AdoptInsidePage(s, t, lo, hi, cell);
    } else if !Aligned(hi, s.page) {
      AdoptPartOfPage(s, t, lo, hi, cell);
    } else {
      AdoptKeepsValid(s, t, lo, hi, cell);
    }
  }

  /** A mapping made elsewhere is recorded; the arena does not change. */
  ghost predicate AdoptsOutside(s: Space, t: Space, lo: int, hi: int, p: Prot) {
    && SameArena(s, t)
    && t.free == s.free
    && Recorded(s.committed, t.committed, lo, hi, FreshCell(s, p))
    && t.nextEpoch == s.nextEpoch + 1
    && t.bytes == s.bytes && t.host == s.host
  }

  /** A free byte's page is clear after the adoption if nothing free was adopted over. */
  lemma AdoptedPageClear(s: Space, t: Space, lo: nat, hi: nat, p: Prot, a: nat)
    requires Valid(s) && AdoptsOutside(s, t, lo, hi, p) && Clear(s.free, lo, hi) && s.Free(a)
    ensures t.PageClear(a)
  {
    var h := AlignDown(a, s.page);
    forall b | h <= b < h + s.page ensures At(t.committed, b).None? {
      assert At(s.free, b).Some? && At(s.committed, b).None?;
    }
  }

  /** The invariant survives the adoption exactly when no free memory is adopted over. */
  lemma AdoptOutsideKeepsValid(s: Space, t: Space, lo: nat, hi: nat, p: Prot)
    requires Valid(s) && lo < hi && AdoptsOutside(s, t, lo, hi, p)
    ensures Valid(t) <==> Clear(s.free, lo, hi)
  {
    forall a ensures t.Cell(a) == if lo <= a < hi then Some(FreshCell(s, p)) else s.Cell(a) {}
    if Clear(s.free, lo, hi) {
      forall a | t.Free(a) ensures t.base <= a < t.Top() && t.PageFree(a) && t.PageClear(a) {
        assert s.Free(a);
        AdoptedPageClear(s, t, lo, hi, p, a);
      }
      forall a | t.base + LOWEST_USABLE <= a < t.Top() && t.PageClear(a) ensures t.Free(a) {
        AdoptedLeavesClear(s, t, lo, hi, p, a);
        assert s.Free(a);
      }
    } else {
      var a :| lo <= a < hi && At(s.free, a).Some?;
      assert t.Free(a) && t.Cell(a).Some?;
      assert !t.PageClear(a);
    }
  }

  lemma AdoptedLeavesClear(s: Space, t: Space, lo: nat, hi: nat, p: Prot, a: nat)
    requires Valid(s) && AdoptsOutside(s, t, lo, hi, p) && t.PageClear(a)
    ensures s.PageClear(a)
  {
    var h := AlignDown(a, s.page);
    forall b | h <= b < h + s.page ensures At(s.committed, b).None? {
      assert At(t.committed, b).None?;
    }
  }

  // ---- Changes to memory alone ----

  /** The lists stay; only the bytes and host access of [lo, hi) and its pages may change. */
  ghost predicate SameLists(s: Space, t: Space) {
    SameArena(s, t) && t.free == s.free && t.committed == s.committed && t.nextEpoch == s.nextEpoch
  }

  lemma SameListsValid(s: Space, t: Space)
    requires Valid(s) && SameLists(s, t)
    ensures Valid(t)
  {
    OccupyKeepsOwnership(s, t, 0, 0);
  }

  /** Every byte of [lo, hi) still belongs to allocation `epoch` and is writable. */
  ghost predicate Unchanged(s: Space, lo: int, hi: int, epoch: nat) {
    forall a :: lo <= a < hi ==> s.Cell(a).Some? && s.Cell(a).value.epoch == epoch && s.Cell(a).value.prot.write
  }

  /** A saved copy has been written back over [lo, lo + |data|). */
  ghost predicate Restores(s: Space, t: Space, lo: nat, data: seq<int>)
    requires 0 < s.page
  {
    && SameLists(s, t)
    && (forall a :: t.bytes(a) == if lo <= a < lo + |data| then data[a - lo] else s.bytes(a))
    && (forall a :: t.host(a) == if AlignDown(lo, s.page) <= a < AlignUp(lo + |data|, s.page) then READ_WRITE else s.host(a))
  }
}
