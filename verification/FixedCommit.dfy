/** Committing a fixed span that is partly committed already: the free gaps are committed one
    by one, then the whole span is given the protection asked for. */
module FixedCommit {
  import opened Pages
  import opened Spans
  import opened GuestView
  import opened RangeIndex
  import opened RangeEdit
  import opened SpaceSpec
  import opened SpaceOps
  import opened Protection

  // ---- Gap by gap ----

  /** The host pages each gap touches. */
  function Widened(gaps: seq<Extent>, page: nat): seq<Extent>
    requires 0 < page && forall i :: 0 <= i < |gaps| ==> 0 <= gaps[i].begin <= gaps[i].End()
  {
    if gaps == [] then []
    else Widened(gaps[..|gaps| - 1], page) + [WidenOne(gaps[|gaps| - 1], page)]
  }

  function WidenOne(gap: Extent, page: nat): Extent
    requires 0 < page && 0 <= gap.begin <= gap.End()
  {
    Span(AlignDown(gap.begin, page), AlignUp(gap.End(), page) - AlignDown(gap.begin, page), ())
  }

  /** A byte committed at this call, under an epoch handed out by it. */
  predicate Fresh(s: Space, t: Space, p: Prot, cell: Option<Cell>) {
    && cell.Some? && cell.value.prot == p && cell.value.written == p.write
    && s.nextEpoch <= cell.value.epoch < t.nextEpoch
  }

  /** Every gap has left the free list and been zeroed on its whole host pages; every gap the
      host did not refuse is committed. */
  ghost predicate GapsDone(s: Space, t: Space, gaps: seq<Extent>, refused: seq<Extent>, p: Prot)
    requires 0 < s.page && NonNegative(gaps)
  {
    && SameArena(s, t) && ListsOk(t) && s.nextEpoch <= t.nextEpoch
    && (forall a :: t.Free(a) <==> s.Free(a) && At(gaps, a).None?)
    && (forall a :: At(gaps, a).None? || At(refused, a).Some? ==> t.Cell(a) == s.Cell(a))
    && (forall a :: At(gaps, a).Some? && At(refused, a).None? ==> Fresh(s, t, p, t.Cell(a)))
    && (forall a :: t.bytes(a) == if At(Shrunk(gaps, s.page), a).Some? then 0 else s.bytes(a))
    && (refused == [] ==> forall a :: t.host(a) == if At(Widened(gaps, s.page), a).Some? then ToHost(p) else s.host(a))
  }

  /** One gap: taken, zeroed on its vacant host pages, and recorded unless refused. */
  ghost predicate GapDone(t: Space, u: Space, gap: Extent, ok: bool, p: Prot)
    requires 0 < t.page && 0 <= gap.begin <= gap.End()
  {
    && SameArena(t, u)
    && Taken(t.free, u.free, gap.begin, gap.End())
    && (forall a :: u.bytes(a) == if VacantPage(t.committed, t.page, gap.begin, gap.End(), a) then 0 else t.bytes(a))
    && (if ok then
          && Recorded(t.committed, u.committed, gap.begin, gap.End(), FreshCell(t, p))
          && u.nextEpoch == t.nextEpoch + 1
          && (forall a :: u.host(a) == if WidenOne(gap, t.page).Has(a) then ToHost(p) else t.host(a))
        else
          u.committed == t.committed && u.nextEpoch == t.nextEpoch)
  }

  lemma GapShrinks(committed: seq<GuestRange>, gap: Extent, page: nat)
    requires 0 < page && 0 <= gap.begin < gap.End() && Clear(committed, gap.begin, gap.End())
    ensures forall a :: At(ShrinkOne(gap, page), a).Some? <==> VacantPage(committed, page, gap.begin, gap.End(), a)
  {
    OrderedOne(gap, 1);
    assert [gap][..0] == [];
    assert Shrunk([gap], page) == ShrinkOne(gap, page);
    assert GapsOf([gap], committed, gap.begin, gap.End());
    forall a ensures At(ShrinkOne(gap, page), a).Some? <==> VacantPage(committed, page, gap.begin, gap.End(), a) {
      ShrunkAt([gap], committed, page, gap.begin, gap.End(), a);
    }
  }

  lemma AppendedAt(gaps: seq<Extent>, gap: Extent, page: nat)
    requires 0 < page && NonNegative(gaps) && 0 <= gap.begin <= gap.End()
    ensures NonNegative(gaps + [gap])
    ensures forall a :: At(gaps + [gap], a).Some? <==> At(gaps, a).Some? || gap.Has(a)
    ensures forall a :: At(Shrunk(gaps + [gap], page), a).Some? <==> At(Shrunk(gaps, page), a).Some? || At(ShrinkOne(gap, page), a).Some?
    ensures forall a :: At(Widened(gaps + [gap], page), a).Some? <==> At(Widened(gaps, page), a).Some? || WidenOne(gap, page).Has(a)
  {
    var all := gaps + [gap];
    assert all[..|gaps|] == gaps;
    forall a ensures At(all, a).Some? <==> At(gaps, a).Some? || gap.Has(a) {
      AtSnoc(gaps, gap, a);
    }
    forall a ensures At(Shrunk(all, page), a).Some? <==> At(Shrunk(gaps, page), a).Some? || At(ShrinkOne(gap, page), a).Some? {
      AtConcat(Shrunk(gaps, page), ShrinkOne(gap, page), a);
    }
    forall a ensures At(Widened(all, page), a).Some? <==> At(Widened(gaps, page), a).Some? || WidenOne(gap, page).Has(a) {
      AtSnoc(Widened(gaps, page), WidenOne(gap, page), a);
    }
  }

  lemma GapsDoneStep(s: Space, t: Space, u: Space, gaps: seq<Extent>, refused: seq<Extent>, gap: Extent, ok: bool, p: Prot)
    requires 0 < s.page && NonNegative(gaps) && GapsDone(s, t, gaps, refused, p)
    requires 0 <= gap.begin < gap.End() && Clear(s.committed, gap.begin, gap.End()) && Clear(gaps, gap.begin, gap.End())
    requires forall a :: gap.Has(a) ==> At(refused, a).None?
    requires GapDone(t, u, gap, ok, p)
    ensures NonNegative(gaps + [gap])
    ensures GapsDone(s, u, gaps + [gap], if ok then refused else refused + [gap], p)
  {
    AppendedAt(gaps, gap, s.page);
    GapIsClear(s, t, gaps, refused, gap, p);
    GapsDoneCells(s, t, u, gaps, refused, gap, ok, p);
    GapsDoneFree(s, t, u, gaps, refused, gap, ok, p);
    GapsDoneMemory(s, t, u, gaps, refused, gap, ok, p);
  }

  /** A gap not worked on yet is still uncommitted. */
  lemma GapIsClear(s: Space, t: Space, gaps: seq<Extent>, refused: seq<Extent>, gap: Extent, p: Prot)
    requires 0 < s.page && NonNegative(gaps) && GapsDone(s, t, gaps, refused, p)
    requires Clear(s.committed, gap.begin, gap.End()) && Clear(gaps, gap.begin, gap.End())
    ensures Clear(t.committed, gap.begin, gap.End())
  {
    forall a | gap.begin <= a < gap.End() ensures At(t.committed, a).None? {
      assert At(s.committed, a).None? && At(gaps, a).None? && t.Cell(a) == s.Cell(a);
    }
  }

  lemma GapsDoneFree(s: Space, t: Space, u: Space, gaps: seq<Extent>, refused: seq<Extent>, gap: Extent, ok: bool, p: Prot)
    requires 0 < s.page && NonNegative(gaps) && GapsDone(s, t, gaps, refused, p)
    requires 0 <= gap.begin <= gap.End() && GapDone(t, u, gap, ok, p)
    ensures forall a :: u.Free(a) <==> s.Free(a) && At(gaps + [gap], a).None?
  {
    forall a ensures u.Free(a) <==> s.Free(a) && At(gaps + [gap], a).None? {
      AtSnoc(gaps, gap, a);
      assert t.Free(a) <==> s.Free(a) && At(gaps, a).None?;
      assert At(u.free, a).Some? <==> At(t.free, a).Some? && !gap.Has(a);
    }
  }

  lemma GapsDoneMemory(s: Space, t: Space, u: Space, gaps: seq<Extent>, refused: seq<Extent>, gap: Extent, ok: bool, p: Prot)
    requires 0 < s.page && NonNegative(gaps) && GapsDone(s, t, gaps, refused, p)
    requires 0 <= gap.begin < gap.End() && Clear(t.committed, gap.begin, gap.End()) && GapDone(t, u, gap, ok, p)
    ensures NonNegative(gaps + [gap])
    ensures forall a :: u.bytes(a) == if At(Shrunk(gaps + [gap], s.page), a).Some? then 0 else s.bytes(a)
    ensures ok && refused == [] ==> forall a :: u.host(a) == if At(Widened(gaps + [gap], s.page), a).Some? then ToHost(p) else s.host(a)
  {
    AppendedAt(gaps, gap, s.page);
    GapShrinks(t.committed, gap, s.page);
  }

  lemma GapsDoneCells(s: Space, t: Space, u: Space, gaps: seq<Extent>, refused: seq<Extent>, gap: Extent, ok: bool, p: Prot)
    requires 0 < s.page && NonNegative(gaps) && GapsDone(s, t, gaps, refused, p)
    requires 0 <= gap.begin < gap.End() && Clear(gaps, gap.begin, gap.End())
    requires forall a :: gap.Has(a) ==> At(refused, a).None?
    requires GapDone(t, u, gap, ok, p)
    ensures var all, refused' := gaps + [gap], if ok then refused else refused + [gap];
      && (forall a :: At(all, a).None? || At(refused', a).Some? ==> u.Cell(a) == s.Cell(a))
      && (forall a :: At(all, a).Some? && At(refused', a).None? ==> Fresh(s, u, p, u.Cell(a)))
  {
    var all, refused' := gaps + [gap], if ok then refused else refused + [gap];
    forall a
      ensures At(all, a).None? || At(refused', a).Some? ==> u.Cell(a) == s.Cell(a)
      ensures At(all, a).Some? && At(refused', a).None? ==> Fresh(s, u, p, u.Cell(a))
    {
      AtSnoc(gaps, gap, a);
      AtSnoc(refused, gap, a);
      assert u.Cell(a) == if ok && gap.Has(a) then Some(FreshCell(t, p)) else t.Cell(a);
      assert gap.Has(a) ==> At(gaps, a).None?;
      assert At(gaps, a).None? || At(refused, a).Some? ==> t.Cell(a) == s.Cell(a);
    }
  }

  // ---- Host-page-aligned protection is exact ----

  lemma AlignedRequest(lo: nat, hi: nat, p: Prot, page: nat)
    requires 0 < page && lo <= hi && Aligned(lo, page) && Aligned(hi, page)
    ensures MakeRequest(lo, hi - lo, p, page) == Request(lo, hi, lo, hi, p)
  {
    AlignedFixed(lo, page);
    AlignedFixed(hi, page);
  }

  function ExactCell(cell: Option<Cell>, inside: bool, p: Prot): Option<Cell> {
    if inside && cell.Some? then Some(Reprotect(cell.value, true, p)) else cell
  }

  lemma AlignedCell(rs: seq<GuestRange>, lo: int, hi: int, p: Prot, a: int)
    requires Sorted(rs) && lo < hi
    ensures At(Coalesced(Reprotected(rs, Request(lo, hi, lo, hi, p))), a) == ExactCell(At(rs, a), lo <= a < hi, p)
  {
    var q := Request(lo, hi, lo, hi, p);
    ReprotectedOrdered(rs, q);
    CoalescedAt(Reprotected(rs, q), a);
    var i := ReprotectedAt(rs, q, a);
  }

  /** The list after a protection change of whole host pages. */
  lemma AlignedAfter(rs: seq<GuestRange>, after: seq<GuestRange>, lo: int, hi: int, p: Prot)
    requires Sorted(rs) && lo < hi && after == AfterProtect(rs, Request(lo, hi, lo, hi, p))
    ensures Sorted(after) && NoMergeable(after)
    ensures forall a :: At(after, a) == ExactCell(At(rs, a), lo <= a < hi, p)
  {
    var q := Request(lo, hi, lo, hi, p);
    OrdinaryRequest(rs, q);
    ReprotectedOrdered(rs, q);
    CoalescedShape(Reprotected(rs, q));
    forall a ensures At(after, a) == ExactCell(At(rs, a), lo <= a < hi, p) {
      AlignedCell(rs, lo, hi, p, a);
    }
  }

  /** On whole host pages every committed byte gets exactly the protection asked for. */
  lemma AlignedProtectExact(s: Space, t: Space, lo: nat, hi: nat, p: Prot)
    requires 0 < s.page && Sorted(s.committed) && lo < hi && Aligned(lo, s.page) && Aligned(hi, s.page)
    requires Applied(s, t, MakeRequest(lo, hi - lo, p, s.page))
    ensures forall a :: t.Cell(a) == ExactCell(s.Cell(a), lo <= a < hi, p)
    ensures ListsOk(s) ==> ListsOk(t)
  {
    AlignedRequest(lo, hi, p, s.page);
    AlignedAfter(s.committed, t.committed, lo, hi, p);
    forall a ensures t.Cell(a) == ExactCell(s.Cell(a), lo <= a < hi, p) {
      assert At(t.committed, a) == ExactCell(At(s.committed, a), lo <= a < hi, p);
    }
  }

  // ---- The whole span ----

  /** Some byte of the host page holding `a` is uncommitted. */
  ghost predicate PageHasRoom(s: Space, a: nat)
    requires 0 < s.page
  {
    !Full(s.committed, AlignDown(a, s.page), AlignDown(a, s.page) + s.page)
  }

  /** A partly committed span of whole host pages has been committed over: what was there
      keeps its bytes, epoch and place and takes the new protection; what was not is fresh,
      unless the host refused it. */
  ghost predicate FixedOver(s: Space, u: Space, lo: int, hi: int, refused: seq<Extent>, p: Prot)
    requires 0 < s.page
  {
    && SameArena(s, u) && ListsOk(u) && s.nextEpoch <= u.nextEpoch
    && (forall a :: u.Free(a) <==> s.Free(a) && !(lo <= a < hi))
    && (forall a :: !(lo <= a < hi) || s.Cell(a).Some? ==> u.Cell(a) == ExactCell(s.Cell(a), lo <= a < hi, p))
    && (forall a :: lo <= a < hi && s.Cell(a).None? ==>
          if At(refused, a).Some? then u.Cell(a).None? else Fresh(s, u, p, u.Cell(a)))
    && (forall a :: u.bytes(a) == if VacantPage(s.committed, s.page, lo, hi, a) then 0 else s.bytes(a))
    && (refused == [] ==> forall a :: u.host(a) == HostAfter(s, lo, hi, p, a))
  }

  ghost function HostAfter(s: Space, lo: int, hi: int, p: Prot, a: int): Access
    requires 0 < s.page
  {
    if 0 <= a && lo <= a < hi && p.write then READ_WRITE
    else if 0 <= a && lo <= a < hi && PageHasRoom(s, a) then ToHost(p)
    else s.host(a)
  }

  lemma {:induction false} WidenedIndex(gaps: seq<Extent>, page: nat)
    requires 0 < page && NonNegative(gaps)
    ensures |Widened(gaps, page)| == |gaps|
    ensures forall i :: 0 <= i < |gaps| ==> Widened(gaps, page)[i] == WidenOne(gaps[i], page)
    decreases |gaps|
  {
    if gaps != [] { WidenedIndex(gaps[..|gaps| - 1], page); }
  }

  /** Rounding the gaps outward reaches exactly the host pages with an uncommitted byte. */
  lemma WidenedAt(gaps: seq<Extent>, s: Space, lo: nat, hi: nat, a: int)
    requires 0 < s.page && Aligned(lo, s.page) && Aligned(hi, s.page)
    requires GapsOf(gaps, s.committed, lo, hi) && NonNegative(gaps)
    ensures At(Widened(gaps, s.page), a).Some? <==> 0 <= a && lo <= a < hi && PageHasRoom(s, a)
  {
    if At(Widened(gaps, s.page), a).Some? {
      WidenedIndex(gaps, s.page);
      var i := AtWitness(Widened(gaps, s.page), a);
      WidenedInside(gaps, s, lo, hi, i, a);
      WidenedHasRoom(gaps, s, lo, hi, i, a);
    }
    if 0 <= a && lo <= a < hi && PageHasRoom(s, a) {
      RoomIsWidened(gaps, s, lo, hi, a);
    }
  }

  lemma WidenedInside(gaps: seq<Extent>, s: Space, lo: nat, hi: nat, i: int, a: int)
    requires 0 < s.page && Aligned(lo, s.page) && Aligned(hi, s.page)
    requires GapsOf(gaps, s.committed, lo, hi) && NonNegative(gaps)
    requires 0 <= i < |gaps| && WidenOne(gaps[i], s.page).Has(a)
    ensures lo <= a < hi
  {
    GapsNonNegative(gaps, s.committed, lo, hi);
    AlignDownGreatest(gaps[i].begin, lo, s.page);
    AlignUpLeast(gaps[i].End(), hi, s.page);
  }

  lemma RoomIsWidened(gaps: seq<Extent>, s: Space, lo: nat, hi: nat, a: nat)
    requires 0 < s.page && Aligned(lo, s.page) && Aligned(hi, s.page)
    requires GapsOf(gaps, s.committed, lo, hi) && NonNegative(gaps)
    requires lo <= a < hi && PageHasRoom(s, a)
    ensures At(Widened(gaps, s.page), a).Some?
  {
    var h := AlignDown(a, s.page);
    var b :| h <= b < h + s.page && At(s.committed, b).None?;
    PageSplit(lo, hi, a, b, s.page);
    assert At(gaps, b).Some?;
    var j := AtWitness(gaps, b);
    PageReached(gaps[j], a, b, s.page);
    WidenedIndex(gaps, s.page);
    AtSome(Widened(gaps, s.page), j, a);
  }

  /** A gap holding a byte of a page reaches the whole page when rounded outward. */
  lemma PageReached(gap: Extent, a: nat, b: nat, page: nat)
    requires 0 < page && 0 <= gap.begin <= gap.End() && gap.Has(b)
    requires AlignDown(a, page) <= b < AlignDown(a, page) + page
    ensures WidenOne(gap, page).Has(a)
  {
    var h := AlignDown(a, page);
    SamePage(h, b, page);
    AlignDownGreatest(b, AlignDown(gap.begin, page), page);
    AlignedApart(h, AlignUp(gap.End(), page), page);
  }

  lemma WidenedHasRoom(gaps: seq<Extent>, s: Space, lo: nat, hi: nat, i: int, a: int)
    requires 0 < s.page && GapsOf(gaps, s.committed, lo, hi) && NonNegative(gaps)
    requires 0 <= i < |gaps| && WidenOne(gaps[i], s.page).Has(a)
    ensures 0 <= a && PageHasRoom(s, a)
  {
    var g, h := gaps[i], AlignDown(a, s.page);
    PageInside(AlignDown(g.begin, s.page), AlignUp(g.End(), s.page), a, s.page);
    OrderedIndex(gaps, 1, i, i);
    SpanOfGap(gaps, s.committed, lo, hi, i);
    var b := Max(g.begin, h);
    assert g.Has(b) && At(s.committed, b).None?;
  }

  lemma FixedOverCells(s: Space, t: Space, u: Space, gaps: seq<Extent>, refused: seq<Extent>, lo: nat, hi: nat, p: Prot)
    requires 0 < s.page && GapsOf(gaps, s.committed, lo, hi) && NonNegative(gaps)
    requires GapsDone(s, t, gaps, refused, p) && t.nextEpoch == u.nextEpoch
    requires forall a :: u.Cell(a) == ExactCell(t.Cell(a), lo <= a < hi, p)
    ensures forall a :: !(lo <= a < hi) || s.Cell(a).Some? ==> u.Cell(a) == ExactCell(s.Cell(a), lo <= a < hi, p)
    ensures forall a :: lo <= a < hi && s.Cell(a).None? ==>
      if At(refused, a).Some? then u.Cell(a).None? else Fresh(s, u, p, u.Cell(a))
  {
    forall a
      ensures !(lo <= a < hi) || s.Cell(a).Some? ==> u.Cell(a) == ExactCell(s.Cell(a), lo <= a < hi, p)
      ensures lo <= a < hi && s.Cell(a).None? ==>
        if At(refused, a).Some? then u.Cell(a).None? else Fresh(s, u, p, u.Cell(a))
    {
      assert At(gaps, a).Some? <==> lo <= a < hi && At(s.committed, a).None?;
      assert u.Cell(a) == ExactCell(t.Cell(a), lo <= a < hi, p);
    }
  }

  lemma FixedOverFree(s: Space, t: Space, gaps: seq<Extent>, refused: seq<Extent>, lo: nat, hi: nat, p: Prot)
    requires Valid(s) && GapsOf(gaps, s.committed, lo, hi) && NonNegative(gaps)
    requires GapsDone(s, t, gaps, refused, p)
    ensures forall a :: t.Free(a) <==> s.Free(a) && !(lo <= a < hi)
  {
    forall a ensures t.Free(a) <==> s.Free(a) && !(lo <= a < hi) {
      assert At(gaps, a).Some? <==> lo <= a < hi && At(s.committed, a).None?;
      if s.Free(a) {
        PagesOwnedOnce(s, a);
        assert s.Cell(a).None?;
      }
    }
  }

  /** The gaps have been committed and the span reprotected: `FixedOver`. */
  lemma FixedOverHolds(s: Space, t: Space, u: Space, gaps: seq<Extent>, refused: seq<Extent>, lo: nat, hi: nat, p: Prot)
    requires Valid(s) && lo < hi && Aligned(lo, s.page) && Aligned(hi, s.page)
    requires GapsOf(gaps, s.committed, lo, hi) && NonNegative(gaps) && GapsDone(s, t, gaps, refused, p)
    requires SameArena(t, u) && u.free == t.free && u.nextEpoch == t.nextEpoch && u.bytes == t.bytes && ListsOk(u)
    requires forall a :: u.Cell(a) == ExactCell(t.Cell(a), lo <= a < hi, p)
    requires refused == [] ==> forall a :: u.host(a) == if p.write && lo <= a < hi then READ_WRITE else t.host(a)
    ensures FixedOver(s, u, lo, hi, refused, p)
  {
    FixedOverCells(s, t, u, gaps, refused, lo, hi, p);
    FixedOverFree(s, t, gaps, refused, lo, hi, p);
    forall a ensures u.Free(a) <==> s.Free(a) && !(lo <= a < hi) {
      assert t.Free(a) <==> s.Free(a) && !(lo <= a < hi);
    }
    forall a ensures u.bytes(a) == if VacantPage(s.committed, s.page, lo, hi, a) then 0 else s.bytes(a) {
      ShrunkAt(gaps, s.committed, s.page, lo, hi, a);
    }
    if refused == [] {
      forall a ensures u.host(a) == HostAfter(s, lo, hi, p, a) {
        WidenedAt(gaps, s, lo, hi, a);
      }
    }
  }

  /** `u` is `t` with the span reprotected, if anything in it is committed. */
  ghost predicate Reprotection(t: Space, u: Space, lo: nat, hi: nat, p: Prot) {
    && SameArena(t, u) && u.free == t.free && u.nextEpoch == t.nextEpoch && u.bytes == t.bytes && ListsOk(u)
    && (forall a :: u.Cell(a) == ExactCell(t.Cell(a), lo <= a < hi, p))
    && (!Clear(t.committed, lo, hi) ==> forall a :: u.host(a) == if p.write && lo <= a < hi then READ_WRITE else t.host(a))
  }

  lemma ReprotectionHolds(t: Space, u: Space, lo: nat, hi: nat, p: Prot)
    requires 0 < t.page && ListsOk(t) && lo < hi && Aligned(lo, t.page) && Aligned(hi, t.page)
    requires Clear(t.committed, lo, hi) ==> u == t
    requires !Clear(t.committed, lo, hi) ==> Applied(t, u, MakeRequest(lo, hi - lo, p, t.page))
    ensures Reprotection(t, u, lo, hi, p)
  {
    if Clear(t.committed, lo, hi) {
      forall a ensures u.Cell(a) == ExactCell(t.Cell(a), lo <= a < hi, p) {
        assert lo <= a < hi ==> At(t.committed, a).None?;
      }
    } else {
      AlignedProtectExact(t, u, lo, hi, p);
      AlignedRequest(lo, hi, p, t.page);
    }
  }

  /** The last step of the commit. */
  lemma FixedOverFinish(s: Space, t: Space, u: Space, gaps: seq<Extent>, refused: seq<Extent>, lo: nat, hi: nat, p: Prot)
    requires Valid(s) && lo < hi && Aligned(lo, s.page) && Aligned(hi, s.page)
    requires GapsOf(gaps, s.committed, lo, hi) && NonNegative(gaps) && GapsDone(s, t, gaps, refused, p)
    requires Reprotection(t, u, lo, hi, p)
    ensures FixedOver(s, u, lo, hi, refused, p)
    ensures forall a :: At(u.committed, a).Some? <==> At(t.committed, a).Some?
  {
    if Clear(t.committed, lo, hi) {
      assert At(t.committed, lo).None? && t.Cell(lo).None?;
      assert At(gaps, lo).Some? <==> At(s.committed, lo).None?;
      assert refused != [];
    }
    FixedOverHolds(s, t, u, gaps, refused, lo, hi, p);
    forall a ensures At(u.committed, a).Some? <==> At(t.committed, a).Some? {
      assert u.Cell(a) == ExactCell(t.Cell(a), lo <= a < hi, p);
    }
  }

  // ---- The invariant, and what a refusal costs ----

  /** `refused` is made of gaps of [lo, hi), each in full. */
  ghost predicate WholeGaps(s: Space, lo: int, hi: int, refused: seq<Extent>) {
    && (forall a :: At(refused, a).Some? ==> lo <= a < hi && s.Cell(a).None?)
    && (forall a, b :: At(refused, a).Some? && lo <= b < hi && Clear(s.committed, Min(a, b), Max(a, b) + 1) ==> At(refused, b).Some?)
  }

  /** Committing over a span keeps the invariant exactly when no gap the host refused holds a
      whole host page above the floor: that page is then neither free nor committed. */
  lemma RefusedGapLeaks(s: Space, u: Space, lo: nat, hi: nat, refused: seq<Extent>, p: Prot)
    requires Valid(s) && s.base <= lo < hi <= s.Top() && Aligned(lo, s.page) && Aligned(hi, s.page)
    requires FixedOver(s, u, lo, hi, refused, p)
    requires WholeGaps(s, lo, hi, refused)
    ensures Valid(u) <==> forall a :: s.base + LOWEST_USABLE <= a && At(refused, a).Some? ==> !s.PageClear(a)
  {
    FixedEpochs(s, u, lo, hi, refused, p);
    FixedFreeOk(s, u, lo, hi, refused, p);
    if a :| s.base + LOWEST_USABLE <= a && At(refused, a).Some? && s.PageClear(a) {
      var h := AlignDown(a, s.page);
      PageInside(lo, hi, a, s.page);
      assert VacantPage(s.committed, s.page, lo, hi, a);
      forall b | h <= b < h + s.page ensures At(u.committed, b).None? {
        assert Clear(s.committed, Min(a, b), Max(a, b) + 1);
        assert At(refused, b).Some? && lo <= b < hi && s.Cell(b).None?;
        assert u.Cell(b).None?;
      }
      assert u.PageClear(a) && !u.Free(a);
    } else {
      forall a | u.base + LOWEST_USABLE <= a < u.Top() && u.PageClear(a) ensures u.Free(a) {
        assert At(u.committed, a).None? && u.Cell(a).None?;
        ClearPageStaysFree(s, u, lo, hi, refused, p, a);
      }
    }
  }

  lemma ClearPageStaysFree(s: Space, u: Space, lo: nat, hi: nat, refused: seq<Extent>, p: Prot, a: nat)
    requires Valid(s) && s.base <= lo < hi <= s.Top() && Aligned(lo, s.page) && Aligned(hi, s.page)
    requires FixedOver(s, u, lo, hi, refused, p)
    requires forall b :: s.base + LOWEST_USABLE <= b && At(refused, b).Some? ==> !s.PageClear(b)
    requires u.base + LOWEST_USABLE <= a < u.Top() && u.PageClear(a)
    ensures u.Free(a)
  {
    var h := AlignDown(a, s.page);
    forall b | h <= b < h + s.page ensures At(s.committed, b).None? {
      assert At(u.committed, b).None? && u.Cell(b).None?;
      PageSplit(lo, hi, a, b, s.page);
      assert s.Cell(b).Some? ==> u.Cell(b).Some?;
    }
    assert s.PageClear(a) && s.Free(a);
    assert u.Cell(a).None? by { assert At(u.committed, a).None?; }
    assert lo <= a < hi && s.Cell(a).None? && u.Cell(a).None? ==> At(refused, a).Some?;
  }

  lemma FixedEpochs(s: Space, u: Space, lo: nat, hi: nat, refused: seq<Extent>, p: Prot)
    requires Valid(s) && FixedOver(s, u, lo, hi, refused, p)
    ensures EpochsOk(u) && 0 < u.nextEpoch
  {
    forall a | u.Cell(a).Some? ensures 0 <= a && 0 < u.Cell(a).value.epoch < u.nextEpoch {
      if s.Cell(a).Some? {
        assert u.Cell(a) == ExactCell(s.Cell(a), lo <= a < hi, p);
      }
    }
  }

  lemma FixedFreeOk(s: Space, u: Space, lo: nat, hi: nat, refused: seq<Extent>, p: Prot)
    requires Valid(s) && Aligned(lo, s.page) && Aligned(hi, s.page) && FixedOver(s, u, lo, hi, refused, p)
    ensures FreeOk(u)
  {
    forall a | u.Free(a) ensures u.base <= a < u.Top() && u.PageFree(a) && u.PageClear(a) {
      assert s.Free(a) && s.PageFree(a) && s.PageClear(a);
      var h := AlignDown(a, s.page);
      forall b | h <= b < h + s.page ensures At(u.free, b).Some? && At(u.committed, b).None? {
        PageSplit(lo, hi, a, b, s.page);
        assert At(s.free, b).Some? && At(s.committed, b).None?;
        assert s.Free(b) && u.Free(b) && u.Cell(b) == s.Cell(b);
      }
    }
  }

  // ---- What committing over a span does to memory already there ----

  /** No byte already committed changes. A byte newly committed reads as zero exactly when
      nothing lived in its host page or it happened to hold zero: a page shared with a
      neighbour is not mapped afresh. */
  lemma FixedBytes(s: Space, u: Space, lo: nat, hi: nat, refused: seq<Extent>, p: Prot, a: nat)
    requires Valid(s) && Aligned(lo, s.page) && Aligned(hi, s.page) && FixedOver(s, u, lo, hi, refused, p)
    ensures s.Cell(a).Some? ==> u.bytes(a) == s.bytes(a)
    ensures lo <= a < hi && s.Cell(a).None? ==> (u.bytes(a) == 0 <==> s.PageClear(a) || s.bytes(a) == 0)
  {
    if s.Cell(a).Some? {
      assert At(s.committed, a).Some?;
      assert !s.PageClear(a);
    }
    if lo <= a < hi {
      PageInside(lo, hi, a, s.page);
      assert VacantPage(s.committed, s.page, lo, hi, a) <==> s.PageClear(a);
    }
  }

  /** A byte committed before has every permission it had, after `u`. */
  predicate KeepsPermissions(s: Space, u: Space, a: int) {
    s.Cell(a).Some? ==> u.Cell(a).Some? && u.Cell(a).value.prot.Covers(s.Cell(a).value.prot)
  }

  /** Committing over a span takes no permission away exactly when the new protection covers
      that of every byte already committed in the host pages the request touches, neighbours
      outside the request included. */
  lemma FixedPermissions(s: Space, u: Space, lo: nat, hi: nat, refused: seq<Extent>, p: Prot)
    requires 0 < s.page && FixedOver(s, u, lo, hi, refused, p)
    ensures (forall a :: KeepsPermissions(s, u, a)) <==>
      forall a :: lo <= a < hi && s.Cell(a).Some? ==> p.Covers(s.Cell(a).value.prot)
  {
    forall a | s.Cell(a).Some?
      ensures KeepsPermissions(s, u, a) <==> (lo <= a < hi ==> p.Covers(s.Cell(a).value.prot))
    {
      assert u.Cell(a) == ExactCell(s.Cell(a), lo <= a < hi, p);
    }
    if forall a :: KeepsPermissions(s, u, a) {
      forall a | lo <= a < hi && s.Cell(a).Some? ensures p.Covers(s.Cell(a).value.prot) {
        assert KeepsPermissions(s, u, a);
      }
    }
  }

  /** The host allows at `a` what the guest is told it may do there. */
  predicate Honoured(s: Space, a: int) {
    s.Cell(a).Some? ==> s.host(a).Allows(s.Cell(a).value.prot)
  }

  /** After a commit over a span the host honours every permission exactly when it opened the
      span for writing, or already allowed the new protection on the fully committed host
      pages, which are not touched. */
  lemma FixedHost(s: Space, u: Space, lo: nat, hi: nat, p: Prot)
    requires Valid(s) && FixedOver(s, u, lo, hi, [], p) && forall a :: Honoured(s, a)
    ensures (forall a :: Honoured(u, a)) <==>
      p.write || forall a :: lo <= a < hi && !PageHasRoom(s, a) ==> s.host(a).Allows(p)
  {
    forall a ensures Honoured(u, a) <==> !(lo <= a < hi) || p.write || PageHasRoom(s, a) || s.host(a).Allows(p) {
      assert Honoured(s, a) && u.host(a) == HostAfter(s, lo, hi, p, a);
      if !(lo <= a < hi) {
        assert u.Cell(a) == ExactCell(s.Cell(a), false, p);
      } else if s.Cell(a).Some? {
        assert u.Cell(a) == ExactCell(s.Cell(a), true, p);
      } else {
        assert Fresh(s, u, p, u.Cell(a));
      }
    }
  }
}
