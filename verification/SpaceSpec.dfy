/** The address space as a value: the two lists, the epoch counter and the host memory
    behind them. Each operation is a relation between two such values, stated address by
    address, and the invariant is proved kept by every relation. */
module SpaceSpec {
  import opened Pages
  import opened Spans
  import opened GuestView
  import opened RangeEdit

  /** `bytes` and `host` are the host's side: what each address holds and what access the
      host allows there. */
  datatype Space = Space(
    base: nat,
    size: nat,
    page: nat,
    free: seq<Extent>,
    committed: seq<GuestRange>,
    nextEpoch: nat,
    bytes: int -> int,
    host: int -> Access)
  {
    function Top(): nat { base + size }

    /** What the guest is told about address `a`. */
    function Cell(a: int): Option<Cell> { At(committed, a) }

    predicate Free(a: int) { At(free, a).Some? }

    /** Nothing is committed anywhere in the host page holding `a`. */
    ghost predicate PageClear(a: nat)
      requires 0 < page
    {
      Clear(committed, AlignDown(a, page), AlignDown(a, page) + page)
    }

    ghost predicate PageFree(a: nat)
      requires 0 < page
    {
      Full(free, AlignDown(a, page), AlignDown(a, page) + page)
    }
  }

  /** The lowest 64 KB of an arena are never on the initial free list. */
  const LOWEST_USABLE := 64 * 1024

  // ---- The invariant ----

  ghost predicate Geometry(s: Space) {
    && 0 < s.page && 0 < s.base
    && Aligned(s.base, s.page) && Aligned(s.size, s.page) && Aligned(LOWEST_USABLE, s.page)
  }

  ghost predicate ListsOk(s: Space) {
    && Gapped(s.free)
    && Sorted(s.committed) && NoMergeable(s.committed)
  }

  /** Every committed byte lies at a real address under an epoch already handed out. */
  ghost predicate EpochsOk(s: Space) {
    forall a :: s.Cell(a).Some? ==> 0 <= a && 0 < s.Cell(a).value.epoch < s.nextEpoch
  }

  /** A free byte is in the arena, its whole host page is free and nothing lives there. */
  ghost predicate FreeOk(s: Space)
    requires 0 < s.page
  {
    forall a :: s.Free(a) ==> s.base <= a < s.Top() && s.PageFree(a) && s.PageClear(a)
  }

  /** A host page above the lowest 64 KB that nothing lives in is free: nothing leaks. */
  ghost predicate NoLeak(s: Space)
    requires 0 < s.page
  {
    forall a :: s.base + LOWEST_USABLE <= a < s.Top() && s.PageClear(a) ==> s.Free(a)
  }

  ghost predicate Valid(s: Space) {
    && Geometry(s)
    && ListsOk(s)
    && 0 < s.nextEpoch
    && EpochsOk(s)
    && FreeOk(s)
    && NoLeak(s)
  }

  /** No address is owned twice, and a host page above the floor is either wholly free or
      holds a committed byte. */
  lemma PagesOwnedOnce(s: Space, a: nat)
    requires Valid(s) && s.base <= a < s.Top()
    ensures !(s.Free(a) && s.Cell(a).Some?)
    ensures s.base + LOWEST_USABLE <= a ==>
      (s.PageFree(a) || exists b :: AlignDown(a, s.page) <= b < AlignDown(a, s.page) + s.page && s.Cell(b).Some?)
    ensures !(s.PageFree(a) && exists b :: AlignDown(a, s.page) <= b < AlignDown(a, s.page) + s.page && s.Cell(b).Some?)
  {
    var h := AlignDown(a, s.page);
    if s.PageFree(a) {
      assert At(s.free, a).Some?;
      assert s.Free(a) && s.PageClear(a);
    }
    if s.base + LOWEST_USABLE <= a && !s.PageFree(a) {
      assert !s.Free(a) && !s.PageClear(a);
      var b :| h <= b < h + s.page && At(s.committed, b).Some?;
      assert s.Cell(b).Some?;
    }
  }

  /** A free extent starts and stops on host page boundaries. */
  lemma ExtentAligned(s: Space, i: int)
    requires Valid(s) && 0 <= i < |s.free|
    ensures 0 < s.free[i].size && s.base <= s.free[i].begin && s.free[i].End() <= s.Top()
    ensures Aligned(s.free[i].begin, s.page) && Aligned(s.free[i].End(), s.page)
  {
    var x := s.free[i];
    GappedIsSorted(s.free);
    OrderedIndex(s.free, 1, i, i);
    AtIndex(s.free, i, x.begin);
    AtIndex(s.free, i, x.End() - 1);
    assert s.Free(x.begin) && s.Free(x.End() - 1);
    PageOfFreeByte(s, i, x.begin);
    PageOfFreeByte(s, i, x.End() - 1);
    var h := AlignDown(x.End() - 1, s.page);
    AlignedSum(h, s.page, s.page);
  }

  lemma PageOfFreeByte(s: Space, i: int, a: int)
    requires Valid(s) && 0 <= i < |s.free| && s.free[i].Has(a) && s.Free(a)
    ensures 0 <= a && s.free[i].begin <= AlignDown(a, s.page) && AlignDown(a, s.page) + s.page <= s.free[i].End()
  {
    var h := AlignDown(a, s.page);
    assert s.PageFree(a);
    var j := FullInOneSpan(s.free, h, h + s.page);
    if i < j { OrderedIndex(s.free, 1, i, j); }
    if j < i { OrderedIndex(s.free, 1, j, i); }
  }

  // ---- Host pages and aligned spans ----

  /** A page either lies inside a span of whole pages or misses it. */
  lemma PageSplit(lo: nat, hi: nat, a: nat, b: nat, page: nat)
    requires 0 < page && Aligned(lo, page) && Aligned(hi, page)
    requires AlignDown(a, page) <= b < AlignDown(a, page) + page
    ensures lo <= a < hi <==> lo <= b < hi
    ensures AlignDown(b, page) == AlignDown(a, page)
  {
    SamePage(AlignDown(a, page), b, page);
    if lo <= a < hi { PageInside(lo, hi, a, page); }
    if lo <= b < hi { PageInside(lo, hi, b, page); }
  }

  ghost predicate SameArena(s: Space, t: Space) {
    t.base == s.base && t.size == s.size && t.page == s.page
  }

  /** [lo, hi), whole host pages, becomes committed and stops being free. */
  ghost predicate Occupies(s: Space, t: Space, lo: int, hi: int) {
    && SameArena(s, t)
    && (forall a :: t.Cell(a).Some? <==> s.Cell(a).Some? || lo <= a < hi)
    && (forall a :: t.Free(a) <==> s.Free(a) && !(lo <= a < hi))
  }

  lemma OccupyKeepsOwnership(s: Space, t: Space, lo: nat, hi: nat)
    requires Valid(s) && Occupies(s, t, lo, hi) && Aligned(lo, s.page) && Aligned(hi, s.page)
    ensures FreeOk(t) && NoLeak(t)
  {
    forall a | t.Free(a) ensures t.base <= a < t.Top() && t.PageFree(a) && t.PageClear(a) {
      assert s.Free(a);
      OutsidePage(s, t, lo, hi, a);
    }
    forall a | t.base + LOWEST_USABLE <= a < t.Top() && t.PageClear(a) ensures t.Free(a) {
      assert t.Cell(a).None?;
      OutsidePage(s, t, lo, hi, a);
      assert s.Free(a);
    }
  }

  lemma OutsidePage(s: Space, t: Space, lo: nat, hi: nat, a: nat)
    requires Valid(s) && Occupies(s, t, lo, hi) && Aligned(lo, s.page) && Aligned(hi, s.page)
    requires !(lo <= a < hi)
    ensures t.PageClear(a) <==> s.PageClear(a)
    ensures t.PageFree(a) <==> s.PageFree(a)
  {
    var h := AlignDown(a, s.page);
    forall b | h <= b < h + s.page
      ensures At(t.committed, b).Some? <==> At(s.committed, b).Some?
      ensures At(t.free, b).Some? <==> At(s.free, b).Some?
    {
      PageSplit(lo, hi, a, b, s.page);
      assert t.Cell(b).Some? <==> s.Cell(b).Some?;
      assert t.Free(b) <==> s.Free(b);
    }
  }

  /** [lo, hi) stops being committed; the host pages of [outer, outerEnd) that are then
      empty become free. */
  ghost predicate Vacates(s: Space, t: Space, lo: int, hi: int, outer: int, outerEnd: int)
    requires 0 < t.page
  {
    && SameArena(s, t)
    && outer <= lo && hi <= outerEnd
    && (forall a :: t.Cell(a).Some? <==> s.Cell(a).Some? && !(lo <= a < hi))
    && (forall a :: t.Free(a) <==> s.Free(a) || VacantPage(t.committed, t.page, outer, outerEnd, a))
  }

  lemma VacateKeepsOwnership(s: Space, t: Space, lo: nat, hi: nat, outer: nat, outerEnd: nat)
    requires Valid(s) && 0 < t.page && Vacates(s, t, lo, hi, outer, outerEnd)
    requires Aligned(outer, s.page) && Aligned(outerEnd, s.page) && s.base <= outer && outerEnd <= s.Top()
    ensures FreeOk(t) && NoLeak(t)
  {
    forall a | t.Free(a) ensures t.base <= a < t.Top() && t.PageFree(a) && t.PageClear(a) {
      if s.Free(a) {
        FreePageStaysFree(s, t, lo, hi, outer, outerEnd, a);
      } else {
        VacantPageBecomesFree(s, t, lo, hi, outer, outerEnd, a);
      }
    }
    forall a | t.base + LOWEST_USABLE <= a < t.Top() && t.PageClear(a) ensures t.Free(a) {
      if outer <= a < outerEnd {
        PageInside(outer, outerEnd, a, s.page);
        assert VacantPage(t.committed, t.page, outer, outerEnd, a);
      } else {
        var h := AlignDown(a, s.page);
        forall b | h <= b < h + s.page ensures At(s.committed, b).None? {
          PageSplit(outer, outerEnd, a, b, s.page);
          assert At(t.committed, b).None? && t.Cell(b).None?;
        }
        assert s.PageClear(a) && s.Free(a);
      }
    }
  }

  lemma FreePageStaysFree(s: Space, t: Space, lo: nat, hi: nat, outer: nat, outerEnd: nat, a: int)
    requires Valid(s) && 0 < t.page && Vacates(s, t, lo, hi, outer, outerEnd) && s.Free(a)
    ensures t.base <= a < t.Top() && t.PageFree(a) && t.PageClear(a)
  {
    var h := AlignDown(a, s.page);
    assert s.PageFree(a) && s.PageClear(a);
    forall b | h <= b < h + s.page ensures At(t.free, b).Some? && At(t.committed, b).None? {
      assert At(s.free, b).Some? && At(s.committed, b).None?;
      assert s.Free(b) && s.Cell(b).None?;
      assert t.Free(b) && t.Cell(b).None?;
    }
  }

  lemma VacantPageBecomesFree(s: Space, t: Space, lo: nat, hi: nat, outer: nat, outerEnd: nat, a: int)
    requires Valid(s) && 0 < t.page && Vacates(s, t, lo, hi, outer, outerEnd)
    requires s.base <= outer && outerEnd <= s.Top()
    requires VacantPage(t.committed, t.page, outer, outerEnd, a)
    ensures t.base <= a < t.Top() && t.PageFree(a) && t.PageClear(a)
  {
    var h := AlignDown(a, s.page);
    forall b | h <= b < h + s.page ensures At(t.free, b).Some? {
      SamePage(h, b, s.page);
      assert VacantPage(t.committed, t.page, outer, outerEnd, b);
      assert t.Free(b);
    }
  }

  // ---- A fresh arena ----

  ghost predicate Initial(s: Space) {
    && s.committed == [] && s.nextEpoch == 1
    && s.free == (if s.size > LOWEST_USABLE then [Span(s.base + LOWEST_USABLE, s.size - LOWEST_USABLE, ())] else [])
    && (forall a :: s.bytes(a) == 0) && (forall a :: s.host(a) == NO_ACCESS)
  }

  lemma InitialValid(s: Space)
    requires Geometry(s) && Initial(s)
    ensures Valid(s)
  {
    var x := Span(s.base + LOWEST_USABLE, s.size - LOWEST_USABLE, ());
    if s.size > LOWEST_USABLE { OrderedOne(x, 1); }
    forall a ensures s.Free(a) <==> s.base + LOWEST_USABLE <= a < s.Top() {
      AtSnoc([], x, a);
      assert [] + [x] == [x];
    }
    AlignedSum(s.base, LOWEST_USABLE, s.page);
    AlignedSum(s.base, s.size, s.page);
    forall a | s.Free(a) ensures s.PageFree(a) && s.PageClear(a) {
      PageInside(s.base + LOWEST_USABLE, s.Top(), a, s.page);
      var h := AlignDown(a, s.page);
      forall b | h <= b < h + s.page ensures At(s.free, b).Some? {
        assert s.Free(b);
      }
    }
  }
}
