/** Where an allocation goes, and what an attempt to commit it does. */
module Placement {
  import opened Pages
  import opened Spans
  import opened GuestView
  import opened RangeIndex
  import opened RangeEdit
  import opened SpaceSpec
  import opened SpaceOps

  /** The rounded hint is in the arena and free. */
  ghost predicate HintFits(s: Space, hint: nat, length: nat)
    requires 0 < s.page
  {
    var h := AlignDown(hint, s.page);
    hint != 0 && s.base <= h && h + length <= s.Top() && FitsAt(s.free, h, length)
  }

  /** The least fit at or above the floor, or the least fit anywhere if there is none. */
  ghost predicate FirstFitPlace(s: Space, floor: nat, length: nat, r: int)
    requires 0 < s.page
  {
    if floor != 0 && !NoFit(s.free, AlignUp(floor, s.page), length)
    then LeastFit(s.free, AlignUp(floor, s.page), length, r)
    else LeastFit(s.free, 0, length, r)
  }

  /** A free run was committed, or the host refused and it went back. */
  ghost predicate Attempted(s: Space, t: Space, lo: int, length: nat, p: Prot, ok: bool) {
    FreeRun(s, lo, lo + length) && if ok then Commits(s, t, lo, lo + length, p) else Refused(s, t, lo, lo + length)
  }

  lemma FitIsInArena(s: Space, a: int, length: nat)
    requires Valid(s) && 0 < length && FitsAt(s.free, a, length)
    ensures s.base <= a && a + length <= s.Top()
  {
    assert At(s.free, a).Some? && At(s.free, a + length - 1).Some?;
    assert s.Free(a) && s.Free(a + length - 1);
  }

  lemma FitIsAligned(s: Space, lowest: nat, a: int)
    requires Valid(s) && Aligned(lowest, s.page)
    requires 0 <= a && (a == lowest || exists i :: 0 <= i < |s.free| && s.free[i].begin == a)
    ensures Aligned(a, s.page)
  {
    if a != lowest {
      var i :| 0 <= i < |s.free| && s.free[i].begin == a;
      ExtentAligned(s, i);
    }
  }

  ghost predicate FitsAt(free: seq<Extent>, a: int, length: int) {
    Full(free, a, a + length)
  }

  /** `r` is the least address at or above `lowest` from which `length` bytes are free. */
  ghost predicate LeastFit(free: seq<Extent>, lowest: int, length: int, r: int) {
    && lowest <= r && FitsAt(free, r, length)
    && forall a :: lowest <= a < r ==> !FitsAt(free, a, length)
  }

  ghost predicate NoFit(free: seq<Extent>, lowest: int, length: int) {
    forall a :: lowest <= a ==> !FitsAt(free, a, length)
  }

  /** First fit over maximal extents finds the least address: a run of free bytes is never
      split between two extents. */
  lemma FirstFitIsLeast(free: seq<Extent>, index: nat, lowest: int, length: nat)
    requires Gapped(free) && 0 < length && index <= |free|
    requires forall i :: 0 <= i < index ==> free[i].End() < Max(free[i].begin, lowest) + length
    ensures forall a :: lowest <= a && FitsAt(free, a, length) ==>
      index < |free| && Max(free[index].begin, lowest) <= a
  {
    forall a | lowest <= a && FitsAt(free, a, length)
      ensures index < |free| && Max(free[index].begin, lowest) <= a
    {
      var i := FullInOneSpan(free, a, a + length);
      if index < i { OrderedIndex(free, 1, index, i); }
    }
  }

  /** A host refusal leaves the lists as they were; the free span has been mapped afresh. */
  ghost predicate Refused(s: Space, t: Space, lo: int, hi: int) {
    && SameArena(s, t) && t.free == s.free && t.committed == s.committed && t.nextEpoch == s.nextEpoch
    && (forall a :: t.bytes(a) == if lo <= a < hi then 0 else s.bytes(a))
    && (forall a :: t.host(a) == if lo <= a < hi then NO_ACCESS else s.host(a))
  }

  lemma RefusalKeepsValid(s: Space, t: Space, lo: int, hi: int)
    requires Valid(s) && Refused(s, t, lo, hi)
    ensures Valid(t)
  {
    OccupyKeepsOwnership(s, t, 0, 0);
  }

  /** In a run of free host pages, every byte's page is vacant and inside the run. */
  lemma RunIsVacant(s: Space, lo: int, hi: int)
    requires Valid(s) && FreeRun(s, lo, hi)
    ensures forall a :: VacantPage(s.committed, s.page, lo, hi, a) <==> lo <= a < hi
  {
    forall a ensures VacantPage(s.committed, s.page, lo, hi, a) <==> lo <= a < hi {
      if lo <= a < hi {
        assert At(s.free, a).Some? && s.Free(a) && s.PageClear(a);
        PageInside(lo, hi, a, s.page);
      }
    }
  }
}
