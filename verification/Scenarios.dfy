/** Short histories of one arena in which a plausible promise fails. Each is an instance of the
    exact condition proved for the operation it ends with; `p` is the host page size. */
module Scenarios {
  import opened Pages
  import opened Spans
  import opened GuestView
  import opened SpaceSpec
  import opened SpaceOps
  import opened RangeEdit
  import opened FixedCommit
  import opened SpaceRuns

  const RW := Prot(true, true, false)
  const RO := Prot(true, false, false)
  const NONE := Prot(false, false, false)

  /** All but the first guest page of a writable page is unmapped; mapping the rest read-only then
      takes write permission away from the guest page that stayed. */
  lemma NeighbourLosesWrite(t: Space, u: Space, v: Space, a: nat, p: nat)
    requires 0 < t.page == p && t.Cell(a).Some? && t.Cell(a).value.prot == RW && Does(Release(a + 0x1000, a + p), t, u)
    requires 0 < u.page == p && Does(CommitOver(a, a + p, RO), u, v)
    ensures u.Cell(a).Some? && u.Cell(a).value.prot == RW
    ensures v.Cell(a).Some? && v.Cell(a).value.prot == RO && !KeepsPermissions(u, v, a)
  {
    assert u.Cell(a) == t.Cell(a);
    assert v.Cell(a) == ExactCell(u.Cell(a), true, RO);
  }

  /** In the same history a byte written before the unmapping is still there after the mapping,
      in memory that is newly committed and recorded as never written. */
  lemma StaleByteReappears(t: Space, u: Space, v: Space, a: nat, b: nat, p: nat)
    requires 0 < t.page == p && a + 0x1000 <= b < a + p && t.Cell(a).Some? && t.bytes(b) != 0
    requires Aligned(a, p) && Does(Release(a + 0x1000, a + p), t, u)
    requires 0 < u.page == p && Does(CommitOver(a, a + p, RO), u, v)
    ensures u.Cell(b).None? && v.Cell(b).Some? && !v.Cell(b).value.written && v.bytes(b) == t.bytes(b)
  {
    StaleByteStays(t, u, a, b, p);
    StaleByteCommitted(u, v, a, b, p);
  }

  lemma StaleByteCommitted(u: Space, v: Space, a: nat, b: nat, p: nat)
    requires 0 < u.page == p && Does(CommitOver(a, a + p, RO), u, v)
    requires a <= b < a + p && u.Cell(b).None? && !u.PageClear(b)
    ensures v.Cell(b).Some? && !v.Cell(b).value.written && v.bytes(b) == u.bytes(b)
  {
    assert Fresh(u, v, RO, v.Cell(b));
    assert !VacantPage(u.committed, u.page, a, a + p, b);
  }

  lemma StaleByteStays(t: Space, u: Space, a: nat, b: nat, p: nat)
    requires 0 < t.page == p && a + 0x1000 <= b < a + p && t.Cell(a).Some? && Aligned(a, p)
    requires Does(Release(a + 0x1000, a + p), t, u) && u.page == p
    ensures u.Cell(b).None? && !u.PageClear(b) && u.bytes(b) == t.bytes(b)
  {
    assert u.Cell(a) == t.Cell(a) && u.Cell(b).None?;
    SamePage(a, b, p);
    assert At(u.committed, a).Some? && !u.PageClear(b);
  }

  /** A whole free host page the host refuses to commit, beside one already committed, is lost:
      neither free nor committed. */
  lemma RefusedPageIsLost(s: Space, u: Space, a: nat, p: nat, refused: seq<Extent>)
    requires Valid(s) && s.page == p && s.base + LOWEST_USABLE <= a && a + 2 * p <= s.Top() && Aligned(a, p) && Aligned(a + p, p)
    requires Full(s.committed, a, a + p) && Clear(s.committed, a + p, a + 2 * p)
    requires FixedOver(s, u, a, a + 2 * p, refused, RW) && Full(refused, a + p, a + 2 * p)
    ensures !u.Free(a + p) && u.PageClear(a + p) && !Valid(u)
  {
    AlignedFixed(a + p, p);
    forall b | a + p <= b < a + 2 * p ensures At(u.committed, b).None? && !u.Free(b) {
      assert At(refused, b).Some? && At(s.committed, b).None?;
      assert s.Cell(b).None?;
      assert u.Cell(b).None?;
    }
  }

  /** Releasing the lowest host page, whether or not anything was ever mapped there, puts it on
      the free list. */
  lemma LowPageBecomesFree(t: Space, u: Space, p: nat)
    requires 0 < t.page == p <= LOWEST_USABLE && Aligned(t.base, p) && Does(Release(t.base, t.base + p), t, u)
    ensures u.Free(t.base) && !LowKept(u)
  {
    AlignedFixed(t.base, p);
    AlignedSum(p, t.base, p);
    AlignedFixed(t.base + p, p);
    forall b | t.base <= b < t.base + p ensures At(u.committed, b).None? {}
    assert VacantPage(u.committed, p, t.base, t.base + p, t.base);
  }

  /** Committing over memory mapped without access leaves the host refusing what the guest is
      told it may do. */
  lemma FixedCommitNotHonoured(s: Space, t: Space, u: Space, a: nat, p: nat)
    requires 0 < s.page == p && Does(Commit(a, a + p, NONE), s, t)
    requires 0 < t.page == p && Does(CommitOver(a, a + p, RO), t, u)
    ensures Honoured(t, a) && !Honoured(u, a)
  {
    assert t.Cell(a) == Some(FreshCell(s, NONE)) && t.host(a) == NO_ACCESS;
    assert u.Cell(a) == ExactCell(t.Cell(a), true, RO);
    SamePage(a, a, p);
    forall b | a <= b < a + p ensures At(t.committed, b).Some? {}
    assert !PageHasRoom(t, a) && u.host(a) == HostAfter(t, a, a + p, RO, a);
  }

  /** Adopting one outside mapping over another changes its epoch, and nobody is told. */
  lemma OutsideEpochChanges(s: Space, t: Space, u: Space, lo: nat, hi: nat)
    requires 0 < s.page && Does(AdoptOutside(lo, hi, RW), s, t) && 0 < t.page && Does(AdoptOutside(lo, hi, RW), t, u)
    ensures t.Cell(lo).Some? && !HasEpoch(u, lo, t.Cell(lo).value.epoch)
  {
    assert t.Cell(lo) == Some(FreshCell(s, RW));
    assert u.Cell(lo) == Some(FreshCell(t, RW));
  }
}
