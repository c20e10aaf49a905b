/** The anonymous fixed mapping of the mmap system call. Linux promises that every byte of it
    reads as zero; here that takes a commit, dropped pages and writes by hand, because host
    pages shared with a neighbour must not be mapped afresh. */
module MapAnonymous {
  import opened Pages
  import opened Spans
  import opened GuestView
  import opened RangeIndex
  import opened RangeEdit
  import opened SpaceSpec
  import opened SpaceOps
  import opened Protection
  import opened FixedCommit
  import opened AddressSpace
  import opened Placement
  import opened Records

  /** Zeroes the part of [low, high) inside the mapping. */
  method Zero(space: GuestAddressSpace, low: int, high: int, placed: int, end: int)
    modifies space`bytes
    ensures forall a :: space.bytes(a) == if placed <= a < end && low <= a < high then 0 else old(space.bytes)(a)
  {
    var from, to := Max(low, placed), Min(high, end);
    if from < to {
      space.Memset(from, to);
    }
  }

  /** Clears one piece that was committed before: its whole host pages are given back, and the
      host pages it shares with something else are zeroed by hand. */
  method ClearPiece(space: GuestAddressSpace, piece: Extent, placed: nat, end: nat)
    requires space.Inv() && placed <= piece.begin < piece.End() <= end
    requires space.base <= placed && end <= space.base + space.size
    modifies space`bytes, space`host
    ensures space.Inv() && SameLists(old(space.Now()), space.Now())
    ensures Zeroed(old(space.bytes), space.bytes, placed, end, [piece], space.page)
  {
    ghost var before := space.Now();
    var low, high := AlignUp(piece.begin, space.page), AlignDown(piece.End(), space.page);
    if low < high {
      AlignedFixed(low, space.page);
      AlignedFixed(high, space.page);
      space.DropPages(low, high - low);
    }
    Zero(space, AlignDown(piece.begin, space.page), Min(low, piece.End()), placed, end);
    Zero(space, Max(high, piece.begin), AlignUp(piece.End(), space.page), placed, end);
    SameListsValid(before, space.Now());
    forall a ensures space.bytes(a) == if placed <= a < end && At(Widened([piece], space.page), a).Some? then 0 else before.bytes(a) {
      PieceCovered(piece, space.page, a);
    }
  }

  /** The whole host pages of a piece and the two ends zeroed by hand are its host pages. */
  lemma PieceCovered(piece: Extent, page: nat, a: int)
    requires 0 < page && 0 <= piece.begin < piece.End()
    ensures At(Widened([piece], page), a).Some? <==>
      var low, high := AlignUp(piece.begin, page), AlignDown(piece.End(), page);
      || low <= a < high || AlignDown(piece.begin, page) <= a < Min(low, piece.End())
      || Max(high, piece.begin) <= a < AlignUp(piece.End(), page)
  {
    AppendedAt([], piece, page);
    assert [] + [piece] == [piece];
  }

  /** The part of the mapping on host pages touched by `pieces` has been zeroed, nothing else. */
  ghost predicate Zeroed(before: int -> int, after: int -> int, placed: int, end: int, pieces: seq<Extent>, page: nat)
    requires 0 < page && NonNegative(pieces)
  {
    forall a :: after(a) == if placed <= a < end && At(Widened(pieces, page), a).Some? then 0 else before(a)
  }

  method ClearPieces(space: GuestAddressSpace, stale: seq<Extent>, placed: nat, end: nat)
    requires space.Inv() && space.base <= placed && end <= space.base + space.size
    requires NonNegative(stale) && forall i :: 0 <= i < |stale| ==> placed <= stale[i].begin < stale[i].End() <= end
    modifies space`bytes, space`host
    ensures space.Inv() && SameLists(old(space.Now()), space.Now())
    ensures Zeroed(old(space.bytes), space.bytes, placed, end, stale, space.page)
  {
    var k := 0;
    while k < |stale|
      invariant 0 <= k <= |stale| && space.Inv() && SameLists(old(space.Now()), space.Now())
      invariant Zeroed(old(space.bytes), space.bytes, placed, end, stale[..k], space.page)
    {
      assert stale[..k + 1] == stale[..k] + [stale[k]];
      AppendedAt(stale[..k], stale[k], space.page);
      AppendedAt([], stale[k], space.page);
      assert [] + [stale[k]] == [stale[k]];
      ClearPiece(space, stale[k], placed, end);
      k := k + 1;
    }
    assert stale[..k] == stale;
  }

  /** What a mapping asked for with no access gets: it still has to occupy its addresses. */
  function Asked(protection: Prot): Prot {
    if protection == Prot(false, false, false) then Prot(true, false, false) else protection
  }

  /** The protection a byte of the mapping ends up with: what was asked for, or that and the write
      access it was filled in with, where its range reaches over the mapping's whole host pages. */
  ghost predicate Settled(cell: Option<Cell>, p: Prot, exact: bool) {
    cell.Some? && (cell.value.prot == p || (!exact && cell.value.prot == p.(write := true)))
  }

  /** Maps [address, address + length) at a fixed address, anonymous, the host agreeing
      throughout. */
  method MapFixedAnonymous(space: GuestAddressSpace, address: nat, length: nat, protection: Prot) returns (ok: bool)
    requires space.Inv()
    modifies space
    ensures space.Inv() && (ok <==> 0 < length && space.base <= address && address + length <= space.base + space.size)
    ensures !ok ==> space.Now() == old(space.Now())
    ensures ok ==> forall a :: address <= a < address + length ==> space.bytes(a) == 0
    ensures ok ==> forall a :: address <= a < address + length ==>
      Settled(space.Now().Cell(a), if protection.read || protection.write || protection.exec then protection else Prot(true, false, false),
              Aligned(address, space.page) && Aligned(address + length, space.page))
    ensures ok ==> forall a :: !(address <= a < address + length) && old(space.Now()).Cell(a).Some? ==>
      space.bytes(a) == old(space.bytes)(a)
  {
    var end := address + length;
    if length == 0 || address < space.base || space.base + space.size < end {
      return false;
    }
    ghost var before := space.Now();
    var stale := CommittedIn(space.committed, address, end);
    ok := Start(space, address, end, Asked(protection).(write := true));
    if !ok {
      return;
    }
    ghost var mid := space.Now();
    Fill(space, stale, address, end, Asked(protection).(write := true), before, mid);
    ghost var filled := space.Now();
    assert forall a :: filled.Cell(a) == mid.Cell(a);
    Settle(space, address, end, Asked(protection), filled, Aligned(address, space.page) && Aligned(end, space.page));
  }

  /** Zeroes everything of the mapping that was not mapped afresh. */
  method Fill(space: GuestAddressSpace, stale: seq<Extent>, address: nat, end: nat, ghost p: Prot, ghost s: Space, ghost t: Space)
    requires space.Inv() && space.base <= address < end <= space.base + space.size && t == space.Now()
    requires Valid(s) && Started(s, t, address, end, p) && Sorted(stale)
    requires forall b :: At(stale, b).Some? <==> address <= b < end && At(s.committed, b).Some?
    modifies space`bytes, space`host
    ensures space.Inv() && SameLists(t, space.Now())
    ensures forall a :: address <= a < end ==> space.bytes(a) == 0
    ensures forall a :: !(address <= a < end) ==> space.bytes(a) == t.bytes(a)
  {
    PiecesInside(s, stale, address, end);
    ClearPieces(space, stale, address, end);
    ClearEnds(space, address, end);
    forall a | address <= a < end ensures space.bytes(a) == 0 {
      EveryByteCleared(s, t, stale, address, end, p, a);
    }
  }

  /** Takes write access away again if it was not asked for. */
  method Settle(space: GuestAddressSpace, address: nat, end: nat, p: Prot, ghost s: Space, ghost exact: bool)
    requires space.Inv() && address < end && s == space.Now() && (exact ==> Aligned(address, space.page) && Aligned(end, space.page))
    requires forall a :: address <= a < end ==> s.Cell(a).Some? && s.Cell(a).value.prot == p.(write := true)
    modifies space`committed, space`host
    ensures space.Inv()
    ensures forall a :: address <= a < end ==> Settled(space.Now().Cell(a), p, exact)
  {
    if p.write {
      return;
    }
    ghost var q := MakeRequest(address, end - address, p, space.page);
    RequestCovers(address, end, p, space.page, q);
    RequestExact(address, end, p, space.page, q, exact);
    MetByCell(s, q, address);
    var changed, notify := space.Protect(address, end - address, p);
    ghost var t := space.Now();
    assert Applied(s, t, q) && Harmless(s.committed, q);
    SettledAll(s, t, address, end, q, exact);
  }

  lemma RequestCovers(lo: nat, hi: nat, p: Prot, page: nat, q: Request)
    requires 0 < page && lo < hi && q == MakeRequest(lo, hi - lo, p, page)
    ensures q.begin <= lo && hi <= q.end && q.prot == p
  {
  }

  lemma RequestExact(lo: nat, hi: nat, p: Prot, page: nat, q: Request, exact: bool)
    requires 0 < page && lo < hi && q == MakeRequest(lo, hi - lo, p, page)
    requires exact ==> Aligned(lo, page) && Aligned(hi, page)
    ensures exact ==> q == Request(lo, hi, lo, hi, p)
  {
    if exact { AlignedRequest(lo, hi, p, page); }
  }

  lemma SettledAll(s: Space, t: Space, lo: nat, hi: nat, q: Request, exact: bool)
    requires Valid(s) && q.begin <= lo < hi <= q.end && !q.prot.write && Applied(s, t, q)
    requires exact ==> q.strictBegin == q.begin && q.strictEnd == q.end
    requires forall a :: lo <= a < hi ==> s.Cell(a).Some? && s.Cell(a).value.prot == q.prot.(write := true)
    ensures forall a :: lo <= a < hi ==> Settled(t.Cell(a), q.prot, exact)
  {
    forall a | lo <= a < hi ensures Settled(t.Cell(a), q.prot, exact) {
      SettledByte(s, t, q, a);
    }
  }

  lemma MetByCell(s: Space, q: Request, a: int)
    requires s.Cell(a).Some? && q.begin <= a < q.end
    ensures Meeting(s.committed, q)
  {
    var i := AtWitness(s.committed, a);
  }

  lemma TouchedProt(x: GuestRange, q: Request, a: int)
    requires q.begin <= a < q.end
    ensures CellAfter(x, q, a).prot == q.prot || CellAfter(x, q, a).prot == x.tag.prot.Or(q.prot)
    ensures q.strictBegin == q.begin && q.strictEnd == q.end ==> CellAfter(x, q, a).prot == q.prot
  {
  }

  lemma SettledByte(s: Space, t: Space, q: Request, a: int)
    requires Valid(s) && q.begin <= a < q.end && !q.prot.write && Applied(s, t, q)
    requires s.Cell(a).Some? && s.Cell(a).value.prot == q.prot.(write := true)
    ensures Settled(t.Cell(a), q.prot, q.strictBegin == q.begin && q.strictEnd == q.end)
  {
    var i := AppliedCell(s, t, q, a);
    TouchedProt(s.committed[i], q, a);
  }

  method Start(space: GuestAddressSpace, address: nat, end: nat, protection: Prot) returns (ok: bool)
    requires space.Inv() && address < end && space.base <= address && end <= space.base + space.size
    modifies space
    ensures ok && space.Inv() && Started(old(space.Now()), space.Now(), address, end, protection)
  {
    ghost var before := space.Now();
    var notify;
    ghost var refused;
    AlignDownGreatest(address, space.base, space.page);
    AlignedSum(space.base, space.size, space.page);
    AlignUpLeast(end, space.base + space.size, space.page);
    ok, notify, refused := space.CommitFixed(address, end - address, protection, true, g => true);
    FixedStart(before, space.Now(), address, end, protection, refused);
    assert space.Now().Cell(address).Some?;
  }

  /** Zeroes the host pages the mapping shares with the outside. */
  method ClearEnds(space: GuestAddressSpace, address: nat, end: nat)
    requires space.Inv() && address < end
    modifies space`bytes
    ensures space.Inv() && SameLists(old(space.Now()), space.Now())
    ensures forall a :: space.bytes(a) == if address <= a < end && OnEnds(a, address, end, space.page) then 0 else old(space.bytes)(a)
  {
    ghost var before := space.Now();
    var headEnd := Min(AlignUp(address, space.page), end);
    var tailBegin := Max(AlignDown(end, space.page), headEnd);
    Zero(space, address, headEnd, address, end);
    Zero(space, tailBegin, end, address, end);
    SameListsValid(before, space.Now());
  }

  predicate OnEnds(a: int, lo: nat, hi: nat, page: nat)
    requires 0 < page
  {
    var headEnd := Min(AlignUp(lo, page), hi);
    a < headEnd || Max(AlignDown(hi, page), headEnd) <= a
  }

  /** The pieces committed before lie inside the mapping. */
  lemma PiecesInside(s: Space, stale: seq<Extent>, lo: nat, hi: nat)
    requires Sorted(stale) && forall a :: At(stale, a).Some? <==> lo <= a < hi && At(s.committed, a).Some?
    ensures NonNegative(stale)
    ensures forall i :: 0 <= i < |stale| ==> lo <= stale[i].begin < stale[i].End() <= hi
  {
    forall i | 0 <= i < |stale| ensures lo <= stale[i].begin < stale[i].End() <= hi {
      OrderedIndex(stale, 0, i, i);
      AtIndex(stale, i, stale[i].begin);
      AtIndex(stale, i, stale[i].End() - 1);
    }
  }

  /** What the commit leaves behind, whichever way it went. */
  ghost predicate Started(s: Space, t: Space, lo: nat, hi: nat, p: Prot)
    requires 0 < s.page
  {
    && SameArena(s, t)
    && (forall a :: lo <= a < hi ==> t.Cell(a).Some? && t.Cell(a).value.prot == p)
    && (forall a: nat :: s.Cell(a).Some? ==> t.bytes(a) == s.bytes(a))
    && (forall a: nat :: lo <= a < hi && s.PageClear(a) ==> t.bytes(a) == 0)
  }

  lemma FixedStart(s: Space, t: Space, lo: nat, hi: nat, p: Prot, refused: seq<Extent>)
    requires Valid(s) && lo < hi
    requires var outer, outerEnd := AlignDown(lo, s.page), AlignUp(hi, s.page);
      Attempted(s, t, outer, outerEnd - outer, p, true) || (FixedOver(s, t, outer, outerEnd, refused, p) && refused == [])
    ensures Started(s, t, lo, hi, p)
  {
    var outer, outerEnd := AlignDown(lo, s.page), AlignUp(hi, s.page);
    if Attempted(s, t, outer, outerEnd - outer, p, true) {
      CommitStarts(s, t, outer, outerEnd, p);
    } else {
      FixedStarts(s, t, outer, outerEnd, p);
    }
  }

  lemma CommitStarts(s: Space, t: Space, lo: nat, hi: nat, p: Prot)
    requires Valid(s) && FreeRun(s, lo, hi) && Commits(s, t, lo, hi, p)
    ensures Started(s, t, lo, hi, p)
  {
    forall a: nat | s.Cell(a).Some? ensures t.bytes(a) == s.bytes(a) {
      if lo <= a < hi {
        assert At(s.free, a).Some? && s.Free(a);
        PagesOwnedOnce(s, a);
      }
    }
    forall a | lo <= a < hi ensures t.Cell(a).Some? && t.Cell(a).value.prot == p {
      assert At(t.committed, a).Some?;
    }
  }

  lemma FixedStarts(s: Space, t: Space, lo: nat, hi: nat, p: Prot)
    requires Valid(s) && Aligned(lo, s.page) && Aligned(hi, s.page) && FixedOver(s, t, lo, hi, [], p)
    ensures Started(s, t, lo, hi, p)
  {
    forall a: nat
      ensures s.Cell(a).Some? ==> t.bytes(a) == s.bytes(a)
      ensures lo <= a < hi && s.PageClear(a) ==> t.bytes(a) == 0
    {
      FixedBytes(s, t, lo, hi, [], p, a);
      if s.PageClear(a) { assert At(s.committed, a).None?; }
    }
    forall a | lo <= a < hi ensures t.Cell(a).Some? && t.Cell(a).value.prot == p {
      if s.Cell(a).Some? {
        assert t.Cell(a) == ExactCell(s.Cell(a), true, p);
      } else {
        assert Fresh(s, t, p, t.Cell(a));
      }
    }
  }

  /** Every byte of the mapping was mapped afresh, lies on a host page of a piece that was
      committed before, or lies on a host page the mapping shares with the outside. */
  lemma EveryByteCleared(s: Space, t: Space, stale: seq<Extent>, lo: nat, hi: nat, p: Prot, a: nat)
    requires Valid(s) && Started(s, t, lo, hi, p) && lo <= a < hi
    requires Sorted(stale) && NonNegative(stale)
    requires forall b :: At(stale, b).Some? <==> lo <= b < hi && At(s.committed, b).Some?
    ensures t.bytes(a) == 0 || At(Widened(stale, s.page), a).Some? || OnEnds(a, lo, hi, s.page)
  {
    var h := AlignDown(a, s.page);
    if !s.PageClear(a) {
      var b :| h <= b < h + s.page && At(s.committed, b).Some?;
      SamePage(h, b, s.page);
      if lo <= b < hi {
        assert At(stale, b).Some?;
        var i := AtWitness(stale, b);
        PageReached(stale[i], a, b, s.page);
        WidenedIndex(stale, s.page);
        AtSome(Widened(stale, s.page), i, a);
      } else if b < lo {
        EdgePage(h, b, lo, s.page);
      } else {
        EdgePage(h, a, hi, s.page);
      }
    }
  }

  /** A boundary strictly inside a page rounds to the page's ends. */
  lemma EdgePage(h: nat, b: nat, v: nat, page: nat)
    requires 0 < page && Aligned(h, page) && h <= b < v < h + page
    ensures AlignDown(v, page) == h && AlignUp(v, page) == h + page
  {
    SamePage(h, v, page);
    AlignedSum(h, page, page);
    AlignUpLeast(v, h + page, page);
    AlignedApart(h, AlignUp(v, page), page);
  }
}
