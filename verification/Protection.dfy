/** Changing the protection of a range: what a request grants and takes away, and the request
    for no bytes, which on a host page boundary touches nothing and yet can split a range. */
module Protection {
  import opened Pages
  import opened Spans
  import opened GuestView
  import opened RangeIndex
  import opened RangeEdit
  import opened SpaceSpec
  import opened SpaceOps

  /** What a protection request makes of the list. */
  function AfterProtect(rs: seq<GuestRange>, q: Request): seq<GuestRange>
  {
    Coalesced(SortByBegin(Reprotected(rs, q)))
  }

  lemma OrdinaryRequest(rs: seq<GuestRange>, q: Request)
    requires Sorted(rs) && q.begin < q.end
    ensures AfterProtect(rs, q) == Coalesced(Reprotected(rs, q))
  {
    ReprotectedOrdered(rs, q);
    SortOfSorted(Reprotected(rs, q));
  }

  /** The request is empty and sits strictly inside range `i`. */
  ghost predicate SplitsAt(rs: seq<GuestRange>, q: Request, i: int) {
    0 <= i < |rs| && q.begin == q.end && rs[i].begin < q.begin < rs[i].End()
  }

  /** The request splits no range whose protection or written flag it would change. */
  ghost predicate Harmless(rs: seq<GuestRange>, q: Request) {
    forall i :: SplitsAt(rs, q, i) ==> Touched(rs[i], q).tag == rs[i].tag
  }

  function Pieces(x: GuestRange, q: Request): seq<GuestRange>
  {
    [Span(x.begin, q.begin - x.begin, x.tag), Touched(x, q), Span(q.end, x.End() - q.end, x.tag)]
  }

  lemma {:induction false} ReprotectMissed(rs: seq<GuestRange>, q: Request)
    requires forall i :: 0 <= i < |rs| ==> !rs[i].Meets(q.begin, q.end)
    ensures Reprotected(rs, q) == rs
    decreases |rs|
  {
    if rs != [] {
      ReprotectMissed(rs[..|rs| - 1], q);
    }
  }

  lemma {:induction false} ReprotectSplit(rs: seq<GuestRange>, q: Request, i: int)
    requires Sorted(rs) && SplitsAt(rs, q, i)
    ensures Reprotected(rs, q) == rs[..i] + Pieces(rs[i], q) + rs[i + 1..]
    decreases |rs|
  {
    var n := |rs| - 1;
    if i == n {
      forall k | 0 <= k < n ensures !rs[..n][k].Meets(q.begin, q.end) { OrderedIndex(rs, 0, k, n); }
      ReprotectMissed(rs[..n], q);
      assert ReprotectOne(rs[n], q) == Pieces(rs[n], q);
    } else {
      OrderedIndex(rs, 0, i, n);
      ReprotectSplit(rs[..n], q, i);
      Splice(rs, i, Pieces(rs[i], q));
    }
  }

  lemma SplitAscending(rs: seq<GuestRange>, q: Request, i: int)
    requires Sorted(rs) && SplitsAt(rs, q, i)
    ensures Ascending(rs[..i] + Pieces(rs[i], q) + rs[i + 1..])
  {
    var all := rs[..i] + Pieces(rs[i], q) + rs[i + 1..];
    forall k | 0 <= k < |all| - 1 ensures all[k].begin <= all[k + 1].begin {
      if k < i {
        OrderedIndex(rs, 0, k, k + 1);
      } else if i + 2 <= k {
        OrderedIndex(rs, 0, k - 2, k - 1);
      }
    }
  }

  /** Where the request changes the cell, the three pieces stay apart. */
  lemma SplitStays(rs: seq<GuestRange>, q: Request, i: int)
    requires NoMergeable(rs) && SplitsAt(rs, q, i) && Touched(rs[i], q).tag != rs[i].tag
    ensures NoMergeable(rs[..i] + Pieces(rs[i], q) + rs[i + 1..])
  {
    var all := rs[..i] + Pieces(rs[i], q) + rs[i + 1..];
    forall k | 0 <= k < |all| - 1 ensures !Mergeable(all[k], all[k + 1]) {
      if k < i {
        assert !Mergeable(rs[k], rs[k + 1]);
      } else if i + 2 <= k {
        assert !Mergeable(rs[k - 2], rs[k - 2 + 1]);
      }
    }
  }

  /** Where it does not, joining undoes the split. */
  lemma SplitHeals(rs: seq<GuestRange>, q: Request, i: int)
    requires NoMergeable(rs) && SplitsAt(rs, q, i) && Touched(rs[i], q).tag == rs[i].tag
    ensures Coalesced(rs[..i] + Pieces(rs[i], q) + rs[i + 1..]) == rs
  {
    var left, ps, right := rs[..i], Pieces(rs[i], q), rs[i + 1..];
    PrefixHeals(rs, q, i);
    NoMergeablePrefix(rs, i + 1);
    CoalescedFixed(rs[..i + 1]);
    CoalescedExtend(left + ps, rs[..i + 1], right);
    assert rs[..i + 1] + right == rs;
    CoalescedFixed(rs);
  }

  lemma PrefixHeals(rs: seq<GuestRange>, q: Request, i: int)
    requires NoMergeable(rs) && SplitsAt(rs, q, i) && Touched(rs[i], q).tag == rs[i].tag
    ensures Coalesced(rs[..i] + Pieces(rs[i], q)) == rs[..i + 1]
  {
    var left, ps := rs[..i], Pieces(rs[i], q);
    PiecesHeal(rs, q, i);
    assert left + ps == left + [ps[0]] + [ps[1]] + [ps[2]];
    assert rs[..i + 1] == left + [rs[i]];
  }

  lemma PiecesHeal(rs: seq<GuestRange>, q: Request, i: int)
    requires NoMergeable(rs) && SplitsAt(rs, q, i) && Touched(rs[i], q).tag == rs[i].tag
    ensures var ps := Pieces(rs[i], q); Coalesced(rs[..i] + [ps[0]] + [ps[1]] + [ps[2]]) == rs[..i] + [rs[i]]
  {
    var left, x, y, z := rs[..i], Pieces(rs[i], q)[0], Pieces(rs[i], q)[1], Pieces(rs[i], q)[2];
    NoMergeablePrefix(rs, i);
    CoalescedFixed(left);
    if i > 0 { assert !Mergeable(rs[i - 1], rs[i - 1 + 1]); }
    assert Mergeable(x, y) && Mergeable(y, z) && y.size == 0 && x.(size := x.size + z.size) == rs[i];
    JoinChain(left, x, y, z);
  }

  lemma NoMergeablePrefix(rs: seq<GuestRange>, i: int)
    requires NoMergeable(rs) && 0 <= i <= |rs|
    ensures NoMergeable(rs[..i])
  {
    forall k | 0 <= k < i - 1 ensures !Mergeable(rs[..i][k], rs[..i][k + 1]) {
      assert !Mergeable(rs[k], rs[k + 1]);
    }
  }

  lemma JoinLast(left: seq<GuestRange>, x: GuestRange, y: GuestRange)
    requires Mergeable(x, y)
    ensures Join(left + [x], y) == left + [x.(size := x.size + y.size)]
  {
    assert (left + [x])[..|left|] == left;
  }

  /** Appending to a list that joins to `left + [x]` a piece that continues `x`. */
  lemma ExtendLast(rs: seq<GuestRange>, left: seq<GuestRange>, x: GuestRange, y: GuestRange)
    requires Coalesced(rs) == left + [x] && Mergeable(x, y)
    ensures Coalesced(rs + [y]) == left + [x.(size := x.size + y.size)]
  {
    CoalescedSnoc(rs, y);
    JoinLast(left, x, y);
  }

  lemma JoinChain(left: seq<GuestRange>, x: GuestRange, y: GuestRange, z: GuestRange)
    requires Coalesced(left) == left
    requires left != [] ==> !Mergeable(left[|left| - 1], x)
    requires Mergeable(x, y) && Mergeable(y, z) && y.size == 0
    ensures Coalesced(left + [x] + [y] + [z]) == left + [x.(size := x.size + z.size)]
  {
    CoalescedSnoc(left, x);
    ExtendLast(left + [x], left, x, y);
    assert x.(size := x.size + y.size) == x;
    ExtendLast(left + [x] + [y], left, x, z);
  }

  /** The empty range a split leaves behind. */
  lemma SplitLeavesEmptyRange(rs: seq<GuestRange>, q: Request, i: int)
    requires Sorted(rs) && NoMergeable(rs) && SplitsAt(rs, q, i) && Touched(rs[i], q).tag != rs[i].tag
    ensures AfterProtect(rs, q) == rs[..i] + Pieces(rs[i], q) + rs[i + 1..]
    ensures AfterProtect(rs, q)[i + 1] == Touched(rs[i], q) && Touched(rs[i], q).size == 0
    ensures !Sorted(AfterProtect(rs, q))
  {
    ReprotectSplit(rs, q, i);
    SplitAscending(rs, q, i);
    SortOfAscending(Reprotected(rs, q));
    SplitStays(rs, q, i);
    var all := rs[..i] + Pieces(rs[i], q) + rs[i + 1..];
    CoalescedFixed(all);
    assert all[i + 1] == Touched(rs[i], q);
    if Sorted(all) { OrderedIndex(all, 0, i + 1, i + 1); }
  }

  lemma SwappedPrefix(rs: seq<GuestRange>, q: Request, i: int)
    requires NoMergeable(rs) && SplitsAt(rs, q, i)
    ensures var ps := Pieces(rs[i], q); Coalesced(rs[..i] + [ps[0]] + [ps[2]] + [ps[1]]) == rs[..i] + [rs[i]] + [ps[1]]
  {
    var left, x, y, z := rs[..i], Pieces(rs[i], q)[0], Pieces(rs[i], q)[1], Pieces(rs[i], q)[2];
    NoMergeablePrefix(rs, i);
    CoalescedFixed(left);
    if i > 0 { assert !Mergeable(rs[i - 1], rs[i - 1 + 1]); }
    assert Mergeable(x, z) && 0 < z.size && y.begin == x.End() && x.(size := x.size + z.size) == rs[i];
    JoinAround(left, x, z, y);
  }

  lemma JoinAround(left: seq<GuestRange>, x: GuestRange, z: GuestRange, y: GuestRange)
    requires Coalesced(left) == left
    requires left != [] ==> !Mergeable(left[|left| - 1], x)
    requires Mergeable(x, z) && 0 < z.size && y.begin == x.End()
    ensures Coalesced(left + [x] + [z] + [y]) == left + [x.(size := x.size + z.size)] + [y]
  {
    CoalescedSnoc(left, x);
    ExtendLast(left + [x], left, x, z);
    CoalescedSnoc(left + [x] + [z], y);
  }

  lemma SwappedStays(rs: seq<GuestRange>, q: Request, i: int)
    requires Sorted(rs) && NoMergeable(rs) && SplitsAt(rs, q, i)
    ensures NoMergeable(rs[..i] + [rs[i]] + [Pieces(rs[i], q)[1]] + rs[i + 1..])
  {
    var all := rs[..i] + [rs[i]] + [Pieces(rs[i], q)[1]] + rs[i + 1..];
    forall k | 0 <= k < |all| - 1 ensures !Mergeable(all[k], all[k + 1]) {
      if k < i {
        assert !Mergeable(rs[k], rs[k + 1]);
      } else if k == i + 1 {
        OrderedIndex(rs, 0, i, i + 1);
      } else if i + 1 < k {
        assert !Mergeable(rs[k - 1], rs[k - 1 + 1]);
      }
    }
  }

  /** Two pieces of a split begin together, and the sort may leave them in either order. In the
      other one the outer pieces join again and the empty range stays, whatever the protection. */
  lemma SwappedSplit(rs: seq<GuestRange>, q: Request, i: int)
    requires Sorted(rs) && NoMergeable(rs) && SplitsAt(rs, q, i)
    ensures var ps := Pieces(rs[i], q);
      Coalesced(rs[..i] + [ps[0]] + [ps[2]] + [ps[1]] + rs[i + 1..]) == rs[..i] + [rs[i]] + [ps[1]] + rs[i + 1..] && ps[1].size == 0
    ensures var ps := Pieces(rs[i], q); !Sorted(Coalesced(rs[..i] + [ps[0]] + [ps[2]] + [ps[1]] + rs[i + 1..]))
  {
    var ps, right := Pieces(rs[i], q), rs[i + 1..];
    var healed := rs[..i] + [rs[i]] + [ps[1]];
    SwappedPrefix(rs, q, i);
    SwappedStays(rs, q, i);
    NoMergeablePrefix(healed + right, i + 2);
    assert (healed + right)[..i + 2] == healed;
    CoalescedFixed(healed);
    CoalescedExtend(rs[..i] + [ps[0]] + [ps[2]] + [ps[1]], healed, right);
    CoalescedFixed(healed + right);
    assert (healed + right)[i + 1] == ps[1];
    if Sorted(healed + right) { OrderedIndex(healed + right, 0, i + 1, i + 1); }
  }

  lemma SplitsOnce(rs: seq<GuestRange>, q: Request, i: int)
    requires Sorted(rs) && SplitsAt(rs, q, i)
    ensures forall j :: SplitsAt(rs, q, j) ==> j == i
  {
    forall j | SplitsAt(rs, q, j) ensures j == i {
      if i < j { OrderedIndex(rs, 0, i, j); }
      if j < i { OrderedIndex(rs, 0, j, i); }
    }
  }

  /** An empty request leaves the list canonical exactly when it splits no range whose
      protection or written flag it would change; otherwise it leaves an empty range in the
      list. */
  lemma EmptyRequest(rs: seq<GuestRange>, q: Request)
    requires Sorted(rs) && NoMergeable(rs) && q.begin == q.end
    ensures Sorted(AfterProtect(rs, q)) <==> Harmless(rs, q)
    ensures Sorted(AfterProtect(rs, q)) ==> AfterProtect(rs, q) == rs
  {
    if i :| SplitsAt(rs, q, i) {
      SplitsOnce(rs, q, i);
      if Touched(rs[i], q).tag == rs[i].tag {
        ReprotectSplit(rs, q, i);
        SplitAscending(rs, q, i);
        SortOfAscending(Reprotected(rs, q));
        SplitHeals(rs, q, i);
      } else {
        SplitLeavesEmptyRange(rs, q, i);
      }
    } else {
      forall i | 0 <= i < |rs| ensures !rs[i].Meets(q.begin, q.end) {
        assert !SplitsAt(rs, q, i);
      }
      ReprotectMissed(rs, q);
      SortOfSorted(rs);
      CoalescedFixed(rs);
    }
  }

  // ---- The invariant after a protection change ----

  /** The host opens the touched pages for writing when the request asks for it. */
  ghost predicate WriteOpened(before: int -> Access, after: int -> Access, q: Request) {
    forall a :: after(a) == if q.prot.write && q.begin <= a < q.end then READ_WRITE else before(a)
  }

  ghost predicate Applied(s: Space, t: Space, q: Request) {
    && SameArena(s, t) && t.free == s.free && t.nextEpoch == s.nextEpoch && t.bytes == s.bytes
    && t.committed == AfterProtect(s.committed, q) && WriteOpened(s.host, t.host, q)
  }

  lemma OrdinaryApplied(s: Space, t: Space, q: Request)
    requires Valid(s) && q.begin < q.end && Applied(s, t, q)
    ensures Protects(s, t, q) && Valid(t) && SameMapping(s, t, q)
  {
    OrdinaryRequest(s.committed, q);
    ProtectKeepsValid(s, t, q);
    ProtectPointwise(s, t, q);
  }

  lemma EmptyApplied(s: Space, t: Space, q: Request)
    requires Valid(s) && q.begin == q.end && Applied(s, t, q)
    ensures Valid(t) <==> Harmless(s.committed, q)
    ensures Valid(t) ==> t.committed == s.committed
  {
    EmptyRequest(s.committed, q);
    if t.committed == s.committed {
      OccupyKeepsOwnership(s, t, 0, 0);
    }
  }

  /** A protection change keeps the invariant exactly when it is harmless; a request that
      reaches at least one byte always is. */
  lemma AppliedValid(s: Space, t: Space, q: Request)
    requires Valid(s) && q.begin <= q.end && Applied(s, t, q)
    ensures q.begin < q.end ==> Harmless(s.committed, q)
    ensures Valid(t) <==> Harmless(s.committed, q)
    ensures Valid(t) ==> forall a :: At(t.committed, a).Some? <==> At(s.committed, a).Some?
  {
    if q.begin < q.end {
      OrdinaryApplied(s, t, q);
      forall a ensures At(t.committed, a).Some? <==> At(s.committed, a).Some? {
        assert t.Cell(a).Some? <==> s.Cell(a).Some?;
      }
    } else {
      EmptyApplied(s, t, q);
    }
  }

  /** Asking for no access to no bytes in the middle of a readable range, on a host page
      boundary, leaves an empty range without access in the list. */
  lemma EmptyRequestExample()
    ensures exists rs: seq<GuestRange>, q: Request ::
      && Sorted(rs) && NoMergeable(rs)
      && q == MakeRequest(0x8000, 0, Prot(false, false, false), 0x4000)
      && !Sorted(AfterProtect(rs, q))
  {
    var x: GuestRange := Span(0x4000, 0x8000, Cell(Prot(true, false, false), 1, false));
    OrderedOne(x, 0);
    var q := MakeRequest(0x8000, 0, Prot(false, false, false), 0x4000);
    AlignedIsMultiple(0x8000, 0x4000);
    AlignedFixed(0x8000, 0x4000);
    SplitLeavesEmptyRange([x], q, 0);
  }

  // ---- What a protection change grants and takes away ----

  /** The cell a request gives a byte of range `i`. */
  lemma AppliedCell(s: Space, t: Space, q: Request, a: int) returns (i: int)
    requires Valid(s) && q.begin < q.end && Applied(s, t, q)
    ensures s.Cell(a).None? ==> t.Cell(a).None?
    ensures s.Cell(a).Some? ==>
      && 0 <= i < |s.committed| && s.committed[i].Has(a)
      && s.Cell(a) == Some(s.committed[i].tag) && t.Cell(a) == Some(CellAfter(s.committed[i], q, a))
  {
    OrdinaryRequest(s.committed, q);
    ReprotectedOrdered(s.committed, q);
    CoalescedAt(Reprotected(s.committed, q), a);
    i := ReprotectedAt(s.committed, q, a);
  }

  /** Every committed byte on the host pages touched gets at least what was asked; a byte
      outside the host pages lying wholly inside the request loses nothing; commitment and
      epochs stay. */
  lemma ProtectGrants(s: Space, t: Space, q: Request, a: int)
    requires Valid(s) && q.begin < q.end && Applied(s, t, q) && s.Cell(a).Some?
    ensures t.Cell(a).Some? && t.Cell(a).value.epoch == s.Cell(a).value.epoch
    ensures q.begin <= a < q.end ==> t.Cell(a).value.prot.Covers(q.prot)
    ensures !(q.strictBegin <= a < q.strictEnd) ==> t.Cell(a).value.prot.Covers(s.Cell(a).value.prot)
  {
    var i := AppliedCell(s, t, q, a);
  }

  /** A byte gets exactly the protection asked for if and only if all of its range that the
      request touches lies on host pages wholly inside the request, or the protection it had
      is covered anyway. One byte over the edge widens the whole range. */
  lemma ProtectExact(s: Space, t: Space, q: Request, i: int, a: int)
    requires Valid(s) && q.begin < q.end && Applied(s, t, q)
    requires 0 <= i < |s.committed| && s.committed[i].Has(a) && q.begin <= a < q.end
    ensures t.Cell(a).Some?
    ensures t.Cell(a).value.prot == q.prot <==>
      q.WhollyInside(Max(s.committed[i].begin, q.begin), Min(s.committed[i].End(), q.end))
      || q.prot.Covers(s.committed[i].tag.prot)
  {
    AtIndex(s.committed, i, a);
    var j := AppliedCell(s, t, q, a);
    OneHolder(s.committed, i, j, a);
    OrExact(s.committed[i].tag.prot, q.prot);
  }

  lemma OrExact(had: Prot, asked: Prot)
    ensures had.Or(asked) == asked <==> asked.Covers(had)
  {
  }

  // ---- The same, in terms of the span asked for ----

  /** The host page holding `a` meets [address, address + amount). */
  predicate PageMet(a: nat, address: nat, amount: nat, page: nat)
    requires 0 < page
  {
    AlignDown(a, page) < address + amount && address < AlignDown(a, page) + page
  }

  /** The host page holding `a` lies wholly inside [address, address + amount). */
  predicate PageWithin(a: nat, address: nat, amount: nat, page: nat)
    requires 0 < page
  {
    address <= AlignDown(a, page) && AlignDown(a, page) + page <= address + amount
  }

  /** All of `x` on host pages the span meets lies on host pages wholly inside the span. */
  ghost predicate MetWithin(x: GuestRange, address: nat, amount: nat, page: nat)
    requires 0 < page
  {
    forall b: nat :: x.Has(b) && PageMet(b, address, amount, page) ==> PageWithin(b, address, amount, page)
  }

  /** A boundary at or below `a` is at or below its page, and one above it at or above its end. */
  lemma BoundaryAndPage(a: nat, v: nat, page: nat)
    requires 0 < page && Aligned(v, page)
    ensures v <= a <==> v <= AlignDown(a, page)
    ensures a < v <==> AlignDown(a, page) + page <= v
  {
    if v <= a { AlignDownGreatest(a, v, page); }
    if a < v { AlignedApart(AlignDown(a, page), v, page); }
  }

  lemma PageMetIff(a: nat, address: nat, amount: nat, p: Prot, page: nat)
    requires 0 < page && 0 < amount
    ensures var q := MakeRequest(address, amount, p, page); q.begin <= a < q.end <==> PageMet(a, address, amount, page)
  {
    var lo, hi, h := AlignDown(address, page), AlignUp(address + amount, page), AlignDown(a, page);
    BoundaryAndPage(a, lo, page);
    BoundaryAndPage(a, hi, page);
    AlignedSum(h, page, page);
    BoundaryAndPage(address, h + page, page);
    if h < address + amount { AlignedApart(h, hi, page); }
    if lo <= h { AlignedApartOrSame(lo, h, page); }
  }

  lemma AlignedApartOrSame(lo: nat, h: nat, page: nat)
    requires 0 < page && Aligned(lo, page) && Aligned(h, page) && lo <= h
    ensures lo == h || lo + page <= h
  {
    if lo < h { AlignedApart(lo, h, page); }
  }

  lemma PageWithinIff(a: nat, address: nat, amount: nat, p: Prot, page: nat)
    requires 0 < page
    ensures var q := MakeRequest(address, amount, p, page); q.strictBegin <= a < q.strictEnd <==> PageWithin(a, address, amount, page)
  {
    var lo, hi, h := AlignUp(address, page), AlignDown(address + amount, page), AlignDown(a, page);
    BoundaryAndPage(a, lo, page);
    BoundaryAndPage(a, hi, page);
    AlignedSum(h, page, page);
    if address <= h { AlignUpLeast(address, h, page); }
    if h + page <= address + amount { AlignDownGreatest(address + amount, h + page, page); }
  }

  lemma MetWithinIff(x: GuestRange, address: nat, amount: nat, p: Prot, page: nat, a: nat)
    requires 0 < page && 0 < amount && 0 <= x.begin && x.Has(a) && PageMet(a, address, amount, page)
    ensures var q := MakeRequest(address, amount, p, page);
      MetWithin(x, address, amount, page) <==> q.WhollyInside(Max(x.begin, q.begin), Min(x.End(), q.end))
  {
    var q := MakeRequest(address, amount, p, page);
    PageMetIff(a, address, amount, p, page);
    var lo, hi := Max(x.begin, q.begin), Min(x.End(), q.end);
    if MetWithin(x, address, amount, page) {
      EndsWithin(x, address, amount, p, page, lo);
      EndsWithin(x, address, amount, p, page, hi - 1);
    }
    if q.WhollyInside(lo, hi) {
      forall b: nat | x.Has(b) && PageMet(b, address, amount, page) ensures PageWithin(b, address, amount, page) {
        PageMetIff(b, address, amount, p, page);
        PageWithinIff(b, address, amount, p, page);
      }
    }
  }

  lemma EndsWithin(x: GuestRange, address: nat, amount: nat, p: Prot, page: nat, b: nat)
    requires 0 < page && 0 < amount && MetWithin(x, address, amount, page) && x.Has(b)
    requires var q := MakeRequest(address, amount, p, page); q.begin <= b < q.end
    ensures var q := MakeRequest(address, amount, p, page); q.strictBegin <= b < q.strictEnd
  {
    PageMetIff(b, address, amount, p, page);
    PageWithinIff(b, address, amount, p, page);
  }

  /** What a byte of range `x` becomes when [address, address + amount) is asked to have `p`: left
      alone off the host pages met; on them, given just `p` if all of the range met is wholly
      inside the span, and `p` besides what it had if not. */
  ghost function CellAsked(x: GuestRange, address: nat, amount: nat, p: Prot, page: nat, a: nat): Cell
    requires 0 < page
  {
    if !PageMet(a, address, amount, page) then x.tag
    else Cell(if MetWithin(x, address, amount, page) then p else x.tag.prot.Or(p), x.tag.epoch, x.tag.written || p.write)
  }

  lemma CellIsAsked(x: GuestRange, address: nat, amount: nat, p: Prot, page: nat, a: nat)
    requires 0 < page && 0 < amount && 0 <= x.begin && x.Has(a)
    ensures CellAfter(x, MakeRequest(address, amount, p, page), a) == CellAsked(x, address, amount, p, page, a)
  {
    PageMetIff(a, address, amount, p, page);
    if PageMet(a, address, amount, page) { MetWithinIff(x, address, amount, p, page, a); }
  }

  /** [address, address + amount) was asked to have `p`, and this is all that changed. */
  ghost predicate GrantsAsked(s: Space, t: Space, address: nat, amount: nat, p: Prot)
    requires 0 < s.page
  {
    && SameArena(s, t) && t.free == s.free && t.nextEpoch == s.nextEpoch && t.bytes == s.bytes
    && (forall a: nat :: s.Cell(a).None? ==> t.Cell(a).None?)
    && (forall i, a: nat :: 0 <= i < |s.committed| && s.committed[i].Has(a) ==>
          t.Cell(a) == Some(CellAsked(s.committed[i], address, amount, p, s.page, a)))
    && (forall a: nat :: t.host(a) == if p.write && PageMet(a, address, amount, s.page) then READ_WRITE else s.host(a))
  }

  lemma AppliedGrants(s: Space, t: Space, address: nat, amount: nat, p: Prot)
    requires Valid(s) && 0 < amount && Applied(s, t, MakeRequest(address, amount, p, s.page))
    ensures GrantsAsked(s, t, address, amount, p)
  {
    var q := MakeRequest(address, amount, p, s.page);
    forall a: nat ensures s.Cell(a).None? ==> t.Cell(a).None? { var j := AppliedCell(s, t, q, a); }
    forall i, a: nat | 0 <= i < |s.committed| && s.committed[i].Has(a)
      ensures t.Cell(a) == Some(CellAsked(s.committed[i], address, amount, p, s.page, a))
    {
      RangeAsked(s, t, address, amount, p, i, a);
    }
    forall a: nat ensures q.begin <= a < q.end <==> PageMet(a, address, amount, s.page) { PageMetIff(a, address, amount, p, s.page); }
  }

  lemma RangeAsked(s: Space, t: Space, address: nat, amount: nat, p: Prot, i: int, a: nat)
    requires Valid(s) && 0 < amount && Applied(s, t, MakeRequest(address, amount, p, s.page))
    requires 0 <= i < |s.committed| && s.committed[i].Has(a)
    ensures t.Cell(a) == Some(CellAsked(s.committed[i], address, amount, p, s.page, a))
  {
    AtIndex(s.committed, i, a);
    var j := AppliedCell(s, t, MakeRequest(address, amount, p, s.page), a);
    OneHolder(s.committed, i, j, a);
    OrderedIndex(s.committed, 0, i, i);
    AtIndex(s.committed, i, s.committed[i].begin);
    assert s.Cell(s.committed[i].begin).Some?;
    CellIsAsked(s.committed[i], address, amount, p, s.page, a);
  }

  /** A committed byte of the span gets at least what was asked; one whose host page is not wholly
      inside the span loses nothing; one whose host page the span does not meet keeps its cell. */
  lemma AskedLaws(s: Space, t: Space, address: nat, amount: nat, p: Prot, a: nat)
    requires 0 < s.page && GrantsAsked(s, t, address, amount, p) && s.Cell(a).Some?
    ensures t.Cell(a).Some? && t.Cell(a).value.epoch == s.Cell(a).value.epoch
    ensures address <= a < address + amount ==> t.Cell(a).value.prot.Covers(p)
    ensures !PageWithin(a, address, amount, s.page) ==> t.Cell(a).value.prot.Covers(s.Cell(a).value.prot)
    ensures !PageMet(a, address, amount, s.page) ==> t.Cell(a) == s.Cell(a)
  {
    var i := AtWitness(s.committed, a);
    assert t.Cell(a) == Some(CellAsked(s.committed[i], address, amount, p, s.page, a));
  }

  /** A request to make most of a writable range read-only that starts inside a host page:
      the host page at 0x8000 lies wholly inside the request and stays writable. */
  lemma UnalignedProtectExample()
    ensures exists x: GuestRange ::
      var q := MakeRequest(0x5000, 0xB000, Prot(true, false, false), 0x4000);
      && x.Has(0x8000) && x.tag.prot.write
      && q.strictBegin <= 0x8000 && 0x8000 + 0x4000 <= q.strictEnd
      && CellAfter(x, q, 0x8000).prot.write
  {
    AlignDownIsMasking(0x5000, 0x4000);
    AlignDownIsMasking(0x10000 + 0x3FFF, 0x4000);
    AlignDownIsMasking(0x5000 + 0x3FFF, 0x4000);
    AlignDownIsMasking(0x10000, 0x4000);
    var x: GuestRange := Span(0x4000, 0xC000, Cell(Prot(true, true, false), 1, true));
    var q := MakeRequest(0x5000, 0xB000, Prot(true, false, false), 0x4000);
    assert q == Request(0x4000, 0x10000, 0x8000, 0x10000, Prot(true, false, false));
    assert x.Has(0x8000) && CellAfter(x, q, 0x8000).prot.write;
  }
}
