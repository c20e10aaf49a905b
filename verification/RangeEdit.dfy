/** Changes to the lists of committed ranges and free extents, as pure functions with
    their meaning stated address by address. */
module RangeEdit {
  import opened Spans
  import opened GuestView
  import opened RangeIndex
  import opened Pages

  // ---- The newcomer wins ----

  /** The list with [lo, hi) taken over by `tag`, in canonical form. */
  function Put<T(==)>(rs: seq<Span<T>>, lo: int, hi: int, tag: T): seq<Span<T>>
  {
    Coalesced(SortByBegin(Carve(rs, lo, hi) + [Span(lo, hi - lo, tag)]))
  }

  lemma SortOfAppended<T>(rs: seq<Span<T>>, x: Span<T>)
    requires Sorted(rs)
    ensures SortByBegin(rs + [x]) == Insert(rs, x)
  {
    SortOfSorted(rs);
    assert (rs + [x])[..|rs|] == rs;
  }

  lemma CarvedClear<T>(rs: seq<Span<T>>, lo: int, hi: int)
    requires lo <= hi
    ensures Clear(Carve(rs, lo, hi), lo, hi)
  {
    var c := Carve(rs, lo, hi);
    forall a | lo <= a < hi ensures At(c, a).None? {
      CarveAt(rs, lo, hi, a);
    }
  }

  /** Cut out the interval, insert the newcomer, join. */
  lemma PutSteps<T>(rs: seq<Span<T>>, lo: int, hi: int, tag: T)
    requires Sorted(rs) && lo < hi
    ensures Put(rs, lo, hi, tag) == Coalesced(Insert(Carve(rs, lo, hi), Span(lo, hi - lo, tag)))
    ensures Sorted(Insert(Carve(rs, lo, hi), Span(lo, hi - lo, tag)))
  {
    CarveOrdered(rs, lo, hi, 0);
    CarvedClear(rs, lo, hi);
    InsertSorted(Carve(rs, lo, hi), Span(lo, hi - lo, tag));
    SortOfAppended(Carve(rs, lo, hi), Span(lo, hi - lo, tag));
  }

  lemma PutShape<T>(rs: seq<Span<T>>, lo: int, hi: int, tag: T)
    requires Sorted(rs) && lo < hi
    ensures Sorted(Put(rs, lo, hi, tag)) && NoMergeable(Put(rs, lo, hi, tag))
  {
    PutSteps(rs, lo, hi, tag);
    CoalescedShape(Insert(Carve(rs, lo, hi), Span(lo, hi - lo, tag)));
  }

  /** Putting changes exactly the addresses of [lo, hi), to the new tag. */
  lemma PutAt<T>(rs: seq<Span<T>>, lo: int, hi: int, tag: T, a: int)
    requires Sorted(rs) && lo < hi
    ensures At(Put(rs, lo, hi, tag), a) == if lo <= a < hi then Some(tag) else At(rs, a)
  {
    PutSteps(rs, lo, hi, tag);
    var x := Span(lo, hi - lo, tag);
    CarvedClear(rs, lo, hi);
    CoalescedAt(Insert(Carve(rs, lo, hi), x), a);
    InsertAt(Carve(rs, lo, hi), x, a);
    CarveAt(rs, lo, hi, a);
  }

  /** `after` is `before` with [lo, hi) taken over by `tag`. The list that says so is unique
      (`Spans.CanonicalUnique`). */
  ghost predicate Recorded<T>(before: seq<Span<T>>, after: seq<Span<T>>, lo: int, hi: int, tag: T) {
    && Sorted(after) && NoMergeable(after)
    && forall a :: At(after, a) == if lo <= a < hi then Some(tag) else At(before, a)
  }

  lemma PutRecords<T>(rs: seq<Span<T>>, lo: int, hi: int, tag: T)
    requires Sorted(rs) && lo < hi
    ensures Recorded(rs, Put(rs, lo, hi, tag), lo, hi, tag)
  {
    PutShape(rs, lo, hi, tag);
    var put := Put(rs, lo, hi, tag);
    forall a ensures At(put, a) == if lo <= a < hi then Some(tag) else At(rs, a) {
      PutAt(rs, lo, hi, tag, a);
    }
  }

  /** `after` is `before` without [lo, hi). */
  ghost predicate Dropped<T>(before: seq<Span<T>>, after: seq<Span<T>>, lo: int, hi: int) {
    && Sorted(after) && NoMergeable(after)
    && forall a :: At(after, a) == if lo <= a < hi then None else At(before, a)
  }

  lemma CarveDrops<T>(rs: seq<Span<T>>, lo: int, hi: int)
    requires Sorted(rs) && lo < hi
    ensures Dropped(rs, Coalesced(Carve(rs, lo, hi)), lo, hi)
  {
    var c := Carve(rs, lo, hi);
    CarveOrdered(rs, lo, hi, 0);
    CoalescedShape(c);
    var after := Coalesced(c);
    forall a ensures At(after, a) == if lo <= a < hi then None else At(rs, a) {
      CoalescedAt(c, a);
      CarveAt(rs, lo, hi, a);
    }
  }

  /** `after` frees what `before` did and [lo, hi) as well. */
  ghost predicate Freed(before: seq<Extent>, after: seq<Extent>, lo: int, hi: int) {
    && Gapped(after)
    && forall a :: At(after, a).Some? <==> At(before, a).Some? || lo <= a < hi
  }

  /** `after` frees what `before` did except [lo, hi). */
  ghost predicate Taken(before: seq<Extent>, after: seq<Extent>, lo: int, hi: int) {
    && Gapped(after)
    && forall a :: At(after, a).Some? <==> At(before, a).Some? && !(lo <= a < hi)
  }

  lemma CarveTakes(rs: seq<Extent>, lo: int, hi: int)
    requires Gapped(rs) && lo < hi
    ensures Taken(rs, Carve(rs, lo, hi), lo, hi)
  {
    CarveOrdered(rs, lo, hi, 1);
    var c := Carve(rs, lo, hi);
    forall a ensures At(c, a).Some? <==> At(rs, a).Some? && !(lo <= a < hi) {
      CarveAt(rs, lo, hi, a);
    }
  }

  /** Untagged spans with nothing left to join are maximal runs. */
  lemma {:induction false} CanonicalExtents(rs: seq<Extent>)
    requires Sorted(rs)
    ensures Gapped(rs) <==> NoMergeable(rs)
    decreases |rs|
  {
    if rs != [] {
      var n := |rs| - 1;
      CanonicalExtents(rs[..n]);
      if n > 0 {
        if rs[n - 1].End() == rs[n].begin {
          assert Mergeable(rs[n - 1], rs[n - 1 + 1]);
        }
      }
      if NoMergeable(rs[..n]) && Gapped(rs) {
        forall i | 0 <= i < |rs| - 1 ensures !Mergeable(rs[i], rs[i + 1]) {
          assert i < n - 1 ==> !Mergeable(rs[..n][i], rs[..n][i + 1]);
        }
      }
      if NoMergeable(rs) {
        forall i | 0 <= i < n - 1 ensures !Mergeable(rs[..n][i], rs[..n][i + 1]) {
          assert !Mergeable(rs[i], rs[i + 1]);
        }
      }
    }
  }

  /** Free lists that free the same addresses are the same list. */
  lemma ExtentsUnique(xs: seq<Extent>, ys: seq<Extent>)
    requires Gapped(xs) && Gapped(ys)
    requires forall a :: At(xs, a).Some? <==> At(ys, a).Some?
    ensures xs == ys
  {
    GappedIsSorted(xs);
    GappedIsSorted(ys);
    CanonicalExtents(xs);
    CanonicalExtents(ys);
    forall a ensures At(xs, a) == At(ys, a) {
      assert At(xs, a).Some? <==> At(ys, a).Some?;
      assert At(xs, a).Some? ==> At(xs, a).value == () && At(ys, a).value == ();
    }
    CanonicalUnique(xs, ys);
  }

  // ---- A new protection ----

  /** A protection request: the host pages it touches, and those lying wholly inside it. */
  datatype Request = Request(begin: int, end: int, strictBegin: int, strictEnd: int, prot: Prot) {
    predicate WhollyInside(lo: int, hi: int) { strictBegin <= lo && hi <= strictEnd }
  }

  function Reprotect(cell: Cell, inside: bool, p: Prot): Cell
  {
    Cell(if inside then p else cell.prot.Or(p), cell.epoch, cell.written || p.write)
  }

  /** The part of range `x` the request touches. */
  function Touched(x: GuestRange, q: Request): GuestRange
  {
    var lo, hi := Max(x.begin, q.begin), Min(x.End(), q.end);
    Span(lo, hi - lo, Reprotect(x.tag, q.WhollyInside(lo, hi), q.prot))
  }

  function ReprotectOne(x: GuestRange, q: Request): seq<GuestRange>
  {
    if x.End() <= q.begin || q.end <= x.begin then [x]
    else
      (if x.begin < q.begin then [Span(x.begin, q.begin - x.begin, x.tag)] else [])
      + [Touched(x, q)]
      + (if q.end < x.End() then [Span(q.end, x.End() - q.end, x.tag)] else [])
  }

  function Reprotected(rs: seq<GuestRange>, q: Request): seq<GuestRange>
  {
    if rs == [] then [] else Reprotected(rs[..|rs| - 1], q) + ReprotectOne(rs[|rs| - 1], q)
  }

  /** What the request makes of one byte of range `x`. */
  function CellAfter(x: GuestRange, q: Request, a: int): Cell
  {
    if q.begin <= a < q.end then Touched(x, q).tag else x.tag
  }

  lemma ReprotectOneAt(x: GuestRange, q: Request, a: int)
    requires q.begin < q.end
    ensures At(ReprotectOne(x, q), a) == if x.Has(a) then Some(CellAfter(x, q, a)) else None
  {
    if x.Meets(q.begin, q.end) {
      var head := if x.begin < q.begin then [Span(x.begin, q.begin - x.begin, x.tag)] else [];
      var tail := if q.end < x.End() then [Span(q.end, x.End() - q.end, x.tag)] else [];
      AtConcat(head + [Touched(x, q)], tail, a);
      AtSnoc(head, Touched(x, q), a);
    }
  }

  lemma ReprotectOneOrdered(x: GuestRange, q: Request)
    requires 0 < x.size && q.begin < q.end
    ensures var c := ReprotectOne(x, q);
      Sorted(c) && c != [] && x.begin == c[0].begin && c[|c| - 1].End() == x.End()
  {
    OrderedOne(x, 0);
    if x.Meets(q.begin, q.end) {
      var head := if x.begin < q.begin then [Span(x.begin, q.begin - x.begin, x.tag)] else [];
      var tail := if q.end < x.End() then [Span(q.end, x.End() - q.end, x.tag)] else [];
      if head != [] { OrderedOne(head[0], 0); }
      if tail != [] { OrderedOne(tail[0], 0); }
      OrderedOne(Touched(x, q), 0);
      OrderedConcat(head, [Touched(x, q)], 0);
      OrderedConcat(head + [Touched(x, q)], tail, 0);
    }
  }

  lemma {:induction false} ReprotectedOrdered(rs: seq<GuestRange>, q: Request)
    requires Sorted(rs) && q.begin < q.end
    ensures Sorted(Reprotected(rs, q))
    ensures rs != [] ==> Reprotected(rs, q) != [] && Reprotected(rs, q)[|Reprotected(rs, q)| - 1].End() == rs[|rs| - 1].End()
    ensures rs == [] ==> Reprotected(rs, q) == []
    decreases |rs|
  {
    if rs != [] {
      var n := |rs| - 1;
      ReprotectedOrdered(rs[..n], q);
      ReprotectOneOrdered(rs[n], q);
      var left, one := Reprotected(rs[..n], q), ReprotectOne(rs[n], q);
      OrderedConcat(left, one, 0);
      assert Reprotected(rs, q) == left + one;
    }
  }

  lemma ReprotectedLast(rs: seq<GuestRange>, q: Request, a: int)
    requires q.begin < q.end && rs != []
    ensures var n := |rs| - 1;
      At(Reprotected(rs, q), a) == if rs[n].Has(a) then Some(CellAfter(rs[n], q, a)) else At(Reprotected(rs[..n], q), a)
  {
    var n := |rs| - 1;
    ReprotectOneAt(rs[n], q, a);
    AtConcat(Reprotected(rs[..n], q), ReprotectOne(rs[n], q), a);
  }

  /** Reprotecting never commits or frees a byte: each keeps its range, and its new cell is
      decided by that range. */
  lemma {:induction false} ReprotectedAt(rs: seq<GuestRange>, q: Request, a: int) returns (i: int)
    requires q.begin < q.end
    ensures At(rs, a).None? ==> At(Reprotected(rs, q), a).None?
    ensures At(rs, a).Some? ==>
      0 <= i < |rs| && rs[i].Has(a) && At(rs, a) == Some(rs[i].tag)
      && At(Reprotected(rs, q), a) == Some(CellAfter(rs[i], q, a))
    decreases |rs|
  {
    i := |rs| - 1;
    if rs != [] {
      ReprotectedLast(rs, q, a);
      if !rs[i].Has(a) {
        i := ReprotectedAt(rs[..i], q, a);
      }
    }
  }

  // ---- Whole host pages ----

  /** The whole pages inside each extent. */
  function Shrunk(gaps: seq<Extent>, page: nat): seq<Extent>
    requires 0 < page && forall i :: 0 <= i < |gaps| ==> 0 <= gaps[i].begin <= gaps[i].End()
  {
    if gaps == [] then []
    else Shrunk(gaps[..|gaps| - 1], page) + ShrinkOne(gaps[|gaps| - 1], page)
  }

  function ShrinkOne(gap: Extent, page: nat): seq<Extent>
    requires 0 < page && 0 <= gap.begin <= gap.End()
  {
    var low, high := AlignUp(gap.begin, page), AlignDown(gap.End(), page);
    if low < high then [Span(low, high - low, ())] else []
  }

  ghost predicate NonNegative<T>(rs: seq<Span<T>>) {
    forall i :: 0 <= i < |rs| ==> 0 <= rs[i].begin <= rs[i].End()
  }

  lemma {:induction false} ShrunkWitness(gaps: seq<Extent>, page: nat, a: int) returns (i: int)
    requires 0 < page && NonNegative(gaps) && At(Shrunk(gaps, page), a).Some?
    ensures 0 <= i < |gaps| && AlignUp(gaps[i].begin, page) <= a < AlignDown(gaps[i].End(), page)
    decreases |gaps|
  {
    i := |gaps| - 1;
    AtConcat(Shrunk(gaps[..i], page), ShrinkOne(gaps[i], page), a);
    if !(AlignUp(gaps[i].begin, page) <= a < AlignDown(gaps[i].End(), page)) {
      i := ShrunkWitness(gaps[..i], page, a);
    }
  }

  lemma {:induction false} ShrunkHas(gaps: seq<Extent>, page: nat, i: int, a: int)
    requires 0 < page && NonNegative(gaps) && 0 <= i < |gaps|
    requires AlignUp(gaps[i].begin, page) <= a < AlignDown(gaps[i].End(), page)
    ensures At(Shrunk(gaps, page), a).Some?
    decreases |gaps|
  {
    var n := |gaps| - 1;
    AtConcat(Shrunk(gaps[..n], page), ShrinkOne(gaps[n], page), a);
    if i < n {
      ShrunkHas(gaps[..n], page, i, a);
    }
  }

  /** The host page of `a` lies in [lo, hi) and holds no committed byte. */
  ghost predicate VacantPage<T>(committed: seq<Span<T>>, page: nat, lo: int, hi: int, a: int)
    requires 0 < page
  {
    && 0 <= a
    && lo <= AlignDown(a, page) && AlignDown(a, page) + page <= hi
    && Clear(committed, AlignDown(a, page), AlignDown(a, page) + page)
  }

  lemma ShrunkIsVacant<T>(gaps: seq<Extent>, committed: seq<Span<T>>, page: nat, lo: int, hi: int, a: int)
    requires 0 < page && 0 <= lo && GapsOf(gaps, committed, lo, hi) && NonNegative(gaps)
    requires At(Shrunk(gaps, page), a).Some?
    ensures VacantPage(committed, page, lo, hi, a)
  {
    var i := ShrunkWitness(gaps, page, a);
    PageInside(AlignUp(gaps[i].begin, page), AlignDown(gaps[i].End(), page), a, page);
    SpanOfGap(gaps, committed, lo, hi, i);
    var h := AlignDown(a, page);
    assert gaps[i].Has(h) && gaps[i].Has(h + page - 1);
  }

  lemma VacantIsShrunk<T>(gaps: seq<Extent>, committed: seq<Span<T>>, page: nat, lo: int, hi: int, a: int)
    requires 0 < page && 0 <= lo && GapsOf(gaps, committed, lo, hi) && NonNegative(gaps)
    requires VacantPage(committed, page, lo, hi, a)
    ensures At(Shrunk(gaps, page), a).Some?
  {
    var h := AlignDown(a, page);
    forall b | h <= b < h + page ensures At(gaps, b).Some? {
      assert At(committed, b).None?;
    }
    var i := FullInOneSpan(gaps, h, h + page);
    AlignUpLeast(gaps[i].begin, h, page);
    AlignedSum(h, page, page);
    AlignDownGreatest(gaps[i].End(), h + page, page);
    ShrunkHas(gaps, page, i, a);
  }

  /** Rounding the gaps inward reaches exactly the host pages nothing lives in. */
  lemma ShrunkAt<T>(gaps: seq<Extent>, committed: seq<Span<T>>, page: nat, lo: int, hi: int, a: int)
    requires 0 < page && 0 <= lo && GapsOf(gaps, committed, lo, hi) && NonNegative(gaps)
    ensures At(Shrunk(gaps, page), a).Some? <==> VacantPage(committed, page, lo, hi, a)
  {
    if At(Shrunk(gaps, page), a).Some? { ShrunkIsVacant(gaps, committed, page, lo, hi, a); }
    if VacantPage(committed, page, lo, hi, a) { VacantIsShrunk(gaps, committed, page, lo, hi, a); }
  }

  lemma SpanOfGap<T>(gaps: seq<Extent>, committed: seq<Span<T>>, lo: int, hi: int, i: int)
    requires GapsOf(gaps, committed, lo, hi) && 0 <= i < |gaps|
    ensures forall b :: gaps[i].Has(b) ==> At(gaps, b).Some? && At(committed, b).None?
  {
    GappedIsSorted(gaps);
    forall b | gaps[i].Has(b) ensures At(gaps, b).Some? && At(committed, b).None? {
      AtIndex(gaps, i, b);
    }
  }

  lemma GapsNonNegative<T>(gaps: seq<Extent>, committed: seq<Span<T>>, lo: int, hi: int)
    requires GapsOf(gaps, committed, lo, hi) && 0 <= lo
    ensures NonNegative(gaps)
    ensures forall i :: 0 <= i < |gaps| ==> lo <= gaps[i].begin < gaps[i].End() <= hi
  {
    forall i | 0 <= i < |gaps| ensures lo <= gaps[i].begin < gaps[i].End() <= hi {
      OrderedIndex(gaps, 1, i, i);
      SpanOfGap(gaps, committed, lo, hi, i);
      assert gaps[i].Has(gaps[i].begin) && gaps[i].Has(gaps[i].End() - 1);
      assert At(gaps, gaps[i].begin).Some? && At(gaps, gaps[i].End() - 1).Some?;
    }
  }
}
