/** What a copying fork does with each byte of the parent: every committed range is cut where
    memory shared with other processes starts and stops. */
module ForkPlan {
  import opened Pages
  import opened Spans
  import opened GuestView
  import opened RangeIndex
  import opened Regions

  /** How one part of the parent reaches the child. */
  datatype Part = Part(prot: Prot, copied: bool, aliased: bool)

  /** What becomes of a parent byte: a shared one stays shared, another is copied if its range
      has ever been writable and reserved again if not. */
  function PartAt(committed: seq<GuestRange>, shared: seq<Extent>, a: int): Option<Part> {
    match At(committed, a)
    case None => None
    case Some(c) => Some(PartOf(c, At(shared, a).Some?))
  }

  function PartOf(c: Cell, isShared: bool): Part {
    Part(c.prot, c.written || isShared, isShared)
  }

  // ---- Tiling one range ----

  /** The parts tile the range up to `cursor`, given the first `j` shared spans. */
  ghost predicate Tiled(parts: seq<Span<Part>>, range: GuestRange, shared: seq<Extent>, j: nat, cursor: int) {
    && j <= |shared| && range.begin <= cursor
    && Sorted(parts)
    && (forall a :: At(parts, a).Some? <==> range.Has(a) && a < cursor)
    && (forall a :: At(parts, a).Some? ==> At(parts, a).value == PartOf(range.tag, At(shared[..j], a).Some?))
    && (forall a :: At(parts, a).Some? && At(shared[..j], a).None? ==> j > 0 && a < shared[j - 1].begin)
    && (forall a :: cursor <= a && range.Has(a) ==> At(shared[..j], a).None?)
  }

  /** Appends [from, to) if it is not empty. */
  function Append(parts: seq<Span<Part>>, from: int, to: int, part: Part): seq<Span<Part>> {
    if from < to then parts + [Span(from, to - from, part)] else parts
  }

  lemma AppendAt(parts: seq<Span<Part>>, from: int, to: int, part: Part)
    requires Sorted(parts) && forall a :: At(parts, a).Some? ==> a < from
    ensures Sorted(Append(parts, from, to, part))
    ensures forall a :: At(Append(parts, from, to, part), a) == if from <= a < to then Some(part) else At(parts, a)
  {
    if from < to {
      var x := Span(from, to - from, part);
      OrderedOne(x, 0);
      if parts != [] {
        OrderedIndex(parts, 0, |parts| - 1, |parts| - 1);
        AtIndex(parts, |parts| - 1, parts[|parts| - 1].End() - 1);
      }
      OrderedConcat(parts, [x], 0);
      forall a ensures At(parts + [x], a) == if x.Has(a) then Some(part) else At(parts, a) {
        AtSnoc(parts, x, a);
      }
    }
  }

  /** The two parts a shared span adds: what lies before it, and the part of it in the range. */
  function TileNext(parts: seq<Span<Part>>, range: GuestRange, next: Extent, cursor: int): seq<Span<Part>> {
    Append(Append(parts, cursor, Min(next.begin, range.End()), PartOf(range.tag, false)),
           Max(cursor, next.begin), Min(next.End(), range.End()), PartOf(range.tag, true))
  }

  lemma TilePoint(parts: seq<Span<Part>>, range: GuestRange, next: Extent, cursor: int, a: int)
    requires Sorted(parts) && (forall b :: At(parts, b).Some? ==> b < cursor) && 0 <= next.size
    requires range.begin <= cursor < next.End() && next.begin < range.End()
    ensures Sorted(TileNext(parts, range, next, cursor))
    ensures At(TileNext(parts, range, next, cursor), a) ==
      if cursor <= a < Min(next.End(), range.End()) then Some(PartOf(range.tag, next.begin <= a)) else At(parts, a)
  {
    var mid := Append(parts, cursor, Min(next.begin, range.End()), PartOf(range.tag, false));
    AppendAt(parts, cursor, Min(next.begin, range.End()), PartOf(range.tag, false));
    AppendAt(mid, Max(cursor, next.begin), Min(next.End(), range.End()), PartOf(range.tag, true));
    assert At(mid, a) == if cursor <= a < Min(next.begin, range.End()) then Some(PartOf(range.tag, false)) else At(parts, a);
  }

  lemma TileStep(parts: seq<Span<Part>>, range: GuestRange, shared: seq<Extent>, j: nat, cursor: int)
    requires Tiled(parts, range, shared, j, cursor) && j < |shared| && Ascending(shared)
    requires cursor < shared[j].End() && shared[j].begin < range.End() && 0 <= shared[j].size
    ensures Tiled(TileNext(parts, range, shared[j], cursor), range, shared, j + 1, shared[j].End())
  {
    var tiles := TileNext(parts, range, shared[j], cursor);
    TilePoint(parts, range, shared[j], cursor, cursor);
    UnionNext(shared, j);
    if j > 0 { assert shared[j - 1].begin <= shared[j - 1 + 1].begin; }
    forall a
      ensures At(tiles, a).Some? <==> range.Has(a) && a < shared[j].End()
      ensures At(tiles, a).Some? ==> At(tiles, a).value == PartOf(range.tag, At(shared[..j + 1], a).Some?)
      ensures At(tiles, a).Some? && At(shared[..j + 1], a).None? ==> a < shared[j].begin
    {
      TilePoint(parts, range, shared[j], cursor, a);
    }
  }

  /** A shared span that misses what is left of the range adds nothing. */
  lemma TileSkip(parts: seq<Span<Part>>, range: GuestRange, shared: seq<Extent>, j: nat, cursor: int)
    requires Tiled(parts, range, shared, j, cursor) && j < |shared| && Ascending(shared)
    requires shared[j].End() <= cursor || range.End() <= shared[j].begin
    ensures Tiled(parts, range, shared, j + 1, cursor)
  {
    UnionNext(shared, j);
    if j > 0 { assert shared[j - 1].begin <= shared[j - 1 + 1].begin; }
  }

  /** Shared spans are mappings of whole host pages. */
  ghost predicate WholePages(shared: seq<Extent>, page: nat)
    requires 0 < page
  {
    forall i :: 0 <= i < |shared| ==>
      0 <= shared[i].begin && 0 <= shared[i].size && Aligned(shared[i].begin, page) && Aligned(shared[i].size, page)
  }

  /** An empty part with an end on a host page stays empty when rounded, so the plan
      may leave it out. */
  lemma EmptyPartStaysEmpty(from: nat, to: nat, page: nat)
    requires 0 < page && to <= from && (Aligned(from, page) || Aligned(to, page))
    ensures AlignUp(to, page) <= AlignDown(from, page)
  {
    if Aligned(from, page) {
      AlignedFixed(from, page);
      AlignUpLeast(to, from, page);
    } else {
      AlignedFixed(to, page);
      AlignDownGreatest(from, to, page);
    }
  }

  // ---- Where the parts are cut ----

  predicate OnPage(v: int, page: nat)
    requires 0 < page
  {
    0 <= v && Aligned(v, page)
  }

  /** `x` lies in the range and is cut off at its ends or on host page boundaries. */
  predicate PieceOf<T, U>(x: Span<T>, range: Span<U>, page: nat)
    requires 0 < page
  {
    && range.begin <= x.begin && x.End() <= range.End()
    && (x.begin == range.begin || OnPage(x.begin, page))
    && (x.End() == range.End() || OnPage(x.End(), page))
  }

  ghost predicate PiecesOf(parts: seq<Span<Part>>, range: GuestRange, page: nat)
    requires 0 < page
  {
    forall k :: 0 <= k < |parts| ==> PieceOf(parts[k], range, page)
  }

  ghost predicate IsPiece(x: Span<Part>, committed: seq<GuestRange>, page: nat)
    requires 0 < page
  {
    exists i :: 0 <= i < |committed| && PieceOf(x, committed[i], page)
  }

  /** Every part is a piece of one range. */
  ghost predicate CutAtPages(plan: seq<Span<Part>>, committed: seq<GuestRange>, page: nat)
    requires 0 < page
  {
    forall k {:trigger IsPiece(plan[k], committed, page)} :: 0 <= k < |plan| ==> IsPiece(plan[k], committed, page)
  }

  lemma AppendPiece(parts: seq<Span<Part>>, range: GuestRange, page: nat, from: int, to: int, part: Part)
    requires 0 < page && PiecesOf(parts, range, page)
    requires range.begin <= from && to <= range.End()
    requires from == range.begin || OnPage(from, page)
    requires to == range.End() || OnPage(to, page)
    ensures PiecesOf(Append(parts, from, to, part), range, page)
  {
  }

  lemma CutNextRange(plan: seq<Span<Part>>, parts: seq<Span<Part>>, committed: seq<GuestRange>, page: nat, i: nat)
    requires 0 < page && i < |committed| && CutAtPages(plan, committed, page) && PiecesOf(parts, committed[i], page)
    ensures CutAtPages(plan + parts, committed, page)
  {
    forall k | 0 <= k < |plan + parts| ensures IsPiece((plan + parts)[k], committed, page) {
      if k < |plan| { assert IsPiece(plan[k], committed, page); } else { assert PieceOf(parts[k - |plan|], committed[i], page); }
    }
  }

  /** Adds [from, to) as one more part, unless its host pages are none. */
  method AddPart(parts: seq<Span<Part>>, from: nat, to: nat, part: Part, page: nat) returns (longer: seq<Span<Part>>)
    requires 0 < page && (from < to || Aligned(from, page) || Aligned(to, page))
    ensures longer == Append(parts, from, to, part)
  {
    if to <= from { EmptyPartStaysEmpty(from, to, page); }
    if AlignUp(to, page) <= AlignDown(from, page) {
      return parts;
    }
    longer := parts + [Span(from, to - from, part)];
  }

  lemma SpanOnPages(shared: seq<Extent>, page: nat, j: nat)
    requires 0 < page && WholePages(shared, page) && j < |shared|
    ensures OnPage(shared[j].begin, page) && OnPage(shared[j].End(), page) && 0 <= shared[j].size
  {
    AlignedSum(shared[j].begin, shared[j].size, page);
  }

  /** What is left of the range after the last shared span. */
  lemma TileEnd(parts: seq<Span<Part>>, range: GuestRange, shared: seq<Extent>, cursor: int)
    requires Tiled(parts, range, shared, |shared|, cursor)
    ensures var tiles := Append(parts, cursor, range.End(), PartOf(range.tag, false));
      Sorted(tiles) && forall a :: At(tiles, a) == if range.Has(a) then Some(PartOf(range.tag, At(shared, a).Some?)) else None
  {
    assert shared[..|shared|] == shared;
    AppendAt(parts, cursor, range.End(), PartOf(range.tag, false));
  }

  /** Adds the two parts a shared span makes. */
  method AddShared(parts: seq<Span<Part>>, range: GuestRange, next: Extent, cursor: nat, page: nat) returns (longer: seq<Span<Part>>)
    requires 0 < page && 0 < range.size && 0 <= range.begin <= cursor < next.End() && next.begin < range.End()
    requires OnPage(next.begin, page) && OnPage(next.End(), page)
    requires PiecesOf(parts, range, page) && (cursor == range.begin || OnPage(cursor, page))
    ensures longer == TileNext(parts, range, next, cursor) && PiecesOf(longer, range, page)
  {
    var finish := range.End();
    AppendPiece(parts, range, page, cursor, Min(next.begin, finish), PartOf(range.tag, false));
    longer := AddPart(parts, cursor, Min(next.begin, finish), PartOf(range.tag, false), page);
    AppendPiece(longer, range, page, Max(cursor, next.begin), Min(next.End(), finish), PartOf(range.tag, true));
    longer := AddPart(longer, Max(cursor, next.begin), Min(next.End(), finish), PartOf(range.tag, true), page);
  }

  /** Cuts one range at the shared spans, in order. */
  method Tile(range: GuestRange, shared: seq<Extent>, page: nat) returns (parts: seq<Span<Part>>)
    requires 0 < page && 0 <= range.begin && 0 < range.size && Ascending(shared) && WholePages(shared, page)
    ensures Sorted(parts)
    ensures forall a :: At(parts, a) == if range.Has(a) then Some(PartOf(range.tag, At(shared, a).Some?)) else None
    ensures PiecesOf(parts, range, page)
  {
    parts := [];
    var cursor, finish, j := range.begin, range.End(), 0;
    while j < |shared|
      invariant 0 <= j <= |shared| && Tiled(parts, range, shared, j, cursor)
      invariant cursor == range.begin || OnPage(cursor, page)
      invariant PiecesOf(parts, range, page)
    {
      var next := shared[j];
      if next.End() <= cursor || finish <= next.begin {
        TileSkip(parts, range, shared, j, cursor);
      } else {
        SpanOnPages(shared, page, j);
        TileStep(parts, range, shared, j, cursor);
        parts := AddShared(parts, range, next, cursor, page);
        cursor := Max(cursor, next.End());
      }
      j := j + 1;
    }
    TileEnd(parts, range, shared, cursor);
    AppendPiece(parts, range, page, cursor, finish, PartOf(range.tag, false));
    parts := AddPart(parts, cursor, finish, PartOf(range.tag, false), page);
  }

  /** Every range cut at the shared spans, in order. */
  method Plan(committed: seq<GuestRange>, shared: seq<Extent>, page: nat) returns (plan: seq<Span<Part>>)
    requires 0 < page && Sorted(committed) && Ascending(shared) && WholePages(shared, page)
    requires forall i :: 0 <= i < |committed| ==> 0 <= committed[i].begin
    ensures Sorted(plan)
    ensures forall a :: At(plan, a) == PartAt(committed, shared, a)
    ensures CutAtPages(plan, committed, page)
  {
    plan := [];
    var i := 0;
    while i < |committed|
      invariant 0 <= i <= |committed| && Sorted(plan) && CutAtPages(plan, committed, page)
      invariant forall a :: At(plan, a) == PartAt(committed[..i], shared, a)
    {
      OrderedIndex(committed, 0, i, i);
      var parts := Tile(committed[i], shared, page);
      PlanNext(plan, parts, committed, shared, i);
      CutNextRange(plan, parts, committed, page, i);
      plan := plan + parts;
      i := i + 1;
    }
    assert committed[..i] == committed;
  }

  lemma PlanNext(plan: seq<Span<Part>>, parts: seq<Span<Part>>, committed: seq<GuestRange>, shared: seq<Extent>, i: nat)
    requires i < |committed| && Sorted(committed) && Sorted(plan) && Sorted(parts)
    requires forall a :: At(plan, a) == PartAt(committed[..i], shared, a)
    requires forall a :: At(parts, a) == if committed[i].Has(a) then Some(PartOf(committed[i].tag, At(shared, a).Some?)) else None
    ensures Sorted(plan + parts)
    ensures forall a :: At(plan + parts, a) == PartAt(committed[..i + 1], shared, a)
  {
    forall a | At(plan, a).Some? ensures a < committed[i].begin {
      var k := AtWitness(committed[..i], a);
      OrderedIndex(committed, 0, k, i);
    }
    ConcatAround(plan, parts, committed[i].begin);
    assert committed[..i + 1] == committed[..i] + [committed[i]];
    forall a ensures At(plan + parts, a) == PartAt(committed[..i + 1], shared, a) {
      AtSnoc(committed[..i], committed[i], a);
      assert At(plan, a) == PartAt(committed[..i], shared, a);
    }
  }
}
