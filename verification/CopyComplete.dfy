/** When a copying fork brings over everything: which parts of its plan are recorded in the child,
    and what that takes of the parent. */
module CopyComplete {
  import opened Pages
  import opened Spans
  import opened GuestView
  import opened SpaceSpec
  import opened FixedCommit
  import opened ForkPlan
  import opened CopyFork

  // ---- When every part is recorded ----

  function RoundAll(plan: seq<Span<Part>>, page: nat): seq<Span<Part>>
    requires 0 < page && Real(plan)
  {
    seq(|plan|, i requires 0 <= i < |plan| && 0 < page && Real(plan) => Rounded(plan[i], page))
  }

  lemma RoundSnoc(plan: seq<Span<Part>>, page: nat)
    requires 0 < page && Real(plan) && plan != []
    ensures Real(plan[..|plan| - 1])
    ensures RoundAll(plan, page) == RoundAll(plan[..|plan| - 1], page) + [Rounded(plan[|plan| - 1], page)]
  {
  }

  /** No host page holds bytes of two parts. */
  ghost predicate Separate(plan: seq<Span<Part>>, page: nat)
    requires 0 < page && Real(plan)
  {
    Sorted(RoundAll(plan, page))
  }

  ghost predicate InReach(plan: seq<Span<Part>>, floor: int, top: int) {
    forall i :: 0 <= i < |plan| ==> floor <= plan[i].begin && plan[i].End() <= top
  }

  ghost predicate Accepted(plan: seq<Span<Part>>, remapOk: Span<Part> -> bool) {
    forall i :: 0 <= i < |plan| && plan[i].tag.copied ==> remapOk(plan[i])
  }

  lemma RoundedBounds(x: Span<Part>, page: nat, floor: nat, top: nat)
    requires 0 < page && 0 <= x.begin && 0 < x.size && Aligned(floor, page) && Aligned(top, page)
    ensures var y := Rounded(x, page);
      && y.begin <= x.begin && x.End() <= y.End()
      && (floor <= y.begin <==> floor <= x.begin) && (y.End() <= top <==> x.End() <= top)
  {
    if floor <= x.begin { AlignDownGreatest(x.begin, floor, page); }
    if x.End() <= top { AlignUpLeast(x.End(), top, page); }
  }

  lemma {:induction false} SortedBelow<T>(rs: seq<Span<T>>, a: int)
    requires Sorted(rs) && At(rs, a).Some?
    ensures a < rs[|rs| - 1].End()
  {
    var i := AtWitness(rs, a);
    OrderedIndex(rs, 0, i, |rs| - 1);
  }

  /** Room at or after the start of the last span is clear exactly past its end. */
  lemma ClearPastLast<T>(rs: seq<Span<T>>, lo: int, hi: int)
    requires Sorted(rs) && rs != [] && rs[|rs| - 1].begin <= lo < hi
    ensures Clear(rs, lo, hi) <==> rs[|rs| - 1].End() <= lo
  {
    var n := |rs| - 1;
    if lo < rs[n].End() {
      AtIndex(rs, n, lo);
    } else {
      forall a | lo <= a < hi ensures At(rs, a).None? {
        if At(rs, a).Some? { SortedBelow(rs, a); }
      }
    }
  }

  /** A part meets none of the rounded parts before it, the last being that of `w`, exactly when
      it starts past the last. */
  lemma RoomAfter(rounded: seq<Span<Part>>, w: Span<Part>, x: Span<Part>, y: Span<Part>, page: nat)
    requires 0 < page && 0 <= w.begin && 0 < w.size && w.End() <= x.begin && 0 < x.size && y == Rounded(x, page)
    requires Sorted(rounded) && rounded != [] && rounded[|rounded| - 1] == Rounded(w, page)
    ensures Clear(rounded, y.begin, y.End()) <==> rounded[|rounded| - 1].End() <= y.begin
  {
    var last := rounded[|rounded| - 1];
    RoundedBounds(w, page, 0, 0);
    RoundedBounds(x, page, last.begin, 0);
    ClearPastLast(rounded, y.begin, y.End());
  }

  lemma SortedSnoc<T>(left: seq<Span<T>>, y: Span<T>)
    requires Sorted(left) && 0 < y.size
    ensures Sorted(left + [y]) <==> left == [] || left[|left| - 1].End() <= y.begin
  {
    assert (left + [y])[..|left|] == left;
  }

  lemma LastFits(left: seq<Span<Part>>, w: Span<Part>, x: Span<Part>, y: Span<Part>, page: nat, floor: nat, top: nat)
    requires 0 < page && 0 <= x.begin && 0 < x.size && y == Rounded(x, page) && Aligned(floor, page) && Aligned(top, page)
    requires Sorted(left)
    requires left != [] ==> 0 <= w.begin && 0 < w.size && w.End() <= x.begin && left[|left| - 1] == Rounded(w, page)
    ensures Fits(left, y, floor, top) <==> Sorted(left + [y]) && floor <= x.begin && x.End() <= top
  {
    RoundedBounds(x, page, floor, top);
    SortedSnoc(left, y);
    if left != [] { RoomAfter(left, w, x, y, page); }
  }

  lemma NextLost(c: Copy, x: Span<Part>, ok: bool, page: nat, floor: int, top: int)
    requires 0 < page && 0 <= x.begin && 0 < x.size
    ensures var next, y := Next(c, x, ok, page, floor, top), Rounded(x, page);
      && (next.lost == [] <==> c.lost == [] && (x.tag.copied ==> ok) && Fits(c.adopted, y, floor, top))
      && (next.lost == [] ==> next.adopted == c.adopted + [y] && next.laid == c.laid + [y])
  {
  }

  lemma SeparatePrefix(plan: seq<Span<Part>>, page: nat)
    requires 0 < page && Real(plan) && plan != [] && Separate(plan, page)
    ensures Separate(plan[..|plan| - 1], page)
  {
    RoundSnoc(plan, page);
    assert RoundAll(plan, page)[..|plan| - 1] == RoundAll(plan[..|plan| - 1], page);
  }

  /** Every part is recorded in the child exactly when no two of them touch one host page, all
      lie in the arena above its lowest 64 KB, and the host copies each one asked of it. */
  lemma {:induction false} AllRecorded(plan: seq<Span<Part>>, remapOk: Span<Part> -> bool, page: nat, floor: nat, top: nat)
    requires 0 < page && Real(plan) && Sorted(plan) && Aligned(floor, page) && Aligned(top, page)
    ensures var c := Copying(plan, remapOk, page, floor, top);
      && (c.lost == [] <==> Separate(plan, page) && InReach(plan, floor, top) && Accepted(plan, remapOk))
      && (c.lost == [] ==> c.adopted == RoundAll(plan, page) && c.laid == RoundAll(plan, page))
    decreases |plan|
  {
    if plan != [] {
      var n := |plan| - 1;
      AllRecorded(plan[..n], remapOk, page, floor, top);
      var c := Copying(plan[..n], remapOk, page, floor, top);
      NextLost(c, plan[n], remapOk(plan[n]), page, floor, top);
      SplitLast(plan, remapOk, floor, top);
      if Separate(plan[..n], page) { OneMore(plan, page, floor, top); }
      if Separate(plan, page) { SeparatePrefix(plan, page); }
      RoundSnoc(plan, page);
    }
  }

  /** The last part fits after the others exactly when it shares no host page with them and
      lies in the arena. */
  lemma OneMore(plan: seq<Span<Part>>, page: nat, floor: nat, top: nat)
    requires 0 < page && Real(plan) && Sorted(plan) && plan != [] && Aligned(floor, page) && Aligned(top, page)
    requires Separate(plan[..|plan| - 1], page)
    ensures var n := |plan| - 1;
      Fits(RoundAll(plan[..n], page), Rounded(plan[n], page), floor, top) <==>
      Separate(plan, page) && floor <= plan[n].begin && plan[n].End() <= top
  {
    var n := |plan| - 1;
    RoundSnoc(plan, page);
    var left, w := RoundAll(plan[..n], page), if n > 0 then plan[n - 1] else plan[n];
    RoundBefore(plan, page, left, w);
    LastFits(left, w, plan[n], Rounded(plan[n], page), page, floor, top);
  }

  lemma RoundBefore(plan: seq<Span<Part>>, page: nat, left: seq<Span<Part>>, w: Span<Part>)
    requires 0 < page && Real(plan) && Sorted(plan) && plan != [] && Real(plan[..|plan| - 1])
    requires left == RoundAll(plan[..|plan| - 1], page) && w == plan[if |plan| > 1 then |plan| - 2 else 0]
    ensures left != [] ==> w.End() <= plan[|plan| - 1].begin && left[|left| - 1] == Rounded(w, page)
  {
  }

  lemma SplitLast(plan: seq<Span<Part>>, remapOk: Span<Part> -> bool, floor: int, top: int)
    requires plan != []
    ensures var n := |plan| - 1;
      && (InReach(plan, floor, top) <==> InReach(plan[..n], floor, top) && floor <= plan[n].begin && plan[n].End() <= top)
      && (Accepted(plan, remapOk) <==> Accepted(plan[..n], remapOk) && (plan[n].tag.copied ==> remapOk(plan[n])))
  {
    var n := |plan| - 1;
    assert plan == plan[..n] + [plan[n]];
  }

  lemma PageOfPart(x: Span<Part>, page: nat, a: nat, b: nat)
    requires 0 < page && 0 <= x.begin && 0 < x.size && x.Has(b)
    requires AlignDown(a, page) <= b < AlignDown(a, page) + page
    ensures Rounded(x, page).Has(a)
  {
    PageReached(Span(x.begin, x.size, ()), a, b, page);
  }

  // ---- What it takes of the parent ----

  /** Byte `a` of range `i` and byte `b` of range `j` lie in one host page. */
  predicate InOnePage(rs: seq<GuestRange>, page: nat, i: int, j: int, a: nat, b: nat)
    requires 0 < page
  {
    0 <= i < |rs| && 0 <= j < |rs| && rs[i].Has(a) && rs[j].Has(b) && AlignDown(a, page) == AlignDown(b, page)
  }

  /** No host page holds bytes of two ranges. */
  ghost predicate RangesApart(rs: seq<GuestRange>, page: nat)
    requires 0 < page
  {
    forall i, j, a: nat, b: nat :: InOnePage(rs, page, i, j, a, b) ==> i == j
  }

  /** Everything committed lies above the lowest 64 KB of an arena of `size` bytes, and in it. */
  ghost predicate Reachable(s: Space, size: nat) {
    forall a :: s.Cell(a).Some? ==> s.base + LOWEST_USABLE <= a < s.base + size
  }

  /** An end and a later start in one host page. */
  lemma EndsMeet(e: nat, b: nat, page: nat)
    requires 0 < page && 0 < e <= b && AlignDown(b, page) < AlignUp(e, page)
    ensures AlignDown(e - 1, page) == AlignDown(b, page)
  {
    var h := AlignDown(e - 1, page);
    AlignedSum(h, page, page);
    AlignUpLeast(e, h + page, page);
    AlignDownGreatest(b, h, page);
    if h < AlignDown(b, page) { AlignedApart(h, AlignDown(b, page), page); }
  }

  /** Of two parts in order, cut from ranges that share no host page, the first ends on a host
      page at or before the one the second starts on. */
  lemma PartsApart(x: Span<Part>, y: Span<Part>, rs: seq<GuestRange>, page: nat, i: int, j: int)
    requires 0 < page && 0 <= x.begin && 0 < x.size && x.End() <= y.begin && 0 < y.size && RangesApart(rs, page)
    requires 0 <= i < |rs| && 0 <= j < |rs| && PieceOf(x, rs[i], page) && PieceOf(y, rs[j], page)
    ensures AlignUp(x.End(), page) <= AlignDown(y.begin, page)
  {
    if OnPage(x.End(), page) {
      AlignedFixed(x.End(), page);
      AlignDownGreatest(y.begin, x.End(), page);
    } else if OnPage(y.begin, page) {
      AlignedFixed(y.begin, page);
      AlignUpLeast(x.End(), y.begin, page);
    } else if AlignDown(y.begin, page) < AlignUp(x.End(), page) {
      EndsMeet(x.End(), y.begin, page);
      assert InOnePage(rs, page, i, j, x.End() - 1, y.begin);
    }
  }

  /** The last two parts. */
  lemma LastApart(plan: seq<Span<Part>>, rs: seq<GuestRange>, page: nat)
    requires 0 < page && Real(plan) && Sorted(plan) && CutAtPages(plan, rs, page) && RangesApart(rs, page) && 1 < |plan|
    ensures Rounded(plan[|plan| - 2], page).End() <= Rounded(plan[|plan| - 1], page).begin
  {
    var x, y := plan[|plan| - 2], plan[|plan| - 1];
    assert IsPiece(x, rs, page) && IsPiece(y, rs, page);
    var i :| 0 <= i < |rs| && PieceOf(x, rs[i], page);
    var j :| 0 <= j < |rs| && PieceOf(y, rs[j], page);
    PartsApart(x, y, rs, page, i, j);
  }

  lemma CutPrefix(plan: seq<Span<Part>>, rs: seq<GuestRange>, page: nat, n: nat)
    requires 0 < page && CutAtPages(plan, rs, page) && n <= |plan|
    ensures CutAtPages(plan[..n], rs, page)
  {
    forall k | 0 <= k < n ensures IsPiece(plan[..n][k], rs, page) { assert IsPiece(plan[k], rs, page); }
  }

  lemma {:induction false} SeparateParts(plan: seq<Span<Part>>, rs: seq<GuestRange>, page: nat)
    requires 0 < page && Real(plan) && Sorted(plan) && CutAtPages(plan, rs, page) && RangesApart(rs, page)
    ensures Separate(plan, page)
    decreases |plan|
  {
    if plan != [] {
      var n := |plan| - 1;
      CutPrefix(plan, rs, page, n);
      SeparateParts(plan[..n], rs, page);
      if n > 0 { LastApart(plan, rs, page); }
      SeparateLast(plan, page);
    }
  }

  lemma SeparateLast(plan: seq<Span<Part>>, page: nat)
    requires 0 < page && Real(plan) && plan != [] && Real(plan[..|plan| - 1]) && Separate(plan[..|plan| - 1], page)
    requires 1 < |plan| ==> Rounded(plan[|plan| - 2], page).End() <= Rounded(plan[|plan| - 1], page).begin
    ensures Separate(plan, page)
  {
    RoundSnoc(plan, page);
    RoundedBounds(plan[|plan| - 1], page, 0, 0);
    SortedSnoc(RoundAll(plan[..|plan| - 1], page), Rounded(plan[|plan| - 1], page));
  }

  /** The part a committed byte is in is a piece of its range. */
  lemma PieceOfHolder(plan: seq<Span<Part>>, rs: seq<GuestRange>, page: nat, k: int, i: int, a: int)
    requires 0 < page && Sorted(rs) && CutAtPages(plan, rs, page) && 0 <= k < |plan| && plan[k].Has(a)
    requires 0 <= i < |rs| && rs[i].Has(a)
    ensures PieceOf(plan[k], rs[i], page)
  {
    assert IsPiece(plan[k], rs, page);
    var r :| 0 <= r < |rs| && PieceOf(plan[k], rs[r], page);
    OneHolder(rs, r, i, a);
  }

  lemma ApartFromParts(s: Space, shared: seq<Extent>, plan: seq<Span<Part>>, i: int, j: int, a: nat, b: nat)
    requires 0 < s.page && Real(plan) && Sorted(plan) && Sorted(s.committed) && Separate(plan, s.page)
    requires CutAtPages(plan, s.committed, s.page) && forall e :: At(plan, e) == PartAt(s.committed, shared, e)
    requires InOnePage(s.committed, s.page, i, j, a, b)
    ensures i == j
  {
    AtIndex(s.committed, i, a);
    AtIndex(s.committed, j, b);
    assert At(plan, a) == PartAt(s.committed, shared, a) && At(plan, b) == PartAt(s.committed, shared, b);
    var k := AtWitness(plan, a);
    var m := AtWitness(plan, b);
    PageOfPart(plan[k], s.page, a, a);
    PageOfPart(plan[m], s.page, a, b);
    OneHolder(RoundAll(plan, s.page), k, m, a);
    PieceOfHolder(plan, s.committed, s.page, k, i, a);
    PieceOfHolder(plan, s.committed, s.page, m, j, b);
    OneHolder(s.committed, i, j, a);
  }

  /** The parts lie in reach exactly when everything committed does. */
  lemma ReachIsInReach(s: Space, shared: seq<Extent>, plan: seq<Span<Part>>, size: nat)
    requires Sorted(plan) && forall a :: At(plan, a) == PartAt(s.committed, shared, a)
    ensures InReach(plan, s.base + LOWEST_USABLE, s.base + size) <==> Reachable(s, size)
  {
    var floor, top := s.base + LOWEST_USABLE, s.base + size;
    if Reachable(s, size) {
      forall i | 0 <= i < |plan| ensures floor <= plan[i].begin && plan[i].End() <= top {
        PartIsCommitted(s, shared, plan, i);
        assert s.Cell(plan[i].begin).Some? && s.Cell(plan[i].End() - 1).Some?;
      }
    }
    if InReach(plan, floor, top) {
      forall a | s.Cell(a).Some? ensures floor <= a < top {
        assert At(plan, a) == PartAt(s.committed, shared, a);
        var i := AtWitness(plan, a);
      }
    }
  }

  lemma SeparateIffApart(s: Space, shared: seq<Extent>, plan: seq<Span<Part>>)
    requires 0 < s.page && Real(plan) && Sorted(plan) && Sorted(s.committed) && CutAtPages(plan, s.committed, s.page)
    requires forall a :: At(plan, a) == PartAt(s.committed, shared, a)
    ensures Separate(plan, s.page) <==> RangesApart(s.committed, s.page)
  {
    if RangesApart(s.committed, s.page) { SeparateParts(plan, s.committed, s.page); }
    if Separate(plan, s.page) {
      forall i, j, a: nat, b: nat | InOnePage(s.committed, s.page, i, j, a, b) ensures i == j {
        ApartFromParts(s, shared, plan, i, j, a, b);
      }
    }
  }

  lemma RecordedIff(s: Space, shared: seq<Extent>, t0: Space, plan: seq<Span<Part>>, c: Copy, remapOk: Span<Part> -> bool)
    requires Planned(s, shared, t0, plan, c, remapOk)
    ensures c.lost == [] <==>
      Separate(plan, s.page) && InReach(plan, s.base + LOWEST_USABLE, s.base + t0.size) && Accepted(plan, remapOk)
    ensures c.lost == [] ==> c.adopted == RoundAll(plan, s.page) == c.laid
  {
    AlignedSum(s.base, LOWEST_USABLE, s.page);
    AlignedSum(s.base, t0.size, s.page);
    AllRecorded(plan, remapOk, s.page, s.base + LOWEST_USABLE, s.base + t0.size);
  }

  /** What a fork of `s` into an arena of `size` bytes needs to bring everything over: no host page
      with bytes of two ranges, nothing in the lowest 64 KB or past the arena, and a host that
      grants the copies it is asked for. */
  ghost predicate Whole(s: Space, size: nat, plan: seq<Span<Part>>, remapOk: Span<Part> -> bool)
    requires 0 < s.page
  {
    RangesApart(s.committed, s.page) && Reachable(s, size) && Accepted(plan, remapOk)
  }

  /** A copying fork loses nothing exactly when the parent's own ranges allow it and the host
      grants the copies. */
  lemma LosesNothingIff(s: Space, shared: seq<Extent>, t0: Space, plan: seq<Span<Part>>, c: Copy, remapOk: Span<Part> -> bool)
    requires Planned(s, shared, t0, plan, c, remapOk)
    ensures c.lost == [] <==> Whole(s, t0.size, plan, remapOk)
  {
    RecordedIff(s, shared, t0, plan, c, remapOk);
    SeparateIffApart(s, shared, plan);
    ReachIsInReach(s, shared, plan, t0.size);
  }

  /** The ranges are whole host pages. */
  ghost predicate PageRanges(rs: seq<GuestRange>, page: nat)
    requires 0 < page
  {
    forall i :: 0 <= i < |rs| ==> OnPage(rs[i].begin, page) && OnPage(rs[i].End(), page)
  }

  lemma PageRangesApart(rs: seq<GuestRange>, page: nat)
    requires 0 < page && Sorted(rs) && PageRanges(rs, page)
    ensures RangesApart(rs, page)
  {
    forall i, j, a: nat, b: nat | InOnePage(rs, page, i, j, a, b) ensures i == j {
      PageInside(rs[i].begin, rs[i].End(), a, page);
      PageInside(rs[j].begin, rs[j].End(), b, page);
      OneHolder(rs, i, j, AlignDown(a, page));
    }
  }

  /** Then a host page has something in it exactly where all of it is committed. */
  lemma PageAllOrNone(s: Space, a: nat)
    requires 0 < s.page && Sorted(s.committed) && PageRanges(s.committed, s.page)
    ensures s.Cell(a).Some? <==> !s.PageClear(a)
  {
    if !s.PageClear(a) {
      var h := AlignDown(a, s.page);
      var b :| h <= b < h + s.page && At(s.committed, b).Some?;
      var i := AtWitness(s.committed, b);
      SamePage(h, b, s.page);
      PageInside(s.committed[i].begin, s.committed[i].End(), b, s.page);
      AtIndex(s.committed, i, a);
    }
  }
}
