/** Working through the uncommitted gaps of a span: mapping their whole host pages afresh, and
    committing them one by one where the host does not refuse. */
module Gaps {
  import opened Pages
  import opened Spans
  import opened GuestView
  import opened RangeIndex
  import opened RangeEdit
  import opened SpaceSpec
  import opened SpaceOps
  import opened FixedCommit
  import opened Protection
  import opened Records
  import opened FreeList

  /** The whole pages of `gaps` have been mapped afresh and nothing else has changed. */
  ghost predicate Filled(gaps: seq<Extent>, page: nat, bytes0: int -> int, bytes: int -> int,
                         host0: int -> Access, host: int -> Access)
    requires 0 < page && NonNegative(gaps)
  {
    && (forall a :: bytes(a) == if At(Shrunk(gaps, page), a).Some? then 0 else bytes0(a))
    && (forall a :: host(a) == if At(Shrunk(gaps, page), a).Some? then NO_ACCESS else host0(a))
  }

  /** A walk of the list that has moved over its first `i` ranges and stands at `cursor`. */
  ghost predicate Walked(gaps: seq<Extent>, committed: seq<GuestRange>, begin: nat, end: nat, cursor: int, i: int) {
    && 0 <= i <= |committed|
    && (i > 0 ==> committed[i - 1].End() <= cursor)
    && GapsUpTo(gaps, committed, begin, cursor) && Full(committed, end, cursor)
    && NonNegative(gaps)
  }

  /** The gaps, with the one from `cursor` to `stop` if there is one. */
  function UpTo(gaps: seq<Extent>, cursor: int, stop: int): seq<Extent> {
    if cursor < stop then gaps + [Span(cursor, stop - cursor, ())] else gaps
  }

  lemma WalkOver(gaps: seq<Extent>, committed: seq<GuestRange>, begin: nat, end: nat, cursor: int, i: nat)
    requires Sorted(committed) && Walked(gaps, committed, begin, end, cursor, i) && i < |committed|
    requires cursor < committed[i].End() && cursor < end && committed[i].begin < end
    ensures Walked(UpTo(gaps, cursor, committed[i].begin), committed, begin, end, committed[i].End(), i + 1)
  {
    GapStep(gaps, committed, begin, cursor, i);
    AroundRange(committed, i, cursor);
  }

  lemma WalkStart(committed: seq<GuestRange>, begin: nat, end: nat)
    requires begin < end && Sorted(committed)
    ensures Walked([], committed, begin, end, begin, 0)
  {
  }

  lemma WalkPast(gaps: seq<Extent>, committed: seq<GuestRange>, begin: nat, end: nat, cursor: int, i: nat)
    requires Walked(gaps, committed, begin, end, cursor, i) && i < |committed| && committed[i].End() <= cursor
    ensures Walked(gaps, committed, begin, end, cursor, i + 1)
  {
  }

  lemma WalkEnd(gaps: seq<Extent>, committed: seq<GuestRange>, begin: nat, end: nat, cursor: int, i: nat)
    requires Sorted(committed) && Walked(gaps, committed, begin, end, cursor, i)
    requires i < |committed| && cursor < end ==> end <= committed[i].begin
    ensures GapsOf(UpTo(gaps, cursor, end), committed, begin, end) && NonNegative(UpTo(gaps, cursor, end))
  {
    if cursor < end {
      ClearAfter(committed, i, cursor, end);
      AppendGap(gaps, committed, begin, cursor, end);
    } else {
      GapsStop(gaps, committed, begin, cursor, end);
    }
  }

  /** The gaps of [begin, end), found in one walk of the committed list. */
  method WalkGaps(committed: seq<GuestRange>, begin: nat, end: nat) returns (gaps: seq<Extent>)
    requires begin < end && Sorted(committed)
    ensures GapsOf(gaps, committed, begin, end) && NonNegative(gaps)
  {
    gaps := [];
    var cursor, i := begin, 0;
    WalkStart(committed, begin, end);
    while i < |committed| && cursor < end
      invariant Walked(gaps, committed, begin, end, cursor, i)
    {
      var range := committed[i];
      if range.End() <= cursor {
        WalkPast(gaps, committed, begin, end, cursor, i);
        i := i + 1;
        continue;
      }
      if end <= range.begin {
        break;
      }
      WalkOver(gaps, committed, begin, end, cursor, i);
      gaps := UpTo(gaps, cursor, range.begin);
      cursor := Max(cursor, range.End());
      i := i + 1;
    }
    WalkEnd(gaps, committed, begin, end, cursor, i);
    gaps := UpTo(gaps, cursor, end);
  }

  lemma FilledIsVacant(gaps: seq<Extent>, committed: seq<GuestRange>, page: nat, begin: nat, end: nat,
                       bytes0: int -> int, bytes: int -> int, host0: int -> Access, host: int -> Access)
    requires 0 < page && NonNegative(gaps) && GapsOf(gaps, committed, begin, end)
    requires Filled(gaps, page, bytes0, bytes, host0, host)
    ensures forall a :: bytes(a) == if VacantPage(committed, page, begin, end, a) then 0 else bytes0(a)
    ensures forall a :: host(a) == if VacantPage(committed, page, begin, end, a) then NO_ACCESS else host0(a)
  {
    forall a ensures At(Shrunk(gaps, page), a).Some? <==> VacantPage(committed, page, begin, end, a) {
      ShrunkAt(gaps, committed, page, begin, end, a);
    }
  }

  ghost predicate FreedInside(before: seq<Extent>, after: seq<Extent>, gaps: seq<Extent>, page: nat)
    requires 0 < page && NonNegative(gaps)
  {
    forall a :: At(after, a).Some? <==> At(before, a).Some? || At(Shrunk(gaps, page), a).Some?
  }

  /** The whole pages of one gap more. */
  lemma ShrunkSnoc(gaps: seq<Extent>, gap: Extent, page: nat)
    requires 0 < page && NonNegative(gaps) && 0 <= gap.begin <= gap.End()
    ensures NonNegative(gaps + [gap])
    ensures forall a :: At(Shrunk(gaps + [gap], page), a).Some? <==> At(Shrunk(gaps, page), a).Some? || At(ShrinkOne(gap, page), a).Some?
  {
    assert (gaps + [gap])[..|gaps|] == gaps;
    forall a ensures At(Shrunk(gaps + [gap], page), a).Some? <==> At(Shrunk(gaps, page), a).Some? || At(ShrinkOne(gap, page), a).Some? {
      AtConcat(Shrunk(gaps, page), ShrinkOne(gap, page), a);
    }
  }

  /** Every vacant page of a gap is among the pages the gap touches. */
  lemma GapPages(committed: seq<GuestRange>, gap: Extent, page: nat)
    requires 0 < page && 0 <= gap.begin < gap.End()
    ensures forall a :: VacantPage(committed, page, gap.begin, gap.End(), a) ==> WidenOne(gap, page).Has(a)
  {
  }

  /** The gaps the host refuses. */
  function Refusals(gaps: seq<Extent>, gapOk: Extent -> bool): seq<Extent>
  {
    if gaps == [] then []
    else
      var left, gap := Refusals(gaps[..|gaps| - 1], gapOk), gaps[|gaps| - 1];
      if gapOk(gap) then left else left + [gap]
  }

  lemma {:induction false} RefusalWitness(gaps: seq<Extent>, gapOk: Extent -> bool, a: int) returns (i: int)
    ensures At(Refusals(gaps, gapOk), a).Some? ==> 0 <= i < |gaps| && gaps[i].Has(a) && !gapOk(gaps[i])
    ensures At(Refusals(gaps, gapOk), a).None? ==> forall j :: 0 <= j < |gaps| && gaps[j].Has(a) ==> gapOk(gaps[j])
    decreases |gaps|
  {
    i := |gaps| - 1;
    if gaps != [] {
      var left := Refusals(gaps[..i], gapOk);
      AtSnoc(left, gaps[i], a);
      if gapOk(gaps[i]) || !gaps[i].Has(a) {
        i := RefusalWitness(gaps[..i], gapOk, a);
      }
    }
  }

  lemma RefusalIsGap(gaps: seq<Extent>, gapOk: Extent -> bool, a: int)
    ensures At(Refusals(gaps, gapOk), a).Some? ==> At(gaps, a).Some?
  {
    var i := RefusalWitness(gaps, gapOk, a);
    var j := AtWitness(gaps, a);
  }

  lemma {:induction false} NoRefusals(gaps: seq<Extent>, gapOk: Extent -> bool)
    requires forall g :: gapOk(g)
    ensures Refusals(gaps, gapOk) == []
    decreases |gaps|
  {
    if gaps != [] {
      NoRefusals(gaps[..|gaps| - 1], gapOk);
    }
  }

  /** `g` is one of the maximal uncommitted runs of [lo, hi). */
  ghost predicate IsGap(committed: seq<GuestRange>, lo: int, hi: int, g: Extent) {
    && 0 < g.size && lo <= g.begin && g.End() <= hi && Clear(committed, g.begin, g.End())
    && (g.begin == lo || At(committed, g.begin - 1).Some?) && (g.End() == hi || At(committed, g.End()).Some?)
  }

  /** `refused` holds exactly the gaps of [lo, hi) the host turns down. */
  ghost predicate TurnedDown(committed: seq<GuestRange>, lo: int, hi: int, refused: seq<Extent>, gapOk: Extent -> bool) {
    forall g, a :: IsGap(committed, lo, hi, g) && g.Has(a) ==> (At(refused, a).Some? <==> !gapOk(g))
  }

  /** Neighbouring addresses of gaps are in one gap. */
  lemma NextInGap(gaps: seq<Extent>, i: int, a: int, b: int)
    requires Gapped(gaps) && 0 <= i < |gaps| && gaps[i].Has(a) && (b == a + 1 || b == a - 1) && At(gaps, b).Some?
    ensures gaps[i].Has(b)
  {
    var j := AtWitness(gaps, b);
    if i < j { OrderedIndex(gaps, 1, i, j); }
    if j < i { OrderedIndex(gaps, 1, j, i); }
  }

  lemma ListedGap(gaps: seq<Extent>, committed: seq<GuestRange>, lo: int, hi: int, g: Extent, i: int, a: int)
    requires GapsOf(gaps, committed, lo, hi) && IsGap(committed, lo, hi, g) && 0 <= i < |gaps| && gaps[i].Has(a) && g.Has(a)
    ensures gaps[i] == g
  {
    var x := gaps[i];
    assert x.tag == g.tag == ();
    if x.begin < g.begin { AtSome(gaps, i, g.begin - 1); }
    if g.End() < x.End() { AtSome(gaps, i, g.End()); }
    if g.begin < x.begin { NextInGap(gaps, i, x.begin, x.begin - 1); }
    if x.End() < g.End() { NextInGap(gaps, i, x.End() - 1, x.End()); }
  }

  lemma RefusalsTurnedDown(gaps: seq<Extent>, committed: seq<GuestRange>, gapOk: Extent -> bool, lo: int, hi: int)
    requires GapsOf(gaps, committed, lo, hi)
    ensures TurnedDown(committed, lo, hi, Refusals(gaps, gapOk), gapOk)
  {
    forall g, a | IsGap(committed, lo, hi, g) && g.Has(a) ensures At(Refusals(gaps, gapOk), a).Some? <==> !gapOk(g) {
      assert At(committed, a).None?;
      var i := AtWitness(gaps, a);
      ListedGap(gaps, committed, lo, hi, g, i, a);
      var j := RefusalWitness(gaps, gapOk, a);
      if At(Refusals(gaps, gapOk), a).Some? { ListedGap(gaps, committed, lo, hi, g, j, a); }
    }
  }

  /** The host refuses a gap in full or not at all. */
  lemma RefusalsAreWhole(s: Space, gaps: seq<Extent>, gapOk: Extent -> bool, lo: int, hi: int)
    requires GapsOf(gaps, s.committed, lo, hi)
    ensures WholeGaps(s, lo, hi, Refusals(gaps, gapOk))
  {
    var refused := Refusals(gaps, gapOk);
    forall a | At(refused, a).Some? ensures lo <= a < hi && s.Cell(a).None? {
      RefusalIsGap(gaps, gapOk, a);
    }
    forall a, b | At(refused, a).Some? && lo <= b < hi && Clear(s.committed, Min(a, b), Max(a, b) + 1)
      ensures At(refused, b).Some?
    {
      SameGapRefused(s, gaps, gapOk, lo, hi, a, b);
    }
  }

  lemma SameGapRefused(s: Space, gaps: seq<Extent>, gapOk: Extent -> bool, lo: int, hi: int, a: int, b: int)
    requires GapsOf(gaps, s.committed, lo, hi) && At(Refusals(gaps, gapOk), a).Some?
    requires lo <= b < hi && Clear(s.committed, Min(a, b), Max(a, b) + 1)
    ensures At(Refusals(gaps, gapOk), b).Some?
  {
    RefusalIsGap(gaps, gapOk, a);
    var i := RefusalWitness(gaps, gapOk, a);
    forall c | Min(a, b) <= c < Max(a, b) + 1 ensures At(gaps, c).Some? {
      assert At(s.committed, c).None? && At(gaps, a).Some?;
    }
    var j := FullInOneSpan(gaps, Min(a, b), Max(a, b) + 1);
    if i < j { OrderedIndex(gaps, 1, i, j); }
    if j < i { OrderedIndex(gaps, 1, j, i); }
    var k := RefusalWitness(gaps, gapOk, b);
  }

  /** The next gap is clear of everything and of the gaps before it. */
  lemma NextGap(s: Space, gaps: seq<Extent>, k: nat, lo: nat, hi: nat, gapOk: Extent -> bool)
    requires GapsOf(gaps, s.committed, lo, hi) && k < |gaps|
    ensures 0 < gaps[k].size && lo <= gaps[k].begin && gaps[k].End() <= hi
    ensures Clear(s.committed, gaps[k].begin, gaps[k].End()) && Clear(gaps[..k], gaps[k].begin, gaps[k].End())
    ensures forall a :: gaps[k].Has(a) ==> At(Refusals(gaps[..k], gapOk), a).None?
    ensures Refusals(gaps[..k + 1], gapOk) ==
      if gapOk(gaps[k]) then Refusals(gaps[..k], gapOk) else Refusals(gaps[..k], gapOk) + [gaps[k]]
  {
    var g, before := gaps[k], gaps[..k];
    assert gaps[..k + 1][..k] == before;
    GapsNonNegative(gaps, s.committed, lo, hi);
    SpanOfGap(gaps, s.committed, lo, hi, k);
    GappedIsSorted(gaps);
    OrderedPrefix(gaps, 0, k);
    if k > 0 { OrderedIndex(gaps, 0, k - 1, k); }
    forall a | g.begin <= a < g.End() ensures At(before, a).None? && At(Refusals(before, gapOk), a).None? {
      AtBetween(before, k, a);
      RefusalIsGap(before, gapOk, a);
    }
    forall a | g.begin <= a < g.End() ensures At(s.committed, a).None? {
      assert g.Has(a);
    }
  }

  /** A protection change of whole host pages, as the list is walked for it. */
  lemma WholePagesProtected(t: Space, u: Space, lo: nat, hi: nat, p: Prot, changed: bool)
    requires 0 < t.page && ListsOk(t) && lo < hi && Aligned(lo, t.page) && Aligned(hi, t.page)
    requires changed <==> Meeting(t.committed, MakeRequest(lo, hi - lo, p, t.page))
    requires changed ==> Applied(t, u, MakeRequest(lo, hi - lo, p, t.page))
    requires !changed ==> u == t
    ensures Reprotection(t, u, lo, hi, p) && (changed <==> !Clear(t.committed, lo, hi))
  {
    AlignedRequest(lo, hi, p, t.page);
    MetIsNotClear(t.committed, lo, hi);
    ReprotectionHolds(t, u, lo, hi, p);
  }

  /** One gap more: what the gaps so far and the next one add up to. */
  lemma GapsNext(s: Space, t: Space, u: Space, gaps: seq<Extent>, k: nat, lo: nat, hi: nat, gapOk: Extent -> bool, p: Prot)
    requires 0 < s.page && GapsOf(gaps, s.committed, lo, hi) && k < |gaps| && NonNegative(gaps)
    requires GapsDone(s, t, gaps[..k], Refusals(gaps[..k], gapOk), p)
    requires GapDone(t, u, gaps[k], gapOk(gaps[k]), p)
    ensures GapsDone(s, u, gaps[..k + 1], Refusals(gaps[..k + 1], gapOk), p)
  {
    NextGap(s, gaps, k, lo, hi, gapOk);
    assert gaps[..k + 1] == gaps[..k] + [gaps[k]];
    GapsDoneStep(s, t, u, gaps[..k], Refusals(gaps[..k], gapOk), gaps[k], gapOk(gaps[k]), p);
  }
}
