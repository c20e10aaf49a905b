/** Questions about a sorted list of committed ranges, answered by bisection. */
module RangeIndex {
  import opened Spans
  import opened GuestView

  function Max(x: int, y: int): int { if x < y then y else x }
  function Min(x: int, y: int): int { if x < y then x else y }

  /** The first range ending after `address`. */
  method FirstRangeEndingAfter(committed: seq<GuestRange>, address: int) returns (low: nat)
    requires Sorted(committed)
    ensures low <= |committed|
    ensures forall i :: 0 <= i < low ==> committed[i].End() <= address
    ensures forall i :: low <= i < |committed| ==> address < committed[i].End()
  {
    low := 0;
    var high := |committed|;
    while low < high
      invariant low <= high <= |committed|
      invariant forall i :: 0 <= i < low ==> committed[i].End() <= address
      invariant forall i :: high <= i < |committed| ==> address < committed[i].End()
    {
      var middle := low + (high - low) / 2;
      if committed[middle].End() <= address {
        forall i | 0 <= i < middle ensures committed[i].End() <= address {
          OrderedIndex(committed, 0, i, middle);
        }
        low := middle + 1;
      } else {
        forall i | middle < i < |committed| ensures address < committed[i].End() {
          OrderedIndex(committed, 0, middle, i);
        }
        high := middle;
      }
    }
  }

  // ---- Gaps ----

  /** `gaps` is the uncommitted part of [begin, cursor), and the sweep that built it has
      stopped at `begin` or just after a committed byte. */
  ghost predicate GapsUpTo<T>(gaps: seq<Extent>, committed: seq<Span<T>>, begin: int, cursor: int) {
    && begin <= cursor
    && Gapped(gaps)
    && (gaps != [] ==> gaps[|gaps| - 1].End() < cursor)
    && (forall a :: At(gaps, a).Some? <==> begin <= a < cursor && At(committed, a).None?)
  }

  /** `gaps` lists the maximal uncommitted runs of [begin, end). */
  ghost predicate GapsOf<T>(gaps: seq<Extent>, committed: seq<Span<T>>, begin: int, end: int) {
    && Gapped(gaps)
    && (forall a :: At(gaps, a).Some? <==> begin <= a < end && At(committed, a).None?)
  }

  /** The addresses from `cursor` to the start of range `i` are uncommitted, and those of
      range `i` are not. */
  lemma AroundRange<T>(committed: seq<Span<T>>, i: nat, cursor: int)
    requires Sorted(committed) && i < |committed|
    requires i > 0 ==> committed[i - 1].End() <= cursor
    ensures Clear(committed, cursor, committed[i].begin)
    ensures forall a :: committed[i].Has(a) ==> At(committed, a) == Some(committed[i].tag)
  {
    forall a | cursor <= a < committed[i].begin ensures At(committed, a).None? {
      AtBetween(committed, i, a);
    }
    forall a | committed[i].Has(a) ensures At(committed, a) == Some(committed[i].tag) {
      AtIndex(committed, i, a);
    }
  }

  lemma AppendGap<T>(gaps: seq<Extent>, committed: seq<Span<T>>, begin: int, cursor: int, stop: int)
    requires GapsUpTo(gaps, committed, begin, cursor) && cursor < stop && Clear(committed, cursor, stop)
    ensures GapsOf(gaps + [Span(cursor, stop - cursor, ())], committed, begin, stop)
  {
    var gap := Span(cursor, stop - cursor, ());
    OrderedOne(gap, 1);
    OrderedConcat(gaps, [gap], 1);
    forall a ensures At(gaps + [gap], a).Some? <==> begin <= a < stop && At(committed, a).None? {
      AtSnoc(gaps, gap, a);
    }
  }

  /** Moving the sweep over range `i` records the gap before it, if there is one. */
  lemma GapStep<T>(gaps: seq<Extent>, committed: seq<Span<T>>, begin: int, cursor: int, i: nat)
    requires Sorted(committed) && i < |committed| && GapsUpTo(gaps, committed, begin, cursor)
    requires i > 0 ==> committed[i - 1].End() <= cursor
    requires cursor < committed[i].End()
    ensures GapsUpTo(if cursor < committed[i].begin then gaps + [Span(cursor, committed[i].begin - cursor, ())] else gaps,
                     committed, begin, committed[i].End())
  {
    AroundRange(committed, i, cursor);
    OrderedIndex(committed, 0, i, i);
    if cursor < committed[i].begin {
      AppendGap(gaps, committed, begin, cursor, committed[i].begin);
    }
  }

  /** Nothing is committed from the end of the last range the sweep passed. */
  lemma ClearAfter<T>(committed: seq<Span<T>>, i: nat, cursor: int, end: int)
    requires Sorted(committed) && i <= |committed|
    requires i > 0 ==> committed[i - 1].End() <= cursor
    requires i < |committed| ==> end <= committed[i].begin
    ensures Clear(committed, cursor, end)
  {
    forall a | cursor <= a < end ensures At(committed, a).None? {
      AtBetween(committed, i, a);
    }
  }

  /** A sweep that has passed `end` inside a span has found every gap before it. */
  lemma GapsStop<T>(gaps: seq<Extent>, committed: seq<Span<T>>, begin: int, cursor: int, end: int)
    requires GapsUpTo(gaps, committed, begin, cursor) && end <= cursor && Full(committed, end, cursor)
    ensures GapsOf(gaps, committed, begin, end)
  {
    forall a ensures At(gaps, a).Some? <==> begin <= a < end && At(committed, a).None? {
      assert end <= a < cursor ==> At(committed, a).Some?;
    }
  }

  /** The uncommitted parts of [begin, end), each as long as it can be. */
  method UncommittedIn(committed: seq<GuestRange>, begin: int, end: int) returns (gaps: seq<Extent>)
    requires Sorted(committed)
    ensures GapsOf(gaps, committed, begin, end)
  {
    gaps := [];
    var cursor := begin;
    var index := FirstRangeEndingAfter(committed, cursor);
    while index < |committed| && committed[index].begin < end
      invariant index <= |committed|
      invariant GapsUpTo(gaps, committed, begin, cursor)
      invariant index > 0 ==> committed[index - 1].End() <= cursor
      invariant forall i :: index <= i < |committed| ==> cursor < committed[i].End()
      invariant cursor == begin || cursor < end
    {
      GapStep(gaps, committed, begin, cursor, index);
      AroundRange(committed, index, cursor);
      if cursor < committed[index].begin {
        gaps := gaps + [Span(cursor, committed[index].begin - cursor, ())];
      }
      cursor := Max(cursor, committed[index].End());
      if end <= cursor {
        return;
      }
      forall i | index < i < |committed| ensures cursor < committed[i].End() {
        OrderedIndex(committed, 0, index, i);
      }
      index := index + 1;
    }
    if cursor < end {
      ClearAfter(committed, index, cursor, end);
      AppendGap(gaps, committed, begin, cursor, end);
      gaps := gaps + [Span(cursor, end - cursor, ())];
    }
  }

  /** Range `i` of a sweep that has passed everything before `cursor`, clipped to [begin, end). */
  lemma ClipStep<T>(pieces: seq<Span<T>>, committed: seq<GuestRange>, i: nat, begin: int, end: int, tag: T)
    requires Sorted(committed) && i < |committed| && Sorted(pieces) && begin < end
    requires begin < committed[i].End() && committed[i].begin < end
    requires pieces != [] ==> i > 0 && pieces[|pieces| - 1].End() <= committed[i - 1].End()
    ensures var piece := Span(Max(committed[i].begin, begin), Min(committed[i].End(), end) - Max(committed[i].begin, begin), tag);
      && Sorted(pieces + [piece])
      && piece.End() <= committed[i].End()
      && forall a :: At(pieces + [piece], a) == if committed[i].Has(a) && begin <= a < end then Some(tag) else At(pieces, a)
  {
    var piece := Span(Max(committed[i].begin, begin), Min(committed[i].End(), end) - Max(committed[i].begin, begin), tag);
    OrderedIndex(committed, 0, i, i);
    if i > 0 { OrderedIndex(committed, 0, i - 1, i); }
    OrderedOne(piece, 0);
    OrderedConcat(pieces, [piece], 0);
    forall a ensures At(pieces + [piece], a) == if committed[i].Has(a) && begin <= a < end then Some(tag) else At(pieces, a) {
      AtSnoc(pieces, piece, a);
    }
  }

  function Kept<T>(cell: Option<Cell>, keep: Cell -> bool, tag: Cell -> T): Option<T> {
    if cell.Some? && keep(cell.value) then Some(tag(cell.value)) else None
  }

  /** A sweep of [begin, end) that has passed everything before range `index` and kept the
      clipped ranges satisfying `keep`, retagged by `tag`. */
  ghost predicate Swept<T>(pieces: seq<Span<T>>, committed: seq<GuestRange>, begin: int, end: int, index: nat,
                           keep: Cell -> bool, tag: Cell -> T)
  {
    && index <= |committed|
    && Sorted(pieces)
    && (pieces != [] ==> index > 0 && pieces[|pieces| - 1].End() <= committed[index - 1].End())
    && (forall a :: At(pieces, a) ==
            if begin <= a < end then Kept(At(committed[..index], a), keep, tag) else None)
  }

  lemma SweepStep<T>(pieces: seq<Span<T>>, committed: seq<GuestRange>, begin: int, end: int, index: nat,
                     keep: Cell -> bool, tag: Cell -> T)
    requires Swept(pieces, committed, begin, end, index, keep, tag) && index < |committed|
    requires Sorted(committed) && begin < end && begin < committed[index].End() && committed[index].begin < end
    ensures var x := committed[index];
      var piece := Span(Max(x.begin, begin), Min(x.End(), end) - Max(x.begin, begin), tag(x.tag));
      Swept(if keep(x.tag) then pieces + [piece] else pieces, committed, begin, end, index + 1, keep, tag)
  {
    var x := committed[index];
    ClipStep(pieces, committed, index, begin, end, tag(x.tag));
    assert committed[..index + 1] == committed[..index] + [x];
    var next := committed[..index + 1];
    if index > 0 { OrderedIndex(committed, 0, index - 1, index); }
    OrderedIndex(committed, 0, index, index);
    forall a ensures At(next, a) == if x.Has(a) then Some(x.tag) else At(committed[..index], a) {
      AtSnoc(committed[..index], x, a);
    }
    OrderedPrefix(committed, 0, index);
    forall a | x.Has(a) ensures At(pieces, a).None? {
      AtBetween(committed[..index], index, a);
    }
  }

  /** Stopping the sweep at `index` misses nothing of [begin, end). */
  lemma SweepEnd<T>(pieces: seq<Span<T>>, committed: seq<GuestRange>, begin: int, end: int, index: nat,
                    keep: Cell -> bool, tag: Cell -> T)
    requires Swept(pieces, committed, begin, end, index, keep, tag) && Sorted(committed)
    requires index < |committed| ==> end <= committed[index].begin
    ensures forall a :: At(pieces, a) == if begin <= a < end then Kept(At(committed, a), keep, tag) else None
  {
    forall a | a < end ensures At(committed, a) == At(committed[..index], a) {
      PrefixDecides(committed, index, a);
    }
    forall a ensures At(pieces, a).Some? ==> begin <= a < end {}
  }

  lemma PrefixDecides<T>(rs: seq<Span<T>>, i: nat, a: int)
    requires Sorted(rs) && i <= |rs| && (i < |rs| ==> a < rs[i].begin)
    ensures At(rs, a) == At(rs[..i], a)
  {
    assert rs == rs[..i] + rs[i..];
    AtConcat(rs[..i], rs[i..], a);
    OrderedSuffix(rs, 0, i);
    AtBetween(rs[i..], 0, a);
  }

  /** Everything before the first range ending after `begin` lies below it. */
  lemma SweepStart<T>(committed: seq<GuestRange>, begin: int, end: int, index: nat, keep: Cell -> bool, tag: Cell -> T)
    requires Sorted(committed) && index <= |committed|
    requires forall i :: 0 <= i < index ==> committed[i].End() <= begin
    ensures Swept([], committed, begin, end, index, keep, tag)
  {
    OrderedPrefix(committed, 0, index);
    var before := committed[..index];
    forall a | begin <= a ensures At(before, a).None? {
      AtBetween(before, index, a);
    }
  }

  /** The committed parts of [begin, end), piece by piece. Of a reversed span the code can return
      one reversed piece, which holds no address. */
  method CommittedIn(committed: seq<GuestRange>, begin: int, end: int) returns (pieces: seq<Extent>)
    requires Sorted(committed)
    ensures forall a :: At(pieces, a).Some? <==> begin <= a < end && At(committed, a).Some?
    ensures begin < end ==> Sorted(pieces)
    ensures end <= begin ==>
      pieces == if exists i :: 0 <= i < |committed| && committed[i].begin < end && begin < committed[i].End()
                then [Span(begin, end - begin, ())] else []
  {
    pieces := [];
    var index := FirstRangeEndingAfter(committed, begin);
    ghost var first, keep, tag := index, (c: Cell) => true, (c: Cell) => ();
    SweepStart(committed, begin, end, index, keep, tag);
    while index < |committed| && committed[index].begin < end
      invariant first <= index <= |committed|
      invariant begin < end ==> Swept(pieces, committed, begin, end, index, keep, tag)
      invariant end <= begin ==> pieces == if index == first then [] else [Span(begin, end - begin, ())]
      invariant end <= begin && first < index ==> committed[first].begin < end && (index < |committed| ==> end <= committed[index].begin)
      invariant forall i :: index <= i < |committed| ==> begin < committed[i].End()
    {
      var range := committed[index];
      if begin < end { SweepStep(pieces, committed, begin, end, index, keep, tag); }
      if index + 1 < |committed| { OrderedIndex(committed, 0, index, index + 1); }
      pieces := pieces + [Span(Max(range.begin, begin), Min(range.End(), end) - Max(range.begin, begin), ())];
      index := index + 1;
    }
    if begin < end {
      SweepEnd(pieces, committed, begin, end, index, keep, tag);
    } else {
      NoneReversed(committed, begin, end, first);
      forall a ensures At(pieces, a).None? { AtSnoc([], Span(begin, end - begin, ()), a); }
    }
  }

  /** Only the first range ending after `begin` can hold a span from there down to `end`. */
  lemma NoneReversed(committed: seq<GuestRange>, begin: int, end: int, first: nat)
    requires Sorted(committed) && end <= begin && first <= |committed|
    requires forall i :: 0 <= i < first ==> committed[i].End() <= begin
    ensures (exists i :: 0 <= i < |committed| && committed[i].begin < end && begin < committed[i].End()) ==>
      first < |committed| && committed[first].begin < end
  {
    if i :| 0 <= i < |committed| && committed[i].begin < end && begin < committed[i].End() {
      OrderedIndex(committed, 0, first, i);
    }
  }

  predicate WritableAt(committed: seq<GuestRange>, a: int) {
    At(committed, a).Some? && At(committed, a).value.prot.write
  }

  /** The writable parts of [begin, end), clipped to it, with what they are. */
  method WritableRangesIn(committed: seq<GuestRange>, begin: int, end: int) returns (writable: seq<GuestRange>)
    requires Sorted(committed)
    ensures Sorted(writable)
    ensures forall a :: At(writable, a) == if begin <= a < end && WritableAt(committed, a) then At(committed, a) else None
  {
    writable := [];
    var index := FirstRangeEndingAfter(committed, begin);
    ghost var keep, tag := (c: Cell) => begin < end && c.prot.write, (c: Cell) => c;
    SweepStart(committed, begin, end, index, keep, tag);
    while index < |committed| && committed[index].begin < end
      invariant Swept(writable, committed, begin, end, index, keep, tag)
      invariant forall i :: index <= i < |committed| ==> begin < committed[i].End()
      invariant end <= begin ==> writable == []
    {
      var range := committed[index];
      OrderedIndex(committed, 0, index, index);
      if begin < end {
        SweepStep(writable, committed, begin, end, index, keep, tag);
      } else {
        assert committed[..index + 1] == committed[..index] + [range];
      }
      if range.tag.prot.write {
        var low, high := Max(range.begin, begin), Min(range.End(), end);
        if low < high {
          writable := writable + [Span(low, high - low, range.tag)];
        }
      }
      index := index + 1;
    }
    SweepEnd(writable, committed, begin, end, index, keep, tag);
  }

  // ---- Checks over a span ----

  /** Every byte of [lo, hi) is committed with the permissions of `required`. */
  ghost predicate Admits(committed: seq<GuestRange>, lo: int, hi: int, required: Prot) {
    forall a :: lo <= a < hi ==> At(committed, a).Some? && At(committed, a).value.prot.Covers(required)
  }

  const ADDRESS_LIMIT := 0x1_0000_0000_0000_0000

  /** True exactly when every byte of the span is committed and satisfies `required`. */
  method Validate(committed: seq<GuestRange>, address: nat, size: nat, required: Prot) returns (ok: bool)
    requires Sorted(committed)
    requires forall i :: 0 <= i < |committed| ==> committed[i].End() < ADDRESS_LIMIT
    ensures ok <==> Admits(committed, address, address + size, required)
  {
    if size == 0 {
      return true;
    }
    if address > ADDRESS_LIMIT - 1 - size {
      // The span runs off the top of the address space, and no range reaches that far.
      var last := address + size - 1;
      var i := AtWitness(committed, last);
      assert At(committed, last).None?;
      return false;
    }
    var cursor, end := address, address + size;
    var index := FirstRangeEndingAfter(committed, cursor);
    while index < |committed|
      invariant index <= |committed| && address <= cursor < end
      invariant index > 0 ==> committed[index - 1].End() <= cursor
      invariant forall i :: index <= i < |committed| ==> cursor < committed[i].End()
      invariant Admits(committed, address, cursor, required)
    {
      AroundRange(committed, index, cursor);
      if committed[index].begin > cursor {
        assert At(committed, cursor).None?;
        return false;
      }
      assert At(committed, cursor) == Some(committed[index].tag);
      if !committed[index].tag.prot.Covers(required) {
        return false;
      }
      cursor := committed[index].End();
      if cursor >= end {
        return true;
      }
      forall i | index < i < |committed| ensures cursor < committed[i].End() {
        OrderedIndex(committed, 0, index, i);
      }
      index := index + 1;
    }
    ClearAfter(committed, index, cursor, end);
    assert At(committed, cursor).None?;
    return false;
  }

  /** The allocation epoch at `address`, 0 where nothing is committed. */
  method EpochAt(committed: seq<GuestRange>, address: int) returns (epoch: nat)
    requires Sorted(committed)
    ensures epoch == match At(committed, address) case Some(cell) => cell.epoch case None => 0
  {
    var index := FirstRangeEndingAfter(committed, address);
    if index < |committed| && committed[index].begin <= address {
      AtIndex(committed, index, address);
      return committed[index].tag.epoch;
    }
    AtBetween(committed, index, address);
    return 0;
  }
}
