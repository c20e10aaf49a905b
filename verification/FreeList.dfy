/** The free list as a list of maximal extents: taking a span out of it, and joining a freed span
    to its neighbours. */
module FreeList {
  import opened Spans
  import opened GuestView
  import opened RangeIndex
  import opened RangeEdit

  /** `x` joined to extent `i` if it touches it, and what then follows it. */
  function Grown(was: seq<Extent>, i: nat, x: Extent): Extent
    requires i <= |was|
  {
    if i < |was| && x.End() == was[i].begin then x.(size := x.size + was[i].size) else x
  }

  function Rest(was: seq<Extent>, i: nat, x: Extent): seq<Extent>
    requires i <= |was|
  {
    if i < |was| && x.End() == was[i].begin then was[i + 1..] else was[i..]
  }

  /** `x` placed before extent `i`, joined to whichever neighbours it touches. */
  function Joined(was: seq<Extent>, i: nat, x: Extent): seq<Extent>
    requires i <= |was|
  {
    Join(was[..i], Grown(was, i, x)) + Rest(was, i, x)
  }

  function MergedAt(rs: seq<Extent>, i: nat): seq<Extent>
  {
    if i + 1 < |rs| && rs[i].End() == rs[i + 1].begin
    then rs[..i] + [rs[i].(size := rs[i].size + rs[i + 1].size)] + rs[i + 2..]
    else rs
  }

  lemma JoinRight(was: seq<Extent>, i: nat, x: Extent)
    requires i <= |was|
    ensures MergedAt(was[..i] + [x] + was[i..], i) == was[..i] + [Grown(was, i, x)] + Rest(was, i, x)
  {
    var all := was[..i] + [x] + was[i..];
    assert all[..i] == was[..i] && all[i] == x;
    if i < |was| {
      assert all[i + 1] == was[i] && all[i + 2..] == was[i + 1..];
    }
  }

  lemma JoinLeft(left: seq<Extent>, y: Extent, rest: seq<Extent>)
    ensures (if left != [] then MergedAt(left + [y] + rest, |left| - 1) else left + [y] + rest) == Join(left, y) + rest
  {
    var i, all := |left|, left + [y] + rest;
    assert all[i] == y && all[i + 1..] == rest;
    if i > 0 {
      assert all[..i - 1] == left[..i - 1] && all[i - 1] == left[i - 1];
      assert left[i - 1].tag == () && y.tag == ();
    }
  }

  lemma JoinBoth(was: seq<Extent>, i: nat, x: Extent)
    requires i <= |was|
    ensures var merged := MergedAt(was[..i] + [x] + was[i..], i);
      (if i > 0 then MergedAt(merged, i - 1) else merged) == Joined(was, i, x)
  {
    JoinRight(was, i, x);
    JoinLeft(was[..i], Grown(was, i, x), Rest(was, i, x));
  }

  lemma JoinedFrees(was: seq<Extent>, i: nat, x: Extent)
    requires Gapped(was) && i <= |was| && 0 < x.size && Clear(was, x.begin, x.End())
    requires i > 0 ==> was[i - 1].begin < x.begin
    requires i < |was| ==> x.begin <= was[i].begin
    ensures Freed(was, Joined(was, i, x), x.begin, x.End())
  {
    JoinedGapped(was, i, x);
    var after := Joined(was, i, x);
    forall a ensures At(after, a).Some? <==> At(was, a).Some? || x.begin <= a < x.End() {
      JoinedAt(was, i, x, a);
    }
  }

  /** The neighbours of free room end before it and begin after it. */
  lemma RoomBetween(was: seq<Extent>, i: nat, x: Extent)
    requires Gapped(was) && i <= |was| && 0 < x.size && Clear(was, x.begin, x.End())
    requires i > 0 ==> was[i - 1].begin < x.begin
    requires i < |was| ==> x.begin <= was[i].begin
    ensures i > 0 ==> was[i - 1].End() <= x.begin
    ensures i < |was| ==> x.End() <= was[i].begin
  {
    GappedIsSorted(was);
    if i > 0 && x.begin < was[i - 1].End() {
      AtIndex(was, i - 1, x.begin);
    }
    if i < |was| {
      OrderedIndex(was, 1, i, i);
      AtIndex(was, i, was[i].begin);
    }
  }

  lemma JoinedGapped(was: seq<Extent>, i: nat, x: Extent)
    requires Gapped(was) && i <= |was| && 0 < x.size && Clear(was, x.begin, x.End())
    requires i > 0 ==> was[i - 1].begin < x.begin
    requires i < |was| ==> x.begin <= was[i].begin
    ensures Gapped(Joined(was, i, x))
  {
    RoomBetween(was, i, x);
    var left, y, rest := was[..i], Grown(was, i, x), Rest(was, i, x);
    OrderedPrefix(was, 1, i);
    GappedIsSorted(left);
    CanonicalExtents(left);
    if i < |was| { OrderedIndex(was, 1, i, i); }
    JoinShape(left, y);
    CanonicalExtents(Join(left, y));
    OrderedSuffix(was, 1, |was| - |rest|);
    if i + 1 < |was| { OrderedIndex(was, 1, i, i + 1); }
    OrderedConcat(Join(left, y), rest, 1);
  }

  lemma JoinedAt(was: seq<Extent>, i: nat, x: Extent, a: int)
    requires Gapped(was) && i <= |was| && 0 < x.size && Clear(was, x.begin, x.End())
    requires i > 0 ==> was[i - 1].begin < x.begin
    requires i < |was| ==> x.begin <= was[i].begin
    ensures At(Joined(was, i, x), a).Some? <==> At(was, a).Some? || x.Has(a)
  {
    RoomBetween(was, i, x);
    var left, y, rest := was[..i], Grown(was, i, x), Rest(was, i, x);
    OrderedPrefix(was, 1, i);
    GappedIsSorted(left);
    if i < |was| { OrderedIndex(was, 1, i, i); }
    JoinAt(left, y, a);
    AtConcat(Join(left, y), rest, a);
    AtSplit(was, i, a);
  }

  /** A list is its spans before `i`, span `i`, and its spans after. */
  lemma AtSplit(was: seq<Extent>, i: nat, a: int)
    requires i <= |was|
    ensures At(was, a).Some? <==> At(was[..i], a).Some? || At(was[i..], a).Some?
    ensures i < |was| ==> (At(was[i..], a).Some? <==> was[i].Has(a) || At(was[i + 1..], a).Some?)
  {
    assert was == was[..i] + was[i..];
    AtConcat(was[..i], was[i..], a);
    if i < |was| {
      assert was[i..] == [was[i]] + was[i + 1..];
      AtConcat([was[i]], was[i + 1..], a);
    }
  }

  lemma MeetsIsNotClear<T>(rs: seq<Span<T>>, i: int, lo: int, hi: int)
    requires Sorted(rs) && 0 <= i < |rs| && rs[i].Meets(lo, hi) && lo < hi
    ensures !Clear(rs, lo, hi)
  {
    OrderedIndex(rs, 0, i, i);
    AtIndex(rs, i, Max(lo, rs[i].begin));
  }

  lemma MissesIsClear<T>(rs: seq<Span<T>>, lo: int, hi: int)
    requires forall i :: 0 <= i < |rs| ==> !rs[i].Meets(lo, hi)
    ensures Clear(rs, lo, hi)
  {
    forall a | lo <= a < hi ensures At(rs, a).None? {
      var i := AtWitness(rs, a);
    }
  }

  lemma MetIsNotClear<T>(rs: seq<Span<T>>, lo: int, hi: int)
    requires Sorted(rs) && lo < hi
    ensures (exists i :: 0 <= i < |rs| && rs[i].Meets(lo, hi)) <==> !Clear(rs, lo, hi)
  {
    if i :| 0 <= i < |rs| && rs[i].Meets(lo, hi) {
      MeetsIsNotClear(rs, i, lo, hi);
    } else {
      MissesIsClear(rs, lo, hi);
    }
  }

  /** The next piece to free is still unfree, and freeing it adds exactly it. */
  lemma PieceStep(was: seq<Extent>, free: seq<Extent>, pieces: seq<Extent>, k: nat, lo: int, hi: int)
    requires Gapped(free) && GapsOf(pieces, was, lo, hi) && k < |pieces|
    requires forall a :: At(free, a).Some? <==> At(was, a).Some? || At(pieces[..k], a).Some?
    ensures 0 < pieces[k].size && Clear(free, pieces[k].begin, pieces[k].End())
    ensures forall a :: At(pieces[..k + 1], a).Some? <==> At(pieces[..k], a).Some? || pieces[k].Has(a)
  {
    var x := pieces[k];
    OrderedIndex(pieces, 1, k, k);
    GappedIsSorted(pieces);
    GappedIsSorted(free);
    OrderedPrefix(pieces, 0, k);
    if k > 0 { OrderedIndex(pieces, 0, k - 1, k); }
    var before := pieces[..k];
    forall a | x.begin <= a < x.End() ensures At(free, a).None? {
      AtIndex(pieces, k, a);
      AtBetween(before, k, a);
    }
    assert pieces[..k + 1] == before + [x];
    var next := pieces[..k + 1];
    forall a ensures At(next, a).Some? <==> At(before, a).Some? || x.Has(a) {
      AtSnoc(before, x, a);
    }
  }

  /** The first `done` extents of a list have been carved, into the first `index` of `free`. */
  ghost predicate Carving(was: seq<Extent>, free: seq<Extent>, done: int, index: int, begin: int, end: int) {
    && 0 <= done <= |was| && index == |Carve(was[..done], begin, end)|
    && free == Carve(was[..done], begin, end) + was[done..]
  }

  lemma TakeBegin(was: seq<Extent>, begin: int, end: int)
    ensures Carving(was, was, 0, 0, begin, end)
  {
    assert was[..0] == [] && [] + was[0..] == was;
  }

  /** Carving the next extent. */
  lemma TakeStep(was: seq<Extent>, free: seq<Extent>, done: nat, index: nat, begin: int, end: int)
    requires Carving(was, free, done, index, begin, end) && index < |free|
    ensures done < |was| && free[index] == was[done]
    ensures var one := CarveOne(free[index], begin, end);
      Carving(was, free[..index] + one + free[index + 1..], done + 1, index + |one|, begin, end)
  {
    CarveNext(was, done, begin, end);
    assert was[done..] == [was[done]] + was[done + 1..];
    SpliceAfter(Carve(was[..done], begin, end), was[done..], CarveOne(was[done], begin, end));
  }

  /** An extent that misses the span stays. */
  lemma TakeSkip(was: seq<Extent>, free: seq<Extent>, done: nat, index: nat, begin: int, end: int)
    requires Carving(was, free, done, index, begin, end) && index < |free| && !free[index].Meets(begin, end)
    ensures Carving(was, free, done + 1, index + 1, begin, end) && done < |was|
  {
    TakeStep(was, free, done, index, begin, end);
    assert free[..index] + [free[index]] + free[index + 1..] == free;
  }

  lemma TakeEnd(was: seq<Extent>, free: seq<Extent>, done: nat, index: nat, begin: int, end: int)
    requires Carving(was, free, done, index, begin, end) && |free| <= index
    ensures free == Carve(was, begin, end)
  {
    assert done == |was| && was[..done] == was && was[done..] == [];
  }

  /** A sweep for what is not free in [address, end): it stands at `cursor`, has moved over
      `passed` extents, and the others up to `index` start past the end. */
  ghost predicate Unfreed(pieces: seq<Extent>, free: seq<Extent>, address: int, end: int, cursor: int, passed: int, index: int) {
    && 0 <= passed <= index <= |free|
    && (passed > 0 ==> free[passed - 1].End() <= cursor)
    && (forall k :: passed <= k < index ==> end <= free[k].begin)
    && GapsUpTo(pieces, free, address, cursor) && Full(free, end, cursor)
  }

  lemma UnfreeSkip(pieces: seq<Extent>, free: seq<Extent>, address: int, end: int, cursor: int, passed: nat, index: nat)
    requires Sorted(free) && Unfreed(pieces, free, address, end, cursor, passed, index) && index < |free|
    requires free[index].End() <= cursor || end <= free[index].begin
    ensures Unfreed(pieces, free, address, end, cursor, if passed == index && free[index].begin < end then index + 1 else passed, index + 1)
  {
    if passed < index { OrderedIndex(free, 0, passed, index); }
    OrderedIndex(free, 0, index, index);
  }

  lemma UnfreeOver(pieces: seq<Extent>, free: seq<Extent>, address: int, end: int, cursor: int, passed: nat, index: nat)
    requires Sorted(free) && Unfreed(pieces, free, address, end, cursor, passed, index) && index < |free|
    requires cursor < free[index].End() && free[index].begin < end
    ensures Unfreed(if cursor < free[index].begin then pieces + [Span(cursor, free[index].begin - cursor, ())] else pieces,
                    free, address, end, free[index].End(), index + 1, index + 1)
  {
    if passed < index { OrderedIndex(free, 0, passed, index); }
    GapStep(pieces, free, address, cursor, index);
    AroundRange(free, index, cursor);
  }

  lemma UnfreeEnd(pieces: seq<Extent>, free: seq<Extent>, address: int, end: int, cursor: int, passed: nat)
    requires Sorted(free) && Unfreed(pieces, free, address, end, cursor, passed, |free|)
    ensures GapsOf(if cursor < end then pieces + [Span(cursor, end - cursor, ())] else pieces, free, address, end)
  {
    if cursor < end {
      ClearAfter(free, passed, cursor, end);
      AppendGap(pieces, free, address, cursor, end);
    } else {
      GapsStop(pieces, free, address, cursor, end);
    }
  }

  lemma SpliceAfter<T>(left: seq<T>, right: seq<T>, mid: seq<T>)
    requires right != []
    ensures var all := left + right;
      all[|left|] == right[0] && all[..|left|] + mid + all[|left| + 1..] == left + mid + right[1..]
  {
  }

  lemma InsideIsFull<T>(rs: seq<Span<T>>, i: int, lo: int, hi: int)
    requires Sorted(rs) && 0 <= i < |rs| && rs[i].begin <= lo && hi <= rs[i].End()
    ensures Full(rs, lo, hi)
  {
    forall a | lo <= a < hi ensures At(rs, a).Some? {
      AtIndex(rs, i, a);
    }
  }

  /** Taking a free span and giving it back leaves the free list as it was. */
  lemma ReturnUndoesTake(was: seq<Extent>, taken: seq<Extent>, now: seq<Extent>, lo: int, hi: int)
    requires Gapped(was) && Full(was, lo, hi) && Taken(was, taken, lo, hi) && Freed(taken, now, lo, hi)
    ensures now == was
  {
    forall a ensures At(now, a).Some? <==> At(was, a).Some? {
      assert At(taken, a).Some? <==> At(was, a).Some? && !(lo <= a < hi);
    }
    ExtentsUnique(now, was);
  }

  lemma CarveNext<T>(rs: seq<Span<T>>, i: nat, lo: int, hi: int)
    requires i < |rs|
    ensures Carve(rs[..i + 1], lo, hi) == Carve(rs[..i], lo, hi) + CarveOne(rs[i], lo, hi)
  {
    assert rs[..i + 1] == rs[..i] + [rs[i]];
    CarveSnoc(rs[..i], rs[i], lo, hi);
  }
}
