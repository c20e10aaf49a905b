/** Building the list of memory a fork holds for the parent: spans that overlap and repeat are
    clamped, sorted and merged, and shared parts are cut out. */
module Regions {
  import opened Spans
  import opened GuestView
  import opened RangeIndex

  /** Two sorted lists on either side of `mid` make one. */
  lemma ConcatAround<T>(xs: seq<Span<T>>, ys: seq<Span<T>>, mid: int)
    requires Sorted(xs) && Sorted(ys)
    requires forall a :: At(xs, a).Some? ==> a < mid
    requires forall a :: At(ys, a).Some? ==> mid <= a
    ensures Sorted(xs + ys)
    ensures forall a :: At(xs + ys, a) == if a < mid then At(xs, a) else At(ys, a)
  {
    if xs != [] && ys != [] {
      OrderedIndex(xs, 0, |xs| - 1, |xs| - 1);
      OrderedIndex(ys, 0, 0, 0);
      AtIndex(xs, |xs| - 1, xs[|xs| - 1].End() - 1);
      AtIndex(ys, 0, ys[0].begin);
    }
    OrderedConcat(xs, ys, 0);
    forall a ensures At(xs + ys, a) == if a < mid then At(xs, a) else At(ys, a) {
      AtConcat(xs, ys, a);
    }
  }

  // ---- Unions of spans ----

  lemma {:induction false} InsertUnion<T>(rs: seq<Span<T>>, x: Span<T>, a: int)
    ensures At(Insert(rs, x), a).Some? <==> At(rs, a).Some? || x.Has(a)
    decreases |rs|
  {
    if rs == [] || rs[|rs| - 1].begin <= x.begin {
      AtSnoc(rs, x, a);
    } else {
      InsertUnion(rs[..|rs| - 1], x, a);
      AtSnoc(Insert(rs[..|rs| - 1], x), rs[|rs| - 1], a);
    }
  }

  lemma {:induction false} SortUnion<T>(rs: seq<Span<T>>, a: int)
    ensures At(SortByBegin(rs), a).Some? <==> At(rs, a).Some?
    decreases |rs|
  {
    if rs != [] {
      SortUnion(rs[..|rs| - 1], a);
      InsertUnion(SortByBegin(rs[..|rs| - 1]), rs[|rs| - 1], a);
    }
  }

  lemma {:induction false} InsertAscending<T>(rs: seq<Span<T>>, x: Span<T>)
    requires Ascending(rs)
    ensures Ascending(Insert(rs, x)) && |Insert(rs, x)| == |rs| + 1
    ensures Insert(rs, x)[|rs|].begin == if rs == [] then x.begin else Max(rs[|rs| - 1].begin, x.begin)
    decreases |rs|
  {
    if rs != [] && x.begin < rs[|rs| - 1].begin {
      var n := |rs| - 1;
      InsertAscending(rs[..n], x);
      assert n > 0 ==> rs[n - 1].begin <= rs[n - 1 + 1].begin;
    }
  }

  lemma {:induction false} SortAscending<T>(rs: seq<Span<T>>)
    ensures Ascending(SortByBegin(rs)) && |SortByBegin(rs)| == |rs|
    decreases |rs|
  {
    if rs != [] {
      SortAscending(rs[..|rs| - 1]);
      InsertAscending(SortByBegin(rs[..|rs| - 1]), rs[|rs| - 1]);
    }
  }

  lemma {:induction false} SortMembers<T>(rs: seq<Span<T>>, i: int) returns (j: int)
    requires 0 <= i < |SortByBegin(rs)|
    ensures 0 <= j < |rs| && rs[j] == SortByBegin(rs)[i]
    decreases |rs|
  {
    var n := |rs| - 1;
    var left := SortByBegin(rs[..n]);
    var k := InsertMembers(left, rs[n], i);
    if k < |left| {
      j := SortMembers(rs[..n], k);
    } else {
      j := n;
    }
  }

  lemma {:induction false} InsertMembers<T>(rs: seq<Span<T>>, x: Span<T>, i: int) returns (k: int)
    requires 0 <= i < |Insert(rs, x)|
    ensures 0 <= k <= |rs| && Insert(rs, x)[i] == if k < |rs| then rs[k] else x
    decreases |rs|
  {
    k := i;
    if rs != [] && x.begin < rs[|rs| - 1].begin {
      var n := |rs| - 1;
      if i < |Insert(rs[..n], x)| {
        k := InsertMembers(rs[..n], x, i);
        if k == n { k := |rs|; }
      } else {
        k := n;
      }
    }
  }

  ghost predicate AllNonEmpty<T>(rs: seq<Span<T>>) {
    forall i :: 0 <= i < |rs| ==> 0 < rs[i].size
  }

  /** Merging one more span, at or after the last start, into a list of maximal runs. */
  function MergeOne(merged: seq<Extent>, x: Extent): seq<Extent>
  {
    if merged != [] && x.begin <= merged[|merged| - 1].End()
    then merged[..|merged| - 1] + [Span(merged[|merged| - 1].begin, Max(merged[|merged| - 1].End(), x.End()) - merged[|merged| - 1].begin, ())]
    else merged + [x]
  }

  lemma MergeStep(merged: seq<Extent>, x: Extent)
    requires Gapped(merged) && 0 < x.size && (merged != [] ==> merged[|merged| - 1].begin <= x.begin)
    ensures Gapped(MergeOne(merged, x))
    ensures MergeOne(merged, x) != [] && MergeOne(merged, x)[|MergeOne(merged, x)| - 1].begin <= x.begin
    ensures forall a :: At(MergeOne(merged, x), a).Some? <==> At(merged, a).Some? || x.Has(a)
  {
    var n := |merged| - 1;
    if merged != [] && x.begin <= merged[n].End() {
      var y := Span(merged[n].begin, Max(merged[n].End(), x.End()) - merged[n].begin, ());
      OrderedOne(y, 1);
      OrderedConcat(merged[..n], [y], 1);
      forall a ensures At(merged[..n] + [y], a).Some? <==> At(merged, a).Some? || x.Has(a) {
        AtSnoc(merged[..n], y, a);
      }
    } else {
      OrderedOne(x, 1);
      OrderedConcat(merged, [x], 1);
      forall a ensures At(merged + [x], a).Some? <==> At(merged, a).Some? || x.Has(a) {
        AtSnoc(merged, x, a);
      }
    }
  }

  /** The union of the spans, as maximal runs in order. */
  method Merge(wanted: seq<Extent>) returns (merged: seq<Extent>)
    requires AllNonEmpty(wanted)
    ensures Gapped(merged)
    ensures forall a :: At(merged, a).Some? <==> At(wanted, a).Some?
  {
    var sorted := SortByBegin(wanted);
    SortAscending(wanted);
    merged := [];
    var i := 0;
    while i < |sorted|
      invariant 0 <= i <= |sorted| && Gapped(merged)
      invariant merged != [] ==> i > 0 && merged[|merged| - 1].begin <= sorted[i - 1].begin
      invariant forall a :: At(merged, a).Some? <==> At(sorted[..i], a).Some?
    {
      var j := SortMembers(wanted, i);
      if i > 0 { assert sorted[i - 1].begin <= sorted[i - 1 + 1].begin; }
      MergeStep(merged, sorted[i]);
      UnionNext(sorted, i);
      merged := MergeOne(merged, sorted[i]);
      i := i + 1;
    }
    assert sorted[..i] == sorted;
    forall a ensures At(merged, a).Some? <==> At(wanted, a).Some? {
      SortUnion(wanted, a);
    }
  }

  lemma UnionNext<T>(rs: seq<Span<T>>, i: nat)
    requires i < |rs|
    ensures forall a :: At(rs[..i + 1], a).Some? <==> At(rs[..i], a).Some? || rs[i].Has(a)
  {
    assert rs[..i + 1] == rs[..i] + [rs[i]];
    var next := rs[..i + 1];
    forall a ensures At(next, a).Some? <==> At(rs[..i], a).Some? || rs[i].Has(a) {
      AtSnoc(rs[..i], rs[i], a);
    }
  }

  // ---- Clamping ----

  /** What is live of a process's heap and of the stack it forked on. */
  datatype Bounds = Bounds(heapLow: int, heapTop: int, heapUsed: int, stackLow: int, stackTop: int, rsp: int)

  /** An owned span reduced to the part of the heap handed out and the live part of the
      stack. */
  function Clamp(x: Extent, w: Bounds): Extent
  {
    var inHeap := w.heapLow != 0 && x.Meets(w.heapLow, w.heapTop);
    var from := if inHeap then Max(x.begin, w.heapLow) else x.begin;
    var to := if inHeap then Min(x.End(), Max(w.heapUsed, w.heapLow)) else x.End();
    var onStack := from < w.stackTop && w.stackLow < to;
    var from' := if onStack then Max(from, w.rsp) else from;
    var to' := if onStack then Min(to, w.stackTop) else to;
    Span(from', to' - from', ())
  }

  /** Some of `x` may lie in the heap. */
  predicate MeetsHeap(x: Extent, w: Bounds) { w.heapLow != 0 && x.begin < w.heapTop && w.heapLow < x.End() }

  /** Some of what a fork wants of `x`, only the part of the heap handed out if it meets the heap,
      may lie in the stack. */
  predicate MeetsStack(x: Extent, w: Bounds) {
    && x.begin < w.stackTop && w.stackLow < x.End()
    && (MeetsHeap(x, w) ==> w.heapLow < w.stackTop && (w.stackLow < w.heapLow || w.stackLow < w.heapUsed))
  }

  /** Byte `a` of `x` is live: handed out by brk if the span meets the heap, and at or above the
      stack pointer if it meets the stack. */
  predicate LiveIn(x: Extent, w: Bounds, a: int) {
    && x.Has(a)
    && (MeetsHeap(x, w) ==> w.heapLow <= a < w.heapUsed)
    && (MeetsStack(x, w) ==> w.rsp <= a < w.stackTop)
  }

  /** Clamping keeps exactly the live bytes. */
  lemma ClampIff(x: Extent, w: Bounds, a: int)
    ensures Clamp(x, w).Has(a) <==> LiveIn(x, w, a)
  {
  }

  method ClampAll(owned: seq<Extent>, w: Bounds) returns (wanted: seq<Extent>)
    ensures AllNonEmpty(wanted)
    ensures forall a :: At(wanted, a).Some? <==> exists i :: 0 <= i < |owned| && LiveIn(owned[i], w, a)
  {
    wanted := [];
    var i := 0;
    while i < |owned|
      invariant 0 <= i <= |owned| && AllNonEmpty(wanted)
      invariant forall a :: At(wanted, a).Some? <==> exists k :: 0 <= k < i && LiveIn(owned[k], w, a)
    {
      var x := Clamp(owned[i], w);
      forall a ensures x.Has(a) <==> LiveIn(owned[i], w, a) { ClampIff(owned[i], w, a); }
      LiveNext(owned, w, i);
      if x.begin < x.End() {
        UnionAppend(wanted, x);
        wanted := wanted + [x];
      }
      i := i + 1;
    }
  }

  lemma LiveNext(owned: seq<Extent>, w: Bounds, i: nat)
    requires i < |owned|
    ensures forall a :: (exists k :: 0 <= k < i + 1 && LiveIn(owned[k], w, a)) <==>
      (exists k :: 0 <= k < i && LiveIn(owned[k], w, a)) || LiveIn(owned[i], w, a)
  {
  }

  lemma UnionAppend<T>(rs: seq<Span<T>>, x: Span<T>)
    ensures forall a :: At(rs + [x], a).Some? <==> At(rs, a).Some? || x.Has(a)
  {
    var all := rs + [x];
    forall a ensures At(all, a).Some? <==> At(rs, a).Some? || x.Has(a) {
      AtSnoc(rs, x, a);
    }
  }
}
