/** Lists of tagged address spans, as the address space keeps them: free extents carry no
    tag, committed ranges carry the guest's view of the memory. The meaning of a list is the
    map `At` from addresses to tags; every list operation is specified through it. */
module Spans {

  datatype Option<+T> = None | Some(value: T)

  /** The half-open address interval [begin, begin + size). */
  datatype Span<+T> = Span(begin: int, size: int, tag: T) {
    function End(): int { begin + size }
    predicate Has(a: int) { begin <= a < End() }
    predicate Meets(lo: int, hi: int) { begin < hi && lo < End() }
  }

  /** What the list says about address `a`. */
  function At<T>(rs: seq<Span<T>>, a: int): Option<T>
  {
    if rs == [] then None
    else if rs[|rs| - 1].Has(a) then Some(rs[|rs| - 1].tag)
    else At(rs[..|rs| - 1], a)
  }

  /** Non-empty spans in address order, each ending `gap` or more before the next begins. */
  ghost predicate Ordered<T>(rs: seq<Span<T>>, gap: nat) {
    rs == [] ||
    var n := |rs| - 1;
    && 0 < rs[n].size
    && Ordered(rs[..n], gap)
    && (n == 0 || rs[n - 1].End() + gap <= rs[n].begin)
  }

  /** Sorted and never overlapping. */
  ghost predicate Sorted<T>(rs: seq<Span<T>>) { Ordered(rs, 0) }

  /** Sorted, and no span touches the next: every span is a maximal run. */
  ghost predicate Gapped<T>(rs: seq<Span<T>>) { Ordered(rs, 1) }

  ghost predicate Within<T>(rs: seq<Span<T>>, lo: int, hi: int) {
    forall i :: 0 <= i < |rs| ==> lo <= rs[i].begin && rs[i].End() <= hi
  }

  /** No address of [lo, hi) belongs to a span of the list. */
  ghost predicate Clear<T>(rs: seq<Span<T>>, lo: int, hi: int) {
    forall a :: lo <= a < hi ==> At(rs, a).None?
  }

  /** Every address of [lo, hi) belongs to a span of the list. */
  ghost predicate Full<T>(rs: seq<Span<T>>, lo: int, hi: int) {
    forall a :: lo <= a < hi ==> At(rs, a).Some?
  }

  // ---- Order by index ----

  lemma {:induction false} OrderedPrefix<T>(rs: seq<Span<T>>, gap: nat, i: int)
    requires Ordered(rs, gap) && 0 <= i <= |rs|
    ensures Ordered(rs[..i], gap)
    decreases |rs|
  {
    if i == |rs| {
      assert rs[..i] == rs;
    } else {
      var n := |rs| - 1;
      OrderedPrefix(rs[..n], gap, i);
      assert rs[..n][..i] == rs[..i];
    }
  }

  lemma {:induction false} OrderedIndex<T>(rs: seq<Span<T>>, gap: nat, i: int, j: int)
    requires Ordered(rs, gap) && 0 <= i <= j < |rs|
    ensures 0 < rs[i].size && 0 < rs[j].size
    ensures i < j ==> rs[i].End() + gap <= rs[j].begin
    decreases j
  {
    OrderedPrefix(rs, gap, j + 1);
    assert rs[..j + 1][..j] == rs[..j];
    if i < j {
      OrderedIndex(rs, gap, i, j - 1);
    }
  }

  lemma {:induction false} OrderedConcat<T>(xs: seq<Span<T>>, ys: seq<Span<T>>, gap: nat)
    requires Ordered(xs, gap) && Ordered(ys, gap)
    requires xs != [] && ys != [] ==> xs[|xs| - 1].End() + gap <= ys[0].begin
    ensures Ordered(xs + ys, gap)
    decreases |ys|
  {
    if ys == [] {
      assert xs + ys == xs;
    } else {
      var n := |ys| - 1;
      OrderedConcat(xs, ys[..n], gap);
      assert (xs + ys)[..|xs| + n] == xs + ys[..n];
    }
  }

  lemma OrderedOne<T>(x: Span<T>, gap: nat)
    requires 0 < x.size
    ensures Ordered([x], gap)
  {
    assert [x][..0] == [];
  }

  lemma {:induction false} OrderedSuffix<T>(rs: seq<Span<T>>, gap: nat, i: int)
    requires Ordered(rs, gap) && 0 <= i <= |rs|
    ensures Ordered(rs[i..], gap)
    decreases |rs|
  {
    if i < |rs| {
      var n := |rs| - 1;
      OrderedSuffix(rs[..n], gap, i);
      assert rs[..n][i..] == rs[i..][..n - i];
    }
  }

  lemma {:induction false} GappedIsSorted<T>(rs: seq<Span<T>>)
    requires Gapped(rs)
    ensures Sorted(rs)
    decreases |rs|
  {
    if rs != [] {
      GappedIsSorted(rs[..|rs| - 1]);
    }
  }

  // ---- At and list structure ----

  lemma AtSnoc<T>(rs: seq<Span<T>>, x: Span<T>, a: int)
    ensures At(rs + [x], a) == if x.Has(a) then Some(x.tag) else At(rs, a)
  {
    assert (rs + [x])[..|rs|] == rs;
  }

  lemma {:induction false} AtConcat<T>(xs: seq<Span<T>>, ys: seq<Span<T>>, a: int)
    ensures At(xs + ys, a) == if At(ys, a).Some? then At(ys, a) else At(xs, a)
    decreases |ys|
  {
    if ys == [] {
      assert xs + ys == xs;
    } else {
      var n := |ys| - 1;
      assert xs + ys == (xs + ys[..n]) + [ys[n]];
      AtConcat(xs, ys[..n], a);
      AtSnoc(xs + ys[..n], ys[n], a);
    }
  }

  /** The last span holding `a` decides; none holding it means no tag. */
  lemma {:induction false} AtSome<T>(rs: seq<Span<T>>, i: int, a: int)
    requires 0 <= i < |rs| && rs[i].Has(a)
    ensures At(rs, a).Some?
    decreases |rs|
  {
    if i < |rs| - 1 { AtSome(rs[..|rs| - 1], i, a); }
  }

  lemma {:induction false} AtWitness<T>(rs: seq<Span<T>>, a: int) returns (i: int)
    ensures At(rs, a).None? ==> forall j :: 0 <= j < |rs| ==> !rs[j].Has(a)
    ensures At(rs, a).Some? ==> 0 <= i < |rs| && rs[i].Has(a) && At(rs, a) == Some(rs[i].tag)
    decreases |rs|
  {
    i := |rs| - 1;
    if rs != [] && !rs[i].Has(a) {
      i := AtWitness(rs[..|rs| - 1], a);
    }
  }

  /** In a sorted list the span holding `a` is the answer. */
  lemma {:induction false} AtIndex<T>(rs: seq<Span<T>>, i: int, a: int)
    requires Sorted(rs) && 0 <= i < |rs| && rs[i].Has(a)
    ensures At(rs, a) == Some(rs[i].tag)
    decreases |rs|
  {
    var n := |rs| - 1;
    if i < n {
      OrderedIndex(rs, 0, i, n);
      AtIndex(rs[..n], i, a);
    }
  }

  /** No address belongs to two spans. */
  lemma OneHolder<T>(rs: seq<Span<T>>, i: int, j: int, a: int)
    requires Sorted(rs) && 0 <= i < |rs| && 0 <= j < |rs| && rs[i].Has(a) && rs[j].Has(a)
    ensures i == j
  {
    if i < j { OrderedIndex(rs, 0, i, j); }
    if j < i { OrderedIndex(rs, 0, j, i); }
  }

  /** An address past the end of one span and before the start of the next is in no span. */
  lemma AtBetween<T>(rs: seq<Span<T>>, i: int, a: int)
    requires Sorted(rs) && 0 <= i <= |rs|
    requires i > 0 ==> rs[i - 1].End() <= a
    requires i < |rs| ==> a < rs[i].begin
    ensures At(rs, a).None?
  {
    var j := AtWitness(rs, a);
    if At(rs, a).Some? {
      if j < i { OrderedIndex(rs, 0, j, i - 1); } else { OrderedIndex(rs, 0, i, j); }
    }
  }

  /** A run of covered addresses lies inside one span of a gapped list. */
  lemma FullInOneSpan<T>(rs: seq<Span<T>>, lo: int, hi: int) returns (i: int)
    requires Gapped(rs) && lo < hi && Full(rs, lo, hi)
    ensures 0 <= i < |rs| && rs[i].begin <= lo && hi <= rs[i].End()
  {
    assert At(rs, lo).Some?;
    i := AtWitness(rs, lo);
    if rs[i].End() < hi {
      assert At(rs, rs[i].End()).Some?;
      var j := AtWitness(rs, rs[i].End());
      if i <= j { OrderedIndex(rs, 1, i, j); } else { OrderedIndex(rs, 1, j, i); }
    }
  }

  // ---- Cutting an interval out of a list ----

  /** What is left of `x` outside [lo, hi): its head and its tail, where they exist. */
  function CarveOne<T>(x: Span<T>, lo: int, hi: int): seq<Span<T>>
  {
    if x.End() <= lo || hi <= x.begin then [x]
    else
      (if x.begin < lo then [Span(x.begin, lo - x.begin, x.tag)] else []) +
      (if hi < x.End() then [Span(hi, x.End() - hi, x.tag)] else [])
  }

  function Carve<T>(rs: seq<Span<T>>, lo: int, hi: int): seq<Span<T>>
  {
    if rs == [] then []
    else Carve(rs[..|rs| - 1], lo, hi) + CarveOne(rs[|rs| - 1], lo, hi)
  }

  lemma CarveSnoc<T>(rs: seq<Span<T>>, x: Span<T>, lo: int, hi: int)
    ensures Carve(rs + [x], lo, hi) == Carve(rs, lo, hi) + CarveOne(x, lo, hi)
  {
    assert (rs + [x])[..|rs|] == rs;
  }

  lemma CarveOneAt<T>(x: Span<T>, lo: int, hi: int, a: int)
    requires lo <= hi
    ensures At(CarveOne(x, lo, hi), a) == if x.Has(a) && !(lo <= a < hi) then Some(x.tag) else None
  {
    var head := if x.begin < lo then [Span(x.begin, lo - x.begin, x.tag)] else [];
    var tail := if hi < x.End() then [Span(hi, x.End() - hi, x.tag)] else [];
    AtConcat(head, tail, a);
  }

  /** Carving removes exactly the addresses of [lo, hi). */
  lemma {:induction false} CarveAt<T>(rs: seq<Span<T>>, lo: int, hi: int, a: int)
    requires lo <= hi
    ensures At(Carve(rs, lo, hi), a) == if lo <= a < hi then None else At(rs, a)
    decreases |rs|
  {
    if rs != [] {
      var n := |rs| - 1;
      CarveAt(rs[..n], lo, hi, a);
      CarveOneAt(rs[n], lo, hi, a);
      AtConcat(Carve(rs[..n], lo, hi), CarveOne(rs[n], lo, hi), a);
    }
  }

  lemma {:induction false} CarveOrdered<T>(rs: seq<Span<T>>, lo: int, hi: int, gap: nat)
    requires Ordered(rs, gap) && lo + gap <= hi
    ensures Ordered(Carve(rs, lo, hi), gap)
    ensures Carve(rs, lo, hi) != [] ==>
      rs != [] && Carve(rs, lo, hi)[|Carve(rs, lo, hi)| - 1].End() <= rs[|rs| - 1].End()
    decreases |rs|
  {
    if rs != [] {
      var n := |rs| - 1;
      CarveOrdered(rs[..n], lo, hi, gap);
      CarveOneOrdered(rs[n], lo, hi, gap);
      OrderedConcat(Carve(rs[..n], lo, hi), CarveOne(rs[n], lo, hi), gap);
    }
  }

  lemma CarveOneOrdered<T>(x: Span<T>, lo: int, hi: int, gap: nat)
    requires 0 < x.size && lo + gap <= hi
    ensures var c := CarveOne(x, lo, hi);
      Ordered(c, gap) && (c != [] ==> x.begin <= c[0].begin && c[|c| - 1].End() <= x.End())
  {
    var head := if x.begin < lo then [Span(x.begin, lo - x.begin, x.tag)] else [];
    var tail := if hi < x.End() then [Span(hi, x.End() - hi, x.tag)] else [];
    OrderedOne(x, gap);
    if x.begin < lo { OrderedOne(head[0], gap); }
    if hi < x.End() { OrderedOne(tail[0], gap); }
    if x.Meets(lo, hi) { OrderedConcat(head, tail, gap); }
  }

  lemma {:induction false} CarveUntouched<T>(rs: seq<Span<T>>, lo: int, hi: int)
    requires forall i :: 0 <= i < |rs| ==> !rs[i].Meets(lo, hi)
    ensures Carve(rs, lo, hi) == rs
    decreases |rs|
  {
    if rs != [] {
      CarveUntouched(rs[..|rs| - 1], lo, hi);
    }
  }

  /** Cutting inside a single span of a sorted list changes only that span. */
  lemma {:induction false} CarveInside<T>(rs: seq<Span<T>>, i: int, lo: int, hi: int)
    requires Sorted(rs) && 0 <= i < |rs| && lo < hi && rs[i].begin <= lo && hi <= rs[i].End()
    ensures Carve(rs, lo, hi) == rs[..i] + CarveOne(rs[i], lo, hi) + rs[i + 1..]
    decreases |rs|
  {
    var n := |rs| - 1;
    if i == n {
      forall k | 0 <= k < n ensures !rs[..n][k].Meets(lo, hi) { OrderedIndex(rs, 0, k, n); }
      CarveUntouched(rs[..n], lo, hi);
    } else {
      OrderedIndex(rs, 0, i, n);
      CarveInside(rs[..n], i, lo, hi);
      Splice(rs, i, CarveOne(rs[i], lo, hi));
    }
  }

  lemma Splice<T>(rs: seq<T>, i: int, mid: seq<T>)
    requires 0 <= i < |rs| - 1
    ensures var left := rs[..|rs| - 1];
      (left[..i] + mid + left[i + 1..]) + [rs[|rs| - 1]] == rs[..i] + mid + rs[i + 1..]
  {
    var left := rs[..|rs| - 1];
    assert left[..i] == rs[..i];
    assert left[i + 1..] + [rs[|rs| - 1]] == rs[i + 1..];
  }

  // ---- Sorting by start address ----

  function Insert<T>(rs: seq<Span<T>>, x: Span<T>): seq<Span<T>>
  {
    if rs == [] || rs[|rs| - 1].begin <= x.begin then rs + [x]
    else Insert(rs[..|rs| - 1], x) + [rs[|rs| - 1]]
  }

  function SortByBegin<T>(rs: seq<Span<T>>): seq<Span<T>>
  {
    if rs == [] then [] else Insert(SortByBegin(rs[..|rs| - 1]), rs[|rs| - 1])
  }

  ghost predicate Ascending<T>(rs: seq<Span<T>>) {
    forall i :: 0 <= i < |rs| - 1 ==> rs[i].begin <= rs[i + 1].begin
  }

  lemma {:induction false} SortOfAscending<T>(rs: seq<Span<T>>)
    requires Ascending(rs)
    ensures SortByBegin(rs) == rs
    decreases |rs|
  {
    if rs != [] {
      var n := |rs| - 1;
      SortOfAscending(rs[..n]);
      assert n > 0 ==> rs[n - 1].begin <= rs[n - 1 + 1].begin;
      assert SortByBegin(rs) == Insert(rs[..n], rs[n]) == rs[..n] + [rs[n]];
    }
  }

  lemma SortOfSorted<T>(rs: seq<Span<T>>)
    requires Sorted(rs)
    ensures SortByBegin(rs) == rs
  {
    forall i | 0 <= i < |rs| - 1 ensures rs[i].begin <= rs[i + 1].begin {
      OrderedIndex(rs, 0, i, i + 1);
    }
    SortOfAscending(rs);
  }

  /** Inserting a span into free room keeps the list sorted. */
  lemma {:induction false} InsertSorted<T>(rs: seq<Span<T>>, x: Span<T>)
    requires Sorted(rs) && 0 < x.size && Clear(rs, x.begin, x.End())
    ensures |Insert(rs, x)| == |rs| + 1
    ensures Sorted(Insert(rs, x))
    ensures Insert(rs, x)[|rs|].End() == if rs == [] || rs[|rs| - 1].End() <= x.begin then x.End() else rs[|rs| - 1].End()
    decreases |rs|
  {
    OrderedOne(x, 0);
    if rs == [] {
    } else {
      var n := |rs| - 1;
      if rs[n].begin <= x.begin {
        assert At(rs, x.begin).None?;
        OrderedConcat(rs, [x], 0);
      } else {
        assert At(rs, rs[n].begin).Some?;
        ClearPrefix(rs, x.begin, x.End());
        InsertSorted(rs[..n], x);
        OrderedOne(rs[n], 0);
        OrderedConcat(Insert(rs[..n], x), [rs[n]], 0);
      }
    }
  }

  lemma ClearPrefix<T>(rs: seq<Span<T>>, lo: int, hi: int)
    requires rs != [] && Clear(rs, lo, hi)
    ensures Clear(rs[..|rs| - 1], lo, hi)
  {
    var left := rs[..|rs| - 1];
    forall a | lo <= a < hi ensures At(left, a).None? {
      assert At(rs, a).None?;
    }
  }

  lemma {:induction false} InsertAt<T>(rs: seq<Span<T>>, x: Span<T>, a: int)
    requires Clear(rs, x.begin, x.End())
    ensures At(Insert(rs, x), a) == if x.Has(a) then Some(x.tag) else At(rs, a)
    decreases |rs|
  {
    if rs == [] || rs[|rs| - 1].begin <= x.begin {
      AtSnoc(rs, x, a);
    } else {
      var n := |rs| - 1;
      ClearPrefix(rs, x.begin, x.End());
      InsertAt(rs[..n], x, a);
      AtSnoc(Insert(rs[..n], x), rs[n], a);
      assert x.Has(a) ==> At(rs, a).None?;
    }
  }

  // ---- Joining neighbours ----

  predicate Mergeable<T(==)>(x: Span<T>, y: Span<T>) {
    x.End() == y.begin && x.tag == y.tag
  }

  /** Appends `x`, joined to the last span where the two are one mapping in two pieces. */
  function Join<T(==)>(left: seq<Span<T>>, x: Span<T>): seq<Span<T>>
  {
    if left != [] && Mergeable(left[|left| - 1], x)
    then left[..|left| - 1] + [left[|left| - 1].(size := left[|left| - 1].size + x.size)]
    else left + [x]
  }

  function Coalesced<T(==)>(rs: seq<Span<T>>): seq<Span<T>>
  {
    if rs == [] then [] else Join(Coalesced(rs[..|rs| - 1]), rs[|rs| - 1])
  }

  ghost predicate NoMergeable<T>(rs: seq<Span<T>>) {
    forall i :: 0 <= i < |rs| - 1 ==> !Mergeable(rs[i], rs[i + 1])
  }

  lemma JoinShape<T>(left: seq<Span<T>>, x: Span<T>)
    requires Sorted(left) && 0 < x.size && (left != [] ==> left[|left| - 1].End() <= x.begin)
    ensures Join(left, x) != [] && Join(left, x)[|Join(left, x)| - 1].End() == x.End()
    ensures Sorted(Join(left, x))
    ensures NoMergeable(left) ==> NoMergeable(Join(left, x))
  {
    var m := |left| - 1;
    if left != [] && Mergeable(left[m], x) {
      var y := left[m].(size := left[m].size + x.size);
      OrderedOne(y, 0);
      OrderedConcat(left[..m], [y], 0);
    } else {
      OrderedOne(x, 0);
      OrderedConcat(left, [x], 0);
    }
  }

  lemma JoinAt<T>(left: seq<Span<T>>, x: Span<T>, a: int)
    requires Sorted(left) && 0 < x.size
    ensures At(Join(left, x), a) == if x.Has(a) then Some(x.tag) else At(left, a)
  {
    var m := |left| - 1;
    if left != [] && Mergeable(left[m], x) {
      AtSnoc(left[..m], left[m].(size := left[m].size + x.size), a);
    } else {
      AtSnoc(left, x, a);
    }
  }

  /** Joining keeps the list sorted, ends where it ended and leaves nothing to join. */
  lemma {:induction false} CoalescedShape<T>(rs: seq<Span<T>>)
    requires Sorted(rs)
    ensures Sorted(Coalesced(rs)) && NoMergeable(Coalesced(rs))
    ensures rs != [] ==> Coalesced(rs) != [] && Coalesced(rs)[|Coalesced(rs)| - 1].End() == rs[|rs| - 1].End()
    ensures rs == [] ==> Coalesced(rs) == []
    decreases |rs|
  {
    if rs != [] {
      var n := |rs| - 1;
      CoalescedShape(rs[..n]);
      JoinShape(Coalesced(rs[..n]), rs[n]);
    }
  }

  /** Joining changes no answer. */
  lemma {:induction false} CoalescedAt<T>(rs: seq<Span<T>>, a: int)
    requires Sorted(rs)
    ensures At(Coalesced(rs), a) == At(rs, a)
    decreases |rs|
  {
    if rs != [] {
      var n := |rs| - 1;
      CoalescedAt(rs[..n], a);
      CoalescedShape(rs[..n]);
      JoinAt(Coalesced(rs[..n]), rs[n], a);
    }
  }

  lemma {:induction false} CoalescedFixed<T>(rs: seq<Span<T>>)
    requires NoMergeable(rs)
    ensures Coalesced(rs) == rs
    decreases |rs|
  {
    if rs != [] {
      var n := |rs| - 1;
      CoalescedFixed(rs[..n]);
      assert n > 0 ==> !Mergeable(rs[n - 1], rs[n - 1 + 1]);
    }
  }

  lemma CoalescedSnoc<T>(rs: seq<Span<T>>, x: Span<T>)
    ensures Coalesced(rs + [x]) == Join(Coalesced(rs), x)
  {
    assert (rs + [x])[..|rs|] == rs;
  }

  /** Joining depends on what came before only through its own result. */
  lemma {:induction false} CoalescedExtend<T>(xs: seq<Span<T>>, ys: seq<Span<T>>, zs: seq<Span<T>>)
    requires Coalesced(xs) == Coalesced(ys)
    ensures Coalesced(xs + zs) == Coalesced(ys + zs)
    decreases |zs|
  {
    if zs == [] {
      assert xs + zs == xs && ys + zs == ys;
    } else {
      var init, last := zs[..|zs| - 1], zs[|zs| - 1];
      CoalescedExtend(xs, ys, init);
      ExtendByOne(xs, init, last);
      ExtendByOne(ys, init, last);
      assert init + [last] == zs;
    }
  }

  lemma ExtendByOne<T>(xs: seq<Span<T>>, init: seq<Span<T>>, last: Span<T>)
    ensures Coalesced(xs + (init + [last])) == Join(Coalesced(xs + init), last)
  {
    assert xs + (init + [last]) == (xs + init) + [last];
    CoalescedSnoc(xs + init, last);
  }

  // ---- Canonical form ----

  lemma PrefixClear<T>(xs: seq<Span<T>>, a: int)
    requires Sorted(xs) && xs != [] && xs[|xs| - 1].begin <= a
    ensures At(xs[..|xs| - 1], a).None?
  {
    AtBetween(xs[..|xs| - 1], |xs| - 1, a);
  }

  /** A sorted list that carries its last tag one byte further down has something to join. */
  lemma NeighbourMergeable<T>(ys: seq<Span<T>>)
    requires Sorted(ys) && ys != []
    requires At(ys, ys[|ys| - 1].begin - 1) == Some(ys[|ys| - 1].tag)
    ensures !NoMergeable(ys)
  {
    var n := |ys| - 1;
    var a := ys[n].begin - 1;
    var j := AtWitness(ys[..n], a);
    OrderedIndex(ys, 0, j, n - 1);
    assert Mergeable(ys[n - 1], ys[n - 1 + 1]);
  }

  /** Two sorted lists with one meaning end at the same address with the same tag. */
  lemma LastEndAgrees<T>(xs: seq<Span<T>>, ys: seq<Span<T>>)
    requires Sorted(xs) && Sorted(ys) && xs != [] && ys != []
    requires forall a :: At(xs, a) == At(ys, a)
    ensures xs[|xs| - 1].End() <= ys[|ys| - 1].End()
  {
    var a := xs[|xs| - 1].End() - 1;
    assert At(xs, a) == Some(xs[|xs| - 1].tag);
    assert At(ys, a) == At(xs, a);
    var j := AtWitness(ys, a);
    if j < |ys| - 1 { OrderedIndex(ys, 0, j, |ys| - 1); }
  }

  lemma LastBeginAgrees<T>(xs: seq<Span<T>>, ys: seq<Span<T>>)
    requires Sorted(xs) && Sorted(ys) && NoMergeable(ys) && xs != [] && ys != []
    requires forall a :: At(xs, a) == At(ys, a)
    requires xs[|xs| - 1].End() == ys[|ys| - 1].End()
    ensures xs[|xs| - 1].tag == ys[|ys| - 1].tag
    ensures ys[|ys| - 1].begin <= xs[|xs| - 1].begin
  {
    var x, y := xs[|xs| - 1], ys[|ys| - 1];
    assert At(xs, x.End() - 1) == At(ys, x.End() - 1);
    if x.begin < y.begin {
      assert At(xs, y.begin - 1) == At(ys, y.begin - 1);
      NeighbourMergeable(ys);
    }
  }

  /** A list with nothing left to join is fixed by its meaning: two such lists that answer
      every address alike are the same list. */
  lemma {:induction false} CanonicalUnique<T>(xs: seq<Span<T>>, ys: seq<Span<T>>)
    requires Sorted(xs) && NoMergeable(xs) && Sorted(ys) && NoMergeable(ys)
    requires forall a :: At(xs, a) == At(ys, a)
    ensures xs == ys
    decreases |xs|
  {
    assert xs != [] ==> At(xs, xs[|xs| - 1].begin).Some?;
    assert ys != [] ==> At(ys, ys[|ys| - 1].begin).Some?;
    if xs != [] && ys != [] {
      var m, n := |xs| - 1, |ys| - 1;
      LastEndAgrees(xs, ys);
      LastEndAgrees(ys, xs);
      LastBeginAgrees(xs, ys);
      LastBeginAgrees(ys, xs);
      forall a ensures At(xs[..m], a) == At(ys[..n], a) {
        assert At(xs, a) == At(ys, a);
        if xs[m].begin <= a {
          PrefixClear(xs, a);
          PrefixClear(ys, a);
        }
      }
      CanonicalUnique(xs[..m], ys[..n]);
      assert xs == xs[..m] + [xs[m]] && ys == ys[..n] + [ys[n]];
    }
  }
}
