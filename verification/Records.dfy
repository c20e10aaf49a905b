/** Lemmas about single edits of the list of committed ranges. */
module Records {
  import opened Pages
  import opened Spans
  import opened GuestView
  import opened RangeEdit
  import opened SpaceOps

  function Unwritten(x: GuestRange): GuestRange { x.(tag := x.tag.(written := false)) }

  /** A span recorded under a new epoch is a range of its own. */
  lemma FreshRange(was: seq<GuestRange>, now: seq<GuestRange>, lo: int, hi: int, cell: Cell) returns (k: int)
    requires Recorded(was, now, lo, hi, cell) && lo < hi
    requires forall a :: At(was, a).Some? ==> At(was, a).value.epoch != cell.epoch
    ensures 0 <= k < |now| && now[k] == Span(lo, hi - lo, cell)
  {
    assert At(now, lo) == Some(cell);
    k := AtWitness(now, lo);
    OrderedIndex(now, 0, k, k);
    if now[k].begin < lo {
      AtIndex(now, k, lo - 1);
    }
    if hi < now[k].End() {
      AtIndex(now, k, hi);
    }
    if now[k].End() < hi {
      FreshRangeEnds(was, now, lo, hi, cell, k);
    }
  }

  lemma FreshRangeEnds(was: seq<GuestRange>, now: seq<GuestRange>, lo: int, hi: int, cell: Cell, k: int)
    requires Recorded(was, now, lo, hi, cell) && lo < hi
    requires 0 <= k < |now| && now[k].Has(lo) && now[k].tag == cell
    ensures hi <= now[k].End()
  {
    var e := now[k].End();
    if e < hi {
      assert At(now, e) == Some(cell);
      var j := AtWitness(now, e);
      SpanAfter(now, k, j, e);
      assert Mergeable(now[k], now[k + 1]);
    }
  }

  /** The span holding the byte just past span `k` is the next one. */
  lemma SpanAfter<T>(rs: seq<Span<T>>, k: int, j: int, e: int)
    requires Sorted(rs) && 0 <= k < |rs| && 0 <= j < |rs| && e == rs[k].End() && rs[j].Has(e)
    ensures j == k + 1 && rs[j].begin == e
  {
    OrderedIndex(rs, 0, k, k);
    if j < k { OrderedIndex(rs, 0, j, k); }
    if k < j { OrderedIndex(rs, 0, k, j); }
    if k + 1 < j {
      OrderedIndex(rs, 0, k, k + 1);
      OrderedIndex(rs, 0, k + 1, j);
    }
  }

  /** Retagging one span moves no boundary. */
  lemma {:induction false} RetagOrdered(rs: seq<GuestRange>, k: int, x: GuestRange)
    requires Sorted(rs) && 0 <= k < |rs| && x.begin == rs[k].begin && x.size == rs[k].size
    ensures Sorted(rs[k := x])
    decreases |rs|
  {
    var n := |rs| - 1;
    if k < n {
      RetagOrdered(rs[..n], k, x);
      assert rs[k := x][..n] == rs[..n][k := x];
    } else {
      assert rs[k := x][..n] == rs[..n];
    }
  }

  lemma {:induction false} RetagAt(rs: seq<GuestRange>, k: int, x: GuestRange, a: int)
    requires Sorted(rs) && 0 <= k < |rs| && x.begin == rs[k].begin && x.size == rs[k].size
    ensures At(rs[k := x], a) == if x.Has(a) then Some(x.tag) else At(rs, a)
    decreases |rs|
  {
    var n := |rs| - 1;
    if k < n {
      OrderedIndex(rs, 0, k, n);
      assert rs[k := x][..n] == rs[..n][k := x];
      RetagAt(rs[..n], k, x, a);
    } else {
      assert rs[k := x][..n] == rs[..n];
    }
  }

  lemma UnwrittenRecorded(was: seq<GuestRange>, now: seq<GuestRange>, lo: int, hi: int, cell: Cell, k: int)
    requires Recorded(was, now, lo, hi, cell) && lo < hi
    requires forall a :: At(was, a).Some? ==> At(was, a).value.epoch != cell.epoch
    requires 0 <= k < |now| && now[k] == Span(lo, hi - lo, cell)
    ensures Recorded(was, now[k := Unwritten(now[k])], lo, hi, cell.(written := false))
  {
    var x := Unwritten(now[k]);
    var after := now[k := x];
    RetagOrdered(now, k, x);
    forall i | 0 <= i < |after| - 1 ensures !Mergeable(after[i], after[i + 1]) {
      assert !Mergeable(now[i], now[i + 1]);
      OrderedIndex(now, 0, i, i + 1);
      if i == k {
        AtIndex(now, i + 1, now[i + 1].begin);
        assert At(now, now[i + 1].begin) == At(was, now[i + 1].begin);
      } else if i + 1 == k {
        AtIndex(now, i, now[i].begin);
        assert At(now, now[i].begin) == At(was, now[i].begin);
      }
    }
    forall a ensures At(after, a) == if lo <= a < hi then Some(cell.(written := false)) else At(was, a) {
      RetagAt(now, k, x, a);
    }
  }

  lemma SameStart(rs: seq<GuestRange>, i: int, j: int)
    requires Sorted(rs) && 0 <= i < |rs| && 0 <= j < |rs| && rs[i].begin == rs[j].begin
    ensures i == j
  {
    OrderedIndex(rs, 0, i, i);
    OrderedIndex(rs, 0, j, j);
    if i < j { OrderedIndex(rs, 0, i, j); }
    if j < i { OrderedIndex(rs, 0, j, i); }
  }

  /** The in-place join has worked through `index` ranges and kept `out`. */
  ghost predicate Joining(was: seq<GuestRange>, now: seq<GuestRange>, out: int, index: int) {
    && 0 <= out <= index <= |now| == |was|
    && now[..out] == Coalesced(was[..index]) && now[index..] == was[index..]
  }

  lemma JoinNext(was: seq<GuestRange>, now: seq<GuestRange>, out: nat, index: nat)
    requires Joining(was, now, out, index) && index < |was|
    ensures now[index] == was[index] && Coalesced(was[..index + 1]) == Join(now[..out], now[index])
    ensures now[index + 1..] == was[index + 1..]
  {
    assert now[index..][0] == was[index..][0];
    assert now[index + 1..] == now[index..][1..] && was[index + 1..] == was[index..][1..];
    assert was[..index + 1][..index] == was[..index];
  }

  /** The next range is added to the last one kept. */
  lemma JoinMerge(was: seq<GuestRange>, now: seq<GuestRange>, out: nat, index: nat, x: GuestRange)
    requires Joining(was, now, out, index) && 0 < out && index < |was| && Mergeable(now[out - 1], now[index])
    requires x == now[out - 1].(size := now[out - 1].size + now[index].size)
    ensures Joining(was, now[out - 1 := x], out, index + 1)
  {
    JoinNext(was, now, out, index);
    assert now[..out][..out - 1] == now[..out - 1];
    assert now[out - 1 := x][..out] == now[..out - 1] + [x];
    assert now[out - 1 := x][index + 1..] == now[index + 1..];
  }

  /** The next range is kept as it is. */
  lemma JoinMove(was: seq<GuestRange>, now: seq<GuestRange>, out: nat, index: nat)
    requires Joining(was, now, out, index) && index < |was| && !(0 < out && Mergeable(now[out - 1], now[index]))
    ensures Joining(was, now[out := now[index]], out + 1, index + 1)
  {
    JoinNext(was, now, out, index);
    assert now[out := now[index]][..out + 1] == now[..out] + [now[index]];
    assert now[out := now[index]][index + 1..] == now[index + 1..];
  }

  ghost predicate Meeting(rs: seq<GuestRange>, q: Request) {
    exists i :: 0 <= i < |rs| && rs[i].Meets(q.begin, q.end)
  }

  lemma ReprotectNext(rs: seq<GuestRange>, i: nat, q: Request)
    requires i < |rs|
    ensures Reprotected(rs[..i + 1], q) == Reprotected(rs[..i], q) + ReprotectOne(rs[i], q)
  {
    assert rs[..i + 1][..i] == rs[..i];
  }

  lemma RequestOrdered(address: nat, amount: nat, p: Prot, page: nat)
    requires 0 < page
    ensures var q := MakeRequest(address, amount, p, page); q.begin <= q.end
  {
    AlignDownGreatest(AlignUp(address + amount, page), AlignDown(address, page), page);
  }
}
