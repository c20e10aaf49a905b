/** The mark that a range was never writable, over whole runs. A fork reserves such a range
    afresh instead of copying it, so the mark has to mean that the range holds only zeros. */
module WrittenRuns {
  import opened Spans
  import opened GuestView
  import opened RangeEdit
  import opened SpaceSpec
  import opened SpaceOps
  import opened Protection
  import opened FixedCommit
  import opened SpaceRuns

  /** Memory never recorded as written holds only zeros. */
  ghost predicate WrittenSound(s: Space) {
    forall a :: s.Cell(a).Some? && !s.Cell(a).value.written ==> s.bytes(a) == 0
  }

  /** Memory that is writable now is recorded as written. */
  ghost predicate WritesNoted(s: Space) {
    forall a :: s.Cell(a).Some? && s.Cell(a).value.prot.write ==> s.Cell(a).value.written
  }

  /** What `op` must respect in `s`: stores go to writable memory, and memory recorded as never
      written is zero when it is recorded. */
  ghost predicate Honest(op: Op, s: Space)
    requires 0 < s.page
  {
    match op
    case CommitOver(lo, hi, p) => p.write || forall a :: lo <= a < hi && s.Cell(a).None? ==> s.PageClear(a) || s.bytes(a) == 0
    case Adopt(lo, hi, cell) => (cell.prot.write ==> cell.written) && (cell.written || forall a :: lo <= a < hi ==> s.bytes(a) == 0)
    case AdoptOutside(lo, hi, p) => p.write || forall a :: lo <= a < hi ==> s.bytes(a) == 0
    case Write(lo, hi) => forall a :: lo <= a < hi && s.Cell(a).Some? ==> s.Cell(a).value.prot.write
    case _ => true
  }

  lemma ProtectWritten(s: Space, t: Space, q: Request)
    requires SameMapping(s, t, q) && t.bytes == s.bytes && WrittenSound(s) && WritesNoted(s)
    ensures WrittenSound(t) && WritesNoted(t)
  {
    forall a | t.Cell(a).Some?
      ensures !t.Cell(a).value.written ==> t.bytes(a) == 0
      ensures t.Cell(a).value.prot.write ==> t.Cell(a).value.written
    {
      assert s.Cell(a).Some?;
    }
  }

  /** Committing over a span keeps the mark sound exactly when it commits writable memory, or
      every byte it newly commits lies in an empty host page or holds zero. */
  lemma CommitOverWritten(s: Space, t: Space, lo: nat, hi: nat, p: Prot)
    requires Valid(s) && Does(CommitOver(lo, hi, p), s, t) && WrittenSound(s) && WritesNoted(s)
    ensures WrittenSound(t) <==> Honest(CommitOver(lo, hi, p), s)
    ensures WritesNoted(t)
  {
    forall a | t.Cell(a).Some?
      ensures !t.Cell(a).value.written ==> (t.bytes(a) == 0 <==> !(lo <= a < hi && s.Cell(a).None?) || s.PageClear(a) || s.bytes(a) == 0)
      ensures t.Cell(a).value.prot.write ==> t.Cell(a).value.written
    {
      FixedCell(s, t, lo, hi, p, a);
    }
    if !p.write && WrittenSound(t) {
      forall a | lo <= a < hi && s.Cell(a).None? ensures s.PageClear(a) || s.bytes(a) == 0 {
        assert Fresh(s, t, p, t.Cell(a));
      }
    }
  }

  lemma FixedCell(s: Space, t: Space, lo: nat, hi: nat, p: Prot, a: int)
    requires Valid(s) && Does(CommitOver(lo, hi, p), s, t) && WrittenSound(s) && WritesNoted(s) && t.Cell(a).Some?
    ensures 0 <= a
    ensures !t.Cell(a).value.written ==> (t.bytes(a) == 0 <==> !(lo <= a < hi && s.Cell(a).None?) || s.PageClear(a) || s.bytes(a) == 0)
    ensures t.Cell(a).value.prot.write ==> t.Cell(a).value.written
    ensures lo <= a < hi && s.Cell(a).None? ==> t.Cell(a).value.written == p.write
  {
    if !(lo <= a < hi) || s.Cell(a).Some? {
      assert t.Cell(a) == ExactCell(s.Cell(a), lo <= a < hi, p);
    }
    FixedBytes(s, t, lo, hi, [], p, a);
  }

  /** Adopting a mapping keeps the mark sound exactly when it is recorded as written or holds
      zeros. */
  lemma AdoptWritten(s: Space, t: Space, lo: nat, hi: nat, cell: Cell)
    requires Valid(s) && Does(Adopt(lo, hi, cell), s, t) && WrittenSound(s)
    ensures WrittenSound(t) <==> cell.written || forall a :: lo <= a < hi ==> s.bytes(a) == 0
  {
    forall a ensures t.Cell(a) == if lo <= a < hi then Some(cell) else s.Cell(a) {}
    if !cell.written && WrittenSound(t) {
      forall a | lo <= a < hi ensures s.bytes(a) == 0 { assert t.Cell(a) == Some(cell); }
    }
  }

  lemma StepWritten(op: Op, s: Space, t: Space)
    requires Valid(s) && Does(op, s, t) && WrittenSound(s) && WritesNoted(s) && Honest(op, s)
    ensures WrittenSound(t) && WritesNoted(t)
  {
    match op
    case Protect(q) => OrdinaryApplied(s, t, q); ProtectWritten(s, t, q);
    case CommitOver(lo, hi, p) => CommitOverWritten(s, t, lo, hi, p);
    case Adopt(lo, hi, cell) => AdoptWritten(s, t, lo, hi, cell); AdoptNoted(s, t, lo, hi, cell);
    case Refuse(lo, hi) => RefuseWritten(s, t, lo, hi);
    case Restore(lo, data, epoch) => RestoreWritten(s, t, lo, data, epoch);
    case Commit(lo, hi, p) => forall a ensures t.Cell(a) == if lo <= a < hi then Some(FreshCell(s, p)) else s.Cell(a) {}
    case AdoptOutside(lo, hi, p) => forall a ensures t.Cell(a) == if lo <= a < hi then Some(FreshCell(s, p)) else s.Cell(a) {}
    case Release(lo, hi) => forall a ensures t.Cell(a) == if lo <= a < hi then None else s.Cell(a) {}
    case Write(lo, hi) => forall a ensures t.Cell(a) == s.Cell(a) {}
    case Drop(lo, hi) => forall a ensures t.Cell(a) == s.Cell(a) {}
  }

  lemma AdoptNoted(s: Space, t: Space, lo: nat, hi: nat, cell: Cell)
    requires 0 < s.page && Does(Adopt(lo, hi, cell), s, t) && WritesNoted(s) && (cell.prot.write ==> cell.written)
    ensures WritesNoted(t)
  {
    forall a ensures t.Cell(a) == if lo <= a < hi then Some(cell) else s.Cell(a) {}
  }

  lemma RefuseWritten(s: Space, t: Space, lo: nat, hi: nat)
    requires Valid(s) && Does(Refuse(lo, hi), s, t) && WrittenSound(s) && WritesNoted(s)
    ensures WrittenSound(t) && WritesNoted(t)
  {
    forall a | t.Cell(a).Some? ensures s.Cell(a) == t.Cell(a) && t.bytes(a) == s.bytes(a) {
      assert s.Cell(a).Some?;
      FreeIsUncommitted(s, lo, hi, a);
    }
  }

  lemma RestoreWritten(s: Space, t: Space, lo: nat, data: seq<int>, epoch: nat)
    requires 0 < s.page && Does(Restore(lo, data, epoch), s, t) && WrittenSound(s) && WritesNoted(s)
    ensures WrittenSound(t) && WritesNoted(t)
  {
    forall a | t.Cell(a).Some? ensures s.Cell(a) == t.Cell(a) && (!t.Cell(a).value.written ==> t.bytes(a) == s.bytes(a)) {
      assert s.Cell(a).Some?;
    }
  }

  /** In a run of honest operations memory recorded as never written is always zero, so a fork
      may reserve it instead of copying it. */
  lemma {:induction false} NeverWrittenIsZero(states: seq<Space>, ops: seq<Op>, i: nat)
    requires Run(states, ops) && i < |states| && WrittenSound(states[0]) && WritesNoted(states[0])
    requires forall k :: 0 <= k < i ==> 0 < states[k].page && Honest(ops[k], states[k])
    ensures WrittenSound(states[i]) && WritesNoted(states[i])
    decreases i
  {
    if i > 0 {
      NeverWrittenIsZero(states, ops, i - 1);
      RunKeepsValid(states, ops, i - 1);
      StepWritten(ops[i - 1], states[i - 1], states[i - 1 + 1]);
    }
  }
}
