/** Whole runs of an address space: any number of operations in any order, with the guest
    writing to its memory in between. */
module SpaceRuns {
  import opened Pages
  import opened Spans
  import opened GuestView
  import opened RangeEdit
  import opened SpaceSpec
  import opened SpaceOps
  import opened Protection
  import opened FixedCommit

  datatype Op =
    | Commit(lo: nat, hi: nat, p: Prot)
    | Refuse(lo: nat, hi: nat)
    | Release(lo: nat, hi: nat)
    | Protect(q: Request)
    | CommitOver(lo: nat, hi: nat, p: Prot)
    | Adopt(lo: nat, hi: nat, cell: Cell)
    | AdoptOutside(lo: nat, hi: nat, p: Prot)
    | Write(lo: nat, hi: nat)
    | Drop(lo: nat, hi: nat)
    | Restore(lo: nat, data: seq<int>, epoch: nat)
  {
    /** The addresses whose bytes the operation may change on purpose. */
    predicate Rewrites(a: int) {
      match this
      case Write(lo, hi) => lo <= a < hi
      case Drop(lo, hi) => lo <= a < hi
      case Restore(lo, data, _) => lo <= a < lo + |data|
      case _ => false
    }
  }

  /** Only the bytes of [lo, hi) may differ. */
  ghost predicate WritesWithin(s: Space, t: Space, lo: int, hi: int) {
    SameLists(s, t) && forall a :: !(lo <= a < hi) ==> t.bytes(a) == s.bytes(a)
  }

  /** `op` takes the space from `s` to `t`. */
  ghost predicate Does(op: Op, s: Space, t: Space)
    requires 0 < s.page
  {
    match op
    case Commit(lo, hi, p) => FreeRun(s, lo, hi) && Commits(s, t, lo, hi, p)
    case Refuse(lo, hi) => FreeRun(s, lo, hi) && WritesWithin(s, t, lo, hi)
    case Release(lo, hi) => s.base <= lo < hi <= s.Top() && Releases(s, t, lo, hi)
    case Protect(q) => q.begin < q.end && Applied(s, t, q)
    case CommitOver(lo, hi, p) =>
      && s.base <= lo < hi <= s.Top() && Aligned(lo, s.page) && Aligned(hi, s.page)
      && FixedOver(s, t, lo, hi, [], p)
    case Adopt(lo, hi, cell) => FreeRun(s, lo, hi) && Adopts(s, t, lo, hi, cell)
    case AdoptOutside(lo, hi, p) => lo < hi && Clear(s.free, lo, hi) && AdoptsOutside(s, t, lo, hi, p)
    case Write(lo, hi) => WritesWithin(s, t, lo, hi)
    case Drop(lo, hi) => WritesWithin(s, t, lo, hi) && forall a :: lo <= a < hi ==> t.bytes(a) == 0
    case Restore(lo, data, epoch) => Unchanged(s, lo, lo + |data|, epoch) && Restores(s, t, lo, data)
  }

  /** A run: `states[i + 1]` is `states[i]` after `ops[i]`. */
  ghost predicate Run(states: seq<Space>, ops: seq<Op>) {
    && |states| == |ops| + 1
    && Valid(states[0])
    && forall i :: 0 <= i < |ops| ==> 0 < states[i].page && Does(ops[i], states[i], states[i + 1])
  }

  lemma RunExtend(states: seq<Space>, ops: seq<Op>, op: Op, t: Space)
    requires Run(states, ops) && 0 < states[|ops|].page && Does(op, states[|ops|], t)
    ensures Run(states + [t], ops + [op])
  {
    var states', ops' := states + [t], ops + [op];
    forall i | 0 <= i < |ops'| ensures 0 < states'[i].page && Does(ops'[i], states'[i], states'[i + 1]) {
      if i < |ops| { assert Does(ops[i], states[i], states[i + 1]); }
    }
  }

  // ---- The invariant holds throughout ----

  lemma StepKeepsValid(op: Op, s: Space, t: Space)
    requires Valid(s) && Does(op, s, t)
    ensures Valid(t)
  {
    match op
    case Commit(lo, hi, p) => CommitKeepsValid(s, t, lo, hi, p);
    case Refuse(lo, hi) => SameListsValid(s, t);
    case Release(lo, hi) => ReleaseKeepsValid(s, t, lo, hi);
    case Protect(q) => OrdinaryApplied(s, t, q);
    case CommitOver(lo, hi, p) => RefusedGapLeaks(s, t, lo, hi, [], p);
    case Adopt(lo, hi, cell) => AdoptKeepsValid(s, t, lo, hi, cell);
    case AdoptOutside(lo, hi, p) => AdoptOutsideKeepsValid(s, t, lo, hi, p);
    case Write(lo, hi) => SameListsValid(s, t);
    case Drop(lo, hi) => SameListsValid(s, t);
    case Restore(lo, data, epoch) => SameListsValid(s, t);
  }

  lemma {:induction false} RunKeepsValid(states: seq<Space>, ops: seq<Op>, i: nat)
    requires Run(states, ops) && i < |states|
    ensures Valid(states[i])
    decreases i
  {
    if i > 0 {
      RunKeepsValid(states, ops, i - 1);
      StepKeepsValid(ops[i - 1], states[i - 1], states[i - 1 + 1]);
    }
  }

  lemma {:induction false} RunKeepsArena(states: seq<Space>, ops: seq<Op>, i: nat, j: nat)
    requires Run(states, ops) && i <= j < |states|
    ensures SameArena(states[i], states[j])
    decreases j - i
  {
    if i < j {
      RunKeepsArena(states, ops, i, j - 1);
      StepKeepsArena(ops[j - 1], states[j - 1], states[j - 1 + 1]);
    }
  }

  lemma StepKeepsArena(op: Op, s: Space, t: Space)
    requires 0 < s.page && Does(op, s, t)
    ensures SameArena(s, t)
  {
  }

  // ---- Epochs ----

  ghost predicate HasEpoch(s: Space, a: int, e: nat) {
    s.Cell(a).Some? && s.Cell(a).value.epoch == e
  }

  /** A committed byte keeps its epoch or gets one never handed out before. */
  ghost predicate EpochStep(s: Space, t: Space) {
    && s.nextEpoch <= t.nextEpoch
    && forall a :: t.Cell(a).Some? ==> HasEpoch(s, a, t.Cell(a).value.epoch) || s.nextEpoch <= t.Cell(a).value.epoch
  }

  lemma StepEpochs(op: Op, s: Space, t: Space)
    requires Valid(s) && Does(op, s, t)
    ensures EpochStep(s, t)
  {
    match op
    case Protect(q) => OrdinaryApplied(s, t, q); ProtectEpochs(s, t, q);
    case CommitOver(lo, hi, p) => FixedOverEpochs(s, t, lo, hi, p);
    case _ =>
      forall a | t.Cell(a).Some?
        ensures HasEpoch(s, a, t.Cell(a).value.epoch) || s.nextEpoch <= t.Cell(a).value.epoch
      {
      }
  }

  lemma ProtectEpochs(s: Space, t: Space, q: Request)
    requires SameMapping(s, t, q) && t.nextEpoch == s.nextEpoch
    ensures EpochStep(s, t)
  {
    forall a | t.Cell(a).Some? ensures HasEpoch(s, a, t.Cell(a).value.epoch) {
      assert s.Cell(a).Some?;
    }
  }

  lemma FixedOverEpochs(s: Space, t: Space, lo: nat, hi: nat, p: Prot)
    requires 0 < s.page && FixedOver(s, t, lo, hi, [], p)
    ensures EpochStep(s, t)
  {
    forall a | t.Cell(a).Some?
      ensures HasEpoch(s, a, t.Cell(a).value.epoch) || s.nextEpoch <= t.Cell(a).value.epoch
    {
      if !(lo <= a < hi) || s.Cell(a).Some? {
        assert t.Cell(a) == ExactCell(s.Cell(a), lo <= a < hi, p);
      }
    }
  }

  /** Once an epoch already handed out has left an address it never comes back there. */
  lemma {:induction false} EpochNeverReturns(states: seq<Space>, ops: seq<Op>, k: nat, j: nat, a: int, e: nat)
    requires Run(states, ops) && k <= j < |states|
    requires !HasEpoch(states[k], a, e) && e < states[k].nextEpoch
    ensures !HasEpoch(states[j], a, e) && e < states[j].nextEpoch
    decreases j - k
  {
    if k < j {
      RunKeepsValid(states, ops, k);
      StepEpochs(ops[k], states[k], states[k + 1]);
      EpochNeverReturns(states, ops, k + 1, j, a, e);
    }
  }

  /** Epochs are free of ABA: a byte with one epoch at two moments of a run has it at every
      moment between. */
  lemma EpochsContinuous(states: seq<Space>, ops: seq<Op>, i: nat, k: nat, j: nat, a: int, e: nat)
    requires Run(states, ops) && i <= k <= j < |states|
    requires HasEpoch(states[i], a, e) && HasEpoch(states[j], a, e)
    ensures HasEpoch(states[k], a, e)
  {
    EpochsGrow(states, ops, i, k);
    RunKeepsValid(states, ops, i);
    if !HasEpoch(states[k], a, e) {
      EpochNeverReturns(states, ops, k, j, a, e);
    }
  }

  lemma {:induction false} EpochsGrow(states: seq<Space>, ops: seq<Op>, i: nat, k: nat)
    requires Run(states, ops) && i <= k < |states|
    ensures states[i].nextEpoch <= states[k].nextEpoch
    decreases k - i
  {
    if i < k {
      RunKeepsValid(states, ops, i);
      StepEpochs(ops[i], states[i], states[i + 1]);
      EpochsGrow(states, ops, i + 1, k);
    }
  }

  /** A byte loses its epoch only by a release over it, which the observer is told of, or by
      an outside mapping adopted over it, which it is not. */
  lemma EpochLoss(op: Op, s: Space, t: Space, a: int)
    requires Valid(s) && Does(op, s, t) && s.Cell(a).Some? && !HasEpoch(t, a, s.Cell(a).value.epoch)
    ensures (op.Release? || op.AdoptOutside?) && op.lo <= a < op.hi
  {
    match op
    case Commit(lo, hi, p) => FreeIsUncommitted(s, lo, hi, a);
    case Adopt(lo, hi, cell) => FreeIsUncommitted(s, lo, hi, a);
    case Protect(q) => OrdinaryApplied(s, t, q);
    case _ =>
  }

  /** Adopting an outside mapping loses an epoch, unannounced, exactly when something is
      recorded there already. */
  lemma AdoptOutsideLoses(s: Space, t: Space, lo: nat, hi: nat, p: Prot)
    requires Valid(s) && Does(AdoptOutside(lo, hi, p), s, t)
    ensures (exists a :: s.Cell(a).Some? && !HasEpoch(t, a, s.Cell(a).value.epoch)) <==> !Clear(s.committed, lo, hi)
  {
    forall a | s.Cell(a).Some? ensures !HasEpoch(t, a, s.Cell(a).value.epoch) <==> lo <= a < hi {
      assert At(t.committed, a) == if lo <= a < hi then Some(FreshCell(s, p)) else At(s.committed, a);
    }
    if a :| lo <= a < hi && At(s.committed, a).Some? { assert s.Cell(a).Some?; }
  }

  // ---- Memory ----

  /** No operation wipes memory it was not asked to: a byte committed before and after an
      operation under one epoch changes only if the operation rewrites it. */
  lemma StepKeepsBytes(op: Op, s: Space, t: Space, a: int)
    requires Valid(s) && Does(op, s, t)
    requires s.Cell(a).Some? && t.Cell(a).Some? && !op.Rewrites(a)
    ensures t.bytes(a) == s.bytes(a)
  {
    match op
    case Commit(lo, hi, p) => FreeIsUncommitted(s, lo, hi, a);
    case Refuse(lo, hi) => FreeIsUncommitted(s, lo, hi, a);
    case Release(lo, hi) => assert At(t.committed, a).Some?;
    case CommitOver(lo, hi, p) => FixedBytes(s, t, lo, hi, [], p, a);
    case _ =>
  }

  lemma FreeIsUncommitted(s: Space, lo: nat, hi: nat, a: int)
    requires Valid(s) && FreeRun(s, lo, hi) && s.Cell(a).Some?
    ensures !(lo <= a < hi)
  {
    if lo <= a < hi {
      assert At(s.free, a).Some? && s.Free(a);
      PagesOwnedOnce(s, a);
    }
  }

  /** Over a run in which no operation rewrites `a`, a byte that stays committed keeps its
      value. */
  lemma {:induction false} RunKeepsBytes(states: seq<Space>, ops: seq<Op>, i: nat, j: nat, a: int)
    requires Run(states, ops) && i <= j < |states|
    requires forall k :: i <= k <= j ==> states[k].Cell(a).Some?
    requires forall k :: i <= k < j ==> !ops[k].Rewrites(a)
    ensures states[j].bytes(a) == states[i].bytes(a)
    decreases j - i
  {
    if i < j {
      RunKeepsValid(states, ops, i);
      StepKeepsBytes(ops[i], states[i], states[i + 1], a);
      RunKeepsBytes(states, ops, i + 1, j, a);
    }
  }

  /** A successful restore writes only to memory one allocation has held ever since the copy
      was taken. */
  lemma RestoreHitsHeldMemory(states: seq<Space>, ops: seq<Op>, i: nat, j: nat, a: int)
    requires Run(states, ops) && i <= j < |ops| && ops[j].Restore?
    requires HasEpoch(states[i], a, ops[j].epoch)
    ensures ops[j].Rewrites(a) ==> forall k :: i <= k <= j + 1 ==> HasEpoch(states[k], a, ops[j].epoch)
    ensures !ops[j].Rewrites(a) ==> states[j + 1].bytes(a) == states[j].bytes(a)
  {
    assert Does(ops[j], states[j], states[j + 1]);
    if ops[j].Rewrites(a) {
      assert states[j].Cell(a).Some? && HasEpoch(states[j], a, ops[j].epoch);
      assert states[j + 1].Cell(a) == states[j].Cell(a);
      forall k | i <= k <= j + 1 ensures HasEpoch(states[k], a, ops[j].epoch) {
        if k <= j { EpochsContinuous(states, ops, i, k, j, a, ops[j].epoch); }
      }
    }
  }

  // ---- The lowest 64 KB ----

  ghost predicate LowKept(s: Space) {
    forall a :: a < s.base + LOWEST_USABLE ==> !s.Free(a)
  }

  /** A release keeps the lowest 64 KB off the free list exactly when every host page it
      touches there still holds something. */
  lemma ReleaseLow(s: Space, t: Space, lo: nat, hi: nat)
    requires Valid(s) && s.base <= lo < hi <= s.Top() && Releases(s, t, lo, hi) && LowKept(s)
    ensures LowKept(t) <==> forall a: nat :: AlignDown(lo, s.page) <= a < AlignUp(hi, s.page) && a < s.base + LOWEST_USABLE ==> !t.PageClear(a)
  {
    var outer, outerEnd := AlignDown(lo, s.page), AlignUp(hi, s.page);
    forall a: nat | a < s.base + LOWEST_USABLE
      ensures t.Free(a) <==> outer <= a < outerEnd && t.PageClear(a)
    {
      if outer <= a < outerEnd { PageInside(outer, outerEnd, a, s.page); }
    }
    if forall a: nat :: outer <= a < outerEnd && a < s.base + LOWEST_USABLE ==> !t.PageClear(a) {
      forall a | a < s.base + LOWEST_USABLE ensures !t.Free(a) {
        if a < 0 { assert !VacantPage(t.committed, s.page, outer, outerEnd, a); }
      }
    }
  }

  /** `op` releases nothing in the lowest 64 KB. */
  ghost predicate SparesLow(op: Op, s: Space)
    requires 0 < s.page
  {
    op.Release? ==> s.base + LOWEST_USABLE <= AlignDown(op.lo, s.page)
  }

  lemma StepKeepsLow(op: Op, s: Space, t: Space)
    requires Valid(s) && Does(op, s, t) && LowKept(s) && SparesLow(op, s)
    ensures LowKept(t)
  {
    if op.Release? {
      ReleaseLow(s, t, op.lo, op.hi);
    } else {
      forall a | a < t.base + LOWEST_USABLE ensures !t.Free(a) {
        assert !s.Free(a);
      }
    }
  }

  /** In a run from a fresh arena that releases nothing in the lowest 64 KB, nothing is ever
      allocated there. */
  lemma {:induction false} LowNeverHandedOut(states: seq<Space>, ops: seq<Op>, i: nat)
    requires Run(states, ops) && i < |states| && LowKept(states[0])
    requires forall k :: 0 <= k < i ==> SparesLow(ops[k], states[k])
    ensures LowKept(states[i])
    ensures i < |ops| && ops[i].Commit? ==> states[i].base + LOWEST_USABLE <= ops[i].lo
    decreases i
  {
    if i > 0 {
      LowNeverHandedOut(states, ops, i - 1);
      RunKeepsValid(states, ops, i - 1);
      StepKeepsLow(ops[i - 1], states[i - 1], states[i - 1 + 1]);
    }
    if i < |ops| && ops[i].Commit? {
      assert Does(ops[i], states[i], states[i + 1]);
      assert At(states[i].free, ops[i].lo).Some? && states[i].Free(ops[i].lo);
    }
  }
}
