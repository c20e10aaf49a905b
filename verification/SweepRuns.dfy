/** When a submitted range is swept and when it is held back, over whole runs; and what a sweep
    may throw away. */
module SweepRuns {
  import opened Invalidation

  /** The step starts a call that will deal with `k`. */
  predicate Makes(step: Step, k: Ticket) {
    || (step.ReleaseMemory? && k == Ticket(step.id, step.lo, step.hi))
    || step == Submit(k) || step == RunFromBatch(k)
  }

  /** The call dealing with `k` reads the hold count. */
  predicate Looks(step: Step, k: Ticket) { step == LookAtHold(k) || step == LockAndLook(k) }

  /** Step `i` started the call dealing with `k` that is in progress before step `j`. */
  ghost predicate StartedAt(steps: seq<Step>, i: nat, j: nat, k: Ticket) {
    i < j <= |steps| && Makes(steps[i], k) && forall m :: i < m < j ==> !Makes(steps[m], k)
  }

  /** The call reads a hold count of zero, or one above it, before step `j`. */
  ghost predicate Read(states: seq<State>, steps: seq<Step>, i: nat, m: nat, j: nat, k: Ticket, held: bool) {
    i < m < j <= |steps| < |states| && Looks(steps[m], k) && (held <==> states[m].ledger.holds > 0)
  }

  predicate PastHold(pc: Pc) { pc.Clear? || pc.Sweeping? }

  /** What a step that leaves `k` with a call in progress did to that call. Only its own look takes
      it from waiting to sweeping or to deferring, and it goes where the count sends it. */
  ghost predicate Looked(step: Step, l: Ledger, m: Ledger, k: Ticket) {
    && k in m.tasks
    && (if Makes(step, k) then m.tasks[k] == Submitted
        else
          && k in l.tasks
          && if Looks(step, k) then m.tasks[k] != Submitted && (PastHold(m.tasks[k]) <==> l.holds <= 0)
             else (PastHold(m.tasks[k]) <==> PastHold(l.tasks[k])) && (m.tasks[k] == Submitted <==> l.tasks[k] == Submitted))
  }

  lemma LookStep(step: Step, s: State, k: Ticket)
    requires Enabled(step, s) && Places(s.ledger, k) <= 1 && k in LedgerAfter(step, s).tasks
    ensures Looked(step, s.ledger, LedgerAfter(step, s), k)
  {
  }

  ghost predicate AllLooked(states: seq<State>, steps: seq<Step>, j: nat, k: Ticket) {
    && j <= |steps| < |states| && k !in states[0].ledger.tasks
    && forall n :: 0 <= n < j && k in states[n + 1].ledger.tasks ==> Looked(steps[n], states[n].ledger, states[n + 1].ledger, k)
  }

  lemma RunLooks(states: seq<State>, steps: seq<Step>, j: nat, k: Ticket)
    requires Run(states, steps) && j < |states|
    ensures AllLooked(states, steps, j, k)
  {
    forall n | 0 <= n < j && k in states[n + 1].ledger.tasks ensures Looked(steps[n], states[n].ledger, states[n + 1].ledger, k) {
      RunIsSound(states, steps, n);
      assert Places(states[n].ledger, k) <= 1;
      LookStep(steps[n], states[n], k);
    }
  }

  lemma {:induction false} FindLook(states: seq<State>, steps: seq<Step>, j: nat, k: Ticket) returns (i: nat, m: nat)
    requires AllLooked(states, steps, j, k) && k in states[j].ledger.tasks
    ensures StartedAt(steps, i, j, k)
    ensures states[j].ledger.tasks[k] != Submitted ==> Read(states, steps, i, m, j, k, !PastHold(states[j].ledger.tasks[k]))
    decreases j
  {
    assert Looked(steps[j - 1], states[j - 1].ledger, states[j - 1 + 1].ledger, k);
    if Makes(steps[j - 1], k) {
      i, m := j - 1, 0;
    } else {
      i, m := FindLook(states, steps, j - 1, k);
      if Looks(steps[j - 1], k) { m := j - 1; }
    }
  }

  /** A call in progress was started, and unless it has yet to look it has read the hold count
      since, as zero if it is past it and above zero if it is waiting or deferring. */
  lemma LastLook(states: seq<State>, steps: seq<Step>, j: nat, k: Ticket) returns (i: nat, m: nat)
    requires Run(states, steps) && j < |states| && k in states[j].ledger.tasks
    ensures StartedAt(steps, i, j, k)
    ensures states[j].ledger.tasks[k] != Submitted ==> Read(states, steps, i, m, j, k, !PastHold(states[j].ledger.tasks[k]))
  {
    RunLooks(states, steps, j, k);
    i, m := FindLook(states, steps, j, k);
  }

  /** A sweep of a range starts only if, since the call that makes it started, that call found
      no thread suspended. */
  lemma SweepSawNoHold(states: seq<State>, steps: seq<Step>, j: nat, k: Ticket) returns (i: nat, m: nat)
    requires Run(states, steps) && j < |steps| && steps[j] == BeginSweep(k)
    ensures StartedAt(steps, i, j, k) && i < m < j && Looks(steps[m], k)
    ensures states[m].ledger.holds == 0 && states[m].ledger.frozen == {}
  {
    i, m := LastLook(states, steps, j, k);
    RunIsSound(states, steps, m);
    assert |states[m].ledger.frozen| == 0;
  }

  lemma OneStart(steps: seq<Step>, i: nat, i': nat, j: nat, k: Ticket)
    requires StartedAt(steps, i, j, k) && StartedAt(steps, i', j, k)
    ensures i == i'
  {
  }

  /** So no sweep starts, or is under way, for a call during which threads were suspended all the
      time. */
  lemma HeldThroughoutNeverSweeps(states: seq<State>, steps: seq<Step>, i: nat, j: nat, k: Ticket)
    requires Run(states, steps) && j < |states| && StartedAt(steps, i, j, k)
    requires forall m :: i < m < j ==> states[m].ledger.holds > 0
    ensures k in states[j].ledger.tasks ==> !PastHold(states[j].ledger.tasks[k])
    ensures j < |steps| ==> steps[j] != BeginSweep(k)
  {
    if k in states[j].ledger.tasks {
      var i', m := LastLook(states, steps, j, k);
      OneStart(steps, i, i', j, k);
    }
  }

  /** A range is put off only if the call dealing with it found threads suspended. */
  lemma DeferralSawHold(states: seq<State>, steps: seq<Step>, j: nat, k: Ticket) returns (i: nat, m: nat)
    requires Run(states, steps) && j < |steps| && k !in states[j].ledger.deferred && k in states[j + 1].ledger.deferred
    ensures steps[j] == Defer(k) && StartedAt(steps, i, j, k) && i < m < j && Looks(steps[m], k)
    ensures states[m].ledger.holds > 0 && states[m].ledger.frozen != {}
  {
    assert states[j + 1] == After(steps[j], states[j]);
    i, m := LastLook(states, steps, j, k);
    RunIsSound(states, steps, m);
  }

  // ---- What a sweep throws away ----

  /** The contexts a sweep has still to visit can see some of its range. */
  ghost predicate SweepsSee(s: State) {
    forall k, ctx :: Sweeps(s.ledger, k) && ctx in s.ledger.tasks[k].left ==> !s.code.window(ctx).Misses(k.lo, k.hi)
  }

  lemma SweepsSeeStep(step: Step, s: State)
    requires Enabled(step, s) && Accounted(s.ledger) && SweepsSee(s)
    ensures SweepsSee(After(step, s))
  {
    var u := After(step, s);
    forall k, ctx | Sweeps(u.ledger, k) && ctx in u.ledger.tasks[k].left ensures !u.code.window(ctx).Misses(k.lo, k.hi) {
      CopyKept(step, s, k);
      if step != BeginSweep(k) { assert ctx in s.ledger.tasks[k].left; }
    }
  }

  lemma {:induction false} RunSweepsSee(states: seq<State>, steps: seq<Step>, i: nat)
    requires Run(states, steps) && i < |states|
    ensures SweepsSee(states[i])
    decreases i
  {
    if i > 0 {
      RunSweepsSee(states, steps, i - 1);
      RunIsSound(states, steps, i - 1);
      assert states[i - 1 + 1] == After(steps[i - 1], states[i - 1]);
      SweepsSeeStep(steps[i - 1], states[i - 1]);
    }
  }

  lemma DiscardStep(step: Step, s: State, b: Block)
    requires Enabled(step, s) && b in s.code.All()
    ensures b in CodeAfter(step, s).All() || (step.SweepContext? && step.ctx == b.ctx && Overlaps(b, step.k))
  {
    var c, d := s.code, CodeAfter(step, s);
    if b in c.compiling.Values {
      var t :| t in c.compiling && c.compiling[t] == b;
      if t in d.compiling { assert d.compiling[t] in d.compiling.Values; }
    }
  }

  /** Compiled code goes only by a sweep of its own context for a range it has a byte in, and
      that the context can see some of. */
  lemma OnlySweepsDiscard(states: seq<State>, steps: seq<Step>, i: nat, b: Block)
    requires Run(states, steps) && i < |steps| && b in states[i].code.All() && b !in states[i + 1].code.All()
    ensures steps[i].SweepContext? && steps[i].ctx == b.ctx
    ensures exists a :: a in b.epochs && steps[i].k.lo <= a < steps[i].k.hi
    ensures var w, k := states[i].code.window(b.ctx), steps[i].k;
      w.base == 0 || (k.lo < w.base + w.span && w.base < k.hi)
  {
    RunSweepsSee(states, steps, i);
    DiscardStep(steps[i], states[i], b);
  }
}
