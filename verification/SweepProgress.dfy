/** Whatever has happened, every submitted range can still be dealt with: nothing is stuck behind
    a lock, a hold, a releaser, the background thread or a thread that compiles. */
module SweepProgress {
  import opened Invalidation

  lemma {:induction false} FreshReleaser(taken: set<nat>) returns (r: nat)
    ensures forall q :: q in taken ==> q < r
    decreases taken
  {
    r := 0;
    if taken != {} {
      var q :| q in taken;
      var r' := FreshReleaser(taken - {q});
      r := if q < r' then r' else q + 1;
      forall p | p in taken ensures p < r {
        if p != q { assert p in taken - {q}; }
      }
    }
  }

  /** How far a range is from being dealt with while nothing is suspended. */
  ghost function Stage(l: Ledger, k: Ticket): nat {
    if k in l.tasks then
      match l.tasks[k]
      case Sweeping(_, _) => 1
      case Clear => 2
      case Submitted => 3
      case SawHold => 4
      case Deferring => 9
    else if k in l.batch then 5
    else if k in l.queue then 6
    else if InPending(l, k) then 7
    else if k in l.deferred then 8
    else 0
  }

  /** What it may have to wait for where it is. */
  ghost function Ahead(s: State, k: Ticket): nat {
    var l := s.ledger;
    |l.lock| + |l.batch| + |s.code.compiling.Keys| + if Sweeps(l, k) then |l.tasks[k].left| else 0
  }

  /** The step brings the end nearer. */
  ghost predicate Nearer(step: Step, s: State, k: Ticket)
    requires Enabled(step, s)
  {
    var t := After(step, s);
    && t.ledger.issued == s.ledger.issued
    && (|t.ledger.frozen| < |s.ledger.frozen| ||
        (t.ledger.frozen == s.ledger.frozen &&
         (Stage(t.ledger, k) < Stage(s.ledger, k) || (Stage(t.ledger, k) == Stage(s.ledger, k) && Ahead(t, k) < Ahead(s, k)))))
  }

  lemma ThawHelps(s: State, k: Ticket) returns (step: Step)
    requires Sound(s) && s.ledger.frozen != {}
    ensures Enabled(step, s) && Nearer(step, s, k)
  {
    var pid :| pid in s.ledger.frozen;
    var r := FreshReleaser(s.ledger.swapping + s.ledger.pending.Keys);
    step := Thaw(pid, r);
    assert After(step, s).ledger.frozen == s.ledger.frozen - {pid};
  }

  /** Whoever has the deferral lock can let go of it. */
  lemma UnlockHelps(s: State, k: Ticket) returns (step: Step)
    requires Sound(s) && s.ledger.lock != {} && k !in s.ledger.lock && k in s.ledger.issued
    ensures Enabled(step, s) && Nearer(step, s, k)
  {
    var l := s.ledger;
    var j :| j in l.lock;
    step := Defer(j);
    LockIsOne(l, j);
    assert At(l, j, Deferring);
    PendingSame(l, After(step, s).ledger, k);
  }

  lemma CallHelps(s: State, k: Ticket) returns (step: Step)
    requires Sound(s) && s.ledger.frozen == {} && k in s.ledger.tasks && !Sweeps(s.ledger, k)
    ensures Enabled(step, s) && Nearer(step, s, k)
  {
    var l := s.ledger;
    assert Places(l, k) <= 1 && k in l.issued by { assert Places(l, k) == if k in l.issued then 1 else 0; }
    match l.tasks[k]
    case Clear => step := BeginSweep(k);
    case Submitted => step := LookAtHold(k);
    case Deferring => step := Defer(k);
    case SawHold =>
      if l.lock == {} {
        step := LockAndLook(k);
      } else {
        assert k in l.lock <==> At(l, k, Deferring);
        step := UnlockHelps(s, k);
      }
  }

  lemma SweepHelps(s: State, k: Ticket) returns (step: Step)
    requires Sound(s) && s.ledger.frozen == {} && Sweeps(s.ledger, k)
    ensures Enabled(step, s) && Nearer(step, s, k)
  {
    var l, c := s.ledger, s.code;
    assert Places(l, k) <= 1 by { assert Places(l, k) == if k in l.issued then 1 else 0; }
    if l.tasks[k].left == {} {
      step := EndSweep(k);
      PendingSame(l, After(step, s).ledger, k);
    } else {
      var ctx :| ctx in l.tasks[k].left;
      if t :| t in c.compiling && c.compiling[t].ctx == ctx {
        step := EndCompile(t);
        assert After(step, s).code.compiling.Keys == c.compiling.Keys - {t};
      } else {
        step := SweepContext(k, ctx);
        assert After(step, s).ledger.tasks[k].left == l.tasks[k].left - {ctx};
      }
    }
  }

  lemma QueueHelps(s: State, k: Ticket) returns (step: Step)
    requires Sound(s) && s.ledger.frozen == {} && k in s.ledger.issued && (k in s.ledger.queue || k in s.ledger.batch)
    ensures Enabled(step, s) && Nearer(step, s, k)
  {
    var l := s.ledger;
    assert Places(l, k) == 1;
    if k in l.batch {
      step := RunFromBatch(k);
    } else if l.batch == {} {
      step := TakeBatch;
    } else {
      var j :| j in l.batch;
      step := RunFromBatch(j);
      PendingSame(l, After(step, s).ledger, k);
      assert After(step, s).ledger.batch == l.batch - {j};
    }
  }

  lemma DeferredHelps(s: State, k: Ticket) returns (step: Step)
    requires Sound(s) && s.ledger.frozen == {} && k in s.ledger.issued && (k in s.ledger.deferred || InPending(s.ledger, k))
    ensures Enabled(step, s) && Nearer(step, s, k)
  {
    var l := s.ledger;
    assert Places(l, k) == 1;
    if k in l.deferred {
      if l.lock == {} {
        var r :| r in l.swapping;
        step := Swap(r);
        var m := After(step, s).ledger;
        assert r in m.pending && k in m.pending[r];
      } else {
        assert k in l.lock <==> At(l, k, Deferring);
        step := UnlockHelps(s, k);
      }
    } else {
      var r :| r in l.pending && k in l.pending[r];
      step := Enqueue(r);
    }
  }

  /** In a sound state some step brings a range that is not done nearer its end. */
  lemma SomethingHelps(s: State, k: Ticket) returns (step: Step)
    requires Sound(s) && k in s.ledger.issued && k !in s.ledger.done
    ensures Enabled(step, s) && Nearer(step, s, k)
  {
    var l := s.ledger;
    assert Places(l, k) == 1;
    if l.frozen != {} {
      step := ThawHelps(s, k);
    } else if Sweeps(l, k) {
      step := SweepHelps(s, k);
    } else if k in l.tasks {
      step := CallHelps(s, k);
    } else if k in l.queue || k in l.batch {
      step := QueueHelps(s, k);
    } else {
      step := DeferredHelps(s, k);
    }
  }

  /** Every run can be continued to one that has dealt with a range submitted in it, with nothing
      new submitted on the way. */
  lemma {:induction false} CanBeFinished(states: seq<State>, steps: seq<Step>, k: Ticket) returns (later: seq<State>, taken: seq<Step>)
    requires Run(states, steps) && k in states[|steps|].ledger.issued
    ensures Run(later, taken) && states <= later && steps <= taken
    ensures k in later[|taken|].ledger.done && later[|taken|].ledger.issued == states[|steps|].ledger.issued
    decreases |states[|steps|].ledger.frozen|, Stage(states[|steps|].ledger, k), Ahead(states[|steps|], k)
  {
    var s := states[|steps|];
    if k in s.ledger.done {
      later, taken := states, steps;
    } else {
      RunIsSound(states, steps, |steps|);
      var step := SomethingHelps(s, k);
      RunSnoc(states, steps, step);
      later, taken := CanBeFinished(states + [After(step, s)], steps + [step], k);
    }
  }

  // ---- Threads that end ----

  /** The step a sweep takes next: it waits for nothing but threads that compile. */
  lemma NextOfSweep(s: State, k: Ticket) returns (step: Step)
    requires Sweeps(s.ledger, k)
    ensures Enabled(step, s) && After(step, s).threads.leaving == s.threads.leaving
    ensures step == EndSweep(k) || (!step.BeginSweep? && !step.EndSweep? && Sweeps(After(step, s).ledger, k) && Ahead(After(step, s), k) < Ahead(s, k))
  {
    var l, c := s.ledger, s.code;
    if l.tasks[k].left == {} {
      step := EndSweep(k);
    } else {
      var ctx :| ctx in l.tasks[k].left;
      if t :| t in c.compiling && c.compiling[t].ctx == ctx {
        step := EndCompile(t);
        assert After(step, s).code.compiling.Keys == c.compiling.Keys - {t};
      } else {
        step := SweepContext(k, ctx);
        assert After(step, s).ledger.tasks[k].left == l.tasks[k].left - {ctx};
      }
    }
  }

  lemma {:induction false} EndOneSweep(states: seq<State>, steps: seq<Step>, k: Ticket) returns (later: seq<State>, taken: seq<Step>)
    requires Run(states, steps) && Sweeps(states[|steps|].ledger, k)
    ensures Run(later, taken) && states <= later && steps <= taken
    ensures later[|taken|].threads.leaving == states[|steps|].threads.leaving
    ensures Running(later[|taken|].ledger) == Running(states[|steps|].ledger) - {k}
    decreases Ahead(states[|steps|], k)
  {
    var s := states[|steps|];
    RunIsSound(states, steps, |steps|);
    var step := NextOfSweep(s, k);
    RunningAfter(step, s);
    RunSnoc(states, steps, step);
    later, taken := states + [After(step, s)], steps + [step];
    if step != EndSweep(k) {
      later, taken := EndOneSweep(later, taken, k);
    }
  }

  /** A thread that has left the list can always still be destroyed: the sweeps it waits for can
      all be ended. */
  lemma {:induction false} CanBeDestroyed(states: seq<State>, steps: seq<Step>, t: nat) returns (later: seq<State>, taken: seq<Step>)
    requires Run(states, steps) && t in states[|steps|].threads.leaving
    ensures Run(later, taken) && states <= later && steps <= taken && t in later[|taken|].threads.destroyed
    decreases |Running(states[|steps|].ledger)|
  {
    var s := states[|steps|];
    if Running(s.ledger) == {} {
      RunIsSound(states, steps, |steps|);
      RunSnoc(states, steps, SeeNoSweeps(t));
      var cleared := After(SeeNoSweeps(t), s);
      later, taken := states + [cleared], steps + [SeeNoSweeps(t)];
      RunSnoc(later, taken, Destroy(t));
      later, taken := later + [After(Destroy(t), cleared)], taken + [Destroy(t)];
    } else {
      var k :| k in Running(s.ledger);
      later, taken := EndOneSweep(states, steps, k);
      later, taken := CanBeDestroyed(later, taken, t);
    }
  }
}
