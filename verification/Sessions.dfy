/** The processes of a session and the arenas they run in: fork, exec, finish and the freeing
    of arenas, interleaved at every point where another thread can get in between. Also which
    threads a fork leaves suspended. */
module Sessions {
  import opened Spans

  /** An exec that has an arena for the new image but has not switched to it yet; `left` once
      the current space has been noted as the previous one. */
  datatype Switch = Switch(arena: nat, left: bool)

  datatype Process = Process(
    parent: nat,
    space: Option<nat>,
    previous: Option<nat>,
    borrowed: Option<nat>,
    switching: Option<Switch>,
    frozen: nat,               // threads of this process that are suspended
    released: bool,
    finished: bool,
    swept: bool,               // its arenas have been looked at
    reaped: bool)              // taken out of the process table
  {
    /** The process refers to arena `x`. */
    predicate Names(x: nat) { space == Some(x) || previous == Some(x) || borrowed == Some(x) }
  }

  /** Processes are numbered in the order they were made; arena `own` belongs to the session. */
  datatype Session = Session(own: nat, arenas: set<nat>, nextArena: nat, processes: seq<Process>, holds: int) {
    predicate Live(x: nat) { x == own || x in arenas }

    /** The process is in the table and has not finished. */
    predicate Running(p: nat) { p < |processes| && !processes[p].finished && !processes[p].reaped }

    predicate InTable(p: nat) { p < |processes| && !processes[p].reaped }
  }

  datatype Step =
    | ForkCopy(parent: nat, stopped: nat, threadOk: bool)
    | ForkBorrow(parent: nat, stopped: nat, threadOk: bool)
    | ForkUnstarted(child: nat)
    | TimeOut(parent: nat)
    | ReleaseParent(child: nat)
    | ExecBegin(p: nat, ownSpace: bool)
    | ExecFail(p: nat)
    | ExecLeave(p: nat)
    | ExecEnter(p: nat)
    | Finish(p: nat)
    | Sweep(p: nat)
    | Reap(p: nat)

  // ---- What each step does ----

  /** Suspends `stopped` more threads of `p`; the first one holds sweeps back. */
  function Freeze(s: Session, p: nat, stopped: nat): Session
    requires p < |s.processes|
  {
    var q := s.processes[p];
    s.(processes := s.processes[p := q.(frozen := q.frozen + stopped)],
       holds := if q.frozen == 0 && stopped > 0 then s.holds + 1 else s.holds)
  }

  /** Lets the suspended threads of `p` go. */
  function Thaw(s: Session, p: nat): Session {
    if !s.InTable(p) || s.processes[p].frozen == 0 then s
    else s.(processes := s.processes[p := s.processes[p].(frozen := 0)], holds := s.holds - 1)
  }

  function AddArena(s: Session): Session {
    s.(arenas := s.arenas + {s.nextArena}, nextArena := s.nextArena + 1)
  }

  function Child(parent: nat, space: Option<nat>, borrowed: Option<nat>): Process {
    Process(parent, space, None, borrowed, None, 0, false, false, false, false)
  }

  function AddChild(s: Session, child: Process, ok: bool): Session {
    if ok then s.(processes := s.processes + [child]) else s
  }

  function Update(s: Session, p: nat, q: Process): Session
    requires p < |s.processes|
  {
    s.(processes := s.processes[p := q])
  }

  /** Some process other than `p` still runs and refers to arena `x`. */
  predicate UsedElsewhere(s: Session, p: nat, x: nat) {
    exists q :: 0 <= q < |s.processes| && q != p && s.Running(q) && s.processes[q].Names(x)
  }

  /** The arenas only the finished process `p` was using. */
  function Doomed(s: Session, p: nat): set<nat>
    requires p < |s.processes|
  {
    set x | x in s.arenas && x != s.own && (s.processes[p].space == Some(x) || s.processes[p].previous == Some(x)) && !UsedElsewhere(s, p, x)
  }

  function SweepOf(s: Session, p: nat): Session
    requires p < |s.processes|
  {
    var q, doomed := s.processes[p].(swept := true), Doomed(s, p);
    if doomed == {} then Update(s, p, q)
    else
      Update(s, p, q.(space := if q.space == Some(s.own) then q.space else None, previous := None))
        .(arenas := s.arenas - doomed)
  }

  predicate Enabled(step: Step, s: Session) {
    match step
    case ForkCopy(p, _, _) => s.Running(p) && s.processes[p].switching.None?
    case ForkBorrow(p, _, _) => s.Running(p) && s.processes[p].switching.None?
    case ForkUnstarted(c) => s.Running(c) && s.processes[c].switching.None? && !s.processes[c].released
    case TimeOut(p) => p < |s.processes|
    case ReleaseParent(c) => s.Running(c)
    case ExecBegin(p, _) => s.Running(p) && s.processes[p].switching.None?
    case ExecFail(p) => s.Running(p) && s.processes[p].switching.Some? && !s.processes[p].switching.value.left
    case ExecLeave(p) => s.Running(p) && s.processes[p].switching.Some? && !s.processes[p].switching.value.left
    case ExecEnter(p) => s.Running(p) && s.processes[p].switching.Some? && s.processes[p].switching.value.left
    case Finish(p) => s.Running(p) && s.processes[p].switching.None?
    case Sweep(p) => p < |s.processes| && s.processes[p].finished && !s.processes[p].swept
    case Reap(p) => s.InTable(p) && s.processes[p].finished
  }

  function After(step: Step, s: Session): Session
    requires Enabled(step, s)
  {
    match step
    case ForkCopy(p, stopped, ok) =>
      AddChild(Freeze(AddArena(s), p, stopped), Child(p, Some(s.nextArena), None), ok)
    case ForkBorrow(p, stopped, ok) =>
      var space := s.processes[p].space;
      if ok then AddChild(Freeze(s, p, stopped), Child(p, space, space), true) else s
    case ForkUnstarted(c) => Update(s, c, s.processes[c].(finished := true, reaped := true, swept := true))
    case TimeOut(p) => Thaw(s, p)
    case ReleaseParent(c) =>
      var thawed := Thaw(s, s.processes[c].parent);
      Update(thawed, c, thawed.processes[c].(released := true))
    case ExecBegin(p, ownSpace) =>
      if ownSpace then Update(AddArena(s), p, s.processes[p].(switching := Some(Switch(s.nextArena, false))))
      else Update(s, p, s.processes[p].(switching := Some(Switch(s.own, false))))
    case ExecFail(p) => Update(s, p, s.processes[p].(switching := None))
    case ExecLeave(p) =>
      var q := s.processes[p];
      Update(s, p, q.(previous := q.space, switching := Some(q.switching.value.(left := true))))
    case ExecEnter(p) =>
      var q := s.processes[p];
      Update(s, p, q.(space := Some(q.switching.value.arena), switching := None))
    case Finish(p) => Update(s, p, s.processes[p].(finished := true, released := true))
    case Sweep(p) => SweepOf(s, p)
    case Reap(p) => Update(s, p, s.processes[p].(reaped := true))
  }

  ghost predicate Initial(s: Session) {
    && s.own < s.nextArena && s.arenas == {} && s.holds == 0
    && |s.processes| == 1 && s.processes[0] == Child(0, Some(s.own), None)
  }

  ghost predicate Run(states: seq<Session>, steps: seq<Step>) {
    && |states| == |steps| + 1
    && Initial(states[0])
    && forall i :: 0 <= i < |steps| ==> Enabled(steps[i], states[i]) && states[i + 1] == After(steps[i], states[i])
  }

  // ---- No running process refers to a destroyed arena ----

  /** Everything `q` refers to is there. */
  predicate Grounded(s: Session, q: Process) {
    && (q.space.Some? ==> s.Live(q.space.value))
    && (q.previous.Some? ==> s.Live(q.previous.value))
    && (q.borrowed.Some? ==> s.Live(q.borrowed.value))
    && (q.switching.Some? ==> s.Live(q.switching.value.arena))
  }

  /** The arena an exec has made and not entered yet. */
  predicate Awaits(q: Process, own: nat, x: nat) {
    q.switching.Some? && q.switching.value.arena == x && x != own
  }

  /** An arena an exec has made but not entered is known to nobody else. */
  ghost predicate Private(s: Session) {
    forall p, q, x: nat :: 0 <= p < |s.processes| && 0 <= q < |s.processes| && Awaits(s.processes[p], s.own, x) ==>
      !s.processes[q].Names(x) && (q != p ==> !Awaits(s.processes[q], s.own, x))
  }

  ghost predicate Numbered(s: Session) {
    && s.own < s.nextArena && s.own !in s.arenas
    && (forall x :: x in s.arenas ==> x < s.nextArena)
    && (forall p, x: nat :: 0 <= p < |s.processes| && s.processes[p].Names(x) ==> x < s.nextArena)
    && (forall p :: 0 <= p < |s.processes| && s.processes[p].switching.Some? ==> s.processes[p].switching.value.arena < s.nextArena)
  }

  ghost predicate Safe(s: Session) {
    && Numbered(s) && Private(s)
    && forall p :: 0 <= p < |s.processes| && !s.processes[p].finished ==> Grounded(s, s.processes[p]) && !s.processes[p].reaped
  }

  /** Forgetting things, or finishing, is always safe. */
  lemma ForgetSafe(s: Session, p: nat, q: Process)
    requires Safe(s) && p < |s.processes|
    requires forall x: nat :: q.Names(x) ==> s.processes[p].Names(x)
    requires q.switching.Some? ==> s.processes[p].switching.Some? && q.switching.value.arena == s.processes[p].switching.value.arena
    requires !q.finished ==> !s.processes[p].finished && !q.reaped
    ensures Safe(Update(s, p, q))
  {
    var t := Update(s, p, q);
    forall r | 0 <= r < |t.processes| && !t.processes[r].finished ensures Grounded(t, t.processes[r]) && !t.processes[r].reaped {
      assert Grounded(s, s.processes[r]);
      NamesGrounded(s, s.processes[p], q);
    }
  }

  lemma NamesGrounded(s: Session, was: Process, q: Process)
    requires forall x: nat :: q.Names(x) ==> was.Names(x)
    requires q.switching.Some? ==> was.switching.Some? && q.switching.value.arena == was.switching.value.arena
    ensures Grounded(s, was) ==> Grounded(s, q)
  {
    if q.space.Some? { assert q.Names(q.space.value); }
    if q.previous.Some? { assert q.Names(q.previous.value); }
    if q.borrowed.Some? { assert q.Names(q.borrowed.value); }
  }

  lemma ArenaSafe(s: Session)
    requires Safe(s)
    ensures Safe(AddArena(s))
  {
    var t := AddArena(s);
    forall r | 0 <= r < |t.processes| && !t.processes[r].finished ensures Grounded(t, t.processes[r]) && !t.processes[r].reaped {
      assert Grounded(s, s.processes[r]);
    }
  }

  /** A new process that refers to live arenas no exec is about to enter. */
  lemma ChildSafe(s: Session, child: Process)
    requires Safe(s) && child.switching.None? && !child.reaped && Grounded(s, child)
    requires forall x: nat :: child.Names(x) ==> x < s.nextArena && forall q :: 0 <= q < |s.processes| ==> !Awaits(s.processes[q], s.own, x)
    ensures Safe(AddChild(s, child, true))
  {
    var t := AddChild(s, child, true);
    forall r | 0 <= r < |t.processes| && !t.processes[r].finished ensures Grounded(t, t.processes[r]) && !t.processes[r].reaped {
      if r < |s.processes| { assert Grounded(s, s.processes[r]); }
    }
  }

  lemma FreezeSafe(s: Session, p: nat, stopped: nat)
    requires Safe(s) && p < |s.processes|
    ensures Safe(Freeze(s, p, stopped))
  {
    ForgetSafe(s, p, s.processes[p].(frozen := s.processes[p].frozen + stopped));
    SameButHolds(Update(s, p, s.processes[p].(frozen := s.processes[p].frozen + stopped)), Freeze(s, p, stopped));
  }

  lemma SameButHolds(s: Session, t: Session)
    requires Safe(s) && t == s.(holds := t.holds)
    ensures Safe(t)
  {
    forall r | 0 <= r < |t.processes| && !t.processes[r].finished ensures Grounded(t, t.processes[r]) && !t.processes[r].reaped {
      assert Grounded(s, s.processes[r]);
    }
  }

  lemma ThawSafe(s: Session, p: nat)
    requires Safe(s)
    ensures Safe(Thaw(s, p)) && |Thaw(s, p).processes| == |s.processes|
    ensures forall q :: 0 <= q < |s.processes| ==> Thaw(s, p).processes[q] == s.processes[q].(frozen := Thaw(s, p).processes[q].frozen)
  {
    if s.InTable(p) && s.processes[p].frozen > 0 {
      ForgetSafe(s, p, s.processes[p].(frozen := 0));
      SameButHolds(Update(s, p, s.processes[p].(frozen := 0)), Thaw(s, p));
    }
  }

  lemma ForkCopySafe(s: Session, p: nat, stopped: nat, ok: bool)
    requires Safe(s) && Enabled(ForkCopy(p, stopped, ok), s)
    ensures Safe(After(ForkCopy(p, stopped, ok), s))
  {
    ArenaSafe(s);
    FreezeSafe(AddArena(s), p, stopped);
    var f := Freeze(AddArena(s), p, stopped);
    if ok {
      var child := Child(p, Some(s.nextArena), None);
      forall q | 0 <= q < |f.processes| ensures !Awaits(f.processes[q], f.own, s.nextArena) {
        assert s.processes[q].switching == f.processes[q].switching;
      }
      ChildSafe(f, child);
    }
  }

  lemma ForkBorrowSafe(s: Session, p: nat, stopped: nat, ok: bool)
    requires Safe(s) && Enabled(ForkBorrow(p, stopped, ok), s)
    ensures Safe(After(ForkBorrow(p, stopped, ok), s))
  {
    FreezeSafe(s, p, stopped);
    var f, space := Freeze(s, p, stopped), s.processes[p].space;
    if ok {
      assert Grounded(f, f.processes[p]);
      forall x: nat | Child(p, space, space).Names(x)
        ensures x < f.nextArena && forall q :: 0 <= q < |f.processes| ==> !Awaits(f.processes[q], f.own, x)
      {
        assert f.processes[p].Names(x);
      }
      ChildSafe(f, Child(p, space, space));
    }
  }

  lemma ExecBeginSafe(s: Session, p: nat, ownSpace: bool)
    requires Safe(s) && Enabled(ExecBegin(p, ownSpace), s)
    ensures Safe(After(ExecBegin(p, ownSpace), s))
  {
    var t := After(ExecBegin(p, ownSpace), s);
    forall r | 0 <= r < |t.processes| && !t.processes[r].finished ensures Grounded(t, t.processes[r]) && !t.processes[r].reaped {
      assert Grounded(s, s.processes[r]);
    }
  }

  lemma ExecEnterSafe(s: Session, p: nat)
    requires Safe(s) && Enabled(ExecEnter(p), s)
    ensures Safe(After(ExecEnter(p), s))
  {
    var t := After(ExecEnter(p), s);
    var w := s.processes[p].switching.value.arena;
    forall r | 0 <= r < |t.processes| && !t.processes[r].finished ensures Grounded(t, t.processes[r]) && !t.processes[r].reaped {
      assert Grounded(s, s.processes[r]);
    }
    forall a, b, x: nat | 0 <= a < |t.processes| && 0 <= b < |t.processes| && Awaits(t.processes[a], t.own, x)
      ensures !t.processes[b].Names(x) && (b != a ==> !Awaits(t.processes[b], t.own, x))
    {
      assert Awaits(s.processes[a], s.own, x) && a != p;
    }
  }

  lemma SweepSafe(s: Session, p: nat)
    requires Safe(s) && Enabled(Sweep(p), s)
    ensures Safe(After(Sweep(p), s))
  {
    var t := After(Sweep(p), s);
    ForgetSafe(s, p, t.processes[p]);
    assert t == Update(s, p, t.processes[p]).(arenas := t.arenas);
    forall r | 0 <= r < |t.processes| && !t.processes[r].finished ensures Grounded(t, t.processes[r]) && !t.processes[r].reaped {
      assert Grounded(s, s.processes[r]) && r != p && s.Running(r);
      SweepSpares(s, p, r);
      NamesLive(s, t, s.processes[r], Doomed(s, p));
    }
  }

  lemma NamesLive(s: Session, t: Session, q: Process, gone: set<nat>)
    requires Grounded(s, q) && t.own == s.own && t.arenas >= s.arenas - gone
    requires forall x: nat :: q.Names(x) || Awaits(q, s.own, x) ==> x !in gone
    ensures Grounded(t, q)
  {
    if q.space.Some? { assert q.Names(q.space.value); }
    if q.previous.Some? { assert q.Names(q.previous.value); }
    if q.borrowed.Some? { assert q.Names(q.borrowed.value); }
    if q.switching.Some? { assert q.switching.value.arena == s.own || Awaits(q, s.own, q.switching.value.arena); }
  }

  /** No arena a running process refers to, or is about to enter, is doomed. */
  lemma SweepSpares(s: Session, p: nat, r: nat)
    requires Safe(s) && p < |s.processes| && r != p && s.Running(r)
    ensures forall x: nat :: s.processes[r].Names(x) ==> x !in Doomed(s, p)
    ensures forall x: nat :: Awaits(s.processes[r], s.own, x) ==> x !in Doomed(s, p)
  {
    forall x: nat | s.processes[r].Names(x) ensures UsedElsewhere(s, p, x) {}
    forall x: nat | Awaits(s.processes[r], s.own, x) ensures x !in Doomed(s, p) {
      assert !s.processes[p].Names(x);
    }
  }

  lemma StepSafe(step: Step, s: Session)
    requires Safe(s) && Enabled(step, s)
    ensures Safe(After(step, s))
  {
    match step
    case ForkCopy(p, stopped, ok) => ForkCopySafe(s, p, stopped, ok);
    case ForkBorrow(p, stopped, ok) => ForkBorrowSafe(s, p, stopped, ok);
    case ForkUnstarted(c) => ForgetSafe(s, c, s.processes[c].(finished := true, reaped := true, swept := true));
    case TimeOut(p) => ThawSafe(s, p);
    case ReleaseParent(c) =>
      ThawSafe(s, s.processes[c].parent);
      var t := Thaw(s, s.processes[c].parent);
      ForgetSafe(t, c, t.processes[c].(released := true));
    case ExecBegin(p, ownSpace) => ExecBeginSafe(s, p, ownSpace);
    case ExecFail(p) => ForgetSafe(s, p, s.processes[p].(switching := None));
    case ExecLeave(p) =>
      var q := s.processes[p];
      ForgetSafe(s, p, q.(previous := q.space, switching := Some(q.switching.value.(left := true))));
    case ExecEnter(p) => ExecEnterSafe(s, p);
    case Finish(p) => ForgetSafe(s, p, s.processes[p].(finished := true, released := true));
    case Sweep(p) => SweepSafe(s, p);
    case Reap(p) => ForgetSafe(s, p, s.processes[p].(reaped := true));
  }

  /** In every run no unfinished process refers, through its current, previous or borrowed
      space, to an arena that has been destroyed. */
  lemma {:induction false} NothingDangles(states: seq<Session>, steps: seq<Step>, i: nat)
    requires Run(states, steps) && i < |states|
    ensures Safe(states[i])
    ensures forall p :: 0 <= p < |states[i].processes| && !states[i].processes[p].finished ==> Grounded(states[i], states[i].processes[p])
    decreases i
  {
    if i > 0 {
      NothingDangles(states, steps, i - 1);
      StepSafe(steps[i - 1], states[i - 1]);
      assert states[i - 1 + 1] == After(steps[i - 1], states[i - 1]);
    }
  }

  // ---- An exec arrives where it set out for ----

  /** Process `p` left `space`, or is about to, for arena `x`. */
  ghost predicate OnItsWay(s: Session, p: nat, space: Option<nat>, x: nat) {
    && s.Running(p) && s.processes[p].space == space && s.processes[p].switching.Some? && s.processes[p].switching.value.arena == x
    && (s.processes[p].switching.value.left ==> s.processes[p].previous == space)
  }

  /** The exec of `p` that is under way ends with this step. */
  predicate ExecEnds(step: Step, p: nat) { step == ExecFail(p) || step == ExecEnter(p) }

  lemma OnItsWayStep(step: Step, s: Session, p: nat, space: Option<nat>, x: nat)
    requires Enabled(step, s) && OnItsWay(s, p, space, x) && !ExecEnds(step, p)
    ensures OnItsWay(After(step, s), p, space, x)
  {
  }

  lemma {:induction false} StaysOnItsWay(states: seq<Session>, steps: seq<Step>, i: nat, j: nat, p: nat, space: Option<nat>, x: nat)
    requires Run(states, steps) && i <= j < |states| && OnItsWay(states[i], p, space, x)
    requires forall m :: i <= m < j ==> !ExecEnds(steps[m], p)
    ensures OnItsWay(states[j], p, space, x)
    decreases j - i
  {
    if i < j {
      StaysOnItsWay(states, steps, i, j - 1, p, space, x);
      assert states[j - 1 + 1] == After(steps[j - 1], states[j - 1]);
      OnItsWayStep(steps[j - 1], states[j - 1], p, space, x);
    }
  }

  /** Whatever the others do meanwhile, a process that execs ends up in the arena made for it when
      it began, or in the session's own, with the space it had then as its previous one. */
  lemma ExecArrives(states: seq<Session>, steps: seq<Step>, i: nat, j: nat, p: nat)
    requires Run(states, steps) && i < j < |steps| && steps[i].ExecBegin? && steps[i].p == p && steps[j] == ExecEnter(p)
    requires forall m :: i < m < j ==> !ExecEnds(steps[m], p)
    ensures p < |states[i].processes| && p < |states[j + 1].processes|
    ensures var q := states[j + 1].processes[p];
      && q.space == Some(if steps[i].ownSpace then states[i].nextArena else states[i].own)
      && q.previous == states[i].processes[p].space && q.switching.None?
      && Grounded(states[j + 1], q)
  {
    assert Enabled(steps[i], states[i]) && states[i + 1] == After(steps[i], states[i]);
    var x := if steps[i].ownSpace then states[i].nextArena else states[i].own;
    StaysOnItsWay(states, steps, i + 1, j, p, states[i].processes[p].space, x);
    assert Enabled(steps[j], states[j]) && states[j + 1] == After(steps[j], states[j]);
    NothingDangles(states, steps, j + 1);
  }

  // ---- Arenas nobody will free ----

  /** Process `q` will have arena `x` looked at when it finishes. */
  predicate Tracks(s: Session, q: nat, x: nat) {
    && q < |s.processes| && !s.processes[q].swept
    && (s.processes[q].space == Some(x) || s.processes[q].previous == Some(x) || Awaits(s.processes[q], s.own, x))
  }

  ghost predicate Tracked(s: Session, x: nat) { exists q :: Tracks(s, q, x) }

  ghost predicate TrackedElsewhere(s: Session, p: nat, x: nat) { exists q :: q != p && Tracks(s, q, x) }

  /** Only a finished process has had its arenas looked at, none finishes in the middle of an
      exec or without letting its parent go, and an exec that has left its space still remembers
      it. */
  ghost predicate Orderly(s: Session) {
    forall p :: 0 <= p < |s.processes| ==> OrderlyOne(s.processes[p])
  }

  predicate OrderlyOne(q: Process) {
    (q.swept ==> q.finished) && (q.finished ==> q.switching.None?)
    && (q.switching.Some? && q.switching.value.left ==> q.previous == q.space)
    && (q.finished ==> q.released || q.reaped)
  }

  lemma StepOrderly(step: Step, s: Session)
    requires Orderly(s) && Enabled(step, s)
    ensures Orderly(After(step, s))
  {
  }

  /** An arena no process tracks stays, untracked, whatever happens next. */
  lemma UntrackedStays(step: Step, s: Session, x: nat)
    requires Safe(s) && Orderly(s) && Enabled(step, s) && x in s.arenas && !Tracked(s, x)
    ensures x in After(step, s).arenas && !Tracked(After(step, s), x)
  {
    var t := After(step, s);
    forall q ensures !Tracks(t, q, x) {
      assert !Tracks(s, q, x);
      if step.ForkBorrow? { assert !Tracks(s, step.parent, x); }
    }
    if step.Sweep? { assert !Tracks(s, step.p, x); }
  }

  /** Once an arena is untracked it is never destroyed. */
  lemma {:induction false} LeakedForever(states: seq<Session>, steps: seq<Step>, i: nat, j: nat, x: nat)
    requires Run(states, steps) && i <= j < |states| && x in states[i].arenas && !Tracked(states[i], x)
    ensures x in states[j].arenas && !Tracked(states[j], x)
    decreases j - i
  {
    if i < j {
      NothingDangles(states, steps, i);
      RunOrderly(states, steps, i);
      UntrackedStays(steps[i], states[i], x);
      LeakedForever(states, steps, i + 1, j, x);
    }
  }

  lemma {:induction false} RunOrderly(states: seq<Session>, steps: seq<Step>, i: nat)
    requires Run(states, steps) && i < |states|
    ensures Orderly(states[i])
    decreases i
  {
    if i > 0 {
      RunOrderly(states, steps, i - 1);
      StepOrderly(steps[i - 1], states[i - 1]);
      assert states[i - 1 + 1] == After(steps[i - 1], states[i - 1]);
    }
  }

  /** The step leaves no arena behind: everything tracked before, or made by it, and still there
      is tracked after. */
  ghost predicate LosesNone(s: Session, t: Session) {
    forall x: nat :: x in t.arenas && (Tracked(s, x) || x !in s.arenas) ==> Tracked(t, x)
  }

  /** When a step leaves no arena behind: a copying fork gets its thread; a child whose host
      thread cannot be made, a failed exec and an exec that forgets an older space have no arena
      of their own to lose; and a finishing process's arena is not merely on loan elsewhere. */
  ghost predicate Tidy(step: Step, s: Session)
    requires Enabled(step, s)
  {
    match step
    case ForkCopy(_, _, ok) => ok
    case ForkUnstarted(c) => forall x: nat :: x in s.arenas && Tracks(s, c, x) ==> TrackedElsewhere(s, c, x)
    case ExecFail(p) => s.processes[p].switching.value.arena == s.own
    case ExecLeave(p) =>
      var q := s.processes[p];
      q.previous.Some? && q.previous.value in s.arenas && q.previous != q.space ==> TrackedElsewhere(s, p, q.previous.value)
    case Sweep(p) => forall x: nat :: x in s.arenas && Tracks(s, p, x) && UsedElsewhere(s, p, x) ==> TrackedElsewhere(s, p, x)
    case _ => true
  }

  /** As far as arenas go, only process `p` differs between `s` and `t`. */
  ghost predicate OnlyOne(s: Session, t: Session, p: nat) {
    && t.own == s.own && |t.processes| == |s.processes|
    && forall q :: 0 <= q < |s.processes| && q != p ==> SameHoldings(s.processes[q], t.processes[q])
  }

  predicate SameHoldings(a: Process, b: Process) {
    b.space == a.space && b.previous == a.previous && b.switching == a.switching && b.swept == a.swept
  }

  lemma TrackedSplit(s: Session, t: Session, p: nat, x: nat)
    requires OnlyOne(s, t, p)
    ensures Tracked(t, x) <==> TrackedElsewhere(s, p, x) || Tracks(t, p, x)
    ensures Tracked(s, x) <==> TrackedElsewhere(s, p, x) || Tracks(s, p, x)
  {
    if q :| q != p && Tracks(s, q, x) { assert Tracks(t, q, x); }
    if q :| Tracks(t, q, x) { assert q == p || Tracks(s, q, x); }
  }

  /** A step that changes only what `p` tracks. */
  lemma OneLosesNone(s: Session, t: Session, p: nat)
    requires OnlyOne(s, t, p) && t.arenas <= s.arenas
    ensures LosesNone(s, t) <==> forall x: nat :: x in t.arenas && Tracks(s, p, x) && !Tracks(t, p, x) ==> TrackedElsewhere(s, p, x)
  {
    forall x: nat ensures (Tracked(s, x) ==> Tracked(t, x)) <==> (Tracks(s, p, x) && !Tracks(t, p, x) ==> TrackedElsewhere(s, p, x)) {
      TrackedSplit(s, t, p, x);
    }
    if LosesNone(s, t) {
      forall x: nat | x in t.arenas && Tracks(s, p, x) && !Tracks(t, p, x) ensures TrackedElsewhere(s, p, x) {
        assert Tracked(s, x) ==> Tracked(t, x);
      }
    }
  }

  lemma ForkTidy(step: Step, s: Session)
    requires Safe(s) && Enabled(step, s) && (step.ForkCopy? || step.ForkBorrow?)
    ensures LosesNone(s, After(step, s)) <==> Tidy(step, s)
  {
    var t := After(step, s);
    forall x: nat | Tracked(s, x) ensures Tracked(t, x) {
      var q :| Tracks(s, q, x);
      assert Tracks(t, q, x);
    }
    if step.ForkCopy? {
      var x := s.nextArena;
      assert x in t.arenas && x !in s.arenas;
      forall q: nat | q < |s.processes| ensures !Tracks(t, q, x) {
        assert t.processes[q].space == s.processes[q].space && t.processes[q].previous == s.processes[q].previous;
        assert !s.processes[q].Names(x);
      }
      if step.threadOk {
        assert Tracks(t, |s.processes|, x);
      } else {
        assert !Tracked(t, x);
      }
    }
  }

  lemma ExecBeginTidy(s: Session, p: nat, ownSpace: bool)
    requires Safe(s) && Orderly(s) && Enabled(ExecBegin(p, ownSpace), s)
    ensures LosesNone(s, After(ExecBegin(p, ownSpace), s))
  {
    var t := After(ExecBegin(p, ownSpace), s);
    forall x: nat | Tracked(s, x) ensures Tracked(t, x) {
      var q :| Tracks(s, q, x);
      assert Tracks(t, q, x);
    }
    if ownSpace { assert Tracks(t, p, s.nextArena); }
  }

  lemma ExecFailTidy(s: Session, p: nat)
    requires Safe(s) && Orderly(s) && Enabled(ExecFail(p), s)
    ensures LosesNone(s, After(ExecFail(p), s)) <==> Tidy(ExecFail(p), s)
  {
    var q, t := s.processes[p], After(ExecFail(p), s);
    OneLosesNone(s, t, p);
    var x := q.switching.value.arena;
    if x != s.own {
      assert Grounded(s, q) && Awaits(q, s.own, x);
      assert x in t.arenas && Tracks(s, p, x) && !q.Names(x) && !Tracks(t, p, x);
      assert !TrackedElsewhere(s, p, x);
    }
  }

  lemma ExecLeaveTidy(s: Session, p: nat)
    requires Safe(s) && Orderly(s) && Enabled(ExecLeave(p), s)
    ensures LosesNone(s, After(ExecLeave(p), s)) <==> Tidy(ExecLeave(p), s)
  {
    var q, t := s.processes[p], After(ExecLeave(p), s);
    OneLosesNone(s, t, p);
    assert OrderlyOne(q);
    forall x: nat ensures Tracks(s, p, x) && !Tracks(t, p, x) <==> q.previous == Some(x) && q.space != Some(x) {
      assert Awaits(q, s.own, x) ==> !q.Names(x);
    }
  }

  lemma ExecEnterTidy(s: Session, p: nat)
    requires Safe(s) && Orderly(s) && Enabled(ExecEnter(p), s)
    ensures LosesNone(s, After(ExecEnter(p), s))
  {
    var q, t := s.processes[p], After(ExecEnter(p), s);
    OneLosesNone(s, t, p);
    assert OrderlyOne(q);
    forall x: nat ensures Tracks(s, p, x) ==> Tracks(t, p, x) {}
  }

  lemma SweepTidy(s: Session, p: nat)
    requires Safe(s) && Orderly(s) && Enabled(Sweep(p), s)
    ensures LosesNone(s, After(Sweep(p), s)) <==> Tidy(Sweep(p), s)
  {
    var t := After(Sweep(p), s);
    OneLosesNone(s, t, p);
    assert OrderlyOne(s.processes[p]);
    forall x: nat
      ensures x in t.arenas && Tracks(s, p, x) && !Tracks(t, p, x) <==> x in s.arenas && Tracks(s, p, x) && UsedElsewhere(s, p, x)
    {
      assert x in Doomed(s, p) <==> x in s.arenas && Tracks(s, p, x) && !UsedElsewhere(s, p, x);
    }
  }

  /** A step leaves no arena behind exactly when it is tidy. */
  lemma LosesNoneIffTidy(step: Step, s: Session)
    requires Safe(s) && Orderly(s) && Enabled(step, s)
    ensures LosesNone(s, After(step, s)) <==> Tidy(step, s)
  {
    match step
    case ForkCopy(_, _, _) => ForkTidy(step, s);
    case ForkBorrow(_, _, _) => ForkTidy(step, s);
    case ForkUnstarted(c) => OneLosesNone(s, After(step, s), c);
    case TimeOut(p) => OneLosesNone(s, After(step, s), p);
    case ReleaseParent(c) => OneLosesNone(s, After(step, s), c);
    case ExecBegin(p, ownSpace) => ExecBeginTidy(s, p, ownSpace);
    case ExecFail(p) => ExecFailTidy(s, p);
    case ExecLeave(p) => ExecLeaveTidy(s, p);
    case ExecEnter(p) => ExecEnterTidy(s, p);
    case Finish(p) => OneLosesNone(s, After(step, s), p);
    case Sweep(p) => SweepTidy(s, p);
    case Reap(p) => OneLosesNone(s, After(step, s), p);
  }

  /** One exec of process 0 into an arena of its own. */
  function AfterExec(s: Session): Session
    requires Enabled(ExecBegin(0, true), s)
  {
    After(ExecEnter(0), After(ExecLeave(0), After(ExecBegin(0, true), s)))
  }

  lemma OneExec(s: Session, space: Option<nat>, previous: Option<nat>)
    requires s.processes == [Child(0, space, None).(previous := previous)]
    ensures Enabled(ExecBegin(0, true), s)
    ensures AfterExec(s) ==
      Session(s.own, s.arenas + {s.nextArena}, s.nextArena + 1, [Child(0, Some(s.nextArena), None).(previous := space)], s.holds)
  {
  }

  /** A process that execs for the third time forgets the arena of the first. */
  lemma ThirdExecLeaks() returns (s0: Session, s1: Session, s2: Session, s3: Session)
    ensures Initial(s0) && Enabled(ExecBegin(0, true), s0) && s1 == AfterExec(s0)
    ensures Enabled(ExecBegin(0, true), s1) && s2 == AfterExec(s1)
    ensures Enabled(ExecBegin(0, true), s2) && s3 == AfterExec(s2)
    ensures s1.processes[0].space == Some(1) && 1 in s3.arenas && !Tracked(s3, 1)
  {
    s0 := Session(0, {}, 1, [Child(0, Some(0), None)], 0);
    OneExec(s0, Some(0), None);
    s1 := AfterExec(s0);
    OneExec(s1, Some(1), Some(0));
    s2 := AfterExec(s1);
    OneExec(s2, Some(2), Some(1));
    s3 := AfterExec(s2);
  }

  /** A copying fork whose thread cannot be made leaves the arena made for it behind, and the
      thread it suspended. */
  lemma FailedForkLeaks() returns (s: Session, t: Session)
    ensures Initial(s) && Enabled(ForkCopy(0, 1, false), s) && t == After(ForkCopy(0, 1, false), s)
    ensures 1 in t.arenas && !Tracked(t, 1) && t.processes[0].frozen == 1 && t.holds == 1
  {
    s := Session(0, {}, 1, [Child(0, Some(0), None)], 0);
    t := After(ForkCopy(0, 1, false), s);
    assert t.processes == [Child(0, Some(0), None).(frozen := 1)];
  }

  /** A child whose own thread does not start is erased: the arena copied for it is left behind,
      and so is the thread suspended for it, with no child to let it go. */
  lemma UnstartedForkLeaks() returns (states: seq<Session>, steps: seq<Step>)
    ensures Run(states, steps) && steps == [ForkCopy(0, 1, true), ForkUnstarted(1)]
    ensures var t := states[2];
      && |t.processes| == 2 && 1 in t.arenas && !Tracked(t, 1) && t.processes[0].frozen == 1 && t.holds == 1
      && forall c :: 0 < c < |t.processes| ==> !t.InTable(c)
  {
    var fork, gone := ForkCopy(0, 1, true), ForkUnstarted(1);
    var s := Session(0, {}, 1, [Child(0, Some(0), None)], 0);
    var parent := Child(0, Some(0), None).(frozen := 1);
    var t := After(fork, s);
    assert t == Session(0, {1}, 2, [parent, Child(0, Some(1), None)], 1);
    var u := After(gone, t);
    assert u.processes == [parent, Child(0, Some(1), None).(finished := true, reaped := true, swept := true)];
    states, steps := [s, t, u], [fork, gone];
  }

  /** An exec that fails after its arena was made leaves that behind. */
  lemma FailedExecLeaks() returns (s: Session, t: Session, u: Session)
    ensures Initial(s) && Enabled(ExecBegin(0, true), s) && t == After(ExecBegin(0, true), s)
    ensures Enabled(ExecFail(0), t) && u == After(ExecFail(0), t)
    ensures 1 in u.arenas && !Tracked(u, 1)
  {
    s := Session(0, {}, 1, [Child(0, Some(0), None)], 0);
    t := After(ExecBegin(0, true), s);
    u := After(ExecFail(0), t);
    assert u.processes == s.processes;
  }

  /** One exec of process 1 into an arena of its own. */
  function AfterChildExec(s: Session): Session
    requires Enabled(ExecBegin(1, true), s)
  {
    After(ExecEnter(1), After(ExecLeave(1), After(ExecBegin(1, true), s)))
  }

  lemma OneChildExec(s: Session, parent: Process, space: Option<nat>, previous: Option<nat>, borrowed: Option<nat>)
    requires s.processes == [parent, Child(0, space, borrowed).(previous := previous)]
    ensures Enabled(ExecBegin(1, true), s)
    ensures AfterChildExec(s) ==
      Session(s.own, s.arenas + {s.nextArena}, s.nextArena + 1, [parent, Child(0, Some(s.nextArena), borrowed).(previous := space)], s.holds)
  {
  }

  /** A process whose child has execed twice since borrowing its arena finishes: the child still
      refers to the arena as the one it borrowed from, so it stays, and nobody will look at it
      again. */
  lemma LenderFinishesFirst() returns (s0: Session, s1: Session, s2: Session, s3: Session, s4: Session, s5: Session, s6: Session)
    ensures Initial(s0) && Enabled(ExecBegin(0, true), s0) && s1 == AfterExec(s0)
    ensures Enabled(ForkBorrow(0, 0, true), s1) && s2 == After(ForkBorrow(0, 0, true), s1)
    ensures Enabled(ExecBegin(1, true), s2) && s3 == AfterChildExec(s2)
    ensures Enabled(ExecBegin(1, true), s3) && s4 == AfterChildExec(s3)
    ensures Enabled(Finish(0), s4) && s5 == After(Finish(0), s4)
    ensures Enabled(Sweep(0), s5) && s6 == After(Sweep(0), s5)
    ensures s1.processes[0].space == Some(1) && 1 in s6.arenas && !Tracked(s6, 1)
  {
    s0 := Session(0, {}, 1, [Child(0, Some(0), None)], 0);
    OneExec(s0, Some(0), None);
    s1 := AfterExec(s0);
    var parent := Child(0, Some(1), None).(previous := Some(0));
    s2 := After(ForkBorrow(0, 0, true), s1);
    assert s2 == Session(0, {1}, 2, [parent, Child(0, Some(1), Some(1))], 0);
    OneChildExec(s2, parent, Some(1), None, Some(1));
    s3 := AfterChildExec(s2);
    OneChildExec(s3, parent, Some(2), Some(1), Some(1));
    s4 := AfterChildExec(s3);
    s5 := After(Finish(0), s4);
    s6 := LastSweep(s5);
  }

  lemma LastSweep(s5: Session) returns (s6: Session)
    requires s5.own == 0 && s5.arenas == {1, 2, 3} && |s5.processes| == 2
    requires s5.processes[0] == Child(0, Some(1), None).(previous := Some(0), finished := true, released := true)
    requires s5.processes[1] == Child(0, Some(3), Some(1)).(previous := Some(2))
    ensures Enabled(Sweep(0), s5) && s6 == After(Sweep(0), s5) && 1 in s6.arenas && !Tracked(s6, 1)
  {
    s6 := After(Sweep(0), s5);
    assert s5.Running(1) && s5.processes[1].Names(1);
    assert UsedElsewhere(s5, 0, 1) && Doomed(s5, 0) == {};
  }

  // ---- Suspended threads ----

  /** How many processes have threads suspended. */
  function FrozenCount(ps: seq<Process>): nat {
    if ps == [] then 0 else FrozenCount(ps[..|ps| - 1]) + if ps[|ps| - 1].frozen > 0 then 1 else 0
  }

  lemma {:induction false} FrozenUpdate(ps: seq<Process>, p: nat, q: Process)
    requires p < |ps|
    ensures FrozenCount(ps[p := q]) == FrozenCount(ps) - (if ps[p].frozen > 0 then 1 else 0) + (if q.frozen > 0 then 1 else 0)
    decreases |ps|
  {
    var n := |ps| - 1;
    if p < n {
      assert ps[p := q][..n] == ps[..n][p := q];
      FrozenUpdate(ps[..n], p, q);
    } else {
      assert ps[p := q][..n] == ps[..n];
    }
  }

  /** The processes with threads suspended. */
  ghost function Suspended(ps: seq<Process>): set<int> { set p | 0 <= p < |ps| && ps[p].frozen > 0 }

  lemma {:induction false} FrozenCountIsSuspended(ps: seq<Process>)
    ensures FrozenCount(ps) == |Suspended(ps)|
    decreases |ps|
  {
    if ps != [] {
      var n := |ps| - 1;
      FrozenCountIsSuspended(ps[..n]);
      assert Suspended(ps) == Suspended(ps[..n]) + if ps[n].frozen > 0 then {n} else {};
    }
  }

  /** Sweeps are held back once for every process with suspended threads. */
  ghost predicate HoldsMatch(s: Session) { s.holds == FrozenCount(s.processes) }

  lemma FreezeMatches(s: Session, p: nat, stopped: nat)
    requires HoldsMatch(s) && p < |s.processes|
    ensures HoldsMatch(Freeze(s, p, stopped))
  {
    FrozenUpdate(s.processes, p, s.processes[p].(frozen := s.processes[p].frozen + stopped));
  }

  lemma ThawMatches(s: Session, p: nat)
    requires HoldsMatch(s)
    ensures HoldsMatch(Thaw(s, p))
  {
    if s.InTable(p) { FrozenUpdate(s.processes, p, s.processes[p].(frozen := 0)); }
  }

  lemma ChildMatches(s: Session, child: Process, ok: bool)
    requires HoldsMatch(s) && child.frozen == 0
    ensures HoldsMatch(AddChild(s, child, ok))
  {
    assert (s.processes + [child])[..|s.processes|] == s.processes;
  }

  lemma StepHolds(step: Step, s: Session)
    requires HoldsMatch(s) && Enabled(step, s)
    ensures HoldsMatch(After(step, s))
  {
    match step
    case ForkCopy(p, stopped, ok) =>
      FreezeMatches(AddArena(s), p, stopped);
      ChildMatches(Freeze(AddArena(s), p, stopped), Child(p, Some(s.nextArena), None), ok);
    case ForkBorrow(p, stopped, ok) =>
      FreezeMatches(s, p, stopped);
      ChildMatches(Freeze(s, p, stopped), Child(p, s.processes[p].space, s.processes[p].space), true);
    case TimeOut(p) => ThawMatches(s, p);
    case ReleaseParent(c) =>
      var t := Thaw(s, s.processes[c].parent);
      ThawMatches(s, s.processes[c].parent);
      FrozenUpdate(t.processes, c, t.processes[c].(released := true));
    case ForkUnstarted(c) => FrozenUpdate(s.processes, c, After(step, s).processes[c]);
    case ExecBegin(p, _) => FrozenUpdate(s.processes, p, After(step, s).processes[p]);
    case _ => FrozenUpdate(s.processes, step.p, After(step, s).processes[step.p]);
  }

  /** In every run the hold count is the number of processes with suspended threads. */
  lemma {:induction false} HoldsCountFrozen(states: seq<Session>, steps: seq<Step>, i: nat)
    requires Run(states, steps) && i < |states|
    ensures HoldsMatch(states[i]) && states[i].holds == |Suspended(states[i].processes)|
    decreases i
  {
    FrozenCountIsSuspended(states[i].processes);
    if i > 0 {
      HoldsCountFrozen(states, steps, i - 1);
      StepHolds(steps[i - 1], states[i - 1]);
      assert states[i - 1 + 1] == After(steps[i - 1], states[i - 1]);
    } else {
      assert states[0].processes[..0] == [];
    }
  }

  /** The step lets the threads of `p` go. */
  predicate LetsGo(step: Step, s: Session, p: nat)
    requires Enabled(step, s)
  {
    s.InTable(p) && (step == TimeOut(p) || (step.ReleaseParent? && s.processes[step.child].parent == p))
  }

  /** Suspended threads are let go exactly by the fork giving up, or by any child of the
      process execing or ending, whether or not it is the one they were suspended for. */
  lemma FrozenUntil(step: Step, s: Session, p: nat)
    requires Enabled(step, s) && p < |s.processes| && s.processes[p].frozen > 0
    ensures After(step, s).processes[p].frozen == 0 <==> LetsGo(step, s, p)
  {
  }

  /** An older child's exec wakes the parent while a younger one is still borrowing from it. */
  lemma OlderChildWakesParent() returns (states: seq<Session>, steps: seq<Step>)
    ensures Run(states, steps)
    ensures var last := states[|steps|];
      |last.processes| == 3 && last.processes[2].borrowed == Some(0) && !last.processes[2].released && last.processes[0].frozen == 0
    ensures |states| == 5 && |states[3].processes| == 3 && states[3].processes[0].frozen > 0
  {
    var first, out, second := ForkBorrow(0, 1, true), ReleaseParent(1), ForkBorrow(0, 1, true);
    var s0 := Session(0, {}, 1, [Child(0, Some(0), None)], 0);
    var s1 := After(first, s0);
    var s2 := After(out, s1);
    var s3 := After(second, s2);
    var s4 := After(out, s3);
    states, steps := [s0, s1, s2, s3, s4], [first, out, second, out];
  }

  /** Nothing but a child of the process, or a fork of its own, lets those threads go. */
  lemma {:induction false} FrozenForGood(states: seq<Session>, steps: seq<Step>, i: nat, j: nat, p: nat)
    requires Run(states, steps) && i <= j < |states| && p < |states[i].processes| && states[i].processes[p].frozen > 0
    requires forall k :: i <= k < j ==> !LetsGo(steps[k], states[k], p)
    ensures p < |states[j].processes| && states[j].processes[p].frozen > 0 && states[j].holds > 0
    decreases j - i
  {
    if i < j {
      FrozenUntil(steps[i], states[i], p);
      FrozenForGood(states, steps, i + 1, j, p);
    } else {
      HoldsCountFrozen(states, steps, i);
      FrozenCounted(states[i].processes, p);
    }
  }

  /** A copying fork whose thread cannot be made returns an error, and the threads it suspended
      stay so until another fork gives up or some child of the process execs or ends. */
  lemma FailedForkStaysFrozen(states: seq<Session>, steps: seq<Step>, i: nat, j: nat, p: nat, stopped: nat)
    requires Run(states, steps) && i < j < |states| && steps[i] == ForkCopy(p, stopped, false) && 0 < stopped
    requires forall k :: i < k < j ==> !LetsGo(steps[k], states[k], p)
    ensures p < |states[j].processes| && states[j].processes[p].frozen > 0 && states[j].holds > 0
  {
    assert states[i + 1] == After(steps[i], states[i]);
    FrozenForGood(states, steps, i + 1, j, p);
  }

  lemma {:induction false} FrozenCounted(ps: seq<Process>, p: nat)
    requires p < |ps| && ps[p].frozen > 0
    ensures FrozenCount(ps) > 0
    decreases |ps|
  {
    if p < |ps| - 1 { FrozenCounted(ps[..|ps| - 1], p); }
  }
}
