/** Borrowing forks over a whole session: what children hold of their parents' memory, when it
    goes back, and when the parents run again. The process table moves by the steps of
    `Sessions`, and everything the guests do to their memory may happen in between. */
module Lending {
  import opened Spans
  import opened GuestView
  import opened SpaceSpec
  import opened SpaceRuns
  import opened Regions
  import opened BorrowFork
  import Sessions

  /** Where the parent stands in its wait for a child. */
  datatype Wait = FirstWait | SecondWait | Returned

  /** Where the child stands: released is what it does last when it stops using its parent's
      memory, at an exec or on its way out. */
  datatype Pc = Unstarted | Running | Restored(exiting: bool) | Leaving | Gone

  /** What one child holds: the saved regions, the arena they came from and the parent's
      generation then. */
  datatype Loan = Loan(parent: nat, from: nat, generation: int, regions: seq<Region>, ownStack: bool, wait: Wait, pc: Pc)

  datatype World = World(session: Sessions.Session, memory: nat -> Space, generation: nat -> int, loans: map<nat, Loan>, stop: bool)

  datatype Step =
    | Guest(arena: nat, op: Op)
    | Table(step: Sessions.Step)
    | Lend(parent: nat, stopped: nat, ownStack: bool, owned: seq<Extent>, w: Bounds, shared: seq<Extent>, held: seq<Span<nat>>, regions: seq<Region>)
    | Copy(parent: nat, stopped: nat, ownStack: bool)
    | NotStarted(child: nat)
    | Start(child: nat)
    | GiveBack(child: nat, exiting: bool, mine: seq<Extent>, hostOk: Region -> bool)
    | LetParentGo(child: nat)
    | Finish(child: nat)
    | GiveUp(child: nat)
    | Wake(child: nat)
    | Stop

  /** The arena a process runs in, the session's own standing in for none. */
  function ArenaOf(s: Sessions.Session, p: nat): nat
    requires p < |s.processes|
  {
    if s.processes[p].space.Some? then s.processes[p].space.value else s.own
  }

  predicate Released(w: World, c: nat) { c < |w.session.processes| && w.session.processes[c].released }

  /** The process is in the middle of its own program. */
  predicate MayFork(w: World, p: nat) { p in w.loans ==> w.loans[p].pc == Running }

  /** None of the process's threads waits for a child: they have all been joined. */
  predicate NoneWaiting(w: World, p: nat) {
    forall c :: c in w.loans && w.loans[c].parent == p ==> w.loans[c].wait == Returned
  }

  /** The parent is still the program it was when the copy was taken, or gone. */
  predicate SameProgram(w: World, l: Loan) {
    !w.session.InTable(l.parent) || w.generation(l.parent) == l.generation
  }

  /** Only the memory of arena `x` may differ. */
  ghost predicate OnlyArena(v: World, w: World, x: nat) {
    forall y :: y != x ==> w.memory(y) == v.memory(y)
  }

  /** Steps of the table that touch no loan. */
  predicate TableOnly(w: World, step: Sessions.Step) {
    match step
    case ForkCopy(_, _, ok) => !ok
    case ForkBorrow(_, _, ok) => !ok
    case Finish(p) => p !in w.loans && NoneWaiting(w, p)
    case ForkUnstarted(_) => false
    case TimeOut(_) => false
    case ReleaseParent(_) => false
    case _ => true
  }

  function GenerationAfter(w: World, step: Sessions.Step): nat -> int {
    (p: nat) => if step == Sessions.ExecLeave(p) then w.generation(p) + 1 else w.generation(p)
  }

  function Update(w: World, c: nat, l: Loan): World { w.(loans := w.loans[c := l]) }

  /** A loan to the process about to be added to the table. */
  function NewLoan(w: World, p: nat, regions: seq<Region>, ownStack: bool): Loan
    requires p < |w.session.processes|
  {
    Loan(p, ArenaOf(w.session, p), w.generation(p), regions, ownStack, FirstWait, Unstarted)
  }

  ghost predicate Does(step: Step, v: World, w: World) {
    var s := v.session;
    match step
    case Guest(x, op) =>
      && 0 < v.memory(x).page && !op.Restore? && SpaceRuns.Does(op, v.memory(x), w.memory(x))
      && OnlyArena(v, w, x) && w == v.(memory := w.memory)
    case Table(t) =>
      && Sessions.Enabled(t, s) && TableOnly(v, t)
      && w == v.(session := Sessions.After(t, s), generation := GenerationAfter(v, t))
    case Lend(p, stopped, ownStack, owned, bounds, shared, held, regions) =>
      && Sessions.Enabled(Sessions.ForkBorrow(p, stopped, true), s) && MayFork(v, p)
      && Taken(v.memory(ArenaOf(s, p)), owned, bounds, shared, held, regions)
      && w == v.(session := Sessions.After(Sessions.ForkBorrow(p, stopped, true), s),
                 loans := v.loans[|s.processes| := NewLoan(v, p, regions, ownStack)])
    case Copy(p, stopped, ownStack) =>
      && Sessions.Enabled(Sessions.ForkCopy(p, stopped, true), s) && MayFork(v, p)
      && w == v.(session := Sessions.After(Sessions.ForkCopy(p, stopped, true), s),
                 loans := v.loans[|s.processes| := NewLoan(v, p, [], ownStack)])
    case NotStarted(c) =>
      && c in v.loans && v.loans[c].pc == Unstarted && Sessions.Enabled(Sessions.ForkUnstarted(c), s)
      && w == Update(v, c, v.loans[c].(regions := [], wait := Returned, pc := Gone)).(session := Sessions.After(Sessions.ForkUnstarted(c), s))
    case Start(c) => c in v.loans && v.loans[c].pc == Unstarted && w == Update(v, c, v.loans[c].(pc := Running))
    case GiveBack(c, exiting, mine, hostOk) =>
      && c in v.loans && v.loans[c].pc == Running
      && var l := v.loans[c];
      && PutBack(v.memory(l.from), w.memory(l.from), l.regions, if SameProgram(v, l) then |l.regions| else 0, mine, hostOk)
      && OnlyArena(v, w, l.from)
      && w == Update(v, c, l.(regions := [], pc := Restored(exiting))).(memory := w.memory)
    case LetParentGo(c) =>
      && c in v.loans && v.loans[c].pc.Restored? && Sessions.Enabled(Sessions.ReleaseParent(c), s)
      && w == Update(v, c, v.loans[c].(pc := if v.loans[c].pc.exiting then Leaving else Running)).(session := Sessions.After(Sessions.ReleaseParent(c), s))
    case Finish(c) =>
      && c in v.loans && v.loans[c].pc == Leaving && NoneWaiting(v, c) && Sessions.Enabled(Sessions.Finish(c), s)
      && w == Update(v, c, v.loans[c].(pc := Gone)).(session := Sessions.After(Sessions.Finish(c), s))
    case GiveUp(c) =>
      && c in v.loans && v.loans[c].wait == FirstWait && !Released(v, c) && !v.stop
      && Sessions.Enabled(Sessions.TimeOut(v.loans[c].parent), s)
      && w == Update(v, c, v.loans[c].(regions := if s.InTable(v.loans[c].parent) then [] else v.loans[c].regions,
                                       wait := if v.loans[c].ownStack then Returned else SecondWait))
               .(session := Sessions.After(Sessions.TimeOut(v.loans[c].parent), s))
    case Wake(c) =>
      && c in v.loans && v.loans[c].wait != Returned && (Released(v, c) || v.stop)
      && w == Update(v, c, v.loans[c].(wait := Returned))
    case Stop => w == v.(stop := true)
  }

  ghost predicate Run(worlds: seq<World>, steps: seq<Step>) {
    && |worlds| == |steps| + 1
    && Sessions.Initial(worlds[0].session) && worlds[0].loans == map[] && !worlds[0].stop
    && forall i :: 0 <= i < |steps| ==> Does(steps[i], worlds[i], worlds[i + 1])
  }

  // ---- Nothing is put back once the parent runs again ----

  /** The copy is gone once the child has restored or been released, once the wait has been given
      up, and once the parent has returned, unless a stop request let it return. */
  predicate LoanOk(w: World, c: nat, l: Loan) {
    && c < |w.session.processes| && l.parent < |w.session.processes|
    && (Released(w, c) || l.pc.Restored? || l.pc.Leaving? || l.pc.Gone? ==> l.regions == [])
    && (l.wait == SecondWait ==> l.regions == [])
    && (l.wait == Returned && l.regions != [] ==> w.stop)
    && (l.wait != Returned ==> !w.session.processes[l.parent].finished && !w.session.processes[l.parent].reaped)
    && (l.parent in w.loans ==> w.loans[l.parent].pc != Unstarted)
  }

  ghost predicate Orderly(w: World) { forall c :: c in w.loans ==> LoanOk(w, c, w.loans[c]) }

  /** What a step of the table does to the flags of a process already in it. */
  lemma TableFlags(t: Sessions.Step, s: Sessions.Session, q: nat)
    requires Sessions.Enabled(t, s) && q < |s.processes|
    ensures var u := Sessions.After(t, s);
      && q < |u.processes|
      && (u.processes[q].released == s.processes[q].released || t == Sessions.ReleaseParent(q) || t == Sessions.Finish(q))
      && (u.processes[q].finished == s.processes[q].finished || t == Sessions.Finish(q) || t == Sessions.ForkUnstarted(q))
      && (u.processes[q].reaped == s.processes[q].reaped || t == Sessions.Reap(q) || t == Sessions.ForkUnstarted(q))
  {
  }

  lemma NewFlags(t: Sessions.Step, s: Sessions.Session)
    requires Sessions.Enabled(t, s) && (t.ForkCopy? || t.ForkBorrow?) && t.threadOk
    ensures var u := Sessions.After(t, s);
      |u.processes| == |s.processes| + 1 && !u.processes[|s.processes|].released
  {
  }

  /** The table step a step of the world takes. */
  function TableStep(step: Step, v: World): Option<Sessions.Step> {
    match step
    case Table(t) => Some(t)
    case Lend(p, stopped, _, _, _, _, _, _) => Some(Sessions.ForkBorrow(p, stopped, true))
    case Copy(p, stopped, _) => Some(Sessions.ForkCopy(p, stopped, true))
    case NotStarted(c) => Some(Sessions.ForkUnstarted(c))
    case LetParentGo(c) => Some(Sessions.ReleaseParent(c))
    case Finish(c) => Some(Sessions.Finish(c))
    case GiveUp(c) => if c in v.loans then Some(Sessions.TimeOut(v.loans[c].parent)) else None
    case _ => None
  }

  lemma TableMoves(step: Step, v: World, w: World)
    requires Does(step, v, w)
    ensures var t := TableStep(step, v);
      if t.None? then w.session == v.session else Sessions.Enabled(t.value, v.session) && w.session == Sessions.After(t.value, v.session)
  {
  }

  /** The flags of process `q` as far as loans depend on them. */
  lemma FlagsMove(step: Step, v: World, w: World, q: nat)
    requires Does(step, v, w) && q < |v.session.processes|
    ensures q < |w.session.processes|
    ensures Released(w, q) ==> Released(v, q) || step == LetParentGo(q) || step == Finish(q) || step == Table(Sessions.Finish(q))
    ensures var a, b := v.session.processes[q], w.session.processes[q];
      !a.finished && !a.reaped && (b.finished || b.reaped) ==> step == Finish(q) || step == NotStarted(q) || step == Table(Sessions.Finish(q))
  {
    TableMoves(step, v, w);
    var t := TableStep(step, v);
    if t.Some? { TableFlags(t.value, v.session, q); }
  }

  lemma KeptLoanOk(step: Step, v: World, w: World, c: nat)
    requires Orderly(v) && Does(step, v, w) && c in v.loans && c in w.loans && w.loans[c] == v.loans[c]
    ensures LoanOk(w, c, w.loans[c])
  {
    var l := v.loans[c];
    FlagsMove(step, v, w, c);
    FlagsMove(step, v, w, l.parent);
    assert LoanOk(v, c, l);
  }

  lemma NewLoanOk(step: Step, v: World, w: World)
    requires Orderly(v) && Does(step, v, w) && (step.Lend? || step.Copy?)
    ensures var c := |v.session.processes|; c in w.loans && LoanOk(w, c, w.loans[c])
  {
    TableMoves(step, v, w);
    NewFlags(TableStep(step, v).value, v.session);
    FlagsMove(step, v, w, step.parent);
  }

  /** A step that changes the loan of `c`. */
  lemma ChangedLoanOk(step: Step, v: World, w: World, c: nat)
    requires Orderly(v) && Does(step, v, w) && c in v.loans
    requires step == NotStarted(c) || step == Start(c) || (step.GiveBack? && step.child == c) || step == LetParentGo(c) || step == Finish(c)
             || step == GiveUp(c) || step == Wake(c)
    ensures c in w.loans && LoanOk(w, c, w.loans[c])
  {
    var l := v.loans[c];
    assert LoanOk(v, c, l);
    FlagsMove(step, v, w, c);
    FlagsMove(step, v, w, l.parent);
  }

  lemma OrderlyStep(step: Step, v: World, w: World)
    requires Orderly(v) && Does(step, v, w)
    ensures Orderly(w)
  {
    forall c | c in w.loans ensures LoanOk(w, c, w.loans[c]) {
      if (step.Lend? || step.Copy?) && c == |v.session.processes| {
        NewLoanOk(step, v, w);
      } else if step == NotStarted(c) || step == Start(c) || (step.GiveBack? && step.child == c) || step == LetParentGo(c) || step == Finish(c)
                || step == GiveUp(c) || step == Wake(c) {
        ChangedLoanOk(step, v, w, c);
      } else {
        KeptLoanOk(step, v, w, c);
      }
    }
  }

  lemma {:induction false} RunIsOrderly(worlds: seq<World>, steps: seq<Step>, i: nat)
    requires Run(worlds, steps) && i < |worlds|
    ensures Orderly(worlds[i])
    decreases i
  {
    if i > 0 {
      RunIsOrderly(worlds, steps, i - 1);
      OrderlyStep(steps[i - 1], worlds[i - 1], worlds[i - 1 + 1]);
    }
  }

  /** In every run, a restore by a child whose parent has returned from the fork changes no byte
      of any arena, unless the session was asked to stop. */
  lemma NothingRestoredAfterReturn(worlds: seq<World>, steps: seq<Step>, i: nat, x: nat, a: int)
    requires Run(worlds, steps) && i < |steps| && steps[i].GiveBack?
    requires steps[i].child in worlds[i].loans && worlds[i].loans[steps[i].child].wait == Returned && !worlds[i].stop
    ensures worlds[i + 1].memory(x).bytes(a) == worlds[i].memory(x).bytes(a)
  {
    RunIsOrderly(worlds, steps, i);
    assert Does(steps[i], worlds[i], worlds[i + 1]);
    var c := steps[i].child;
    assert LoanOk(worlds[i], c, worlds[i].loans[c]);
  }

  /** Once a child has let its parent go, it puts nothing back, a stop request or not. */
  lemma NothingRestoredAfterRelease(worlds: seq<World>, steps: seq<Step>, i: nat, x: nat, a: int)
    requires Run(worlds, steps) && i < |steps| && steps[i].GiveBack? && Released(worlds[i], steps[i].child)
    ensures worlds[i + 1].memory(x).bytes(a) == worlds[i].memory(x).bytes(a)
  {
    RunIsOrderly(worlds, steps, i);
    assert Does(steps[i], worlds[i], worlds[i + 1]);
    var c := steps[i].child;
    assert LoanOk(worlds[i], c, worlds[i].loans[c]);
  }

  // ---- A parent let go can return ----

  lemma ReleaseStays(t: Sessions.Step, s: Sessions.Session, q: nat)
    requires Sessions.Enabled(t, s) && q < |s.processes|
    ensures q < |Sessions.After(t, s).processes|
    ensures s.processes[q].released || t == Sessions.ReleaseParent(q) || t == Sessions.Finish(q) ==> Sessions.After(t, s).processes[q].released
  {
  }

  lemma ReleasedStep(step: Step, v: World, w: World, c: nat)
    requires Does(step, v, w) && c < |v.session.processes|
    ensures c < |w.session.processes|
    ensures Released(v, c) || step == LetParentGo(c) || step == Finish(c) ==> Released(w, c)
  {
    TableMoves(step, v, w);
    var t := TableStep(step, v);
    if t.Some? { ReleaseStays(t.value, v.session, c); }
  }

  ghost predicate KeepsReleased(v: World, w: World, c: nat) { Released(v, c) ==> Released(w, c) }

  lemma {:induction false} JoinReleased(worlds: seq<World>, c: nat, i: nat, j: nat)
    requires i <= j < |worlds| && forall k :: i <= k < j ==> KeepsReleased(worlds[k], worlds[k + 1], c)
    ensures KeepsReleased(worlds[i], worlds[j], c)
    decreases j - i
  {
    if i < j {
      JoinReleased(worlds, c, i, j - 1);
      assert KeepsReleased(worlds[j - 1], worlds[j - 1 + 1], c);
    }
  }

  lemma ReleasedKept(worlds: seq<World>, steps: seq<Step>, i: nat, j: nat, c: nat)
    requires Run(worlds, steps) && i <= j < |worlds|
    ensures KeepsReleased(worlds[i], worlds[j], c)
  {
    forall k | i <= k < j ensures KeepsReleased(worlds[k], worlds[k + 1], c) {
      if Released(worlds[k], c) { ReleasedStep(steps[k], worlds[k], worlds[k + 1], c); }
    }
    JoinReleased(worlds, c, i, j);
  }

  /** Once a child has let its parent go, or ended, a fork still waiting for it can return at any
      time from then on. */
  lemma LetGoCanReturn(worlds: seq<World>, steps: seq<Step>, i: nat, j: nat, c: nat)
    requires Run(worlds, steps) && i < j < |worlds| && (steps[i] == LetParentGo(c) || steps[i] == Finish(c))
    ensures c in worlds[j].loans
    ensures var l := worlds[j].loans[c];
      l.wait != Returned ==> Does(Wake(c), worlds[j], Update(worlds[j], c, l.(wait := Returned)))
  {
    RunIsOrderly(worlds, steps, i);
    assert Does(steps[i], worlds[i], worlds[i + 1]);
    assert LoanOk(worlds[i], c, worlds[i].loans[c]);
    ReleasedStep(steps[i], worlds[i], worlds[i + 1], c);
    ReleasedKept(worlds, steps, i + 1, j, c);
    TermsKept(worlds, steps, c, i, j);
  }

  // ---- What is put back before that ----

  /** Where the last of the regions ends. */
  function RegionsEnd(regions: seq<Region>): (e: nat)
    ensures forall i :: 0 <= i < |regions| ==> regions[i].End() <= e
  {
    if regions == [] then 0
    else
      var n := |regions| - 1;
      var e := RegionsEnd(regions[..n]);
      if e < regions[n].End() then regions[n].End() else e
  }

  /** What a step does to arena `x`, as an operation on it. */
  function ArenaOp(step: Step, v: World, x: nat): Op {
    match step
    case Guest(y, op) => if y == x then op else Write(0, 0)
    case GiveBack(c, _, _, _) =>
      if c in v.loans && v.loans[c].from == x then Write(0, RegionsEnd(v.loans[c].regions)) else Write(0, 0)
    case _ => Write(0, 0)
  }

  lemma ArenaStep(step: Step, v: World, w: World, x: nat)
    requires Does(step, v, w) && 0 < v.memory(x).page
    ensures SpaceRuns.Does(ArenaOp(step, v, x), v.memory(x), w.memory(x))
  {
    match step
    case Guest(y, op) => if y != x { assert w.memory(x) == v.memory(x); }
    case GiveBack(c, _, mine, hostOk) =>
      var l := v.loans[c];
      if l.from == x {
        PutBackWrites(v.memory(x), w.memory(x), l.regions, if SameProgram(v, l) then |l.regions| else 0, mine, hostOk);
      } else {
        assert w.memory(x) == v.memory(x);
      }
    case _ => assert w.memory(x) == v.memory(x);
  }

  lemma PutBackWrites(s: Space, t: Space, regions: seq<Region>, k: nat, mine: seq<Extent>, hostOk: Region -> bool)
    requires k <= |regions| && PutBack(s, t, regions, k, mine, hostOk)
    ensures WritesWithin(s, t, 0, RegionsEnd(regions))
  {
    forall a | !(0 <= a < RegionsEnd(regions)) ensures t.bytes(a) == s.bytes(a) {
      assert forall i :: 0 <= i < k ==> !regions[i].Has(a);
    }
  }

  lemma {:induction false} ArenaValid(worlds: seq<World>, steps: seq<Step>, x: nat, n: nat)
    requires Run(worlds, steps) && n < |worlds| && Valid(worlds[0].memory(x))
    ensures Valid(worlds[n].memory(x))
    decreases n
  {
    if n > 0 {
      var k := n - 1;
      ArenaValid(worlds, steps, x, k);
      ArenaStep(steps[k], worlds[k], worlds[k + 1], x);
      StepKeepsValid(ArenaOp(steps[k], worlds[k], x), worlds[k].memory(x), worlds[k + 1].memory(x));
    }
  }

  ghost predicate Moves(op: Op, s: Space, t: Space) { Valid(s) && SpaceRuns.Does(op, s, t) }

  /** What a step of a run of the session does to one arena is a step of a run of the arena. */
  lemma ArenaMove(worlds: seq<World>, steps: seq<Step>, x: nat, k: nat)
    requires Run(worlds, steps) && k < |steps| && Valid(worlds[0].memory(x))
    ensures Moves(ArenaOp(steps[k], worlds[k], x), worlds[k].memory(x), worlds[k + 1].memory(x))
  {
    ArenaValid(worlds, steps, x, k);
    ArenaStep(steps[k], worlds[k], worlds[k + 1], x);
  }

  lemma JoinMoves(states: seq<Space>, ops: seq<Op>)
    requires |states| == |ops| + 1 && Valid(states[0])
    requires forall k :: 0 <= k < |ops| ==> Moves(ops[k], states[k], states[k + 1])
    ensures SpaceRuns.Run(states, ops)
  {
    forall k | 0 <= k < |ops| ensures 0 < states[k].page && SpaceRuns.Does(ops[k], states[k], states[k + 1]) {
      assert Moves(ops[k], states[k], states[k + 1]);
    }
  }

  /** One arena's part in a run of the session is a run of its own. */
  lemma ArenaRun(worlds: seq<World>, steps: seq<Step>, x: nat) returns (states: seq<Space>, ops: seq<Op>)
    requires Run(worlds, steps) && Valid(worlds[0].memory(x))
    ensures SpaceRuns.Run(states, ops) && |states| == |worlds| && forall i :: 0 <= i < |worlds| ==> states[i] == worlds[i].memory(x)
  {
    states := seq(|worlds|, i requires 0 <= i < |worlds| => worlds[i].memory(x));
    ops := seq(|steps|, i requires 0 <= i < |steps| => ArenaOp(steps[i], worlds[i], x));
    forall k | 0 <= k < |ops| ensures Moves(ops[k], states[k], states[k + 1]) {
      ArenaMove(worlds, steps, x, k);
    }
    JoinMoves(states, ops);
  }

  /** A loan keeps its terms; its copies are kept or dropped all at once. */
  predicate SameTerms(l: Loan, m: Loan) {
    m.parent == l.parent && m.from == l.from && m.generation == l.generation && (m.regions == l.regions || m.regions == [])
  }

  ghost predicate KeepsTerms(v: World, w: World, c: nat) {
    c in v.loans ==> c in w.loans && SameTerms(v.loans[c], w.loans[c])
  }

  lemma TermsStep(step: Step, v: World, w: World, c: nat)
    requires Orderly(v) && Does(step, v, w)
    ensures KeepsTerms(v, w, c)
  {
    if c in v.loans { assert LoanOk(v, c, v.loans[c]); }
  }

  lemma {:induction false} JoinTerms(worlds: seq<World>, c: nat, i: nat, j: nat)
    requires i <= j < |worlds| && forall k :: i <= k < j ==> KeepsTerms(worlds[k], worlds[k + 1], c)
    ensures KeepsTerms(worlds[i], worlds[j], c)
    decreases j - i
  {
    if i < j {
      JoinTerms(worlds, c, i, j - 1);
      assert KeepsTerms(worlds[j - 1], worlds[j - 1 + 1], c);
    }
  }

  lemma TermsKept(worlds: seq<World>, steps: seq<Step>, c: nat, i: nat, j: nat)
    requires Run(worlds, steps) && i <= j < |worlds|
    ensures KeepsTerms(worlds[i], worlds[j], c)
  {
    forall k | i <= k < j ensures KeepsTerms(worlds[k], worlds[k + 1], c) {
      RunIsOrderly(worlds, steps, k);
      TermsStep(steps[k], worlds[k], worlds[k + 1], c);
    }
    JoinTerms(worlds, c, i, j);
  }

  /** The step lends memory of arena `x` to the new process `c`. */
  predicate Lends(step: Step, w: World, x: nat, c: nat) {
    && step.Lend? && step.parent < |w.session.processes| && c == |w.session.processes|
    && (w.session.processes[step.parent].space == Some(x) || (w.session.processes[step.parent].space.None? && x == w.session.own))
  }

  /** What the child holds when it gives back: what it was lent, or nothing. */
  lemma LentAndBack(worlds: seq<World>, steps: seq<Step>, i: nat, j: nat, x: nat, c: nat)
    requires Run(worlds, steps) && i < j < |steps| && Lends(steps[i], worlds[i], x, c) && steps[j].GiveBack? && steps[j].child == c
    ensures c in worlds[j].loans
    ensures var l := worlds[j].loans[c];
      && l.from == x && (l.regions == steps[i].regions || l.regions == [])
      && PutBack(worlds[j].memory(x), worlds[j + 1].memory(x), l.regions, if SameProgram(worlds[j], l) then |l.regions| else 0,
                 steps[j].mine, steps[j].hostOk)
      && OnlyArena(worlds[j], worlds[j + 1], x)
  {
    assert Does(steps[i], worlds[i], worlds[i + 1]);
    TermsKept(worlds, steps, c, i + 1, j);
    assert Does(steps[j], worlds[j], worlds[j + 1]);
  }

  lemma LentIsTaken(worlds: seq<World>, steps: seq<Step>, i: nat, x: nat, c: nat)
    requires Run(worlds, steps) && i < |steps| && Lends(steps[i], worlds[i], x, c)
    ensures TakenAt(worlds[i].memory(x), steps[i].held, steps[i].regions)
  {
    assert Does(steps[i], worlds[i], worlds[i + 1]);
    HeldIsTaken(worlds[i].memory(x), steps[i].owned, steps[i].w, steps[i].shared, steps[i].held, steps[i].regions);
  }

  /** The byte of arena `x` at `a` was held by one mapping from state `i` to state `j`. */
  ghost predicate HeldBetween(worlds: seq<World>, x: nat, a: int, epoch: nat, i: nat, j: nat)
    requires j < |worlds|
  {
    forall m :: i <= m <= j ==> HasEpoch(worlds[m].memory(x), a, epoch)
  }

  /** A child borrows at step `i` and gives back at step `j`, whatever it, its parent and everybody
      else does in between. A byte of a region that may go back, of a copy not given up, has its
      value from the fork and was held by one mapping throughout; any other borrowed byte is left
      alone. */
  lemma LoanRoundTrip(worlds: seq<World>, steps: seq<Step>, i: nat, j: nat, x: nat, c: nat, k: nat, a: int)
    requires Run(worlds, steps) && i < j < |steps| && Lends(steps[i], worlds[i], x, c) && steps[j].GiveBack? && steps[j].child == c
    requires Valid(worlds[0].memory(x)) && k < |steps[i].regions| && steps[i].regions[k].Has(a)
    ensures c in worlds[j].loans
    ensures var l, r := worlds[j].loans[c], steps[i].regions[k];
      if l.regions != [] && SameProgram(worlds[j], l) && Eligible(worlds[j].memory(x), r, steps[j].mine, steps[j].hostOk)
      then worlds[j + 1].memory(x).bytes(a) == worlds[i].memory(x).bytes(a) && HeldBetween(worlds, x, a, r.epoch, i, j)
      else worlds[j + 1].memory(x).bytes(a) == worlds[j].memory(x).bytes(a)
  {
    LentAndBack(worlds, steps, i, j, x, c);
    LentIsTaken(worlds, steps, i, x, c);
    var l := worlds[j].loans[c];
    if l.regions != [] {
      var states, ops := ArenaRun(worlds, steps, x);
      ForkRoundTrip(states, ops, i, j, worlds[j + 1].memory(x), steps[i].held, steps[i].regions, steps[j].mine,
                    SameProgram(worlds[j], l), steps[j].hostOk, k, a);
    }
  }

  /** A give-back touches no byte but those borrowed from arena `x`. */
  lemma GivesBackOnlyBorrowed(worlds: seq<World>, steps: seq<Step>, i: nat, j: nat, x: nat, c: nat, y: nat, a: int)
    requires Run(worlds, steps) && i < j < |steps| && Lends(steps[i], worlds[i], x, c) && steps[j].GiveBack? && steps[j].child == c
    requires y == x ==> forall k :: 0 <= k < |steps[i].regions| ==> !steps[i].regions[k].Has(a)
    ensures worlds[j + 1].memory(y).bytes(a) == worlds[j].memory(y).bytes(a)
  {
    LentAndBack(worlds, steps, i, j, x, c);
  }

  // ---- A parent that has become another program ----

  /** The step takes process `p` from one program to the next. */
  predicate Execs(step: Step, p: nat) { step == Table(Sessions.ExecLeave(p)) }

  ghost predicate Counted(step: Step, v: World, w: World, p: nat) {
    w.generation(p) == v.generation(p) + if Execs(step, p) then 1 else 0
  }

  lemma GenerationStep(step: Step, v: World, w: World, p: nat)
    requires Does(step, v, w)
    ensures Counted(step, v, w, p)
  {
  }

  lemma {:induction false} JoinCounted(worlds: seq<World>, steps: seq<Step>, p: nat, i: nat, j: nat)
    requires i <= j < |worlds| == |steps| + 1
    requires forall k :: i <= k < j ==> Counted(steps[k], worlds[k], worlds[k + 1], p)
    ensures worlds[i].generation(p) <= worlds[j].generation(p)
    ensures worlds[i].generation(p) == worlds[j].generation(p) <==> forall m :: i <= m < j ==> !Execs(steps[m], p)
    decreases j - i
  {
    if i < j {
      JoinCounted(worlds, steps, p, i, j - 1);
      assert Counted(steps[j - 1], worlds[j - 1], worlds[j - 1 + 1], p);
    }
  }

  /** A process has the generation it had before exactly when it has not exec'd since. */
  lemma GenerationIff(worlds: seq<World>, steps: seq<Step>, p: nat, i: nat, j: nat)
    requires Run(worlds, steps) && i <= j < |worlds|
    ensures worlds[i].generation(p) <= worlds[j].generation(p)
    ensures worlds[i].generation(p) == worlds[j].generation(p) <==> forall m :: i <= m < j ==> !Execs(steps[m], p)
  {
    forall k | i <= k < j ensures Counted(steps[k], worlds[k], worlds[k + 1], p) {
      GenerationStep(steps[k], worlds[k], worlds[k + 1], p);
    }
    JoinCounted(worlds, steps, p, i, j);
  }

  /** What was lent may go back exactly while the parent has not exec'd since, or is no longer in
      the table. */
  lemma SameProgramIff(worlds: seq<World>, steps: seq<Step>, i: nat, j: nat, x: nat, c: nat)
    requires Run(worlds, steps) && i < j < |worlds| && Lends(steps[i], worlds[i], x, c)
    ensures c in worlds[j].loans
    ensures SameProgram(worlds[j], worlds[j].loans[c]) <==>
      !worlds[j].session.InTable(steps[i].parent) || forall m :: i < m < j ==> !Execs(steps[m], steps[i].parent)
  {
    assert Does(steps[i], worlds[i], worlds[i + 1]);
    TermsKept(worlds, steps, c, i + 1, j);
    GenerationIff(worlds, steps, steps[i].parent, i, j);
  }

  /** After an exec by the parent nothing a child was lent before goes back, into any arena. */
  lemma NothingRestoredAfterExec(worlds: seq<World>, steps: seq<Step>, i: nat, m: nat, j: nat, x: nat, c: nat, y: nat, a: int)
    requires Run(worlds, steps) && i < m < j < |steps| && Lends(steps[i], worlds[i], x, c)
    requires Execs(steps[m], steps[i].parent) && worlds[j].session.InTable(steps[i].parent)
    requires steps[j].GiveBack? && steps[j].child == c
    ensures worlds[j + 1].memory(y).bytes(a) == worlds[j].memory(y).bytes(a)
  {
    SameProgramIff(worlds, steps, i, j, x, c);
    LentAndBack(worlds, steps, i, j, x, c);
  }
}
