/** An address space and the compiled code made from it, running together: what the address
    space does to its epochs is what invalidation is told of. */
module CodeMemory {
  import opened Spans
  import opened SpaceSpec
  import opened SpaceRuns
  import I = Invalidation

  function EpochOf(s: Space, a: int): int { if s.Cell(a).Some? then s.Cell(a).value.epoch else 0 }

  /** The compiler sees the epochs of the address space. */
  ghost predicate Mirrors(c: I.Code, s: Space) {
    c.nextEpoch == s.nextEpoch && forall a :: c.epochs(a) == EpochOf(s, a)
  }

  /** The operation takes committed memory off the list. */
  ghost predicate Loses(op: Op, s: Space) {
    (op.Release? || op.AdoptOutside?) && !Clear(s.committed, op.lo, op.hi)
  }

  /** The step of the compiler's side that goes with an operation of the address space: a release
      of committed memory is announced, under `id`, and nothing else is. */
  ghost function Step(op: Op, s: Space, t: Space, id: nat): I.Step {
    if op.Release? && Loses(op, s) then I.ReleaseMemory(op.lo, op.hi, id)
    else I.CommitMemory((a: int) => EpochOf(t, a), t.nextEpoch)
  }

  /** An operation that loses nothing only adds epochs. */
  lemma AddsEpochs(op: Op, s: Space, t: Space, a: int)
    requires Valid(s) && Does(op, s, t) && !Loses(op, s)
    ensures EpochOf(t, a) == EpochOf(s, a) || (EpochOf(s, a) == 0 && s.nextEpoch <= EpochOf(t, a) < t.nextEpoch)
  {
    StepKeepsValid(op, s, t);
    StepEpochs(op, s, t);
    if s.Cell(a).Some? && !HasEpoch(t, a, s.Cell(a).value.epoch) {
      EpochLoss(op, s, t, a);
    }
  }

  /** Every operation that overwrites no recorded memory is a step of the compiler's side. */
  lemma MemoryStep(op: Op, s: Space, t: Space, id: nat, x: I.State)
    requires Valid(s) && Does(op, s, t) && Mirrors(x.code, s) && (op.AdoptOutside? ==> !Loses(op, s))
    requires op.Release? ==> I.Ticket(id, op.lo, op.hi) !in x.ledger.issued
    ensures I.Enabled(Step(op, s, t, id), x) && Mirrors(I.After(Step(op, s, t, id), x).code, t)
  {
    if !Loses(op, s) {
      StepEpochs(op, s, t);
      forall a ensures EpochOf(t, a) == EpochOf(s, a) || (EpochOf(s, a) == 0 && s.nextEpoch <= EpochOf(t, a) < t.nextEpoch) {
        AddsEpochs(op, s, t, a);
      }
    }
  }

  // ---- Both together ----

  datatype Joint = Memory(op: Op, id: nat) | Code(step: I.Step)

  /** A step of either side; the other goes along. */
  ghost predicate Goes(j: Joint, s: Space, x: I.State, t: Space, y: I.State)
    requires 0 < s.page
  {
    match j
    case Memory(op, id) =>
      && Does(op, s, t) && I.Enabled(Step(op, s, t, id), x) && y == I.After(Step(op, s, t, id), x)
      && (op.AdoptOutside? ==> !Loses(op, s))
    case Code(step) => !step.CommitMemory? && !step.ReleaseMemory? && I.Enabled(step, x) && y == I.After(step, x) && t == s
  }

  ghost function CodeStep(j: Joint, s: Space, t: Space): I.Step {
    match j
    case Memory(op, id) => Step(op, s, t, id)
    case Code(step) => step
  }

  /** A run of both sides: the address space does anything its operations allow, short of adopting
      a mapping over recorded memory, and threads, sweeps and forks anything theirs allow. */
  ghost predicate JointRun(spaces: seq<Space>, states: seq<I.State>, joint: seq<Joint>) {
    && |spaces| == |states| == |joint| + 1
    && Valid(spaces[0]) && I.Initial(states[0]) && Mirrors(states[0].code, spaces[0])
    && forall i :: 0 <= i < |joint| ==> 0 < spaces[i].page && Goes(joint[i], spaces[i], states[i], spaces[i + 1], states[i + 1])
  }

  /** The first `n` steps of the run: each sweep that starts reaches what its range covers. */
  ghost predicate SweepsReach(states: seq<I.State>, joint: seq<Joint>, n: nat)
    requires |states| == |joint| + 1 && n <= |joint|
  {
    forall i :: 0 <= i < n && joint[i].Code? && joint[i].step.BeginSweep? ==> I.Reaches(states[i], joint[i].step.k)
  }

  lemma JointStep(j: Joint, s: Space, x: I.State, t: Space, y: I.State)
    requires Valid(s) && Mirrors(x.code, s) && Goes(j, s, x, t, y)
    ensures Valid(t) && Mirrors(y.code, t)
    ensures I.Enabled(CodeStep(j, s, t), x) && y == I.After(CodeStep(j, s, t), x)
  {
    if j.Memory? { StepKeepsValid(j.op, s, t); }
  }

  lemma {:induction false} JointMirrors(spaces: seq<Space>, states: seq<I.State>, joint: seq<Joint>, i: nat)
    requires JointRun(spaces, states, joint) && i < |spaces|
    ensures Valid(spaces[i]) && Mirrors(states[i].code, spaces[i])
    decreases i
  {
    if i > 0 {
      JointMirrors(spaces, states, joint, i - 1);
      JointStep(joint[i - 1], spaces[i - 1], states[i - 1], spaces[i - 1 + 1], states[i - 1 + 1]);
    }
  }

  /** The compiler's side of a joint run is a run of its own. */
  lemma CodeRun(spaces: seq<Space>, states: seq<I.State>, joint: seq<Joint>) returns (steps: seq<I.Step>)
    requires JointRun(spaces, states, joint)
    ensures I.Run(states, steps) && forall i :: 0 <= i < |steps| ==> steps[i] == CodeStep(joint[i], spaces[i], spaces[i + 1])
  {
    steps := seq(|joint|, i requires 0 <= i < |joint| => CodeStep(joint[i], spaces[i], spaces[i + 1]));
    forall i | 0 <= i < |steps| ensures I.Enabled(steps[i], states[i]) && states[i + 1] == I.After(steps[i], states[i]) {
      JointMirrors(spaces, states, joint, i);
      JointStep(joint[i], spaces[i], states[i], spaces[i + 1], states[i + 1]);
    }
  }

  /** Where nothing has been forgotten, a compiled byte still belongs to the mapping it was compiled
      from, or lies in a range still to be swept out of its context. */
  lemma RememberedIsCurrent(s: Space, x: I.State, b: I.Block, a: int)
    requires Mirrors(x.code, s) && I.NothingForgotten(x) && b in x.code.All() && a in b.epochs
    ensures HasEpoch(s, a, b.epochs[a]) || I.Covered(x.ledger, b.ctx, a)
  {
    assert x.code.epochs(a) == EpochOf(s, a);
  }

  /** No joint run whose sweeps reach what they cover forgets anything. */
  lemma ReachingRunRemembers(spaces: seq<Space>, states: seq<I.State>, joint: seq<Joint>, i: nat)
    requires JointRun(spaces, states, joint) && i < |spaces| && SweepsReach(states, joint, i)
    ensures I.NothingForgotten(states[i]) && I.Sound(states[i])
  {
    var steps := CodeRun(spaces, states, joint);
    forall j | 0 <= j < i && steps[j].BeginSweep? ensures I.Reaches(states[j], steps[j].k) {
      assert steps[j] == CodeStep(joint[j], spaces[j], spaces[j + 1]);
      assert joint[j].Code?;
    }
    I.RunForgetsNothing(states, steps, i);
    I.RunIsSound(states, steps, i);
  }

  /** In every joint run whose sweeps reach what they cover. */
  lemma CodeIsCurrent(spaces: seq<Space>, states: seq<I.State>, joint: seq<Joint>, i: nat, b: I.Block, a: int)
    requires JointRun(spaces, states, joint) && i < |spaces| && SweepsReach(states, joint, i)
    requires b in states[i].code.All() && a in b.epochs
    ensures HasEpoch(spaces[i], a, b.epochs[a]) || I.Covered(states[i].ledger, b.ctx, a)
  {
    ReachingRunRemembers(spaces, states, joint, i);
    JointMirrors(spaces, states, joint, i);
    RememberedIsCurrent(spaces[i], states[i], b, a);
  }

  /** In particular in every joint run that ends no last thread of a context with code. */
  lemma LastThreadsKeepCurrent(spaces: seq<Space>, states: seq<I.State>, joint: seq<Joint>, i: nat, b: I.Block, a: int)
    requires JointRun(spaces, states, joint) && i < |spaces| && b in states[i].code.All() && a in b.epochs
    requires forall j :: 0 <= j < i && joint[j].Code? ==> I.KeepsLast(joint[j].step, states[j])
    ensures HasEpoch(spaces[i], a, b.epochs[a]) || I.Covered(states[i].ledger, b.ctx, a)
  {
    var steps := CodeRun(spaces, states, joint);
    forall j | 0 <= j < i ensures I.KeepsLast(steps[j], states[j]) {
      assert steps[j] == CodeStep(joint[j], spaces[j], spaces[j + 1]);
      if joint[j].Code? { assert I.KeepsLast(joint[j].step, states[j]); }
    }
    I.LastThreadsForgetNothing(states, steps, i);
    JointMirrors(spaces, states, joint, i);
    RememberedIsCurrent(spaces[i], states[i], b, a);
  }

  /** Once every range has been dealt with, all compiled code is of what is mapped now. */
  lemma QuietCodeIsCurrent(spaces: seq<Space>, states: seq<I.State>, joint: seq<Joint>, i: nat, b: I.Block, a: int)
    requires JointRun(spaces, states, joint) && i < |spaces| && SweepsReach(states, joint, i) && I.Quiet(states[i].ledger)
    requires b in states[i].code.All() && a in b.epochs
    ensures HasEpoch(spaces[i], a, b.epochs[a])
  {
    CodeIsCurrent(spaces, states, joint, i, b, a);
    forall k: I.Ticket ensures !I.Awaits(states[i].ledger, k, b.ctx) {}
  }

  /** And a sweep that starts without reaching what its range covers leaves a stale byte that no
      range covers: the condition is exact. */
  lemma UnreachedIsForgotten(spaces: seq<Space>, states: seq<I.State>, joint: seq<Joint>, i: nat)
      returns (b: I.Block, a: int)
    requires JointRun(spaces, states, joint) && i < |joint| && SweepsReach(states, joint, i)
    requires joint[i].Code? && joint[i].step.BeginSweep? && !I.Reaches(states[i], joint[i].step.k)
    ensures b in states[i + 1].code.All() && a in b.epochs
    ensures !HasEpoch(spaces[i + 1], a, b.epochs[a]) && !I.Covered(states[i + 1].ledger, b.ctx, a)
  {
    ReachingRunRemembers(spaces, states, joint, i);
    assert Goes(joint[i], spaces[i], states[i], spaces[i + 1], states[i + 1]);
    I.SweepForgetsIff(states[i], joint[i].step.k);
    JointMirrors(spaces, states, joint, i + 1);
    b, a := ForgottenByte(states[i], joint[i].step.k, states[i + 1]);
    assert states[i + 1].code.epochs(a) == EpochOf(spaces[i + 1], a);
  }

  /** What a sweep that forgets something forgets. */
  lemma ForgottenByte(x: I.State, k: I.Ticket, y: I.State) returns (b: I.Block, a: int)
    requires I.Enabled(I.BeginSweep(k), x) && y == I.After(I.BeginSweep(k), x) && I.NothingForgotten(x) && !I.NothingForgotten(y)
    ensures b in y.code.All() && I.StaleAt(y.code, b, a) && !I.Covered(y.ledger, b.ctx, a) && 0 < b.epochs[a]
  {
    assert y.code == x.code;
    b, a :| b in y.code.All() && I.StaleAt(y.code, b, a) && !I.Covered(y.ledger, b.ctx, a);
  }
}
