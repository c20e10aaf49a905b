/** Throwing away compiled code that is no longer the code it was compiled from: any number of
    guest threads submit ranges, hold and release sweeps, compile, start and end, interleaved
    at every point where they can be. */
module Invalidation {

  /** One submitted range of host addresses. */
  datatype Ticket = Ticket(id: nat, lo: int, hi: int) {
    predicate Has(a: int) { lo <= a < hi }
  }

  /** Where a call of InvalidateCompiledCode stands. */
  datatype Pc =
    | Submitted                                  // about to look at the hold count
    | SawHold                                    // saw it positive; waiting for the deferral lock
    | Deferring                                  // has the lock, saw it positive again
    | Clear                                      // saw it zero; about to copy the thread list
    | Sweeping(copy: set<nat>, left: set<nat>)   // the copied threads, the contexts still to sweep

  /** Compiled code of one context, with the epoch each byte had when it was compiled. */
  datatype Block = Block(ctx: nat, epochs: map<int, nat>)

  /** A context's guest addresses: base 0 means one to one with the host, anything else a
      window of its own. */
  datatype Window = Window(base: nat, span: nat) {
    predicate Misses(lo: int, hi: int) { base != 0 && (hi <= base || base + span <= lo) }
    predicate Has(a: int) { base == 0 || base <= a < base + span }
  }

  /** Guest memory as the compiler sees it, and what has been compiled from it. */
  datatype Code = Code(
    epochs: int -> int,               // the epoch of each committed byte, 0 where none
    nextEpoch: int,
    window: nat -> Window,            // per context
    blocks: set<Block>,               // compiled code in the contexts' buffers
    compiling: map<nat, Block>)       // by thread: holding its context's lock shared
  {
    function All(): set<Block> { blocks + compiling.Values }
  }

  /** Guest threads. */
  datatype Threads = Threads(
    live: map<nat, nat>,              // the list: threads and their contexts
    leaving: set<nat>,                // off the list, waiting for running sweeps
    cleared: set<nat>,                // saw no sweep running
    destroyed: set<nat>,
    sweeps: nat)                      // how many sweeps are using a copy of the list

  /** Submitted ranges and where they are. */
  datatype Ledger = Ledger(
    issued: set<Ticket>,
    tasks: map<Ticket, Pc>,           // calls in progress
    deferred: set<Ticket>,
    lock: set<Ticket>,                // the call holding the deferral lock
    swapping: set<nat>,               // releasers past the decrement, before the swap
    pending: map<nat, set<Ticket>>,   // what a releaser swapped out, before it queues it
    queue: set<Ticket>,
    batch: set<Ticket>,               // what the background thread took
    done: set<Ticket>,
    holds: int,                       // how many processes have threads suspended
    frozen: set<nat>)                 // which

  datatype State = State(code: Code, threads: Threads, ledger: Ledger)

  datatype Step =
    | CommitMemory(epochs: int -> int, next: int)
    | ReleaseMemory(lo: int, hi: int, id: nat)
    | Submit(k: Ticket)
    | SubmitLater(k: Ticket)
    | LookAtHold(k: Ticket)
    | LockAndLook(k: Ticket)
    | Defer(k: Ticket)
    | BeginSweep(k: Ticket)
    | SweepContext(k: Ticket, ctx: nat)
    | EndSweep(k: Ticket)
    | Freeze(pid: nat)
    | Thaw(pid: nat, releaser: nat)
    | Swap(releaser: nat)
    | Enqueue(releaser: nat)
    | TakeBatch
    | RunFromBatch(k: Ticket)
    | StartCompile(thread: nat, block: Block)
    | EndCompile(thread: nat)
    | Register(thread: nat, ctx: nat)
    | Forget(thread: nat)
    | SeeNoSweeps(thread: nat)
    | Destroy(thread: nat)

  function EpochsAfter(c: Code, lo: int, hi: int, e: int): int -> int {
    (a: int) => if lo <= a < hi then e else c.epochs(a)
  }

  /** Only memory that was not committed gets an epoch, and a new one. */
  ghost predicate Grows(c: Code, epochs: int -> int, next: int) {
    c.nextEpoch <= next && forall a :: epochs(a) == c.epochs(a) || (c.epochs(a) == 0 && c.nextEpoch <= epochs(a) < next)
  }

  /** The contexts a sweep of `k` has to visit. */
  function ToSweep(s: State, k: Ticket): set<nat> {
    var live := s.threads.live;
    set t | t in live && !s.code.window(live[t]).Misses(k.lo, k.hi) :: live[t]
  }

  ghost predicate Overlaps(b: Block, k: Ticket) {
    exists a :: a in b.epochs && k.Has(a)
  }

  predicate At(l: Ledger, k: Ticket, pc: Pc) { k in l.tasks && l.tasks[k] == pc }

  predicate Sweeps(l: Ledger, k: Ticket) { k in l.tasks && l.tasks[k].Sweeping? }

  ghost predicate Enabled(step: Step, s: State) {
    var c, h, l := s.code, s.threads, s.ledger;
    match step
    case CommitMemory(epochs, next) => Grows(c, epochs, next)
    case ReleaseMemory(lo, hi, id) => lo < hi && Ticket(id, lo, hi) !in l.issued
    case Submit(k) => k.lo < k.hi && k !in l.issued
    case SubmitLater(k) => k.lo < k.hi && k !in l.issued
    case LookAtHold(k) => At(l, k, Submitted)
    case LockAndLook(k) => At(l, k, SawHold) && l.lock == {}
    case Defer(k) => At(l, k, Deferring)
    case BeginSweep(k) => At(l, k, Clear)
    case SweepContext(k, ctx) =>
      && Sweeps(l, k) && ctx in l.tasks[k].left
      && forall t :: t in c.compiling ==> c.compiling[t].ctx != ctx
    case EndSweep(k) => Sweeps(l, k) && l.tasks[k].left == {}
    case Freeze(pid) => pid !in l.frozen
    case Thaw(pid, r) => pid in l.frozen && r !in l.swapping && r !in l.pending
    case Swap(r) => r in l.swapping && l.lock == {}
    case Enqueue(r) => r in l.pending
    case TakeBatch => l.batch == {}
    case RunFromBatch(k) => k in l.batch
    case StartCompile(t, b) =>
      && t in h.live && h.live[t] == b.ctx && t !in c.compiling
      && forall a :: a in b.epochs ==> c.epochs(a) != 0 && b.epochs[a] == c.epochs(a) && c.window(b.ctx).Has(a)
    case EndCompile(t) => t in c.compiling
    case Register(t, ctx) => t !in h.live && t !in h.leaving && t !in h.cleared && t !in h.destroyed
    case Forget(t) => t in h.live && t !in c.compiling
    case SeeNoSweeps(t) => t in h.leaving && h.sweeps == 0
    case Destroy(t) => t in h.cleared
  }

  ghost function CodeAfter(step: Step, s: State): Code
    requires Enabled(step, s)
  {
    var c := s.code;
    match step
    case CommitMemory(epochs, next) => c.(epochs := epochs, nextEpoch := next)
    case ReleaseMemory(lo, hi, id) => c.(epochs := EpochsAfter(c, lo, hi, 0))
    case SweepContext(k, ctx) => c.(blocks := set b | b in c.blocks && !(b.ctx == ctx && Overlaps(b, k)))
    case StartCompile(t, b) => c.(compiling := c.compiling[t := b])
    case EndCompile(t) => c.(compiling := c.compiling - {t}, blocks := c.blocks + {c.compiling[t]})
    case _ => c
  }

  ghost function ThreadsAfter(step: Step, s: State): Threads
    requires Enabled(step, s)
  {
    var h := s.threads;
    match step
    case BeginSweep(k) => h.(sweeps := h.sweeps + 1)
    case EndSweep(k) => h.(sweeps := if h.sweeps > 0 then h.sweeps - 1 else 0)
    case Register(t, ctx) => h.(live := h.live[t := ctx])
    case Forget(t) => h.(live := h.live - {t}, leaving := h.leaving + {t})
    case SeeNoSweeps(t) => h.(leaving := h.leaving - {t}, cleared := h.cleared + {t})
    case Destroy(t) => h.(cleared := h.cleared - {t}, destroyed := h.destroyed + {t})
    case _ => h
  }

  function Issue(l: Ledger, k: Ticket): Ledger { l.(issued := l.issued + {k}, tasks := l.tasks[k := Submitted]) }

  function Move(l: Ledger, k: Ticket, pc: Pc): Ledger { l.(tasks := l.tasks[k := pc]) }

  ghost function LedgerAfter(step: Step, s: State): Ledger
    requires Enabled(step, s)
  {
    var l := s.ledger;
    match step
    case ReleaseMemory(lo, hi, id) => Issue(l, Ticket(id, lo, hi))
    case Submit(k) => Issue(l, k)
    case SubmitLater(k) => l.(issued := l.issued + {k}, queue := l.queue + {k})
    case LookAtHold(k) => Move(l, k, if l.holds > 0 then SawHold else Clear)
    case LockAndLook(k) => if l.holds > 0 then Move(l, k, Deferring).(lock := {k}) else Move(l, k, Clear)
    case Defer(k) => l.(tasks := l.tasks - {k}, lock := {}, deferred := l.deferred + {k})
    case BeginSweep(k) => Move(l, k, Sweeping(s.threads.live.Keys, ToSweep(s, k)))
    case SweepContext(k, ctx) => Move(l, k, l.tasks[k].(left := l.tasks[k].left - {ctx}))
    case EndSweep(k) => l.(tasks := l.tasks - {k}, done := l.done + {k})
    case Freeze(pid) => l.(frozen := l.frozen + {pid}, holds := l.holds + 1)
    case Thaw(pid, r) =>
      l.(frozen := l.frozen - {pid}, holds := l.holds - 1, swapping := if l.holds == 1 then l.swapping + {r} else l.swapping)
    case Swap(r) => l.(swapping := l.swapping - {r}, pending := l.pending[r := l.deferred], deferred := {})
    case Enqueue(r) => l.(pending := l.pending - {r}, queue := l.queue + l.pending[r])
    case TakeBatch => l.(batch := l.queue, queue := {})
    case RunFromBatch(k) => l.(batch := l.batch - {k}, tasks := l.tasks[k := Submitted])
    case _ => l
  }

  ghost function After(step: Step, s: State): State
    requires Enabled(step, s)
  {
    State(CodeAfter(step, s), ThreadsAfter(step, s), LedgerAfter(step, s))
  }

  ghost predicate Initial(s: State) {
    && s.code.blocks == {} && s.code.compiling == map[] && EpochsIssued(s.code)
    && s.threads == Threads(map[], {}, {}, {}, 0)
    && s.ledger == Ledger({}, map[], {}, {}, {}, map[], {}, {}, {}, 0, {})
  }

  /** A run: every step is enabled where it is taken. */
  ghost predicate Run(states: seq<State>, steps: seq<Step>) {
    && |states| == |steps| + 1
    && Initial(states[0])
    && forall i :: 0 <= i < |steps| ==> Enabled(steps[i], states[i]) && states[i + 1] == After(steps[i], states[i])
  }

  // ---- Deferral loses nothing ----

  ghost predicate InPending(l: Ledger, k: Ticket) {
    exists r :: r in l.pending && k in l.pending[r]
  }

  /** How many of the places a submitted range can be it is in. */
  ghost function Places(l: Ledger, k: Ticket): nat {
    (if k in l.tasks then 1 else 0) + (if k in l.deferred then 1 else 0) + (if InPending(l, k) then 1 else 0)
    + (if k in l.queue then 1 else 0) + (if k in l.batch then 1 else 0) + (if k in l.done then 1 else 0)
  }

  /** Each submitted range is in exactly one place, and nothing else is anywhere. */
  ghost predicate Accounted(l: Ledger) {
    && (forall k :: Places(l, k) == if k in l.issued then 1 else 0)
    && (forall q, r, k :: q in l.pending && r in l.pending && k in l.pending[q] && k in l.pending[r] ==> q == r)
    && (forall r :: r in l.swapping ==> r !in l.pending)
  }

  lemma AccountedStep(step: Step, s: State)
    requires Accounted(s.ledger) && Enabled(step, s)
    ensures Accounted(LedgerAfter(step, s))
  {
    match step
    case Swap(r) => SwapAccounted(s, r);
    case Enqueue(r) => EnqueueAccounted(s, r);
    case _ => PlainAccounted(step, s);
  }

  lemma PlainAccounted(step: Step, s: State)
    requires Accounted(s.ledger) && Enabled(step, s) && !step.Swap? && !step.Enqueue?
    ensures Accounted(LedgerAfter(step, s))
  {
    var l, m := s.ledger, LedgerAfter(step, s);
    PendingUntouched(step, s);
    forall k ensures Places(m, k) == if k in m.issued then 1 else 0 {
      assert Places(l, k) == if k in l.issued then 1 else 0;
      PlacesKept(step, s, k);
    }
  }

  lemma PendingUntouched(step: Step, s: State)
    requires Enabled(step, s) && !step.Swap? && !step.Enqueue?
    ensures LedgerAfter(step, s).pending == s.ledger.pending
    ensures forall r :: r in LedgerAfter(step, s).swapping ==> r in s.ledger.swapping || r !in s.ledger.pending
  {
  }

  /** A step that leaves the releasers' batches alone moves each range from one place to
      another, or adds a new one. */
  lemma PlacesKept(step: Step, s: State, k: Ticket)
    requires Enabled(step, s) && !step.Swap? && !step.Enqueue?
    requires Places(s.ledger, k) == if k in s.ledger.issued then 1 else 0
    ensures Places(LedgerAfter(step, s), k) == if k in LedgerAfter(step, s).issued then 1 else 0
  {
    PendingUntouched(step, s);
    PendingSame(s.ledger, LedgerAfter(step, s), k);
  }

  lemma PendingSame(l: Ledger, m: Ledger, k: Ticket)
    requires m.pending == l.pending
    ensures InPending(m, k) <==> InPending(l, k)
  {
  }

  lemma SwapAccounted(s: State, r: nat)
    requires Accounted(s.ledger) && Enabled(Swap(r), s)
    ensures Accounted(LedgerAfter(Swap(r), s))
  {
    var l, m := s.ledger, LedgerAfter(Swap(r), s);
    forall k ensures Places(m, k) == if k in m.issued then 1 else 0 {
      assert Places(l, k) == if k in l.issued then 1 else 0;
      if InPending(l, k) {
        var q :| q in l.pending && k in l.pending[q];
        assert q in m.pending && k in m.pending[q];
      }
      if k in l.deferred { assert r in m.pending && k in m.pending[r]; }
    }
    forall q, q', k | q in m.pending && q' in m.pending && k in m.pending[q] && k in m.pending[q'] ensures q == q' {
      assert Places(l, k) <= 1;
      assert q != r ==> InPending(l, k);
      assert q' != r ==> InPending(l, k);
    }
  }

  lemma EnqueueAccounted(s: State, r: nat)
    requires Accounted(s.ledger) && Enabled(Enqueue(r), s)
    ensures Accounted(LedgerAfter(Enqueue(r), s))
  {
    var l, m := s.ledger, LedgerAfter(Enqueue(r), s);
    forall k ensures Places(m, k) == if k in m.issued then 1 else 0 {
      assert Places(l, k) == if k in l.issued then 1 else 0;
      if InPending(m, k) {
        var q :| q in m.pending && k in m.pending[q];
        assert q in l.pending && k in l.pending[q];
      }
      if InPending(l, k) && k !in l.pending[r] {
        var q :| q in l.pending && k in l.pending[q];
        assert q in m.pending && k in m.pending[q];
      }
      if k in l.pending[r] { assert InPending(l, k); }
    }
  }

  // ---- Ranges are deferred only while something holds them ----

  /** The deferral lock is held by the one call between its second look and its push; the
      hold count is the number of processes with suspended threads; and something is deferred,
      or about to be, only while the count is positive or a releaser is between bringing it to
      zero and taking what was deferred. */
  ghost predicate Held(l: Ledger) {
    && (forall k :: k in l.lock <==> At(l, k, Deferring))
    && |l.lock| <= 1
    && l.holds == |l.frozen|
    && (l.deferred != {} || l.lock != {} ==> l.holds > 0 || l.swapping != {})
  }

  lemma HeldStep(step: Step, s: State)
    requires Held(s.ledger) && Enabled(step, s) && Accounted(s.ledger)
    ensures Held(LedgerAfter(step, s))
  {
    var l, m := s.ledger, LedgerAfter(step, s);
    match step
    case LockAndLook(k) => forall j ensures j in m.lock <==> At(m, j, Deferring) {}
    case Defer(k) =>
      LockIsOne(l, k);
      forall j ensures j in m.lock <==> At(m, j, Deferring) {}
    case ReleaseMemory(lo, hi, id) => IssueHeld(l, Ticket(id, lo, hi));
    case Submit(k) => IssueHeld(l, k);
    case RunFromBatch(k) =>
      assert Places(l, k) <= 1;
      forall j ensures j in m.lock <==> At(m, j, Deferring) {}
    case _ => forall j ensures j in m.lock <==> At(m, j, Deferring) {}
  }

  lemma LockIsOne(l: Ledger, k: Ticket)
    requires Held(l) && At(l, k, Deferring)
    ensures l.lock == {k}
  {
    assert k in l.lock;
    if j :| j in l.lock && j != k {
      assert {j, k} <= l.lock;
      Cardinality({j, k}, l.lock);
    }
  }

  lemma {:induction false} Cardinality<T>(a: set<T>, b: set<T>)
    requires a <= b
    ensures |a| <= |b|
    decreases |b|
  {
    if a != {} {
      var x :| x in a;
      Cardinality(a - {x}, b - {x});
    }
  }

  lemma IssueHeld(l: Ledger, k: Ticket)
    requires Held(l) && Accounted(l) && k !in l.issued
    ensures Held(Issue(l, k))
  {
    assert Places(l, k) == 0;
    var m := Issue(l, k);
    forall j ensures j in m.lock <==> At(m, j, Deferring) {}
  }

  // ---- No thread is destroyed under a sweep that names it ----

  ghost function Running(l: Ledger): set<Ticket> {
    set k | k in l.tasks && l.tasks[k].Sweeping?
  }

  /** A thread is on the list, leaving, cleared or destroyed, and in one of these only. */
  ghost predicate OneStage(h: Threads) {
    && (forall t :: t in h.leaving || t in h.cleared || t in h.destroyed ==> t !in h.live)
    && (forall t :: t in h.leaving ==> t !in h.cleared && t !in h.destroyed)
    && (forall t :: t in h.cleared ==> t !in h.destroyed)
  }

  /** No running sweep's copy of the list names a thread that is about to be destroyed or has
      been. */
  ghost predicate Unnamed(s: State) {
    forall k, t :: Sweeps(s.ledger, k) && t in s.ledger.tasks[k].copy ==>
      t !in s.threads.cleared && t !in s.threads.destroyed
  }

  /** The sweep counter counts the running sweeps, and a thread that has seen it at zero, or is
      gone, is named by none of them and is off the list. */
  ghost predicate Safe(s: State) {
    && s.threads.sweeps == |Running(s.ledger)|
    && OneStage(s.threads)
    && Unnamed(s)
  }

  lemma RunningAfter(step: Step, s: State)
    requires Enabled(step, s) && Accounted(s.ledger)
    ensures Running(LedgerAfter(step, s)) ==
      match step
      case BeginSweep(k) => Running(s.ledger) + {k}
      case EndSweep(k) => Running(s.ledger) - {k}
      case _ => Running(s.ledger)
  {
    var l, m := s.ledger, LedgerAfter(step, s);
    match step
    case ReleaseMemory(lo, hi, id) => assert Places(l, Ticket(id, lo, hi)) == 0;
    case Submit(k) => assert Places(l, k) == 0;
    case RunFromBatch(k) => assert Places(l, k) <= 1;
    case _ =>
  }

  /** A sweep keeps the copy it started with. */
  lemma CopyKept(step: Step, s: State, k: Ticket)
    requires Enabled(step, s) && Accounted(s.ledger) && Sweeps(LedgerAfter(step, s), k)
    ensures if step == BeginSweep(k) then LedgerAfter(step, s).tasks[k].copy == s.threads.live.Keys
            else Sweeps(s.ledger, k) && LedgerAfter(step, s).tasks[k].copy == s.ledger.tasks[k].copy
  {
    assert k !in s.ledger.issued ==> Places(s.ledger, k) == 0;
    assert Places(s.ledger, k) <= 1;
  }

  lemma UnnamedStep(step: Step, s: State)
    requires Safe(s) && Enabled(step, s) && Accounted(s.ledger)
    ensures Unnamed(After(step, s))
  {
    var u := After(step, s);
    forall k, t | Sweeps(u.ledger, k) && t in u.ledger.tasks[k].copy
      ensures t !in u.threads.cleared && t !in u.threads.destroyed
    {
      CopyKept(step, s, k);
      if step.SeeNoSweeps? { assert k in Running(s.ledger); }
    }
  }

  lemma CountStep(step: Step, s: State)
    requires s.threads.sweeps == |Running(s.ledger)| && Enabled(step, s) && Accounted(s.ledger)
    ensures ThreadsAfter(step, s).sweeps == |Running(LedgerAfter(step, s))|
  {
    RunningAfter(step, s);
    match step
    case BeginSweep(k) => assert k !in Running(s.ledger);
    case EndSweep(k) => assert k in Running(s.ledger);
    case _ =>
  }

  lemma StageStep(step: Step, s: State)
    requires OneStage(s.threads) && Enabled(step, s)
    ensures OneStage(ThreadsAfter(step, s))
  {
  }

  lemma SafeStep(step: Step, s: State)
    requires Safe(s) && Enabled(step, s) && Accounted(s.ledger)
    ensures Safe(After(step, s))
  {
    CountStep(step, s);
    StageStep(step, s);
    UnnamedStep(step, s);
  }

  // ---- Stale code is never forgotten ----

  /** `k` has still to be swept out of context `ctx`. */
  ghost predicate Awaits(l: Ledger, k: Ticket, ctx: nat) {
    || k in l.deferred || InPending(l, k) || k in l.queue || k in l.batch
    || (k in l.tasks && (l.tasks[k].Sweeping? ==> ctx in l.tasks[k].left))
  }

  /** A change to the byte at `a` has still to be swept out of context `ctx`. */
  ghost predicate Covered(l: Ledger, ctx: nat, a: int) {
    exists k: Ticket :: k.Has(a) && Awaits(l, k, ctx)
  }

  /** The byte at `a` is no longer the one `b` was compiled from. */
  predicate StaleAt(c: Code, b: Block, a: int) {
    a in b.epochs && c.epochs(a) != b.epochs[a]
  }

  ghost predicate EpochsIssued(c: Code) {
    0 < c.nextEpoch && forall a :: 0 <= c.epochs(a) < c.nextEpoch
  }

  /** Every block was compiled from committed memory its context can see, and each byte of it
      that has changed since is in a range still to be swept out of its context. */
  ghost predicate NothingForgotten(s: State) {
    && EpochsIssued(s.code)
    && (forall b: Block, a :: b in s.code.All() && a in b.epochs ==> 0 < b.epochs[a] < s.code.nextEpoch && s.code.window(b.ctx).Has(a))
    && (forall b: Block, a :: b in s.code.All() && StaleAt(s.code, b, a) ==> Covered(s.ledger, b.ctx, a))
  }

  /** A range stays awaited until its context is swept, or a sweep starts that will not visit
      it. */
  lemma AwaitsKept(step: Step, s: State, k: Ticket, ctx: nat)
    requires Enabled(step, s) && Accounted(s.ledger) && Awaits(s.ledger, k, ctx)
    requires step != SweepContext(k, ctx)
    requires step == BeginSweep(k) ==> ctx in ToSweep(s, k)
    ensures Awaits(LedgerAfter(step, s), k, ctx)
  {
    var l, m := s.ledger, LedgerAfter(step, s);
    assert Places(l, k) <= 1;
    match step
    case Swap(r) =>
      if k in l.deferred { assert r in m.pending && k in m.pending[r]; }
      if InPending(l, k) {
        var q :| q in l.pending && k in l.pending[q];
        assert q in m.pending && k in m.pending[q];
      }
    case Enqueue(r) =>
      if InPending(l, k) && k !in l.pending[r] {
        var q :| q in l.pending && k in l.pending[q];
        assert q in m.pending && k in m.pending[q];
      }
    case _ => PendingUntouched(step, s); PendingSame(l, m, k);
  }

  /** Some live thread runs in context `ctx`. */
  ghost predicate HasThread(h: Threads, ctx: nat) {
    exists t :: t in h.live && h.live[t] == ctx
  }

  /** Every context with stale code in the range has a live thread, or another range still to be
      swept out of it covers the same byte. */
  ghost predicate Reaches(s: State, k: Ticket) {
    forall b: Block, a :: b in s.code.All() && StaleAt(s.code, b, a) && k.Has(a) ==>
      HasThread(s.threads, b.ctx) || exists j: Ticket :: j != k && j.Has(a) && Awaits(s.ledger, j, b.ctx)
  }

  /** A sweep of a range visits the contexts that can see a byte of it and have a live thread. */
  lemma VisitsLive(s: State, k: Ticket, ctx: nat, a: int)
    requires k.Has(a) && s.code.window(ctx).Has(a)
    ensures ctx in ToSweep(s, k) <==> HasThread(s.threads, ctx)
  {
  }

  lemma BlocksAfter(step: Step, s: State, b: Block, a: int)
    requires Enabled(step, s) && NothingForgotten(s) && b in CodeAfter(step, s).All() && a in b.epochs
    ensures 0 < b.epochs[a] < CodeAfter(step, s).nextEpoch && CodeAfter(step, s).window(b.ctx).Has(a)
    ensures b in s.code.All() || (step.StartCompile? && b == step.block && !StaleAt(s.code, b, a))
    ensures step.SweepContext? && b.ctx == step.ctx ==> !Overlaps(b, step.k)
  {
    BlocksOnlyCompiled(step, s, b);
    var d := CodeAfter(step, s);
    if step.SweepContext? && b in d.compiling.Values {
      var t :| t in d.compiling && d.compiling[t] == b;
    }
  }

  /** A byte turns stale only by a release, which submits it. */
  lemma StaleAfter(step: Step, s: State, b: Block, a: int)
    requires Enabled(step, s) && NothingForgotten(s) && Accounted(s.ledger)
    requires b in s.code.All() && a in b.epochs && StaleAt(CodeAfter(step, s), b, a) && !StaleAt(s.code, b, a)
    ensures Covered(LedgerAfter(step, s), b.ctx, a)
  {
    assert 0 < b.epochs[a];
    match step
    case ReleaseMemory(lo, hi, id) =>
      var k := Ticket(id, lo, hi);
      assert k.Has(a) && Awaits(LedgerAfter(step, s), k, b.ctx);
    case _ =>
  }

  lemma StaleStaysCovered(step: Step, s: State, b: Block, a: int)
    requires Enabled(step, s) && NothingForgotten(s) && Accounted(s.ledger)
    requires step.BeginSweep? ==> Reaches(s, step.k)
    requires b in s.code.All() && b in CodeAfter(step, s).All() && StaleAt(s.code, b, a)
    ensures Covered(LedgerAfter(step, s), b.ctx, a)
  {
    BlocksAfter(step, s, b, a);
    var k: Ticket :| k.Has(a) && Awaits(s.ledger, k, b.ctx);
    VisitsLive(s, k, b.ctx, a);
    if step == BeginSweep(k) && b.ctx !in ToSweep(s, k) {
      var j: Ticket :| j != k && j.Has(a) && Awaits(s.ledger, j, b.ctx);
      AwaitsKept(step, s, j, b.ctx);
    } else {
      AwaitsKept(step, s, k, b.ctx);
    }
  }

  /** No step forgets stale code, provided each sweep reaches what its range covers. */
  lemma NothingForgottenStep(step: Step, s: State)
    requires Enabled(step, s) && NothingForgotten(s) && Accounted(s.ledger)
    requires step.BeginSweep? ==> Reaches(s, step.k)
    ensures NothingForgotten(After(step, s))
  {
    var u := After(step, s);
    forall b: Block, a | b in u.code.All() && a in b.epochs
      ensures 0 < b.epochs[a] < u.code.nextEpoch && u.code.window(b.ctx).Has(a)
      ensures StaleAt(u.code, b, a) ==> Covered(u.ledger, b.ctx, a)
    {
      BlocksAfter(step, s, b, a);
      if b in s.code.All() {
        if StaleAt(s.code, b, a) {
          StaleStaysCovered(step, s, b, a);
        } else if StaleAt(u.code, b, a) {
          StaleAfter(step, s, b, a);
        }
      }
    }
  }

  /** Starting a sweep forgets nothing if and only if every context with stale code in its range
      has a live thread or is still to be swept for another range. */
  lemma SweepForgetsIff(s: State, k: Ticket)
    requires Enabled(BeginSweep(k), s) && NothingForgotten(s) && Accounted(s.ledger)
    ensures NothingForgotten(After(BeginSweep(k), s)) <==> Reaches(s, k)
  {
    if Reaches(s, k) {
      NothingForgottenStep(BeginSweep(k), s);
    } else {
      var u := After(BeginSweep(k), s);
      var b: Block, a :| b in s.code.All() && StaleAt(s.code, b, a) && k.Has(a) && !HasThread(s.threads, b.ctx)
        && !exists j: Ticket :: j != k && j.Has(a) && Awaits(s.ledger, j, b.ctx);
      assert b in u.code.All() && StaleAt(u.code, b, a);
      VisitsLive(s, k, b.ctx, a);
      forall j: Ticket | j.Has(a) ensures !Awaits(u.ledger, j, b.ctx) {
        if Awaits(u.ledger, j, b.ctx) { AwaitsBefore(s, k, j, b.ctx); }
      }
    }
  }

  lemma AwaitsBefore(s: State, k: Ticket, j: Ticket, ctx: nat)
    requires Enabled(BeginSweep(k), s) && Accounted(s.ledger)
    requires Awaits(After(BeginSweep(k), s).ledger, j, ctx)
    ensures if j == k then ctx in ToSweep(s, k) else Awaits(s.ledger, j, ctx)
  {
    assert Places(s.ledger, k) <= 1;
    PendingSame(s.ledger, After(BeginSweep(k), s).ledger, j);
  }

  /** Every context that holds code has a live thread. */
  ghost predicate LiveContexts(s: State) {
    forall b: Block :: b in s.code.All() ==> HasThread(s.threads, b.ctx)
  }

  // ---- Whole runs ----

  /** Ranges are conserved, held back only while held, and threads outlive the sweeps that name
      them. */
  ghost predicate Sound(s: State) {
    Accounted(s.ledger) && Held(s.ledger) && Safe(s)
  }

  /** In every state of every interleaving. */
  lemma {:induction false} RunIsSound(states: seq<State>, steps: seq<Step>, i: nat)
    requires Run(states, steps) && i < |states|
    ensures Sound(states[i])
    decreases i
  {
    if i == 0 {
      assert forall k :: Places(states[0].ledger, k) == 0;
    } else {
      RunIsSound(states, steps, i - 1);
      var step, s := steps[i - 1], states[i - 1];
      assert states[i - 1 + 1] == After(step, s);
      AccountedStep(step, s);
      HeldStep(step, s);
      SafeStep(step, s);
    }
  }

  /** Stale code is never forgotten in a run in which each sweep reaches what it covers. */
  lemma {:induction false} RunForgetsNothing(states: seq<State>, steps: seq<Step>, i: nat)
    requires Run(states, steps) && i < |states|
    requires forall j :: 0 <= j < i && steps[j].BeginSweep? ==> Reaches(states[j], steps[j].k)
    ensures NothingForgotten(states[i])
    decreases i
  {
    if i > 0 {
      RunForgetsNothing(states, steps, i - 1);
      RunIsSound(states, steps, i - 1);
      assert states[i - 1 + 1] == After(steps[i - 1], states[i - 1]);
      NothingForgottenStep(steps[i - 1], states[i - 1]);
    }
  }

  /** It is enough that when a sweep starts every context that holds code has a live thread. */
  lemma LiveContextsForgetNothing(states: seq<State>, steps: seq<Step>, i: nat)
    requires Run(states, steps) && i < |states|
    requires forall j :: 0 <= j < i && steps[j].BeginSweep? ==> LiveContexts(states[j])
    ensures NothingForgotten(states[i])
  {
    forall j | 0 <= j < i && steps[j].BeginSweep? ensures Reaches(states[j], steps[j].k) {
      assert LiveContexts(states[j]);
    }
    RunForgetsNothing(states, steps, i);
  }

  /** The step ends no thread that is the last of a context with code. */
  ghost predicate KeepsLast(step: Step, s: State) {
    step.Forget? && step.thread in s.threads.live ==>
      var ctx := s.threads.live[step.thread];
      || (exists t :: t != step.thread && t in s.threads.live && s.threads.live[t] == ctx)
      || forall b: Block :: b in s.code.All() ==> b.ctx != ctx
  }

  /** A thread compiles for its own context, while it is live. */
  ghost predicate CompilersLive(s: State) {
    forall t :: t in s.code.compiling ==> t in s.threads.live && s.threads.live[t] == s.code.compiling[t].ctx
  }

  lemma KeepsLastStep(step: Step, s: State)
    requires Enabled(step, s) && LiveContexts(s) && CompilersLive(s) && KeepsLast(step, s)
    ensures LiveContexts(After(step, s)) && CompilersLive(After(step, s))
  {
    var u := After(step, s);
    forall b: Block | b in u.code.All() ensures HasThread(u.threads, b.ctx) {
      BlocksOnlyCompiled(step, s, b);
      if b in s.code.All() {
        ThreadRemains(step, s, b.ctx);
      } else {
        assert step.thread in u.threads.live && u.threads.live[step.thread] == b.ctx;
      }
    }
  }

  lemma ThreadRemains(step: Step, s: State, ctx: nat)
    requires Enabled(step, s) && HasThread(s.threads, ctx) && KeepsLast(step, s)
    requires exists b: Block :: b in s.code.All() && b.ctx == ctx
    ensures HasThread(ThreadsAfter(step, s), ctx)
  {
    var live := ThreadsAfter(step, s).live;
    var t :| t in s.threads.live && s.threads.live[t] == ctx;
    if step == Forget(t) {
      var r :| r != t && r in s.threads.live && s.threads.live[r] == ctx;
      assert r in live && live[r] == ctx;
    } else {
      assert t in live && live[t] == ctx;
    }
  }

  /** A block is there after a step only if it was before or a thread has begun to compile it. */
  lemma BlocksOnlyCompiled(step: Step, s: State, b: Block)
    requires Enabled(step, s) && b in CodeAfter(step, s).All()
    ensures b in s.code.All() || (step.StartCompile? && b == step.block)
  {
    var c, d := s.code, CodeAfter(step, s);
    if b in d.compiling.Values {
      var t :| t in d.compiling && d.compiling[t] == b;
      if t in c.compiling { assert c.compiling[t] in c.compiling.Values; }
    }
    match step
    case EndCompile(t) => assert c.compiling[t] in c.compiling.Values;
    case _ =>
  }

  /** A run that ends no last thread of a context with code forgets nothing. */
  lemma {:induction false} LastThreadsForgetNothing(states: seq<State>, steps: seq<Step>, i: nat)
    requires Run(states, steps) && i < |states|
    requires forall j :: 0 <= j < i ==> KeepsLast(steps[j], states[j])
    ensures LiveContexts(states[i]) && CompilersLive(states[i])
    ensures NothingForgotten(states[i])
    decreases i
  {
    if i > 0 {
      LastThreadsForgetNothing(states, steps, i - 1);
      assert states[i - 1 + 1] == After(steps[i - 1], states[i - 1]);
      KeepsLastStep(steps[i - 1], states[i - 1]);
      RunIsSound(states, steps, i - 1);
      NothingForgottenStep(steps[i - 1], states[i - 1]);
    }
  }

  /** Nothing is in flight, deferred, pending, queued or taken. */
  ghost predicate Quiet(l: Ledger) {
    l.tasks == map[] && l.deferred == {} && (forall r :: r in l.pending ==> l.pending[r] == {}) && l.queue == {} && l.batch == {}
  }

  /** Once everything submitted has been dealt with, no compiled block is stale. */
  lemma QuietHasNoStaleCode(s: State, b: Block, a: int)
    requires NothingForgotten(s) && Quiet(s.ledger) && b in s.code.All()
    ensures !StaleAt(s.code, b, a)
  {
    forall k: Ticket ensures !Awaits(s.ledger, k, b.ctx) {}
  }

  // ---- A context with no live thread ----

  lemma RunSnoc(states: seq<State>, steps: seq<Step>, step: Step)
    requires Run(states, steps) && Enabled(step, states[|states| - 1])
    ensures Run(states + [After(step, states[|states| - 1])], steps + [step])
  {
    var all, next := steps + [step], states + [After(step, states[|states| - 1])];
    forall i | 0 <= i < |all| ensures Enabled(all[i], next[i]) && next[i + 1] == After(all[i], next[i]) {
      if i < |steps| {
        assert Enabled(steps[i], states[i]) && states[i + 1] == After(steps[i], states[i]);
      }
    }
  }

  /** Thread 1 of context 7 has compiled the byte at 100 and ended. */
  lemma OrphanedContext() returns (states: seq<State>, steps: seq<Step>)
    ensures Run(states, steps)
    ensures var s := states[|states| - 1];
      && s.ledger == Ledger({}, map[], {}, {}, {}, map[], {}, {}, {}, 0, {})
      && s.threads.live == map[] && s.code.compiling == map[]
      && s.code.blocks == {Block(7, map[100 := 1])} && s.code.epochs(100) == 1
  {
    var c0 := Code((a: int) => 0, 1, (c: nat) => Window(0, 0), {}, map[]);
    var b := Block(7, map[100 := 1]);
    var s0 := State(c0, Threads(map[], {}, {}, {}, 0), Ledger({}, map[], {}, {}, {}, map[], {}, {}, {}, 0, {}));
    states, steps := [s0], [];
    var s1 := After(Register(1, 7), s0);
    RunSnoc(states, steps, Register(1, 7));
    states, steps := states + [s1], steps + [Register(1, 7)];
    var commit := CommitMemory(EpochsAfter(c0, 100, 101, 1), 2);
    var s2 := After(commit, s1);
    RunSnoc(states, steps, commit);
    states, steps := states + [s2], steps + [commit];
    states, steps := CompileAndEnd(states, steps, b);
  }

  lemma CompileOne(before: seq<State>, taken: seq<Step>, b: Block) returns (states: seq<State>, steps: seq<Step>)
    requires Run(before, taken)
    requires var s := before[|before| - 1];
      && b == Block(7, map[100 := 1]) && s.threads.live == map[1 := 7] && s.code.compiling == map[] && s.code.blocks == {}
      && s.code.epochs(100) == 1 && s.code.window(7).Has(100)
    ensures Run(states, steps)
    ensures var s, u := before[|before| - 1], states[|states| - 1];
      && u.ledger == s.ledger && u.threads == s.threads && u.code.compiling == map[] && u.code.blocks == {b}
      && u.code.epochs == s.code.epochs
  {
    var s := before[|before| - 1];
    var s1 := After(StartCompile(1, b), s);
    RunSnoc(before, taken, StartCompile(1, b));
    states, steps := before + [s1], taken + [StartCompile(1, b)];
    var s2 := After(EndCompile(1), s1);
    RunSnoc(states, steps, EndCompile(1));
    states, steps := states + [s2], steps + [EndCompile(1)];
    assert s2.code.compiling == map[];
  }

  lemma CompileAndEnd(before: seq<State>, taken: seq<Step>, b: Block) returns (states: seq<State>, steps: seq<Step>)
    requires Run(before, taken)
    requires var s := before[|before| - 1];
      && b == Block(7, map[100 := 1]) && s.threads.live == map[1 := 7] && s.code.compiling == map[] && s.code.blocks == {}
      && s.code.epochs(100) == 1 && s.code.window(7).Has(100)
    ensures Run(states, steps)
    ensures var s, u := before[|before| - 1], states[|states| - 1];
      && u.ledger == s.ledger && u.threads.live == map[] && u.code.compiling == map[] && u.code.blocks == {b}
      && u.code.epochs == s.code.epochs
  {
    states, steps := CompileOne(before, taken, b);
    var s2 := states[|states| - 1];
    var s3 := After(Forget(1), s2);
    RunSnoc(states, steps, Forget(1));
    states, steps := states + [s3], steps + [Forget(1)];
    assert s3.threads.live == map[];
  }

  /** If the memory is then released, the sweep finds no live thread and visits no context: it
      ends with nothing left to do and the stale block still there. */
  lemma OrphanedContextForgotten() returns (states: seq<State>, steps: seq<Step>)
    ensures Run(states, steps)
    ensures var s := states[|states| - 1];
      Quiet(s.ledger) && exists b :: b in s.code.blocks && StaleAt(s.code, b, 100)
  {
    states, steps := OrphanedContext();
    var s := states[|states| - 1];
    var k, release := Ticket(0, 100, 101), ReleaseMemory(100, 101, 0);
    RunSnoc(states, steps, release);
    var s1 := After(release, s);
    states, steps := states + [s1], steps + [release];
    RunSnoc(states, steps, LookAtHold(k));
    var s2 := After(LookAtHold(k), s1);
    states, steps := states + [s2], steps + [LookAtHold(k)];
    RunSnoc(states, steps, BeginSweep(k));
    var s3 := After(BeginSweep(k), s2);
    assert ToSweep(s2, k) == {};
    states, steps := states + [s3], steps + [BeginSweep(k)];
    RunSnoc(states, steps, EndSweep(k));
    var s4 := After(EndSweep(k), s3);
    states, steps := states + [s4], steps + [EndSweep(k)];
    assert s4.ledger.tasks == map[];
    assert Block(7, map[100 := 1]) in s4.code.blocks && StaleAt(s4.code, Block(7, map[100 := 1]), 100);
  }
}
