/** A session whose stop request lets a parent return while its child still holds a copy. */
module LendingScenarios {
  import opened Spans
  import opened GuestView
  import opened SpaceSpec
  import opened SpaceOps
  import opened SpaceRuns
  import opened Regions
  import opened BorrowFork
  import opened Lending
  import opened ForkScenarios
  import Sessions

  /** The one usable byte of an arena at 1. */
  const AT := 1 + LOWEST_USABLE

  const WRITABLE := Cell(Prot(true, true, false), 1, true)

  function Byte(v: int): Space { Holding(1, WRITABLE, v, Access(true, true)) }

  const WILLING: Region -> bool := (r: Region) => true

  const SAVED := Region(AT, 1, [7])

  function Lone(): Sessions.Session { Sessions.Session(0, {}, 1, [Sessions.Child(0, Some(0), None)], 0) }

  function Pair(): Sessions.Session {
    Sessions.Session(0, {}, 1, [Sessions.Child(0, Some(0), None), Sessions.Child(0, Some(0), Some(0))], 0)
  }

  function Memory(v: int): nat -> Space { (x: nat) => if x == 0 then Byte(v) else Byte(7) }

  function First(): nat -> int { (p: nat) => 0 }

  function Late(v: int, wait: Wait, pc: Pc, stop: bool): World {
    World(Pair(), Memory(v), First(),
          map[1 := Loan(0, 0, 0, if pc.Restored? then [] else [SAVED], false, wait, pc)], stop)
  }

  const LEND := Lend(0, 0, false, [Span(AT, 1, ())], Bounds(0, 0, 0, 0, 0, 0), [], [Span(AT, 1, 1)], [SAVED])

  lemma ByteCells(v: int, a: int)
    ensures Byte(v).Cell(a) == if a == AT then Some(WRITABLE) else None
  {
    OneAt(Byte(v).committed[0], a);
  }

  lemma SavedIsTaken()
    ensures Taken(Byte(7), [Span(AT, 1, ())], Bounds(0, 0, 0, 0, 0, 0), [], [Span(AT, 1, 1)], [SAVED])
  {
    var owned, held, w := [Span(AT, 1, ())], [Span(AT, 1, 1)], Bounds(0, 0, 0, 0, 0, 0);
    OrderedOne(held[0], 0);
    assert Saved(held[0], Byte(7).bytes) == SAVED;
    forall a ensures At(held, a) == if Owned(owned, w, a) then HeldAt(Byte(7).committed, [], a) else None {
      OneAt(held[0], a);
      ByteCells(7, a);
      assert LiveIn(owned[0], w, a) <==> a == AT;
    }
  }

  lemma SavedGoesBack()
    ensures PutBack(Byte(9), Byte(7), [SAVED], 1, [], WILLING)
  {
    forall a ensures Byte(9).Cell(a) == if a == AT then Some(WRITABLE) else None { ByteCells(9, a); }
    var saved := [SAVED];
    assert Eligible(Byte(9), saved[0], [], WILLING);
    assert saved[0].Has(AT);
  }

  const BEFORE := World(Lone(), Memory(7), First(), map[], false)

  lemma BeforeValid()
    ensures Valid(BEFORE.memory(0))
  {
    HoldingValid(1, WRITABLE, 7, Access(true, true));
    assert BEFORE.memory(0) == Byte(7) == Holding(1, WRITABLE, 7, Access(true, true));
  }

  lemma LateLend()
    ensures Lending.Does(LEND, BEFORE, Late(7, FirstWait, Unstarted, false))
  {
    SavedIsTaken();
    assert Sessions.After(Sessions.ForkBorrow(0, 0, true), Lone()) == Pair();
    assert Late(7, FirstWait, Unstarted, false).loans == map[][1 := NewLoan(BEFORE, 0, [SAVED], false)];
  }

  /** The other steps of the child and of its parent's wait. */
  lemma LateStart(wait: Wait, stop: bool)
    ensures Lending.Does(Start(1), Late(7, wait, Unstarted, stop), Late(7, wait, Running, stop))
  {
    var loan, loans := Loan(0, 0, 0, [SAVED], false, wait, Unstarted), Late(7, wait, Unstarted, stop).loans;
    assert Late(7, wait, Running, stop).loans == loans[1 := loan.(pc := Running)];
  }

  lemma LateStop(wait: Wait)
    ensures Lending.Does(Stop, Late(7, wait, Running, false), Late(7, wait, Running, true))
  {
  }

  lemma LateWake(wait: Wait)
    requires wait != Returned
    ensures Lending.Does(Wake(1), Late(7, wait, Running, true), Late(7, Returned, Running, true))
  {
    var loan, loans := Loan(0, 0, 0, [SAVED], false, wait, Running), Late(7, wait, Running, true).loans;
    assert Late(7, Returned, Running, true).loans == loans[1 := loan.(wait := Returned)];
  }

  lemma LateWrite(wait: Wait, pc: Pc, stop: bool)
    ensures Lending.Does(Guest(0, Write(AT, AT + 1)), Late(7, wait, pc, stop), Late(9, wait, pc, stop))
  {
    var v, w := Late(7, wait, pc, stop), Late(9, wait, pc, stop);
    assert v.memory(0) == Byte(7) && w.memory(0) == Byte(9);
    assert SameLists(Byte(7), Byte(9));
    assert SpaceRuns.Does(Write(AT, AT + 1), v.memory(0), w.memory(0));
    assert OnlyArena(v, w, 0);
    assert w == v.(memory := w.memory);
  }

  lemma LateGiveBack()
    ensures Lending.Does(GiveBack(1, true, [], WILLING), Late(9, Returned, Running, true), Late(7, Returned, Restored(true), true))
  {
    SavedGoesBack();
    assert Late(7, Returned, Restored(true), true).loans == Late(9, Returned, Running, true).loans[1 := Loan(0, 0, 0, [], false, Returned, Restored(true))];
  }

  const LATE_STEPS := [LEND, Start(1), Stop, Wake(1), Guest(0, Write(AT, AT + 1)), GiveBack(1, true, [], WILLING)]

  const LATE_WORLDS := [
    BEFORE, Late(7, FirstWait, Unstarted, false), Late(7, FirstWait, Running, false), Late(7, FirstWait, Running, true),
    Late(7, Returned, Running, true), Late(9, Returned, Running, true), Late(7, Returned, Restored(true), true)]

  lemma LateStep(k: nat)
    requires k < |LATE_STEPS|
    ensures Lending.Does(LATE_STEPS[k], LATE_WORLDS[k], LATE_WORLDS[k + 1])
  {
    if k == 0 { LateLend(); }
    if k == 1 { LateStart(FirstWait, false); }
    if k == 2 { LateStop(FirstWait); }
    if k == 3 { LateWake(FirstWait); }
    if k == 4 { LateWrite(Returned, Running, true); }
    if k == 5 { LateGiveBack(); }
  }

  lemma LateRun()
    ensures Lending.Run(LATE_WORLDS, LATE_STEPS)
  {
    forall k | 0 <= k < |LATE_STEPS| ensures Lending.Does(LATE_STEPS[k], LATE_WORLDS[k], LATE_WORLDS[k + 1]) {
      LateStep(k);
    }
  }

  lemma LateBytes()
    ensures Late(9, Returned, Running, true).memory(0).bytes(AT) == 9 && Late(7, Returned, Restored(true), true).memory(0).bytes(AT) == 7
  {
    assert Memory(9)(0) == Byte(9) && Memory(7)(0) == Byte(7);
  }

  /** Asked to stop, the parent returns while the child still holds the copy; what it writes
      afterwards, 9, is undone when the child gives back. */
  lemma StopRestoresLate() returns (worlds: seq<World>, steps: seq<Lending.Step>, i: nat, a: int)
    ensures Lending.Run(worlds, steps) && i < |steps| && steps[i].GiveBack? && Valid(worlds[0].memory(0))
    ensures steps[i].child in worlds[i].loans && worlds[i].loans[steps[i].child].wait == Returned && worlds[i].stop
    ensures worlds[i].memory(0).bytes(a) == 9 && worlds[i + 1].memory(0).bytes(a) == 7
  {
    LateRun();
    assert LATE_WORLDS[0] == BEFORE && LATE_WORLDS[5] == Late(9, Returned, Running, true);
    assert LATE_WORLDS[6] == Late(7, Returned, Restored(true), true) && LATE_STEPS[5] == GiveBack(1, true, [], WILLING);
    BeforeValid();
    LateBytes();
    worlds, steps, i, a := LATE_WORLDS, LATE_STEPS, 5, AT;
  }
}
