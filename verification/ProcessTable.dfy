/** The session's process table and arenas, changed in place, one method for each thing that
    happens under the table's lock. */
module ProcessTable {
  import opened Spans
  import opened Sessions

  function Count(stops: seq<bool>): nat {
    if stops == [] then 0 else Count(stops[..|stops| - 1]) + if stops[|stops| - 1] then 1 else 0
  }

  /** Which threads could be stopped. */
  ghost function Stopped(stops: seq<bool>): set<int> { set i | 0 <= i < |stops| && stops[i] }

  lemma {:induction false} CountIsStopped(stops: seq<bool>)
    ensures Count(stops) == |Stopped(stops)|
    decreases |stops|
  {
    if stops != [] {
      var n := |stops| - 1;
      CountIsStopped(stops[..n]);
      assert Stopped(stops) == Stopped(stops[..n]) + if stops[n] then {n} else {};
    }
  }

  class Table {
    const own: nat
    var arenas: set<nat>
    var nextArena: nat
    var processes: seq<Process>
    var holds: int

    function Now(): Session
      reads this
    {
      Session(own, arenas, nextArena, processes, holds)
    }

    constructor (own: nat)
      ensures Initial(Now())
    {
      this.own, arenas, nextArena, holds := own, {}, own + 1, 0;
      processes := [Child(0, Some(own), None)];
    }

    method NewArena() returns (arena: nat)
      modifies this`arenas, this`nextArena
      ensures arena == old(nextArena) && Now() == AddArena(old(Now()))
    {
      arena := nextArena;
      arenas, nextArena := arenas + {arena}, nextArena + 1;
    }

    /** Tries to suspend each of the other threads of `p`; `stops` says which can be caught
        outside the runtime. */
    method FreezeOtherThreads(p: nat, stops: seq<bool>) returns (allStopped: bool)
      requires p < |processes|
      modifies this`processes, this`holds
      ensures Now() == Freeze(old(Now()), p, |Stopped(stops)|)
      ensures allStopped <==> forall i :: 0 <= i < |stops| ==> stops[i]
    {
      allStopped := true;
      var i := 0;
      while i < |stops|
        invariant 0 <= i <= |stops| && |processes| == |old(processes)|
        invariant Now() == Freeze(old(Now()), p, Count(stops[..i]))
        invariant allStopped <==> forall k :: 0 <= k < i ==> stops[k]
      {
        assert stops[..i + 1][..i] == stops[..i];
        if stops[i] {
          if processes[p].frozen == 0 {
            holds := holds + 1;
          }
          processes := processes[p := processes[p].(frozen := processes[p].frozen + 1)];
        } else {
          allStopped := false;
        }
        i := i + 1;
      }
      assert stops[..i] == stops;
      CountIsStopped(stops);
    }

    method ThawThreads(p: nat)
      requires p < |processes| && !processes[p].reaped
      modifies this`processes, this`holds
      ensures Now() == Thaw(old(Now()), p)
    {
      if processes[p].frozen == 0 {
        return;
      }
      processes := processes[p := processes[p].(frozen := 0)];
      holds := holds - 1;
    }

    /** A fork by process `caller`, up to the child's entry in the table. `arenaOk` and
        `threadOk` are whether an arena and a guest thread could be made. */
    method ForkProcess(caller: nat, ownStack: bool, sharesMemory: bool, copyOnWrite: bool, arenaOk: bool, threadOk: bool, stops: seq<bool>)
      returns (result: int)
      requires Now().InTable(caller) ==> Now().Running(caller) && processes[caller].switching.None?
      modifies this
      ensures
        var s, copies := old(Now()), copyOnWrite && !(ownStack && sharesMemory);
        if !s.InTable(caller) then result == -1 && Now() == s
        else if copies && !arenaOk then result == -11 && Now() == s
        else
          && result == (if threadOk then |s.processes| else -11)
          && Now() == After(if copies then ForkCopy(caller, |Stopped(stops)|, threadOk)
                            else ForkBorrow(caller, if ownStack && sharesMemory then 0 else |Stopped(stops)|, threadOk), s)
    {
      if caller >= |processes| || processes[caller].reaped {
        return -1;
      }
      var copies := copyOnWrite && !(ownStack && sharesMemory);
      var space, borrowed := processes[caller].space, processes[caller].space;
      if copies {
        if !arenaOk {
          return -11;
        }
        var arena := NewArena();
        space, borrowed := Some(arena), None;
        var all := FreezeOtherThreads(caller, stops);
      }
      if !threadOk {
        return -11;
      }
      if !copies && !(ownStack && sharesMemory) {
        var all := FreezeOtherThreads(caller, stops);
      }
      result := |processes|;
      processes := processes + [Child(caller, space, borrowed)];
    }

    /** The child has stopped using its parent's memory. */
    method ReleaseParent(child: nat)
      requires Enabled(Step.ReleaseParent(child), Now())
      modifies this`processes, this`holds
      ensures Now() == After(Step.ReleaseParent(child), old(Now()))
    {
      var parent := processes[child].parent;
      if parent < |processes| && !processes[parent].reaped {
        ThawThreads(parent);
      }
      processes := processes[child := processes[child].(released := true)];
    }

    /** Whether a process other than `p` that has not finished refers to `candidate`. */
    method InUse(p: nat, candidate: nat) returns (used: bool)
      ensures used <==> UsedElsewhere(Now(), p, candidate)
    {
      var q := 0;
      while q < |processes|
        invariant 0 <= q <= |processes|
        invariant forall r :: 0 <= r < q && r != p && Now().Running(r) ==> !processes[r].Names(candidate)
      {
        if q != p && !processes[q].reaped && !processes[q].finished && processes[q].Names(candidate) {
          assert Now().Running(q);
          return true;
        }
        q := q + 1;
      }
      return false;
    }

    /** Destroys `candidate` if it is an arena only `p` was using. */
    method Consider(p: nat, candidate: Option<nat>) returns (doomed: bool)
      modifies this`arenas
      ensures doomed <==> candidate.Some? && candidate.value != own && candidate.value in old(arenas) && !UsedElsewhere(old(Now()), p, candidate.value)
      ensures arenas == if doomed then old(arenas) - {candidate.value} else old(arenas)
    {
      doomed := false;
      if candidate.None? || candidate.value == own {
        return;
      }
      var used := InUse(p, candidate.value);
      if used || candidate.value !in arenas {
        return;
      }
      arenas := arenas - {candidate.value};
      doomed := true;
    }

    /** Frees the arenas only this finished process was using. */
    method ReleaseOwnArenas(p: nat)
      requires Enabled(Sweep(p), Now())
      modifies this`arenas, this`processes
      ensures Now() == After(Sweep(p), old(Now()))
    {
      ghost var s := Now();
      var first := Consider(p, processes[p].space);
      var second := Consider(p, processes[p].previous);
      DoomedArenas(s, p, first, second, arenas);
      var q := processes[p].(swept := true);
      if first || second {
        q := q.(space := if q.space == Some(own) then q.space else None, previous := None);
      }
      processes := processes[p := q];
    }
  }

  lemma DoomedArenas(s: Session, p: nat, first: bool, second: bool, arenas: set<nat>)
    requires p < |s.processes|
    requires var x := s.processes[p].space; first <==> x.Some? && x.value != s.own && x.value in s.arenas && !UsedElsewhere(s, p, x.value)
    requires var x := s.processes[p].previous;
      second <==> x.Some? && x.value != s.own && x.value in s.arenas && !UsedElsewhere(s, p, x.value) && !(first && x == s.processes[p].space)
    requires arenas == s.arenas - (if first then {s.processes[p].space.value} else {}) - (if second then {s.processes[p].previous.value} else {})
    ensures arenas == s.arenas - Doomed(s, p)
    ensures (first || second) <==> Doomed(s, p) != {}
  {
    if first { assert s.processes[p].space.value in Doomed(s, p); }
    if second { assert s.processes[p].previous.value in Doomed(s, p); }
    if Doomed(s, p) != {} { var x :| x in Doomed(s, p); }
  }
}
