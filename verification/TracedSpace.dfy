/** An address space together with its history: every operation of the class is a step of a run,
    so what is proved of runs holds of every program that uses the class. */
module TracedSpace {
  import opened Pages
  import opened Spans
  import opened GuestView
  import opened SpaceSpec
  import opened SpaceOps
  import opened Protection
  import opened AddressSpace
  import opened GrainMap
  import opened Placement
  import opened Records
  import opened SpaceRuns

  lemma AttemptIsStep(s: Space, t: Space, lo: nat, length: nat, p: Prot, ok: bool)
    requires 0 < s.page && Attempted(s, t, lo, length, p, ok)
    ensures Does(if ok then Commit(lo, lo + length, p) else Refuse(lo, lo + length), s, t)
  {
  }

  /** The byte of the arena was committed in state `k`. */
  predicate CommittedIn(states: seq<Space>, base: nat, size: nat, k: int, a: int) {
    0 <= k < |states| && base <= a < base + size && states[k].Cell(a).Some?
  }

  /** Every byte of the arena committed in one of the states is noted. */
  ghost predicate EverNoted(states: seq<Space>, words: Words, base: nat, size: nat, grain: nat) {
    forall k, a :: CommittedIn(states, base, size, k, a) ==> Noted(words, base, grain, a)
  }

  /** One state more, and the map of committed memory after it. */
  lemma EverNotedNext(states: seq<Space>, t: Space, before: Words, after: Words, base: nat, size: nat, grain: nat)
    requires EverNoted(states, before, base, size, grain) && Keeps(before, after)
    requires forall a :: base <= a < base + size && At(t.committed, a).Some? ==> Noted(after, base, grain, a)
    ensures EverNoted(states + [t], after, base, size, grain)
  {
    forall k, a | CommittedIn(states + [t], base, size, k, a) ensures Noted(after, base, grain, a) {
      if k < |states| { assert CommittedIn(states, base, size, k, a) && Noted(before, base, grain, a); }
    }
  }

  class History {
    const space: GuestAddressSpace
    ghost var states: seq<Space>
    ghost var ops: seq<Op>
    ghost var compiled: int -> bool   // the bytes of the arena code was ever compiled from

    ghost predicate Faithful()
      reads this, space
    {
      && space.Inv() && Run(states, ops) && states[|ops|] == space.Now()
      && EverNoted(states, space.committedWords, space.base, space.size, space.grain) && CompiledNoted()
    }

    ghost predicate CompiledNoted()
      reads this, space
    {
      forall a :: compiled(a) ==> Noted(space.codeWords, space.base, space.grain, a)
    }

    constructor (base: nat, size: nat, page: nat)
      requires 0 < base && 0 < page && Aligned(base, page) && Aligned(size, page) && Aligned(LOWEST_USABLE, page)
      ensures Faithful() && fresh(space) && ops == [] && (forall a :: !compiled(a))
      ensures Initial(space.Now()) && space.base == base && space.size == size && space.page == page
    {
      space := new GuestAddressSpace(base, size, page);
      new;
      states, ops, compiled := [space.Now()], [], (a: int) => false;
      EverNotedNext([], space.Now(), space.committedWords, space.committedWords, space.base, space.size, space.grain);
      assert [] + [space.Now()] == [space.Now()];
    }

    /** Notes that the space has gone one step further; `words` is its map of committed memory
        before the step. */
    ghost method Note(op: Op, s: Space, words: Words)
      requires Run(states, ops) && states[|ops|] == s && space.Inv() && 0 < s.page && Does(op, s, space.Now())
      requires EverNoted(states, words, space.base, space.size, space.grain) && Keeps(words, space.committedWords) && CompiledNoted()
      modifies this`states, this`ops
      ensures Faithful() && ops == old(ops) + [op] && states == old(states) + [space.Now()]
    {
      RunExtend(states, ops, op, space.Now());
      EverNotedNext(states, space.Now(), words, space.committedWords, space.base, space.size, space.grain);
      states, ops := states + [space.Now()], ops + [op];
    }

    method Allocate(amount: nat, hint: nat, protection: Prot, hostOk: bool) returns (address: nat)
      requires Faithful()
      modifies this`states, this`ops, space
      ensures Faithful() && old(states) <= states
      ensures address != 0 <==> hostOk && amount != 0 && !NoFit(old(space.free), 0, AlignUp(amount, space.page))
      ensures address != 0 ==> ops == old(ops) + [Commit(address, address + AlignUp(amount, space.page), protection)]
    {
      ghost var s, words := space.Now(), space.committedWords;
      ghost var place;
      var notify;
      address, notify, place := space.Allocate(amount, hint, protection, hostOk);
      ghost var length := AlignUp(amount, space.page);
      if !(amount == 0 || NoFit(s.free, 0, length)) {
        AttemptIsStep(s, space.Now(), place, length, protection, hostOk);
        FitIsInArena(s, place, length);
        Note(if hostOk then Commit(place, place + length, protection) else Refuse(place, place + length), s, words);
      }
    }

    method Release(address: nat, amount: nat) returns (ok: bool)
      requires Faithful()
      modifies this`states, this`ops, space
      ensures Faithful() && old(states) <= states
      ensures var lo, hi := AlignDown(address, GUEST_PAGE), AlignUp(address + amount, GUEST_PAGE);
        && (ok <==> 0 < amount && space.base <= lo && hi <= space.base + space.size)
        && ops == if ok then old(ops) + [Op.Release(lo, hi)] else old(ops)
    {
      ghost var s, words := space.Now(), space.committedWords;
      var notify;
      ok, notify := space.Release(address, amount);
      if ok {
        GuestPagesOrdered(address, amount);
        Note(Op.Release(AlignDown(address, GUEST_PAGE), AlignUp(address + amount, GUEST_PAGE)), s, words);
      }
    }

    /** A change of protection that is not of zero length. */
    method Protect(address: nat, amount: nat, protection: Prot) returns (changed: bool)
      requires Faithful() && 0 < amount
      modifies this`states, this`ops, space
      ensures Faithful() && old(states) <= states
      ensures var q := MakeRequest(address, amount, protection, space.page);
        && (changed <==> Meeting(old(space.committed), q))
        && ops == if changed then old(ops) + [Op.Protect(q)] else old(ops)
    {
      ghost var s, words := space.Now(), space.committedWords;
      ghost var q := MakeRequest(address, amount, protection, space.page);
      assert q.begin < q.end;
      OrdinaryRequest(space.committed, q);
      var notify;
      changed, notify := space.Protect(address, amount, protection);
      if changed {
        Note(Op.Protect(q), s, words);
      }
    }

    /** A fixed commit none of whose gaps the host refuses. */
    method CommitFixed(address: nat, amount: nat, protection: Prot, hostOk: bool) returns (ok: bool)
      requires Faithful()
      modifies this`states, this`ops, space
      ensures Faithful() && old(states) <= states
      ensures var lo, hi := AlignDown(address, space.page), AlignUp(address + amount, space.page);
        if amount == 0 || lo < space.base || space.base + space.size < hi then ops == old(ops)
        else if !Full(old(space.free), lo, hi) then ops == old(ops) + [CommitOver(lo, hi, protection)]
        else ops == old(ops) + [if hostOk then Commit(lo, hi, protection) else Refuse(lo, hi)]
    {
      ghost var s, words := space.Now(), space.committedWords;
      ghost var refused;
      var notify;
      ok, notify, refused := space.CommitFixed(address, amount, protection, hostOk, (g: Extent) => true);
      ghost var lo, hi := AlignDown(address, space.page), AlignUp(address + amount, space.page);
      if amount != 0 && space.base <= lo && hi <= space.base + space.size {
        if Full(s.free, lo, hi) {
          AttemptIsStep(s, space.Now(), lo, hi - lo, protection, ok);
          Note(if ok then Commit(lo, hi, protection) else Refuse(lo, hi), s, words);
        } else {
          assert refused == [];
          Note(CommitOver(lo, hi, protection), s, words);
        }
      }
    }

    method AdoptCopiedMapping(address: nat, length: nat, protection: Prot, written: bool) returns (ok: bool)
      requires Faithful() && Aligned(address, space.page) && Aligned(address + length, space.page)
      modifies this`states, this`ops, space
      ensures Faithful() && old(states) <= states
      ensures ok ==> |ops| == |old(ops)| + 1 && ops[|old(ops)|].Adopt?
    {
      ghost var s, words := space.Now(), space.committedWords;
      ok := space.AdoptCopiedMapping(address, length, protection, written);
      if ok {
        Note(Adopt(address, address + length, Cell(protection, s.nextEpoch, written && protection.write)), s, words);
      }
    }

    /** An adoption that keeps the invariant. */
    method AdoptExternalMapping(address: nat, length: nat, protection: Prot) returns (ok: bool)
      requires Faithful()
      requires Clear(space.free, address, address + length) && space.MayAdopt(space.committedWords, address, address + length)
      modifies this`states, this`ops, space
      ensures Faithful() && old(states) <= states
      ensures (ok <==> 0 < length) && ops == if ok then old(ops) + [AdoptOutside(address, address + length, protection)] else old(ops)
    {
      ghost var s, words := space.Now(), space.committedWords;
      ok := space.AdoptExternalMapping(address, length, protection);
      if ok {
        Note(AdoptOutside(address, address + length, protection), s, words);
      }
    }

    /** Code is compiled from [begin, end), which is noted. */
    method NoteExecutable(begin: nat, end: nat) returns (had: bool)
      requires Faithful()
      modifies this`compiled, space`codeWords
      ensures Faithful()
      ensures forall a :: compiled(a) <==> old(compiled)(a) || (begin <= a < end && space.base <= begin && end <= space.base + space.size)
      ensures (exists a :: begin <= a < end && old(compiled)(a)) ==> had
    {
      had := space.NoteExecutable(begin, end);
      ghost var was, inside := compiled, space.base <= begin && end <= space.base + space.size;
      compiled := (a: int) => was(a) || (begin <= a < end && inside);
    }

    /** Whether code may have been compiled from [begin, end), at any time: no is certain. */
    method HasHeldCode(begin: nat, end: nat) returns (had: bool)
      requires Faithful()
      ensures (exists a :: begin <= a < end && compiled(a)) ==> had
    {
      had := GrainMap.HasHeldCode(space.codeWords, space.base, space.size, space.grain, begin, end);
    }

    /** Whether the byte may have been committed, at any time: no is certain. */
    method MaybeCommitted(address: nat) returns (maybe: bool)
      requires Faithful()
      ensures (exists k :: 0 <= k < |states| && states[k].Cell(address).Some?) ==> maybe
    {
      maybe := GrainMap.MaybeCommitted(space.committedWords, space.base, space.size, space.grain, address);
      if k :| 0 <= k < |states| && states[k].Cell(address).Some? {
        assert space.base <= address < space.base + space.size ==> CommittedIn(states, space.base, space.size, k, address);
      }
    }

    method DropPages(address: nat, amount: nat)
      requires Faithful()
      modifies this`states, this`ops, space
      ensures Faithful() && old(states) <= states
    {
      ghost var s, words := space.Now(), space.committedWords;
      space.DropPages(address, amount);
      ghost var low, high := AlignUp(address, space.page), AlignDown(address + amount, space.page);
      ghost var end := if low < high && space.base <= low && high <= space.base + space.size then high else low;
      Note(Drop(low, end), s, words);
    }

    /** A store by the guest. */
    method Store(address: nat, data: seq<int>)
      requires Faithful()
      modifies this`states, this`ops, space
      ensures Faithful() && old(states) <= states && ops == old(ops) + [Write(address, address + |data|)]
      ensures forall i :: 0 <= i < |data| ==> space.bytes(address + i) == data[i]
    {
      ghost var s, words := space.Now(), space.committedWords;
      space.CopyIn(address, data);
      SameListsValid(s, space.Now());
      Note(Write(address, address + |data|), s, words);
    }

    method Restore(address: nat, data: seq<int>, epoch: nat, hostOk: bool) returns (ok: bool)
      requires Faithful()
      modifies this`states, this`ops, space
      ensures Faithful() && old(states) <= states
      ensures ok ==> ops == old(ops) + [Op.Restore(address, data, epoch)]
    {
      ghost var s, words := space.Now(), space.committedWords;
      var held;
      ok, held := space.RestoreIfUnchanged(address, data, epoch, hostOk);
      if ok {
        Note(Op.Restore(address, data, epoch), s, words);
      }
    }
  }

  lemma GuestPagesOrdered(address: nat, amount: nat)
    requires 0 < amount
    ensures AlignDown(address, GUEST_PAGE) < AlignUp(address + amount, GUEST_PAGE)
  {
  }
}
