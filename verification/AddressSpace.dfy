/** The guest's address space: an allocator over a reserved arena together with the list of
    what is committed in it. The host's page size may be any multiple of the guest's. */
module AddressSpace {
  import opened Pages
  import opened Spans
  import opened GuestView
  import opened RangeIndex
  import opened RangeEdit
  import opened SpaceSpec
  import opened SpaceOps
  import opened GrainMap
  import opened Protection
  import opened FixedCommit
  import opened FreeList
  import opened Records
  import opened Placement
  import opened Gaps

  const GUEST_PAGE := 0x1000

  class GuestAddressSpace {
    const base: nat
    const size: nat
    const page: nat
    const grain: nat
    var floor: nat
    var free: seq<Extent>
    var committed: seq<GuestRange>
    var nextEpoch: nat
    var codeWords: Words
    var committedWords: Words
    // The host's memory behind the arena.
    var bytes: int -> int
    var host: int -> Access

    ghost function Now(): Space
      reads this
    {
      Space(base, size, page, free, committed, nextEpoch, bytes, host)
    }

    /** A freshly reserved arena: everything above the lowest 64 KB is free. */
    constructor (base: nat, size: nat, page: nat)
      requires 0 < base && 0 < page && Aligned(base, page) && Aligned(size, page) && Aligned(LOWEST_USABLE, page)
      ensures Inv() && Initial(Now()) && this.base == base && this.size == size && this.page == page
      ensures floor == 0 && fresh(this)
      ensures forall k: nat :: !Marked(codeWords, k)
    {
      this.base, this.size, this.page := base, size, page;
      floor, nextEpoch, committed := 0, 1, [];
      free := if size > LOWEST_USABLE then [Span(base + LOWEST_USABLE, size - LOWEST_USABLE, ())] else [];
      bytes, host := (a: int) => 0, (a: int) => NO_ACCESS;
      var g, words := EmptyMap(size);
      grain, codeWords, committedWords := g, words, words;
      new;
      InitialValid(Now());
    }

    // ---- The free list ----

    /** Cuts [begin, end) out of extent `index`, which it meets; `kept` pieces of it stay. */
    method CutExtent(index: nat, begin: int, end: int) returns (kept: nat)
      requires index < |free| && free[index].Meets(begin, end)
      modifies this`free
      ensures free == old(free)[..index] + CarveOne(old(free)[index], begin, end) + old(free)[index + 1..]
      ensures kept == |CarveOne(old(free)[index], begin, end)|
    {
      var extent := free[index];
      var head := if extent.begin < begin then begin - extent.begin else 0;
      var tail := if end < extent.End() then extent.End() - end else 0;
      if head == 0 && tail == 0 {
        free := free[..index] + free[index + 1..];
        kept := 0;
      } else if head == 0 {
        free := free[index := extent.(begin := end, size := tail)];
        kept := 1;
      } else if tail == 0 {
        free := free[index := extent.(size := head)];
        kept := 1;
      } else {
        free := free[..index] + [extent.(size := head), extent.(begin := end, size := tail)] + free[index + 1..];
        kept := 2;
      }
    }

    /** Takes [address, address + length) if all of it is free. */
    method TakeFreeExtent(address: int, length: int) returns (ok: bool)
      requires Gapped(free) && 0 < length
      modifies this`free
      ensures ok <==> Full(old(free), address, address + length)
      ensures ok ==> Taken(old(free), free, address, address + length)
      ensures !ok ==> free == old(free)
    {
      var end := address + length;
      GappedIsSorted(free);
      var index := 0;
      while index < |free|
        invariant index <= |free| && free == old(free)
        invariant forall i :: 0 <= i < index ==> !(free[i].begin <= address && end <= free[i].End())
      {
        if address < free[index].begin || free[index].End() < end {
          index := index + 1;
          continue;
        }
        CarveInside(free, index, address, end);
        InsideIsFull(free, index, address, end);
        var kept := CutExtent(index, address, end);
        CarveTakes(old(free), address, end);
        return true;
      }
      if Full(free, address, end) {
        var i := FullInOneSpan(free, address, end);
      }
      return false;
    }

    /** Takes whatever of [begin, end) is still free. */
    method TakeFreeSpan(begin: int, end: int)
      requires begin < end && Gapped(free)
      modifies this`free
      ensures Taken(old(free), free, begin, end)
    {
      CarveTakes(free, begin, end);
      CutAll(begin, end);
    }

    /** Cuts [begin, end) out of every extent it meets. */
    method CutAll(begin: int, end: int)
      modifies this`free
      ensures free == Carve(old(free), begin, end)
    {
      var index := 0;
      ghost var was, done := free, 0;
      TakeBegin(was, begin, end);
      while index < |free|
        invariant Carving(was, free, done, index, begin, end)
        decreases |was| - done
      {
        if free[index].End() <= begin || end <= free[index].begin {
          TakeSkip(was, free, done, index, begin, end);
          done, index := done + 1, index + 1;
          continue;
        }
        TakeStep(was, free, done, index, begin, end);
        var kept := CutExtent(index, begin, end);
        done, index := done + 1, index + kept;
      }
      TakeEnd(was, free, done, index, begin, end);
    }

    /** The parts of [address, end) that are not free, in order. */
    method UnfreeParts(address: int, end: int) returns (pieces: seq<Extent>)
      requires Gapped(free) && address < end
      ensures GapsOf(pieces, free, address, end)
    {
      pieces := [];
      var cursor, index := address, 0;
      ghost var passed := 0;
      GappedIsSorted(free);
      while index < |free|
        invariant Unfreed(pieces, free, address, end, cursor, passed, index)
      {
        var other := free[index];
        if other.End() <= cursor || end <= other.begin {
          UnfreeSkip(pieces, free, address, end, cursor, passed, index);
          passed := if passed == index && other.begin < end then index + 1 else passed;
          index := index + 1;
          continue;
        }
        UnfreeOver(pieces, free, address, end, cursor, passed, index);
        pieces := if cursor < other.begin then pieces + [Span(cursor, other.begin - cursor, ())] else pieces;
        cursor := Max(cursor, other.End());
        passed, index := index + 1, index + 1;
      }
      UnfreeEnd(pieces, free, address, end, cursor, passed);
      pieces := if cursor < end then pieces + [Span(cursor, end - cursor, ())] else pieces;
    }

    /** Puts a span none of which is free on the list, joined to its neighbours. */
    method InsertFree(address: int, length: int)
      requires Gapped(free) && 0 < length && Clear(free, address, address + length)
      modifies this`free
      ensures Freed(old(free), free, address, address + length)
    {
      var freed := Span(address, length, ());
      var i := 0;
      while i < |free| && free[i].begin < address
        invariant 0 <= i <= |free| && (i > 0 ==> free[i - 1].begin < address)
      {
        i := i + 1;
      }
      JoinedFrees(free, i, freed);
      JoinBoth(free, i, freed);
      free := free[..i] + [freed] + free[i..];
      MergeWithNext(i);
      if i > 0 {
        MergeWithNext(i - 1);
      }
    }

    /** Joins extent `i` to the next one if they touch. */
    method MergeWithNext(i: nat)
      modifies this`free
      ensures free == MergedAt(old(free), i)
    {
      if i + 1 < |free| && free[i].End() == free[i + 1].begin {
        free := free[..i] + [free[i].(size := free[i].size + free[i + 1].size)] + free[i + 2..];
      }
    }

    /** Puts [address, address + length) back on the free list, whatever of it was there
        already. */
    method ReturnFreeExtent(address: int, length: int)
      requires Gapped(free) && 0 <= length
      modifies this`free
      ensures Freed(old(free), free, address, address + length)
      decreases if Clear(free, address, address + length) then 0 else 2
    {
      if length == 0 {
        return;
      }
      var end := address + length;
      var index := 0;
      GappedIsSorted(free);
      while index < |free|
        invariant 0 <= index <= |free| && free == old(free)
        invariant forall i :: 0 <= i < index ==> !free[i].Meets(address, end)
      {
        if free[index].begin < end && address < free[index].End() {
          MeetsIsNotClear(free, index, address, end);
          var pieces := UnfreeParts(address, end);
          ReturnPieces(pieces, address, end);
          return;
        }
        index := index + 1;
      }
      MissesIsClear(free, address, end);
      InsertFree(address, length);
    }

    /** Frees the unfree parts of [address, end) one at a time. */
    method ReturnPieces(pieces: seq<Extent>, address: int, end: int)
      requires Gapped(free) && address < end && GapsOf(pieces, free, address, end)
      modifies this`free
      ensures Freed(old(free), free, address, end)
      decreases 1
    {
      var k := 0;
      while k < |pieces|
        invariant 0 <= k <= |pieces| && Gapped(free)
        invariant forall a :: At(free, a).Some? <==> At(old(free), a).Some? || At(pieces[..k], a).Some?
      {
        PieceStep(old(free), free, pieces, k, address, end);
        ReturnFreeExtent(pieces[k].begin, pieces[k].size);
        k := k + 1;
      }
      assert pieces[..k] == pieces;
    }

    // ---- The committed list ----

    /** Joins neighbours that are one mapping in two pieces, in place. */
    method Coalesce()
      modifies this`committed
      ensures committed == Coalesced(old(committed))
    {
      var out, index := 0, 0;
      while index < |committed|
        invariant Joining(old(committed), committed, out, index)
      {
        if out > 0 && committed[out - 1].End() == committed[index].begin && committed[out - 1].tag == committed[index].tag {
          var joined := committed[out - 1].(size := committed[out - 1].size + committed[index].size);
          JoinMerge(old(committed), committed, out, index, joined);
          committed := committed[out - 1 := joined];
          index := index + 1;
          continue;
        }
        JoinMove(old(committed), committed, out, index);
        committed := committed[out := committed[index]];
        out, index := out + 1, index + 1;
      }
      assert old(committed)[..index] == old(committed);
      committed := committed[..out];
    }

    /** Marks the grains of an in-arena span as having held guest memory. */
    method NoteCommitted(address: nat, length: nat)
      requires 0 < grain && |committedWords| == size / grain / 64 + 1
      modifies this`committedWords
      ensures Keeps(old(committedWords), committedWords)
      ensures base <= address && 0 < length && address + length <= base + size ==>
        forall a :: address <= a < address + length ==> Noted(committedWords, base, grain, a)
      ensures !(base <= address && 0 < length && address + length <= base + size) ==> committedWords == old(committedWords)
    {
      if length == 0 || address < base || base + size < address + length {
        return;
      }
      var had: bool;
      had, committedWords := GrainMap.NoteExecutable(committedWords, base, size, grain, address, address + length);
    }

    /** What is left of the committed list outside [begin, end), and whether any of it was
        inside. */
    method Survivors(begin: int, end: int) returns (updated: seq<GuestRange>, met: bool)
      ensures updated == Carve(committed, begin, end)
      ensures met <==> exists i :: 0 <= i < |committed| && committed[i].Meets(begin, end)
    {
      updated, met := [], false;
      var i := 0;
      while i < |committed|
        invariant 0 <= i <= |committed| && updated == Carve(committed[..i], begin, end)
        invariant met <==> exists k :: 0 <= k < i && committed[k].Meets(begin, end)
      {
        CarveNext(committed, i, begin, end);
        updated := updated + CarveOne(committed[i], begin, end);
        if committed[i].Meets(begin, end) {
          met := true;
        }
        i := i + 1;
      }
      assert committed[..i] == committed;
    }

    /** Records [address, address + length) under a new epoch, taking it away from anything
        that held it. */
    method RecordCommitted(address: nat, length: nat, protection: Prot)
      requires Sorted(committed) && 0 < length && 0 < grain && |committedWords| == size / grain / 64 + 1
      modifies this`committed, this`nextEpoch, this`committedWords
      ensures Recorded(old(committed), committed, address, address + length, Cell(protection, old(nextEpoch), protection.write))
      ensures nextEpoch == old(nextEpoch) + 1
      ensures Keeps(old(committedWords), committedWords)
      ensures base <= address && address + length <= base + size ==>
        forall a :: address <= a < address + length ==> Noted(committedWords, base, grain, a)
      ensures !(base <= address && address + length <= base + size) ==> committedWords == old(committedWords)
    {
      NoteCommitted(address, length);
      Install(Span(address, length, Cell(protection, nextEpoch, protection.write)));
      nextEpoch := nextEpoch + 1;
    }

    /** Puts `range` on the list: whatever was there is clipped around it. */
    method Install(range: GuestRange)
      requires Sorted(committed) && 0 < range.size
      modifies this`committed
      ensures Recorded(old(committed), committed, range.begin, range.End(), range.tag)
    {
      var updated, met := Survivors(range.begin, range.End());
      committed := SortByBegin(updated + [range]);
      assert range == Span(range.begin, range.End() - range.begin, range.tag);
      Coalesce();
      PutRecords(old(committed), range.begin, range.End(), range.tag);
    }

    // ---- Host pages ----

    /** Maps [low, high) afresh: nothing behind it, no access. */
    method MapFreshAnonymous(low: int, high: int)
      modifies this`bytes, this`host
      ensures forall a :: bytes(a) == if low <= a < high then 0 else old(bytes)(a)
      ensures forall a :: host(a) == if low <= a < high then NO_ACCESS else old(host)(a)
    {
      var bytes0, host0 := bytes, host;
      bytes := (a: int) => if low <= a < high then 0 else bytes0(a);
      host := (a: int) => if low <= a < high then NO_ACCESS else host0(a);
    }

    /** Gives [low, high) the access `access`. */
    method HostProtect(low: int, high: int, access: Access)
      modifies this`host
      ensures forall a :: host(a) == if low <= a < high then access else old(host)(a)
    {
      var host0 := host;
      host := (a: int) => if low <= a < high then access else host0(a);
    }

    /** Maps afresh the whole host pages inside a gap. */
    method Fill(gap: Extent)
      requires 0 < page && 0 <= gap.begin <= gap.End()
      modifies this`bytes, this`host
      ensures forall a :: bytes(a) == if At(ShrinkOne(gap, page), a).Some? then 0 else old(bytes)(a)
      ensures forall a :: host(a) == if At(ShrinkOne(gap, page), a).Some? then NO_ACCESS else old(host)(a)
    {
      var low, high := AlignUp(gap.begin, page), AlignDown(gap.End(), page);
      if low < high {
        MapFreshAnonymous(low, high);
      }
    }

    /** Maps afresh the whole host pages inside each gap. */
    method FillGaps(gaps: seq<Extent>)
      requires 0 < page && NonNegative(gaps)
      modifies this`bytes, this`host
      ensures Filled(gaps, page, old(bytes), bytes, old(host), host)
    {
      var k := 0;
      while k < |gaps|
        invariant 0 <= k <= |gaps|
        invariant Filled(gaps[..k], page, old(bytes), bytes, old(host), host)
      {
        assert gaps[..k + 1] == gaps[..k] + [gaps[k]];
        ShrunkSnoc(gaps[..k], gaps[k], page);
        Fill(gaps[k]);
        k := k + 1;
      }
      assert gaps[..k] == gaps;
    }

    /** Zeroes the host pages of [begin, end) nothing lives in, then gives every host page the
        span touches the access `access`, if the host agrees (`hostOk`). */
    method CommitRange(begin: nat, end: nat, access: Access, hostOk: bool) returns (ok: bool)
      requires 0 < page && begin < end && Sorted(committed)
      modifies this`bytes, this`host
      ensures ok == hostOk
      ensures forall a :: bytes(a) == if VacantPage(committed, page, begin, end, a) then 0 else old(bytes)(a)
      ensures ok ==> forall a :: AlignDown(begin, page) <= a < AlignUp(end, page) ==> host(a) == access
      ensures forall a :: !(ok && AlignDown(begin, page) <= a < AlignUp(end, page)) ==>
        host(a) == if VacantPage(committed, page, begin, end, a) then NO_ACCESS else old(host)(a)
    {
      var gaps := WalkGaps(committed, begin, end);
      FillGaps(gaps);
      FilledIsVacant(gaps, committed, page, begin, end, old(bytes), bytes, old(host), host);
      ok := hostOk;
      if ok {
        HostProtect(AlignDown(begin, page), AlignUp(end, page), access);
      }
    }

    // ---- The invariant ----

    ghost predicate MapsOk()
      reads this
    {
      && 0 < grain && |codeWords| == size / grain / 64 + 1 && |committedWords| == size / grain / 64 + 1
      && (forall a :: base <= a < base + size && At(committed, a).Some? ==> Noted(committedWords, base, grain, a))
    }

    ghost predicate Inv()
      reads this
    {
      Valid(Now()) && MapsOk()
    }

    // ---- Allocation ----

    /** The first place at or above `lowest` with room for `length` bytes. */
    method FirstFit(lowest: nat, length: nat) returns (found: bool, address: int)
      requires Gapped(free) && 0 < length
      ensures found ==> LeastFit(free, lowest, length, address)
      ensures found ==> address == lowest || exists i :: 0 <= i < |free| && free[i].begin == address
      ensures !found ==> NoFit(free, lowest, length)
    {
      var index := 0;
      while index < |free|
        invariant 0 <= index <= |free|
        invariant forall i :: 0 <= i < index ==> free[i].End() < Max(free[i].begin, lowest) + length
      {
        var from := Max(free[index].begin, lowest);
        if free[index].End() <= from || free[index].End() - from < length {
          index := index + 1;
          continue;
        }
        GappedIsSorted(free);
        InsideIsFull(free, index, from, from + length);
        FirstFitIsLeast(free, index, lowest, length);
        return true, from;
      }
      FirstFitIsLeast(free, index, lowest, length);
      return false, 0;
    }

    /** Takes [address, address + length) off the free list, commits it on the host and
        records it; a host refusal puts it back. */
    method TakeAndCommit(address: nat, length: nat, protection: Prot, hostOk: bool) returns (taken: bool, ok: bool)
      requires Inv() && 0 < length && Aligned(address, page) && Aligned(length, page)
      requires base <= address && address + length <= base + size
      modifies this
      ensures Inv() && floor == old(floor) && codeWords == old(codeWords)
      ensures Keeps(old(committedWords), committedWords)
      ensures taken <==> Full(old(free), address, address + length)
      ensures ok <==> taken && hostOk
      ensures taken ==> Attempted(old(Now()), Now(), address, length, protection, ok)
      ensures !taken ==> Now() == old(Now())
    {
      ghost var before := Now();
      var end := address + length;
      ok := false;
      AlignedSum(address, length, page);
      taken := TakeFreeExtent(address, length);
      if !taken {
        return;
      }
      assert FreeRun(before, address, end);
      RunIsVacant(before, address, end);
      AlignedFixed(address, page);
      AlignedFixed(end, page);
      ok := CommitRange(address, end, ToHost(protection), hostOk);
      if !ok {
        ghost var taken' := free;
        ReturnFreeExtent(address, length);
        ReturnUndoesTake(before.free, taken', free, address, end);
        RefusalKeepsValid(before, Now(), address, end);
        return;
      }
      RecordCommitted(address, length, protection);
      CommitKeepsValid(before, Now(), address, end, protection);
    }

    /** Reserves and commits `amount` bytes, rounded up to host pages: at the hint if it is in
        the arena and free, else at the first fit at or above the floor, else at the first
        fit. Returns 0 when there is no room or the host refuses. `notify` is the span whose
        compiled code must go. */
    method Allocate(amount: nat, hint: nat, protection: Prot, hostOk: bool)
      returns (address: nat, notify: Option<Extent>, ghost place: nat)
      requires Inv()
      modifies this
      ensures Inv() && floor == old(floor) && codeWords == old(codeWords)
      ensures Keeps(old(committedWords), committedWords)
      ensures var length := AlignUp(amount, page);
        if amount == 0 || NoFit(old(free), 0, length) then
          address == 0 && notify.None? && Now() == old(Now())
        else
          && (if HintFits(old(Now()), hint, length) then place == AlignDown(hint, page)
              else FirstFitPlace(old(Now()), old(floor), length, place))
          && Attempted(old(Now()), Now(), place, length, protection, hostOk)
          && address == (if hostOk then place else 0)
          && (!hostOk ==> notify.None?)
      ensures address != 0 && (exists a :: address <= a < address + AlignUp(amount, page) && Noted(codeWords, base, grain, a)) ==>
        notify == Some(Span(address, AlignUp(amount, page), ()))
    {
      address, notify, place := 0, None, 0;
      if amount == 0 {
        return;
      }
      var length := AlignUp(amount, page);
      var from := AlignDown(hint, page);
      var taken, ok := AtHint(hint, length, protection, hostOk);
      if !taken {
        taken, ok, from := AtFirstFit(length, protection, hostOk);
      }
      place := from;
      if ok {
        address := from;
        notify := HeldCode(address, length);
      }
    }

    method AtHint(hint: nat, length: nat, protection: Prot, hostOk: bool) returns (taken: bool, ok: bool)
      requires Inv() && 0 < length && Aligned(length, page)
      modifies this
      ensures Inv() && floor == old(floor) && codeWords == old(codeWords)
      ensures Keeps(old(committedWords), committedWords)
      ensures taken <==> HintFits(old(Now()), hint, length)
      ensures !taken ==> Now() == old(Now())
      ensures taken ==> Attempted(old(Now()), Now(), AlignDown(hint, page), length, protection, ok)
      ensures ok <==> taken && hostOk
    {
      taken, ok := false, false;
      if hint != 0 {
        var alignedHint := AlignDown(hint, page);
        if base <= alignedHint && alignedHint + length <= base + size {
          taken, ok := TakeAndCommit(alignedHint, length, protection, hostOk);
        }
      }
    }

    method AtFirstFit(length: nat, protection: Prot, hostOk: bool) returns (found: bool, ok: bool, from: nat)
      requires Inv() && 0 < length && Aligned(length, page)
      modifies this
      ensures Inv() && floor == old(floor) && codeWords == old(codeWords)
      ensures Keeps(old(committedWords), committedWords)
      ensures found <==> !NoFit(old(free), 0, length)
      ensures !found ==> Now() == old(Now())
      ensures found ==> Attempted(old(Now()), Now(), from, length, protection, ok)
      ensures found ==> FirstFitPlace(old(Now()), old(floor), length, from)
      ensures ok <==> found && hostOk
    {
      found, ok, from := false, false, 0;
      var place := 0;
      if floor != 0 {
        found, place := FirstFit(AlignUp(floor, page), length);
      }
      if !found {
        found, place := FirstFit(0, length);
      }
      if !found {
        return;
      }
      FitIsInArena(Now(), place, length);
      FitIsAligned(Now(), AlignUp(floor, page), place);
      from := place;
      var taken;
      taken, ok := TakeAndCommit(from, length, protection, hostOk);
    }

    /** The span to tell the observer about, if it may ever have held code. */
    method HeldCode(address: nat, length: nat) returns (notify: Option<Extent>)
      requires 0 < grain && |codeWords| == size / grain / 64 + 1
      ensures notify.Some? ==> notify.value == Span(address, length, ())
      ensures (exists a :: address <= a < address + length && Noted(codeWords, base, grain, a)) ==> notify.Some?
    {
      var had := HasHeldCode(codeWords, base, size, grain, address, address + length);
      notify := if had then Some(Span(address, length, ())) else None;
    }

    /** Notes that code is about to be compiled from [begin, end), and says whether any may have
        been before: no is certain. */
    method NoteExecutable(begin: nat, end: nat) returns (had: bool)
      requires Inv()
      modifies this`codeWords
      ensures Inv() && Keeps(old(codeWords), codeWords)
      ensures base <= begin < end <= base + size ==> forall a :: begin <= a < end ==> Noted(codeWords, base, grain, a)
      ensures (exists a :: begin <= a < end && Noted(old(codeWords), base, grain, a)) ==> had
      ensures !(base <= begin < end <= base + size) ==> had && codeWords == old(codeWords)
    {
      had, codeWords := GrainMap.NoteExecutable(codeWords, base, size, grain, begin, end);
    }

    // ---- Release ----

    /** Takes [begin, end) off the committed list. */
    method DropCommitted(begin: int, end: int) returns (met: bool)
      requires Sorted(committed) && begin < end
      modifies this`committed
      ensures Dropped(old(committed), committed, begin, end)
      ensures met <==> !Clear(old(committed), begin, end)
    {
      var survivors;
      CarveDrops(committed, begin, end);
      survivors, met := Survivors(begin, end);
      MetIsNotClear(committed, begin, end);
      committed := survivors;
      Coalesce();
    }

    /** Puts the whole host pages inside a gap on the free list. */
    method ReturnWhole(gap: Extent)
      requires 0 < page && 0 <= gap.begin <= gap.End() && Gapped(free)
      modifies this`free
      ensures Gapped(free)
      ensures forall a :: At(free, a).Some? <==> At(old(free), a).Some? || At(ShrinkOne(gap, page), a).Some?
    {
      var low, high := AlignUp(gap.begin, page), AlignDown(gap.End(), page);
      if low < high {
        ReturnFreeExtent(low, high - low);
      }
    }

    method ReturnGaps(gaps: seq<Extent>)
      requires 0 < page && NonNegative(gaps) && Gapped(free)
      modifies this`free
      ensures Gapped(free) && FreedInside(old(free), free, gaps, page)
    {
      var k := 0;
      while k < |gaps|
        invariant 0 <= k <= |gaps| && Gapped(free)
        invariant FreedInside(old(free), free, gaps[..k], page)
      {
        assert gaps[..k + 1] == gaps[..k] + [gaps[k]];
        ShrunkSnoc(gaps[..k], gaps[k], page);
        ReturnWhole(gaps[k]);
        k := k + 1;
      }
      assert gaps[..k] == gaps;
    }

    /** Hands the host pages of [outer, outerEnd) that nothing lives in back to the host, and
        then to the free list. */
    method VacatePages(outer: nat, outerEnd: nat)
      requires 0 < page && Sorted(committed) && Gapped(free)
      modifies this`free, this`bytes, this`host
      ensures Gapped(free)
      ensures forall a :: At(free, a).Some? <==> At(old(free), a).Some? || VacantPage(committed, page, outer, outerEnd, a)
      ensures forall a :: bytes(a) == if VacantPage(committed, page, outer, outerEnd, a) then 0 else old(bytes)(a)
      ensures forall a :: host(a) == if VacantPage(committed, page, outer, outerEnd, a) then NO_ACCESS else old(host)(a)
    {
      var gaps := UncommittedIn(committed, outer, outerEnd);
      GapsNonNegative(gaps, committed, outer, outerEnd);
      FillGaps(gaps);
      FilledIsVacant(gaps, committed, page, outer, outerEnd, old(bytes), bytes, old(host), host);
      gaps := UncommittedIn(committed, outer, outerEnd);
      GapsNonNegative(gaps, committed, outer, outerEnd);
      ReturnGaps(gaps);
      forall a ensures At(Shrunk(gaps, page), a).Some? <==> VacantPage(committed, page, outer, outerEnd, a) {
        ShrunkAt(gaps, committed, page, outer, outerEnd, a);
      }
    }

    /** Releases a range in the guest's pages, and every host page it leaves empty. */
    method Release(address: nat, amount: nat) returns (ok: bool, notify: Option<Extent>)
      requires Inv()
      modifies this
      ensures Inv() && floor == old(floor) && codeWords == old(codeWords) && committedWords == old(committedWords)
      ensures var begin, end := AlignDown(address, GUEST_PAGE), AlignUp(address + amount, GUEST_PAGE);
        && (ok <==> 0 < amount && base <= begin && end <= base + size)
        && (!ok ==> Now() == old(Now()) && notify.None?)
        && (ok ==> Releases(old(Now()), Now(), begin, end))
        && (ok ==> notify == if Clear(old(committed), begin, end) then None else Some(Span(begin, end - begin, ())))
    {
      ok, notify := false, None;
      if amount == 0 {
        return;
      }
      var begin, end := AlignDown(address, GUEST_PAGE), AlignUp(address + amount, GUEST_PAGE);
      if begin < base || base + size < end {
        return;
      }
      ghost var before := Now();
      var met := DropCommitted(begin, end);
      VacatePages(AlignDown(begin, page), AlignUp(end, page));
      ReleaseKeepsValid(before, Now(), begin, end);
      ok := true;
      if met {
        notify := Some(Span(begin, end - begin, ()));
      }
    }

    // ---- Protection ----

    /** The committed list with the request applied, and whether it touched anything. */
    method ApplyRequest(q: Request) returns (updated: seq<GuestRange>, touched: bool)
      ensures updated == Reprotected(committed, q)
      ensures touched <==> exists i :: 0 <= i < |committed| && committed[i].Meets(q.begin, q.end)
    {
      updated, touched := [], false;
      var i := 0;
      while i < |committed|
        invariant 0 <= i <= |committed| && updated == Reprotected(committed[..i], q)
        invariant touched <==> exists k :: 0 <= k < i && committed[k].Meets(q.begin, q.end)
      {
        ReprotectNext(committed, i, q);
        updated := updated + ReprotectOne(committed[i], q);
        if committed[i].Meets(q.begin, q.end) {
          touched := true;
        }
        i := i + 1;
      }
      assert committed[..i] == committed;
    }

    /** Records a new protection over the host pages the request touches, exactly as asked on
        ranges lying wholly inside it and joined with what they had elsewhere. */
    method ProtectLocked(address: nat, amount: nat, protection: Prot) returns (changed: bool)
      requires 0 < page
      modifies this`committed, this`host
      ensures changed <==> Meeting(old(committed), MakeRequest(address, amount, protection, page))
      ensures changed ==> Applied(old(Now()), Now(), MakeRequest(address, amount, protection, page))
      ensures !changed ==> Now() == old(Now())
    {
      var q := MakeRequest(address, amount, protection, page);
      var updated;
      updated, changed := ApplyRequest(q);
      if !changed {
        return;
      }
      committed := SortByBegin(updated);
      Coalesce();
      if protection.write {
        HostProtect(q.begin, q.end, READ_WRITE);
      }
    }

    /** A change of protection. */
    method Protect(address: nat, amount: nat, protection: Prot) returns (changed: bool, notify: Option<Extent>)
      requires Inv()
      modifies this`committed, this`host
      ensures changed <==> Meeting(old(committed), MakeRequest(address, amount, protection, page))
      ensures changed ==> Applied(old(Now()), Now(), MakeRequest(address, amount, protection, page))
      ensures changed && 0 < amount ==> GrantsAsked(old(Now()), Now(), address, amount, protection)
      ensures !changed ==> Now() == old(Now()) && notify.None?
      ensures Inv() <==> !changed || Harmless(old(committed), MakeRequest(address, amount, protection, page))
      ensures var lo, hi := AlignDown(address, page), AlignUp(address + amount, page);
        && (notify.Some? ==> notify.value == Span(lo, hi - lo, ()))
        && (changed && (exists a :: lo <= a < hi && Noted(codeWords, base, grain, a)) ==> notify.Some?)
    {
      ghost var before := Now();
      ghost var q := MakeRequest(address, amount, protection, page);
      notify := None;
      changed := ProtectLocked(address, amount, protection);
      RequestOrdered(address, amount, protection, page);
      if changed {
        AppliedValid(before, Now(), q);
        if 0 < amount { AppliedGrants(before, Now(), address, amount, protection); }
        notify := HeldCode(AlignDown(address, page), AlignUp(address + amount, page) - AlignDown(address, page));
      }
    }

    // ---- Fixed commits ----

    /** Takes one gap of a fixed span and commits it, unless the host refuses. */
    method CommitGap(gap: Extent, protection: Prot, hostOk: bool, ghost t: Space) returns (ghost u: Space)
      requires 0 < page && 0 <= gap.begin < gap.End() && t == Now() && ListsOk(t)
      requires base <= gap.begin && gap.End() <= base + size && MapsOk()
      modifies this`free, this`committed, this`nextEpoch, this`committedWords, this`bytes, this`host
      ensures u == Now() && GapDone(t, u, gap, hostOk, protection) && ListsOk(u)
      ensures MapsOk() && Keeps(old(committedWords), committedWords)
    {
      TakeFreeSpan(gap.begin, gap.End());
      var ok := CommitRange(gap.begin, gap.End(), ToHost(protection), hostOk);
      if ok {
        GapPages(committed, gap, page);
        RecordCommitted(gap.begin, gap.size, protection);
      }
      u := Now();
    }

    /** Commits every gap of a fixed span; `refused` collects those the host would not. */
    method CommitGaps(gaps: seq<Extent>, lo: nat, hi: nat, protection: Prot, gapOk: Extent -> bool)
      returns (ghost refused: seq<Extent>)
      requires Inv() && base <= lo < hi <= base + size && GapsOf(gaps, committed, lo, hi) && NonNegative(gaps)
      modifies this`free, this`committed, this`nextEpoch, this`committedWords, this`bytes, this`host
      ensures GapsDone(old(Now()), Now(), gaps, refused, protection)
      ensures refused == Refusals(gaps, gapOk)
      ensures MapsOk() && Keeps(old(committedWords), committedWords)
    {
      ghost var before, now := Now(), Now();
      GapsNonNegative(gaps, committed, lo, hi);
      var k := 0;
      while k < |gaps|
        invariant 0 <= k <= |gaps| && now == Now() && GapsDone(before, now, gaps[..k], Refusals(gaps[..k], gapOk), protection)
        invariant MapsOk() && Keeps(old(committedWords), committedWords)
      {
        ghost var mid := now;
        now := CommitGap(gaps[k], protection, gapOk(gaps[k]), mid);
        GapsNext(before, mid, now, gaps, k, lo, hi, gapOk, protection);
        k := k + 1;
      }
      assert gaps[..k] == gaps;
      refused := Refusals(gaps, gapOk);
    }

    /** Commits the host pages of an explicit span. If all of it is free this is a commit like
        any other; otherwise the free gaps are committed and the whole span is reprotected. */
    method CommitFixed(address: nat, amount: nat, protection: Prot, hostOk: bool, gapOk: Extent -> bool)
      returns (ok: bool, notify: Option<Extent>, ghost refused: seq<Extent>)
      requires Inv()
      modifies this
      ensures floor == old(floor) && codeWords == old(codeWords) && Keeps(old(committedWords), committedWords) && MapsOk()
      ensures var lo, hi := AlignDown(address, page), AlignUp(address + amount, page);
        if amount == 0 || lo < base || base + size < hi then
          !ok && notify.None? && Now() == old(Now())
        else if Full(old(free), lo, hi) then
          Inv() && ok == hostOk && Attempted(old(Now()), Now(), lo, hi - lo, protection, ok)
        else
          && FixedOver(old(Now()), Now(), lo, hi, refused, protection) && WholeGaps(old(Now()), lo, hi, refused)
          && ((forall g :: gapOk(g)) ==> refused == []) && TurnedDown(old(committed), lo, hi, refused, gapOk)
          && (Inv() <==> forall a :: base + LOWEST_USABLE <= a && At(refused, a).Some? ==> !old(Now()).PageClear(a))
          && notify.None? && (ok <==> !Clear(committed, lo, hi))
      ensures !ok ==> notify.None?
      ensures var lo, hi := AlignDown(address, page), AlignUp(address + amount, page);
        ok && Full(old(free), lo, hi) && (exists a :: lo <= a < hi && Noted(codeWords, base, grain, a)) ==> notify == Some(Span(lo, hi - lo, ()))
    {
      ok, notify, refused := false, None, [];
      if amount == 0 {
        return;
      }
      var lo, hi := AlignDown(address, page), AlignUp(address + amount, page);
      if lo < base || base + size < hi {
        return;
      }
      var taken;
      AlignedDifference(hi, lo, page);
      taken, ok := TakeAndCommit(lo, hi - lo, protection, hostOk);
      if !taken {
        ok, refused := CommitOver(lo, hi, protection, gapOk);
      } else if ok {
        notify := HeldCode(lo, hi - lo);
      }
    }

    method CommitOver(lo: nat, hi: nat, protection: Prot, gapOk: Extent -> bool)
      returns (ok: bool, ghost refused: seq<Extent>)
      requires Inv() && base <= lo < hi <= base + size && Aligned(lo, page) && Aligned(hi, page)
      modifies this`free, this`committed, this`nextEpoch, this`committedWords, this`bytes, this`host
      ensures FixedOver(old(Now()), Now(), lo, hi, refused, protection) && WholeGaps(old(Now()), lo, hi, refused)
      ensures ((forall g :: gapOk(g)) ==> refused == []) && TurnedDown(old(committed), lo, hi, refused, gapOk)
      ensures MapsOk() && Keeps(old(committedWords), committedWords) && (ok <==> !Clear(committed, lo, hi))
      ensures Inv() <==> forall a :: base + LOWEST_USABLE <= a && At(refused, a).Some? ==> !old(Now()).PageClear(a)
    {
      ghost var before := Now();
      var gaps := UncommittedIn(committed, lo, hi);
      GapsNonNegative(gaps, committed, lo, hi);
      RefusalsAreWhole(before, gaps, gapOk, lo, hi);
      RefusalsTurnedDown(gaps, committed, gapOk, lo, hi);
      if forall g :: gapOk(g) { NoRefusals(gaps, gapOk); }
      refused := CommitGaps(gaps, lo, hi, protection, gapOk);
      ghost var mid := Now();
      ghost var after;
      ok, after := ProtectWhole(lo, hi, protection, mid);
      FixedOverFinish(before, mid, after, gaps, refused, lo, hi, protection);
      RefusedGapLeaks(before, after, lo, hi, refused, protection);
    }

    /** Reprotects whole host pages; `t` is the state before and `u` the state after. */
    method ProtectWhole(lo: nat, hi: nat, protection: Prot, ghost t: Space) returns (changed: bool, ghost u: Space)
      requires 0 < page && t == Now() && ListsOk(t) && lo < hi && Aligned(lo, page) && Aligned(hi, page)
      modifies this`committed, this`host
      ensures u == Now() && Reprotection(t, u, lo, hi, protection)
      ensures changed <==> !Clear(t.committed, lo, hi)
    {
      changed := ProtectLocked(lo, hi - lo, protection);
      u := Now();
      WholePagesProtected(t, u, lo, hi, protection, changed);
    }

    // ---- Mappings made by other means, and saved copies ----

    /** Records a mapping another process's memory was remapped into. The invariant survives exactly
        when the span is whole host pages, or is turned down. */
    method AdoptCopiedMapping(address: nat, length: nat, protection: Prot, written: bool) returns (ok: bool)
      requires Inv()
      modifies this`free, this`committed, this`nextEpoch, this`committedWords
      ensures Keeps(old(committedWords), committedWords) && MapsOk()
      ensures Inv() <==> !ok || (Aligned(address, page) && Aligned(address + length, page))
      ensures ok <==> 0 < length && base <= address && address + length <= base + size
                      && Full(old(free), address, address + length)
      ensures ok ==> Adopts(old(Now()), Now(), address, address + length,
                            Cell(protection, old(nextEpoch), written && protection.write))
      ensures !ok ==> Now() == old(Now())
    {
      if length == 0 || address < base || base + size < address + length {
        return false;
      }
      ghost var before := Now();
      ok := TakeFreeExtent(address, length);
      if !ok {
        return;
      }
      forall a | At(committed, a).Some? ensures At(committed, a).value.epoch < nextEpoch {
        assert before.Cell(a).Some?;
      }
      RecordAdopted(address, length, protection, written);
      AdoptValidIff(before, Now(), address, address + length, Cell(protection, before.nextEpoch, written && protection.write));
    }

    method RecordAdopted(address: nat, length: nat, protection: Prot, written: bool)
      requires Sorted(committed) && 0 < length && 0 < grain && |committedWords| == size / grain / 64 + 1
      requires forall a :: At(committed, a).Some? ==> At(committed, a).value.epoch < nextEpoch
      modifies this`committed, this`nextEpoch, this`committedWords
      ensures Recorded(old(committed), committed, address, address + length,
                       Cell(protection, old(nextEpoch), written && protection.write))
      ensures nextEpoch == old(nextEpoch) + 1
      ensures Keeps(old(committedWords), committedWords)
      ensures base <= address && address + length <= base + size ==>
        forall a :: address <= a < address + length ==> Noted(committedWords, base, grain, a)
    {
      RecordCommitted(address, length, protection);
      if !written {
        MarkUnwritten(address, length, old(committed), Cell(protection, old(nextEpoch), protection.write));
      }
    }

    /** Clears the written flag of the range that is exactly [address, address + length). */
    method MarkUnwritten(address: nat, length: nat, ghost was: seq<GuestRange>, ghost cell: Cell)
      requires Recorded(was, committed, address, address + length, cell) && 0 < length
      requires forall a :: At(was, a).Some? ==> At(was, a).value.epoch != cell.epoch
      modifies this`committed
      ensures Recorded(was, committed, address, address + length, cell.(written := false))
    {
      ghost var k := FreshRange(was, committed, address, address + length, cell);
      var i := 0;
      while i < |committed|
        invariant 0 <= i <= |committed|
        invariant committed == if k < i then old(committed)[k := Unwritten(old(committed)[k])] else old(committed)
      {
        if committed[i].begin == address && committed[i].size == length {
          SameStart(old(committed), k, i);
          committed := committed[i := Unwritten(committed[i])];
        }
        i := i + 1;
      }
      UnwrittenRecorded(was, old(committed), address, address + length, cell, k);
    }

    /** Takes ownership of a mapping made elsewhere. The invariant survives exactly when nothing
        free is taken over and no byte of the arena goes unnoted, as the part inside does of a
        span across an end of the arena. */
    method AdoptExternalMapping(address: nat, length: nat, protection: Prot) returns (ok: bool)
      requires Inv()
      modifies this`committed, this`nextEpoch, this`committedWords
      ensures Keeps(old(committedWords), committedWords)
      ensures Inv() <==> Clear(free, address, address + length) && MayAdopt(old(committedWords), address, address + length)
      ensures ok <==> 0 < length
      ensures ok ==> AdoptsOutside(old(Now()), Now(), address, address + length, protection)
      ensures !ok ==> Now() == old(Now())
    {
      if length == 0 {
        return false;
      }
      ghost var before, words := Now(), committedWords;
      RecordCommitted(address, length, protection);
      ghost var after := Now();
      AdoptedIsNoted(before, after, words, address, length, protection);
      AdoptOutsideKeepsValid(before, after, address, address + length, protection);
      return true;
    }

    /** The span lies in the arena, or what it has of the arena has been noted before. */
    ghost predicate MayAdopt(words: Words, lo: int, hi: int)
      reads this
      requires 0 < grain
    {
      (base <= lo && hi <= base + size) || forall a :: lo <= a < hi && base <= a < base + size ==> Noted(words, base, grain, a)
    }

    lemma AdoptedIsNoted(s: Space, t: Space, words: Words, address: nat, length: nat, protection: Prot)
      requires t == Now() && 0 < grain && 0 < length && AdoptsOutside(s, t, address, address + length, protection)
      requires |codeWords| == size / grain / 64 + 1 && |words| == size / grain / 64 + 1 && Keeps(words, committedWords)
      requires forall a :: base <= a < base + size && At(s.committed, a).Some? ==> Noted(words, base, grain, a)
      requires if base <= address && address + length <= base + size
               then forall a :: address <= a < address + length ==> Noted(committedWords, base, grain, a)
               else committedWords == words
      ensures MapsOk() <==> MayAdopt(words, address, address + length)
    {
      forall a ensures At(committed, a).Some? <==> address <= a < address + length || At(s.committed, a).Some? {
        assert At(t.committed, a) == if address <= a < address + length then Some(FreshCell(s, protection)) else At(s.committed, a);
      }
      forall a | Noted(words, base, grain, a) ensures Noted(committedWords, base, grain, a) {}
    }

    /** Makes the whole host pages of a committed range read as zero by mapping them afresh. */
    method DropPages(address: nat, amount: nat)
      requires Inv()
      modifies this`bytes, this`host
      ensures Inv() && SameLists(old(Now()), Now())
      ensures var low, high := AlignUp(address, page), AlignDown(address + amount, page);
        var dropped := low < high && base <= low && high <= base + size;
        && (forall a :: bytes(a) == if dropped && low <= a < high then 0 else old(bytes)(a))
        && (forall a :: host(a) == if dropped && low <= a < high then READ_WRITE else old(host)(a))
    {
      ghost var before := Now();
      var low, high := AlignUp(address, page), AlignDown(address + amount, page);
      if high <= low || low < base || base + size < high {
        return;
      }
      MapFreshAnonymous(low, high);
      HostProtect(low, high, READ_WRITE);
      SameListsValid(before, Now());
    }

    /** Writes a saved copy back if all of it still lies in allocation `epoch`, is writable and
        the host allows it; otherwise changes nothing. */
    method RestoreIfUnchanged(address: nat, data: seq<int>, epoch: nat, hostOk: bool) returns (ok: bool, heldCode: bool)
      requires Inv()
      modifies this`bytes, this`host
      ensures Inv()
      ensures ok <==> hostOk && Unchanged(old(Now()), address, address + Max(|data|, 1), epoch)
      ensures ok ==> Restores(old(Now()), Now(), address, data)
      ensures !ok ==> Now() == old(Now()) && !heldCode
      ensures ok && (exists a :: address <= a < address + |data| && Noted(codeWords, base, grain, a)) ==> heldCode
    {
      ok, heldCode := false, false;
      ghost var before := Now();
      var same := StillSame(address, address + |data|, epoch);
      if !same || !hostOk {
        return;
      }
      var low, high := AlignDown(address, page), AlignUp(address + |data|, page);
      HostProtect(low, high, READ_WRITE);
      CopyIn(address, data);
      SameListsValid(before, Now());
      heldCode := HasHeldCode(codeWords, base, size, grain, low, high);
      ok := true;
    }

    /** Walks the ranges over [address, end) and checks each; an empty span asks for the byte at
        its address. */
    method StillSame(address: nat, end: nat, epoch: nat) returns (same: bool)
      requires Sorted(committed) && address <= end
      ensures same <==> Unchanged(Now(), address, Max(end, address + 1), epoch)
    {
      var cursor := address;
      var index := FirstRangeEndingAfter(committed, cursor);
      while index < |committed|
        invariant index <= |committed| && address <= cursor < Max(end, address + 1)
        invariant index > 0 ==> committed[index - 1].End() <= cursor
        invariant forall i :: index <= i < |committed| ==> cursor < committed[i].End()
        invariant Unchanged(Now(), address, cursor, epoch)
      {
        var range := committed[index];
        AroundRange(committed, index, cursor);
        if cursor < range.begin {
          assert At(committed, cursor).None? && Now().Cell(cursor).None?;
          return false;
        }
        assert At(committed, cursor) == Some(range.tag) && Now().Cell(cursor) == Some(range.tag);
        if range.tag.epoch != epoch || !range.tag.prot.write {
          return false;
        }
        forall a | cursor <= a < range.End() ensures Now().Cell(a) == Some(range.tag) {
          assert range.Has(a);
        }
        cursor := range.End();
        if end <= cursor {
          return true;
        }
        forall i | index < i < |committed| ensures cursor < committed[i].End() {
          OrderedIndex(committed, 0, index, i);
        }
        index := index + 1;
      }
      AtBetween(committed, index, cursor);
      assert Now().Cell(cursor).None?;
      return false;
    }

    /** A write of zeros by the runtime itself. */
    method Memset(low: int, high: int)
      modifies this`bytes
      ensures forall a :: bytes(a) == if low <= a < high then 0 else old(bytes)(a)
    {
      var bytes0 := bytes;
      bytes := (a: int) => if low <= a < high then 0 else bytes0(a);
    }

    method CopyIn(address: nat, data: seq<int>)
      modifies this`bytes
      ensures forall a :: bytes(a) == if address <= a < address + |data| then data[a - address] else old(bytes)(a)
    {
      var bytes0 := bytes;
      bytes := (a: int) => if address <= a < address + |data| then data[a - address] else bytes0(a);
    }
  }
}
