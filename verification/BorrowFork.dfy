/** The borrowing fork: the child runs in its parent's memory, and what the parent could have
    written there is saved at the fork and put back before the parent runs again. */
module BorrowFork {
  import opened Spans
  import opened GuestView
  import opened RangeIndex
  import opened SpaceSpec
  import opened SpaceOps
  import opened SpaceRuns
  import opened Regions
  import opened AddressSpace
  import opened GrainMap

  // ---- Cutting out what is shared ----

  /** The part of `piece` below `cursor` and outside the shared spans seen so far. */
  ghost predicate CutUpTo(parts: seq<Span<nat>>, piece: Span<nat>, shared: seq<Extent>, j: nat, cursor: int) {
    && j <= |shared| && piece.begin <= cursor
    && Sorted(parts)
    && (parts != [] ==> j > 0 && parts[|parts| - 1].End() <= shared[j - 1].begin && parts[|parts| - 1].End() <= cursor)
    && (forall a :: cursor <= a ==> At(shared[..j], a).None?)
    && (forall a :: At(parts, a) == if piece.Has(a) && a < cursor && At(shared[..j], a).None? then Some(piece.tag) else None)
  }

  /** The parts after one shared span more. */
  function CutNext(parts: seq<Span<nat>>, piece: Span<nat>, next: Extent, cursor: int): seq<Span<nat>> {
    var stop := Min(next.begin, piece.End());
    if cursor < stop then parts + [Span(cursor, stop - cursor, piece.tag)] else parts
  }

  lemma CutPoint(parts: seq<Span<nat>>, piece: Span<nat>, shared: seq<Extent>, j: nat, cursor: int, a: int)
    requires CutUpTo(parts, piece, shared, j, cursor) && j < |shared| && Ascending(shared) && 0 <= shared[j].size
    ensures At(CutNext(parts, piece, shared[j], cursor), a) ==
      if piece.Has(a) && a < Max(cursor, shared[j].End()) && At(shared[..j], a).None? && !shared[j].Has(a) then Some(piece.tag) else None
  {
    CutBelow(parts, piece, shared, j, cursor, a);
    var stop := Min(shared[j].begin, piece.End());
    AtSnoc(parts, Span(cursor, stop - cursor, piece.tag), a);
    assert cursor <= a ==> At(shared[..j], a).None?;
  }

  lemma CutOrdered(parts: seq<Span<nat>>, piece: Span<nat>, shared: seq<Extent>, j: nat, cursor: int)
    requires CutUpTo(parts, piece, shared, j, cursor) && j < |shared| && Ascending(shared) && 0 <= shared[j].size
    ensures var next := CutNext(parts, piece, shared[j], cursor);
      Sorted(next) && (next != [] ==> next[|next| - 1].End() <= shared[j].begin && next[|next| - 1].End() <= Max(cursor, shared[j].End()))
  {
    if j > 0 { assert shared[j - 1].begin <= shared[j - 1 + 1].begin; }
    var stop := Min(shared[j].begin, piece.End());
    if cursor < stop {
      var part := Span(cursor, stop - cursor, piece.tag);
      OrderedOne(part, 0);
      OrderedConcat(parts, [part], 0);
    }
  }

  lemma CutStep(parts: seq<Span<nat>>, piece: Span<nat>, shared: seq<Extent>, j: nat, cursor: int)
    requires CutUpTo(parts, piece, shared, j, cursor) && j < |shared| && Ascending(shared) && 0 <= shared[j].size
    ensures CutUpTo(CutNext(parts, piece, shared[j], cursor), piece, shared, j + 1, Max(cursor, shared[j].End()))
  {
    CutOrdered(parts, piece, shared, j, cursor);
    UnionNext(shared, j);
    forall a ensures At(CutNext(parts, piece, shared[j], cursor), a) ==
      if piece.Has(a) && a < Max(cursor, shared[j].End()) && At(shared[..j + 1], a).None? then Some(piece.tag) else None
    {
      CutPoint(parts, piece, shared, j, cursor, a);
    }
  }

  /** What was cut off already lies below the next shared span. */
  lemma CutBelow(parts: seq<Span<nat>>, piece: Span<nat>, shared: seq<Extent>, j: nat, cursor: int, a: int)
    requires CutUpTo(parts, piece, shared, j, cursor) && j < |shared| && Ascending(shared)
    ensures At(parts, a).Some? ==> a < cursor && a < shared[j].begin
  {
    if At(parts, a).Some? {
      var i := AtWitness(parts, a);
      OrderedIndex(parts, 0, i, |parts| - 1);
      assert shared[j - 1].begin <= shared[j - 1 + 1].begin;
    }
  }

  /** The parts of one writable piece no other process shares. */
  method CutShared(piece: Span<nat>, shared: seq<Extent>) returns (parts: seq<Span<nat>>)
    requires 0 < piece.size && Ascending(shared) && forall i :: 0 <= i < |shared| ==> 0 <= shared[i].size
    ensures Sorted(parts)
    ensures forall a :: At(parts, a) == if piece.Has(a) && At(shared, a).None? then Some(piece.tag) else None
  {
    parts := [];
    var cursor, finish, j := piece.begin, piece.End(), 0;
    while j < |shared|
      invariant CutUpTo(parts, piece, shared, j, cursor) || (j == 0 && parts == [] && cursor == piece.begin)
      invariant 0 <= j <= |shared|
    {
      CutStep(parts, piece, shared, j, cursor);
      var stop := Min(shared[j].begin, finish);
      if cursor < stop {
        parts := parts + [Span(cursor, stop - cursor, piece.tag)];
      }
      cursor := Max(cursor, shared[j].End());
      j := j + 1;
    }
    assert shared[..j] == shared;
    if cursor < finish {
      var part := Span(cursor, finish - cursor, piece.tag);
      OrderedOne(part, 0);
      OrderedConcat(parts, [part], 0);
      forall a ensures At(parts + [part], a) == if piece.Has(a) && At(shared, a).None? then Some(piece.tag) else None {
        AtSnoc(parts, part, a);
      }
      parts := parts + [part];
    }
  }

  // ---- What is held ----

  /** What a fork holds of the byte at `a`: its epoch, if it is writable and not shared. */
  function HeldAt(committed: seq<GuestRange>, shared: seq<Extent>, a: int): Option<nat> {
    if WritableAt(committed, a) && At(shared, a).None? then Some(At(committed, a).value.epoch) else None
  }

  /** The held part of the first `i` pieces. */
  ghost predicate HeldUpTo(held: seq<Span<nat>>, pieces: seq<GuestRange>, shared: seq<Extent>, i: nat) {
    && i <= |pieces| && Sorted(held)
    && forall a :: At(held, a) == HeldAt(pieces[..i], shared, a)
  }

  lemma HeldStep(held: seq<Span<nat>>, parts: seq<Span<nat>>, pieces: seq<GuestRange>, shared: seq<Extent>, i: nat)
    requires Sorted(pieces) && i < |pieces| && HeldUpTo(held, pieces, shared, i) && pieces[i].tag.prot.write
    requires Sorted(parts)
    requires forall a :: At(parts, a) == if pieces[i].Has(a) && At(shared, a).None? then Some(pieces[i].tag.epoch) else None
    ensures HeldUpTo(held + parts, pieces, shared, i + 1)
  {
    var x, before := pieces[i], pieces[..i];
    assert pieces[..i + 1] == before + [x];
    OrderedPrefix(pieces, 0, i);
    if i > 0 { OrderedIndex(pieces, 0, i - 1, i); }
    forall a | x.begin <= a ensures At(before, a).None? {
      AtBetween(before, i, a);
    }
    ConcatAround(held, parts, x.begin);
    forall a ensures At(held + parts, a) == HeldAt(pieces[..i + 1], shared, a) {
      AtSnoc(before, x, a);
    }
  }

  /** The held part of one span. */
  method HoldSpan(committed: seq<GuestRange>, m: Extent, shared: seq<Extent>) returns (held: seq<Span<nat>>)
    requires Sorted(committed) && Ascending(shared) && forall i :: 0 <= i < |shared| ==> 0 <= shared[i].size
    ensures Sorted(held)
    ensures forall a :: At(held, a) == if m.Has(a) then HeldAt(committed, shared, a) else None
  {
    var pieces := WritableRangesIn(committed, m.begin, m.End());
    held := [];
    var i := 0;
    while i < |pieces|
      invariant 0 <= i <= |pieces| && HeldUpTo(held, pieces, shared, i)
    {
      OrderedIndex(pieces, 0, i, i);
      AtIndex(pieces, i, pieces[i].begin);
      var parts := CutShared(Span(pieces[i].begin, pieces[i].size, pieces[i].tag.epoch), shared);
      HeldStep(held, parts, pieces, shared, i);
      held := held + parts;
      i := i + 1;
    }
    assert pieces[..i] == pieces;
  }

  /** Some owned span reaches `a` with its live part. */
  ghost predicate Owned(owned: seq<Extent>, w: Bounds, a: int) {
    exists i :: 0 <= i < |owned| && LiveIn(owned[i], w, a)
  }

  /** Everything a fork holds: the writable, unshared part of the owned spans' live parts. */
  method Hold(committed: seq<GuestRange>, owned: seq<Extent>, w: Bounds, sharedNow: seq<Extent>) returns (held: seq<Span<nat>>)
    requires Sorted(committed) && forall i :: 0 <= i < |sharedNow| ==> 0 <= sharedNow[i].size
    ensures Sorted(held)
    ensures forall a :: At(held, a) == if Owned(owned, w, a) then HeldAt(committed, sharedNow, a) else None
  {
    var wanted := ClampAll(owned, w);
    var merged := Merge(wanted);
    var shared := SortByBegin(sharedNow);
    SortAscending(sharedNow);
    forall i | 0 <= i < |shared| ensures 0 <= shared[i].size { var j := SortMembers(sharedNow, i); }
    held := [];
    var k := 0;
    while k < |merged|
      invariant 0 <= k <= |merged| && Sorted(held)
      invariant forall a :: At(held, a) == if At(merged[..k], a).Some? then HeldAt(committed, shared, a) else None
    {
      var parts := HoldSpan(committed, merged[k], shared);
      HoldNext(held, parts, merged, k);
      held := held + parts;
      k := k + 1;
    }
    assert merged[..k] == merged;
    forall a ensures HeldAt(committed, shared, a) == HeldAt(committed, sharedNow, a) { SortUnion(sharedNow, a); }
  }

  lemma HoldNext(held: seq<Span<nat>>, parts: seq<Span<nat>>, merged: seq<Extent>, k: nat)
    requires Gapped(merged) && k < |merged| && Sorted(held) && Sorted(parts)
    requires forall a :: At(held, a).Some? ==> At(merged[..k], a).Some?
    requires forall a :: At(parts, a).Some? ==> merged[k].Has(a)
    ensures Sorted(held + parts)
    ensures forall a :: At(held + parts, a) == if merged[k].Has(a) then At(parts, a) else At(held, a)
    ensures forall a :: At(merged[..k + 1], a).Some? <==> At(merged[..k], a).Some? || merged[k].Has(a)
  {
    UnionNext(merged, k);
    GappedIsSorted(merged);
    OrderedPrefix(merged, 0, k);
    if k > 0 { OrderedIndex(merged, 0, k - 1, k); }
    var before := merged[..k];
    forall a | merged[k].begin <= a ensures At(before, a).None? {
      AtBetween(before, k, a);
    }
    ConcatAround(held, parts, merged[k].begin);
  }

  // ---- Saving and putting back ----

  /** A saved copy of parent memory, with the epoch it was taken under. */
  datatype Region = Region(address: nat, epoch: nat, bytes: seq<int>) {
    function End(): nat { address + |bytes| }
    predicate Has(a: int) { address <= a < End() }
  }

  function Saved(x: Span<nat>, memory: int -> int): Region
    requires 0 <= x.begin && 0 <= x.size
  {
    Region(x.begin, x.tag, seq(x.size, i => memory(x.begin + i)))
  }

  ghost predicate SavedFrom(regions: seq<Region>, held: seq<Span<nat>>, memory: int -> int) {
    && |regions| == |held|
    && forall i :: 0 <= i < |held| ==> 0 <= held[i].begin && 0 < held[i].size && regions[i] == Saved(held[i], memory)
  }

  method Capture(held: seq<Span<nat>>, memory: int -> int) returns (regions: seq<Region>)
    requires forall i :: 0 <= i < |held| ==> 0 <= held[i].begin && 0 < held[i].size
    ensures SavedFrom(regions, held, memory)
  {
    regions := [];
    var i := 0;
    while i < |held|
      invariant 0 <= i <= |held| && |regions| == i
      invariant forall k :: 0 <= k < i ==> regions[k] == Saved(held[k], memory)
    {
      regions := regions + [Saved(held[i], memory)];
      i := i + 1;
    }
  }

  /** The region may go back: it misses everything the child stands in, all of it still
      belongs to the allocation it was copied from and is writable, and the host agrees. */
  ghost predicate Eligible(s: Space, r: Region, mine: seq<Extent>, hostOk: Region -> bool) {
    && (forall i :: 0 <= i < |mine| ==> !mine[i].Meets(r.address, r.End()))
    && Unchanged(s, r.address, r.End(), r.epoch)
    && hostOk(r)
  }

  /** The eligible ones of the first `k` regions have gone back and nothing else has changed. */
  ghost predicate PutBack(s: Space, t: Space, regions: seq<Region>, k: nat, mine: seq<Extent>, hostOk: Region -> bool)
    requires k <= |regions|
  {
    && SameLists(s, t)
    && (forall i, a :: 0 <= i < k && regions[i].Has(a) && Eligible(s, regions[i], mine, hostOk) ==>
          t.bytes(a) == regions[i].bytes[a - regions[i].address])
    && (forall a :: (forall i :: 0 <= i < k && regions[i].Has(a) ==> !Eligible(s, regions[i], mine, hostOk)) ==>
          t.bytes(a) == s.bytes(a))
  }

  /** A byte of a region differs afterwards exactly if the saved one does and the whole region goes
      back: none of it overlaps what the process has of its own, all of it is still writable and of
      the mapping it was saved from, and the host agrees. */
  lemma GoesBackIff(s: Space, t: Space, regions: seq<Region>, k: nat, mine: seq<Extent>, hostOk: Region -> bool, i: nat, a: int)
    requires Apart(regions) && i < k <= |regions| && regions[i].Has(a) && PutBack(s, t, regions, k, mine, hostOk)
    ensures var r := regions[i];
      t.bytes(a) != s.bytes(a) <==>
        && r.bytes[a - r.address] != s.bytes(a) && hostOk(r)
        && (forall j :: 0 <= j < |mine| ==> r.address + |r.bytes| <= mine[j].begin || mine[j].End() <= r.address)
        && (forall b :: r.Has(b) ==> s.Cell(b).Some? && s.Cell(b).value.epoch == r.epoch && s.Cell(b).value.prot.write)
  {
    var r := regions[i];
  }

  ghost predicate Apart(regions: seq<Region>) {
    && (forall i :: 0 <= i < |regions| ==> regions[i].bytes != [])
    && (forall i, j, a :: 0 <= i < |regions| && 0 <= j < |regions| && regions[i].Has(a) && regions[j].Has(a) ==> i == j)
  }

  method IsMine(mine: seq<Extent>, begin: int, end: int) returns (overlap: bool)
    ensures overlap <==> exists i :: 0 <= i < |mine| && mine[i].Meets(begin, end)
  {
    overlap := false;
    var i := 0;
    while i < |mine|
      invariant 0 <= i <= |mine|
      invariant forall k :: 0 <= k < i ==> !mine[k].Meets(begin, end)
    {
      if begin < mine[i].End() && mine[i].begin < end {
        return true;
      }
      i := i + 1;
    }
  }

  /** Puts one region back if it may go; `s` is the space as it was when the first one went. */
  method RestoreRegion(space: GuestAddressSpace, r: Region, mine: seq<Extent>, hostOk: Region -> bool, ghost s: Space)
    returns (restored: bool, heldCode: bool)
    requires space.Inv() && r.bytes != [] && SameLists(s, space.Now())
    modifies space`bytes, space`host
    ensures space.Inv() && (restored <==> Eligible(s, r, mine, hostOk))
    ensures restored ==> Restores(old(space.Now()), space.Now(), r.address, r.bytes)
    ensures !restored ==> space.Now() == old(space.Now())
    ensures restored && MayHoldCode(r, space.codeWords, s.base, space.grain) ==> heldCode
  {
    SameUnchanged(s, space.Now(), r);
    var mineToo := IsMine(mine, r.address, r.End());
    restored, heldCode := false, false;
    if !mineToo {
      restored, heldCode := space.RestoreIfUnchanged(r.address, r.bytes, r.epoch, hostOk(r));
    }
  }

  /** Puts back what the child borrowed, region by region. `stale` collects the spans whose
      compiled code must go. */
  method RestoreBorrowedMemory(space: GuestAddressSpace, borrowed: seq<Region>, mine: seq<Extent>,
                               sameGeneration: bool, hostOk: Region -> bool) returns (stale: seq<Extent>)
    requires space.Inv() && Apart(borrowed)
    modifies space`bytes, space`host
    ensures space.Inv()
    ensures PutBack(old(space.Now()), space.Now(), borrowed, if sameGeneration then |borrowed| else 0, mine, hostOk)
    ensures Announced(old(space.Now()), borrowed, if sameGeneration then |borrowed| else 0, mine, hostOk, stale,
                      space.codeWords, space.grain)
  {
    stale := [];
    var regions := if sameGeneration then borrowed else [];
    var k := 0;
    ghost var before := space.Now();
    while k < |regions|
      invariant 0 <= k <= |regions| && space.Inv()
      invariant PutBack(before, space.Now(), borrowed, k, mine, hostOk)
      invariant Announced(before, borrowed, k, mine, hostOk, stale, space.codeWords, space.grain)
    {
      ghost var mid := space.Now();
      var restored, heldCode := RestoreRegion(space, regions[k], mine, hostOk, before);
      AnnouncedNext(before, borrowed, k, mine, hostOk, stale, space.codeWords, space.grain, restored && heldCode);
      stale := if restored && heldCode then stale + [Span(regions[k].address, |regions[k].bytes|, ())] else stale;
      PutBackStep(before, mid, space.Now(), borrowed, k, mine, hostOk, restored);
      k := k + 1;
    }
  }

  /** Code may have been compiled from the region. */
  ghost predicate MayHoldCode(r: Region, words: Words, base: nat, grain: nat)
    requires 0 < grain
  {
    exists a :: r.address <= a < r.End() && Noted(words, base, grain, a)
  }

  /** Of the first `k` regions, those put back that may have held code are all in `stale`, and
      nothing is that was not put back. */
  ghost predicate Announced(s: Space, regions: seq<Region>, k: nat, mine: seq<Extent>, hostOk: Region -> bool,
                            stale: seq<Extent>, words: Words, grain: nat)
    requires k <= |regions| && 0 < grain
  {
    && (forall i, a :: 0 <= i < k && regions[i].Has(a) && Eligible(s, regions[i], mine, hostOk) && MayHoldCode(regions[i], words, s.base, grain) ==>
          At(stale, a).Some?)
    && (forall a :: At(stale, a).Some? ==> InRestored(s, regions, k, mine, hostOk, a))
  }

  /** One of the first `k` regions that are put back has the byte. */
  ghost predicate InRestored(s: Space, regions: seq<Region>, k: nat, mine: seq<Extent>, hostOk: Region -> bool, a: int)
    requires k <= |regions|
  {
    exists i :: 0 <= i < k && regions[i].Has(a) && Eligible(s, regions[i], mine, hostOk)
  }

  lemma AnnouncedNext(s: Space, regions: seq<Region>, k: nat, mine: seq<Extent>, hostOk: Region -> bool,
                      stale: seq<Extent>, words: Words, grain: nat, told: bool)
    requires k < |regions| && 0 < grain && Announced(s, regions, k, mine, hostOk, stale, words, grain)
    requires Eligible(s, regions[k], mine, hostOk) && MayHoldCode(regions[k], words, s.base, grain) ==> told
    requires told ==> Eligible(s, regions[k], mine, hostOk)
    ensures Announced(s, regions, k + 1, mine, hostOk,
                      if told then stale + [Span(regions[k].address, |regions[k].bytes|, ())] else stale, words, grain)
  {
    var x := Span(regions[k].address, |regions[k].bytes|, ());
    var after := if told then stale + [x] else stale;
    forall i, a | 0 <= i < k + 1 && regions[i].Has(a) && Eligible(s, regions[i], mine, hostOk)
                  && MayHoldCode(regions[i], words, s.base, grain)
      ensures At(after, a).Some?
    {
      AtSnoc(stale, x, a);
    }
    forall a | At(after, a).Some? ensures InRestored(s, regions, k + 1, mine, hostOk, a) {
      AtSnoc(stale, x, a);
      if !x.Has(a) || !told { assert InRestored(s, regions, k, mine, hostOk, a); }
    }
  }

  lemma SameUnchanged(s: Space, t: Space, r: Region)
    requires SameLists(s, t)
    ensures Unchanged(s, r.address, r.End(), r.epoch) <==> Unchanged(t, r.address, r.End(), r.epoch)
  {
    assert forall a :: t.Cell(a) == s.Cell(a);
  }

  lemma PutBackStep(s: Space, t: Space, u: Space, regions: seq<Region>, k: nat, mine: seq<Extent>, hostOk: Region -> bool, restored: bool)
    requires 0 < s.page && k < |regions| && Apart(regions) && PutBack(s, t, regions, k, mine, hostOk)
    requires restored <==> Eligible(s, regions[k], mine, hostOk)
    requires restored ==> Restores(t, u, regions[k].address, regions[k].bytes)
    requires !restored ==> u == t
    ensures PutBack(s, u, regions, k + 1, mine, hostOk)
  {
    var r := regions[k];
    forall i, a | 0 <= i < k + 1 && regions[i].Has(a) && Eligible(s, regions[i], mine, hostOk)
      ensures u.bytes(a) == regions[i].bytes[a - regions[i].address]
    {
      if i < k { assert t.bytes(a) == regions[i].bytes[a - regions[i].address]; }
    }
    forall a | forall i :: 0 <= i < k + 1 && regions[i].Has(a) ==> !Eligible(s, regions[i], mine, hostOk)
      ensures u.bytes(a) == s.bytes(a)
    {
      assert forall i :: 0 <= i < k && regions[i].Has(a) ==> !Eligible(s, regions[i], mine, hostOk);
      assert t.bytes(a) == s.bytes(a);
    }
  }

  lemma SavedApart(regions: seq<Region>, held: seq<Span<nat>>, memory: int -> int)
    requires Sorted(held) && SavedFrom(regions, held, memory)
    ensures Apart(regions)
  {
    forall i, j, a | 0 <= i < |regions| && 0 <= j < |regions| && regions[i].Has(a) && regions[j].Has(a) ensures i == j {
      if i < j { OrderedIndex(held, 0, i, j); }
      if j < i { OrderedIndex(held, 0, j, i); }
    }
  }

  // ---- The fork, whatever the child does ----

  /** The copies were taken at `s` of what `held` lists, each under its epoch there. */
  ghost predicate TakenAt(s: Space, held: seq<Span<nat>>, regions: seq<Region>) {
    && Sorted(held) && SavedFrom(regions, held, s.bytes)
    && forall a :: At(held, a).Some? ==> HasEpoch(s, a, At(held, a).value)
  }

  lemma SavedByte(s: Space, held: seq<Span<nat>>, regions: seq<Region>, k: nat, a: int)
    requires TakenAt(s, held, regions) && k < |regions| && regions[k].Has(a)
    ensures regions[k].bytes[a - regions[k].address] == s.bytes(a)
    ensures HasEpoch(s, a, regions[k].epoch)
    ensures forall j :: 0 <= j < |regions| && regions[j].Has(a) ==> j == k
  {
    AtIndex(held, k, a);
    SavedApart(regions, held, s.bytes);
  }

  /** Whatever happened since the fork, a restore puts a held byte back to its value at the
      fork if its region is eligible and the parent is still the program it was, and otherwise
      leaves it alone; and a byte it puts back has been held by one mapping throughout. */
  lemma ForkRoundTrip(states: seq<Space>, ops: seq<Op>, i: nat, j: nat, t: Space, held: seq<Span<nat>>,
                      regions: seq<Region>, mine: seq<Extent>, sameGeneration: bool, hostOk: Region -> bool, k: nat, a: int)
    requires Run(states, ops) && i <= j < |states| && TakenAt(states[i], held, regions)
    requires PutBack(states[j], t, regions, if sameGeneration then |regions| else 0, mine, hostOk)
    requires k < |regions| && regions[k].Has(a)
    ensures sameGeneration && Eligible(states[j], regions[k], mine, hostOk) ==>
      t.bytes(a) == states[i].bytes(a) && forall m :: i <= m <= j ==> HasEpoch(states[m], a, regions[k].epoch)
    ensures !(sameGeneration && Eligible(states[j], regions[k], mine, hostOk)) ==> t.bytes(a) == states[j].bytes(a)
  {
    SavedByte(states[i], held, regions, k, a);
    if sameGeneration && Eligible(states[j], regions[k], mine, hostOk) {
      assert HasEpoch(states[j], a, regions[k].epoch);
      forall m | i <= m <= j ensures HasEpoch(states[m], a, regions[k].epoch) {
        EpochsContinuous(states, ops, i, m, j, a, regions[k].epoch);
      }
    }
  }

  /** A restore touches no byte that was not held. */
  lemma RestoreTouchesOnlyHeld(s: Space, t: Space, at: Space, held: seq<Span<nat>>, regions: seq<Region>,
                               n: nat, mine: seq<Extent>, hostOk: Region -> bool, a: int)
    requires TakenAt(at, held, regions) && n <= |regions| && PutBack(s, t, regions, n, mine, hostOk)
    requires At(held, a).None?
    ensures t.bytes(a) == s.bytes(a)
  {
    forall k | 0 <= k < |regions| ensures !regions[k].Has(a) {
      if regions[k].Has(a) { AtIndex(held, k, a); }
    }
  }

  /** `held` is what a fork of a process that owns those spans holds, and `regions` the copies. */
  ghost predicate Taken(s: Space, owned: seq<Extent>, w: Bounds, shared: seq<Extent>, held: seq<Span<nat>>, regions: seq<Region>) {
    && Sorted(held) && SavedFrom(regions, held, s.bytes)
    && forall a :: At(held, a) == if Owned(owned, w, a) then HeldAt(s.committed, shared, a) else None
  }

  /** What `Hold` lists and `Capture` copies is taken at that state. */
  lemma HeldIsTaken(s: Space, owned: seq<Extent>, w: Bounds, shared: seq<Extent>, held: seq<Span<nat>>, regions: seq<Region>)
    requires Taken(s, owned, w, shared, held, regions)
    ensures TakenAt(s, held, regions)
  {
  }

  /** Exactly which bytes a fork holds: those writable, not shared, and live in some owned span. */
  lemma HeldIff(s: Space, owned: seq<Extent>, w: Bounds, shared: seq<Extent>, held: seq<Span<nat>>, regions: seq<Region>, a: int)
    requires Taken(s, owned, w, shared, held, regions)
    ensures At(held, a).Some? <==>
      && s.Cell(a).Some? && s.Cell(a).value.prot.write && At(shared, a).None?
      && exists i :: 0 <= i < |owned| && LiveIn(owned[i], w, a)
    ensures At(held, a).Some? ==> HasEpoch(s, a, At(held, a).value)
  {
    assert At(held, a) == if Owned(owned, w, a) then HeldAt(s.committed, shared, a) else None;
  }

  /** In particular all that is writable and not shared of an owned span clear of the heap and of
      the stack, of one in the heap below its break, and of one in the stack above its pointer. */
  lemma OwnedIsHeld(s: Space, owned: seq<Extent>, w: Bounds, shared: seq<Extent>, held: seq<Span<nat>>, regions: seq<Region>, i: int, a: int)
    requires Taken(s, owned, w, shared, held, regions) && 0 <= i < |owned| && owned[i].Has(a)
    requires s.Cell(a).Some? && s.Cell(a).value.prot.write && At(shared, a).None?
    requires var x := owned[i];
      var offHeap, offStack := w.heapLow == 0 || !x.Meets(w.heapLow, w.heapTop), !x.Meets(w.stackLow, w.stackTop);
      || (offHeap && offStack)
      || (w.heapLow <= x.begin && x.End() <= w.heapTop && offStack && a < w.heapUsed)
      || (w.stackLow <= x.begin && x.End() <= w.stackTop && offHeap && w.rsp <= a)
    ensures At(held, a).Some?
  {
    assert LiveIn(owned[i], w, a);
    HeldIff(s, owned, w, shared, held, regions, a);
  }

  /** And nothing above the heap's break or below the stack pointer. */
  lemma HeldIsLive(s: Space, owned: seq<Extent>, w: Bounds, shared: seq<Extent>, held: seq<Span<nat>>, regions: seq<Region>, a: int)
    returns (i: int)
    requires Taken(s, owned, w, shared, held, regions) && At(held, a).Some?
    ensures 0 <= i < |owned| && owned[i].Has(a)
    ensures w.heapLow != 0 && w.heapLow <= a < w.heapTop ==> a < w.heapUsed
    ensures w.stackLow <= a < w.stackTop ==> w.rsp <= a
  {
    HeldIff(s, owned, w, shared, held, regions, a);
    i :| 0 <= i < |owned| && LiveIn(owned[i], w, a);
  }

  /** Lists and copies what a fork holds for the parent. */
  method Borrow(space: GuestAddressSpace, owned: seq<Extent>, w: Bounds, shared: seq<Extent>)
    returns (held: seq<Span<nat>>, regions: seq<Region>)
    requires space.Inv() && forall i :: 0 <= i < |shared| ==> 0 <= shared[i].size
    ensures Taken(space.Now(), owned, w, shared, held, regions) && TakenAt(space.Now(), held, regions)
  {
    held := Hold(space.committed, owned, w, shared);
    ghost var s := space.Now();
    forall i | 0 <= i < |held| ensures 0 <= held[i].begin && 0 < held[i].size {
      OrderedIndex(held, 0, i, i);
      AtIndex(held, i, held[i].begin);
      assert s.Cell(held[i].begin).Some?;
    }
    regions := Capture(held, space.bytes);
    HeldIsTaken(s, owned, w, shared, held, regions);
  }
}
