/** What a copying fork gives the child: when every part of the parent arrives, what arrives,
    and what the child's own forks can rely on. */
module CopyResult {
  import opened Pages
  import opened Spans
  import opened GuestView
  import opened SpaceSpec
  import opened FixedCommit
  import opened ForkPlan
  import opened CopyFork
  import opened CopyComplete
  import opened WrittenRuns

  // ---- What arrives ----

  /** The child has, at the image of the parent's byte `a`, what `part` brings over. */
  ghost predicate Arrives(s: Space, shared: seq<Extent>, t0: Space, t: Space, part: Option<Part>, a: int)
    requires 0 < s.page
  {
    var b := a + t0.base - s.base;
    && Recorded1(t.Cell(b), part)
    && t.bytes(b) == (if part.Some? && part.value.copied then s.bytes(a) else 0)
    && t.host(b) == (if part.Some? then HostOf(part.value) else NO_ACCESS)
    && (s.Cell(a).Some? ==> part == Some(PartOf(s.Cell(a).value, At(shared, a).Some?)))
    && (0 <= a ==> (part.Some? <==> !s.PageClear(a)))
    && (t.Cell(b).Some? ==> !t.Free(b))
  }

  lemma ImageOf(s: Space, shared: seq<Extent>, t0: Space, t: Space, c: Copy, part: Option<Part>, a: int)
    requires 0 < s.page && Copies(s, t0, t, c) && Initial(t0) && Lands(s, shared, c, a, part)
    ensures Arrives(s, shared, t0, t, part, a)
  {
    var b := a + t0.base - s.base;
    assert b - (t0.base - s.base) == a;
    assert Recorded1(t.Cell(b), At(c.adopted, b - (t0.base - s.base)));
  }

  /** The part that brings over `a`, when no two parts share a host page. */
  lemma PartFor(s: Space, shared: seq<Extent>, plan: seq<Span<Part>>, a: int, part: Option<Part>)
    requires 0 < s.page && Real(plan) && Sorted(plan) && Separate(plan, s.page) && part == At(RoundAll(plan, s.page), a)
    requires forall e :: At(plan, e) == PartAt(s.committed, shared, e)
    ensures s.Cell(a).Some? ==> part == Some(PartOf(s.Cell(a).value, At(shared, a).Some?))
    ensures 0 <= a ==> (part.Some? <==> !s.PageClear(a))
  {
    if s.Cell(a).Some? { PartOfByte(s, shared, plan, a); }
    if 0 <= a { RoundedCovers(plan, s, shared, a); }
  }

  /** `part` is what the remaps make of the parent's byte `a`. */
  ghost predicate Lands(s: Space, shared: seq<Extent>, c: Copy, a: int, part: Option<Part>)
    requires 0 < s.page
  {
    && At(c.adopted, a) == part == At(c.laid, a)
    && At(c.images, a) == (if part.Some? && part.value.copied then part else None)
    && (s.Cell(a).Some? ==> part == Some(PartOf(s.Cell(a).value, At(shared, a).Some?)))
    && (0 <= a ==> (part.Some? <==> !s.PageClear(a)))
  }

  /** Every part of the plan is recorded, and every copy asked for was granted. */
  ghost predicate Brought(plan: seq<Span<Part>>, c: Copy, remapOk: Span<Part> -> bool, page: nat, floor: int, top: int) {
    && 0 < page && Real(plan) && Separate(plan, page) && Accepted(plan, remapOk)
    && c == Copying(plan, remapOk, page, floor, top) && c.adopted == RoundAll(plan, page) == c.laid
  }

  lemma NothingLost(plan: seq<Span<Part>>, c: Copy, remapOk: Span<Part> -> bool, page: nat, floor: nat, top: nat)
    requires 0 < page && Real(plan) && Sorted(plan) && Aligned(floor, page) && Aligned(top, page)
    requires c == Copying(plan, remapOk, page, floor, top) && c.lost == []
    ensures Brought(plan, c, remapOk, page, floor, top)
  {
    AllRecorded(plan, remapOk, page, floor, top);
  }

  lemma PlanEnds(s: Space, shared: seq<Extent>, t0: Space, plan: seq<Span<Part>>, c: Copy, remapOk: Span<Part> -> bool)
    requires Planned(s, shared, t0, plan, c, remapOk)
    ensures Aligned(s.base + LOWEST_USABLE, s.page) && Aligned(s.base + t0.size, s.page)
  {
    AlignedSum(s.base, LOWEST_USABLE, s.page);
    AlignedSum(s.base, t0.size, s.page);
  }

  /** What the remaps make of the parent's byte `a`. */
  lemma BroughtByte(s: Space, shared: seq<Extent>, plan: seq<Span<Part>>, c: Copy, remapOk: Span<Part> -> bool, floor: int, top: int,
                    a: int, part: Option<Part>)
    requires Brought(plan, c, remapOk, s.page, floor, top) && Sorted(plan) && part == At(c.adopted, a)
    requires forall e :: At(plan, e) == PartAt(s.committed, shared, e)
    ensures Lands(s, shared, c, a, part)
  {
    ImagesAreCopies(plan, remapOk, s.page, floor, top, a);
    PartFor(s, shared, plan, a, part);
  }

  lemma PlannedByte(s: Space, shared: seq<Extent>, plan: seq<Span<Part>>, c: Copy, remapOk: Span<Part> -> bool, floor: nat, top: nat, a: int)
    returns (part: Option<Part>)
    requires 0 < s.page && Real(plan) && Sorted(plan) && Aligned(floor, s.page) && Aligned(top, s.page)
    requires c == Copying(plan, remapOk, s.page, floor, top) && c.lost == []
    requires forall e :: At(plan, e) == PartAt(s.committed, shared, e)
    ensures Lands(s, shared, c, a, part)
  {
    part := At(c.adopted, a);
    NothingLost(plan, c, remapOk, s.page, floor, top);
    BroughtByte(s, shared, plan, c, remapOk, floor, top, a, part);
  }

  lemma ByteParts(s: Space, shared: seq<Extent>, t0: Space, plan: seq<Span<Part>>, c: Copy, remapOk: Span<Part> -> bool, a: int)
    returns (part: Option<Part>)
    requires Planned(s, shared, t0, plan, c, remapOk) && c.lost == []
    ensures Lands(s, shared, c, a, part)
  {
    PlanEnds(s, shared, t0, plan, c, remapOk);
    part := PlannedByte(s, shared, plan, c, remapOk, s.base + LOWEST_USABLE, s.base + t0.size, a);
  }

  /** Every byte of a whole parent arrives. */
  lemma ByteArrives(s: Space, shared: seq<Extent>, t0: Space, t: Space, plan: seq<Span<Part>>, c: Copy, remapOk: Span<Part> -> bool, a: int)
    returns (part: Option<Part>)
    requires Forked(s, shared, t0, t, plan, c, remapOk) && Whole(s, t0.size, plan, remapOk)
    ensures Arrives(s, shared, t0, t, part, a)
  {
    LosesNothingIff(s, shared, t0, plan, c, remapOk);
    part := ByteParts(s, shared, t0, plan, c, remapOk, a);
    ImageOf(s, shared, t0, t, c, part, a);
  }

  /** A fork of a whole parent gives the child exactly the host pages the parent has anything in,
      and every byte the parent has committed carries the parent's protection. */
  lemma ForkArrives(s: Space, shared: seq<Extent>, t0: Space, t: Space, plan: seq<Span<Part>>, c: Copy, remapOk: Span<Part> -> bool, a: nat)
    requires Forked(s, shared, t0, t, plan, c, remapOk) && Whole(s, t0.size, plan, remapOk)
    ensures var b := a + t0.base - s.base;
      && (t.Cell(b).Some? <==> !s.PageClear(a))
      && (s.Cell(a).Some? ==> t.Cell(b).Some? && t.Cell(b).value.prot == s.Cell(a).value.prot)
  {
    var part := ByteArrives(s, shared, t0, t, plan, c, remapOk, a);
    ArrivedCell(s, shared, t0, t, part, a);
  }

  lemma ArrivedCell(s: Space, shared: seq<Extent>, t0: Space, t: Space, part: Option<Part>, a: nat)
    requires 0 < s.page && Arrives(s, shared, t0, t, part, a)
    ensures var b := a + t0.base - s.base;
      && (t.Cell(b).Some? <==> !s.PageClear(a))
      && (s.Cell(a).Some? ==> t.Cell(b).Some? && t.Cell(b).value.prot == s.Cell(a).value.prot)
  {
  }

  /** A committed byte and the part that brings it over, when nothing is lost. */
  lemma PartOfByte(s: Space, shared: seq<Extent>, plan: seq<Span<Part>>, a: int)
    requires 0 < s.page && Real(plan) && Sorted(plan) && Separate(plan, s.page) && s.Cell(a).Some?
    requires At(plan, a) == PartAt(s.committed, shared, a)
    ensures At(RoundAll(plan, s.page), a) == Some(PartOf(s.Cell(a).value, At(shared, a).Some?))
  {
    PartSurvives(plan, s.page, a);
    assert s.Cell(a) == At(s.committed, a);
  }

  /** A byte of a part is a byte of its rounding, and of no other. */
  lemma PartSurvives(plan: seq<Span<Part>>, page: nat, a: int)
    requires 0 < page && Real(plan) && Sorted(plan) && Separate(plan, page)
    ensures At(plan, a).Some? ==> At(RoundAll(plan, page), a) == At(plan, a)
  {
    if At(plan, a).Some? {
      var i := AtWitness(plan, a);
      RoundedBounds(plan[i], page, 0, 0);
      AtIndex(plan, i, a);
      AtIndex(RoundAll(plan, page), i, a);
    }
  }

  /** The rounded parts cover exactly the host pages the parent has anything in. */
  lemma RoundedCovers(plan: seq<Span<Part>>, s: Space, shared: seq<Extent>, a: nat)
    requires 0 < s.page && Real(plan) && Sorted(plan) && Separate(plan, s.page)
    requires forall e :: At(plan, e) == PartAt(s.committed, shared, e)
    ensures At(RoundAll(plan, s.page), a).Some? <==> !s.PageClear(a)
  {
    var h := AlignDown(a, s.page);
    if At(RoundAll(plan, s.page), a).Some? {
      var b := CoveredPage(plan, s.page, a);
      assert At(plan, b) == PartAt(s.committed, shared, b);
      assert h <= b < h + s.page && At(s.committed, b).Some?;
    }
    if !s.PageClear(a) {
      var b :| h <= b < h + s.page && At(s.committed, b).Some?;
      assert At(plan, b) == PartAt(s.committed, shared, b);
      PageCovered(plan, s.page, a, b);
    }
  }

  lemma CoveredPage(plan: seq<Span<Part>>, page: nat, a: nat) returns (b: int)
    requires 0 < page && Real(plan) && Sorted(plan) && At(RoundAll(plan, page), a).Some?
    ensures AlignDown(a, page) <= b < AlignDown(a, page) + page && At(plan, b).Some?
  {
    var i := AtWitness(RoundAll(plan, page), a);
    b := PartInPage(plan[i], page, a);
    AtIndex(plan, i, b);
  }

  lemma PageCovered(plan: seq<Span<Part>>, page: nat, a: nat, b: int)
    requires 0 < page && Real(plan) && Sorted(plan) && Separate(plan, page)
    requires AlignDown(a, page) <= b < AlignDown(a, page) + page && At(plan, b).Some?
    ensures At(RoundAll(plan, page), a).Some?
  {
    var i := AtWitness(plan, b);
    PageOfPart(plan[i], page, a, b);
    AtIndex(RoundAll(plan, page), i, a);
  }

  lemma PartInPage(x: Span<Part>, page: nat, a: nat) returns (b: int)
    requires 0 < page && 0 <= x.begin && 0 < x.size && Rounded(x, page).Has(a)
    ensures AlignDown(a, page) <= b < AlignDown(a, page) + page && x.Has(b)
  {
    var h := AlignDown(a, page);
    PageInside(AlignDown(x.begin, page), AlignUp(x.End(), page), a, page);
    b := if h <= x.begin then x.begin else h;
  }

  // ---- Contents ----

  lemma {:induction false} ImageWitness(plan: seq<Span<Part>>, remapOk: Span<Part> -> bool, page: nat, floor: int, top: int, a: int)
    returns (i: int)
    requires 0 < page && Real(plan)
    ensures var images := Copying(plan, remapOk, page, floor, top).images;
      && (At(images, a).Some? ==> 0 <= i < |plan| && plan[i].tag.copied && Rounded(plan[i], page).Has(a) && At(images, a) == Some(plan[i].tag))
      && (At(images, a).None? ==> forall j :: 0 <= j < |plan| && plan[j].tag.copied && remapOk(plan[j]) ==> !Rounded(plan[j], page).Has(a))
    decreases |plan|
  {
    i := |plan| - 1;
    if plan != [] {
      var x, images := plan[i], Copying(plan[..i], remapOk, page, floor, top).images;
      AtSnoc(images, Rounded(x, page), a);
      if !(x.tag.copied && remapOk(x) && Rounded(x, page).Has(a)) {
        i := ImageWitness(plan[..i], remapOk, page, floor, top, a);
      }
    }
  }

  /** When nothing is lost, the bytes brought over are exactly those of the copied parts' host
      pages. */
  lemma ImagesAreCopies(plan: seq<Span<Part>>, remapOk: Span<Part> -> bool, page: nat, floor: int, top: int, a: int)
    requires 0 < page && Real(plan) && Separate(plan, page) && Accepted(plan, remapOk)
    ensures var images, all := Copying(plan, remapOk, page, floor, top).images, RoundAll(plan, page);
      At(images, a) == if At(all, a).Some? && At(all, a).value.copied then At(all, a) else None
  {
    var images, all := Copying(plan, remapOk, page, floor, top).images, RoundAll(plan, page);
    var i := ImageWitness(plan, remapOk, page, floor, top, a);
    if At(images, a).Some? {
      AtIndex(all, i, a);
    }
    if At(all, a).Some? {
      var j := AtWitness(all, a);
      AtIndex(all, j, a);
    }
  }

  /** Of a whole parent, a committed byte reads the same in the child exactly when it is
      shared, recorded as written, or zero. */
  lemma ForkKeepsBytes(s: Space, shared: seq<Extent>, t0: Space, t: Space, plan: seq<Span<Part>>, c: Copy, remapOk: Span<Part> -> bool, a: int)
    requires Forked(s, shared, t0, t, plan, c, remapOk) && Whole(s, t0.size, plan, remapOk) && s.Cell(a).Some?
    ensures t.bytes(a + t0.base - s.base) == s.bytes(a) <==> At(shared, a).Some? || s.Cell(a).value.written || s.bytes(a) == 0
    ensures WrittenSound(s) ==> t.bytes(a + t0.base - s.base) == s.bytes(a)
  {
    var part := ByteArrives(s, shared, t0, t, plan, c, remapOk, a);
    if WrittenSound(s) { SoundAt(s, a); }
    ArrivedBytes(s, shared, t0, t, part, a);
  }

  lemma ArrivedBytes(s: Space, shared: seq<Extent>, t0: Space, t: Space, part: Option<Part>, a: int)
    requires 0 < s.page && Arrives(s, shared, t0, t, part, a) && s.Cell(a).Some?
    ensures t.bytes(a + t0.base - s.base) == s.bytes(a) <==> At(shared, a).Some? || s.Cell(a).value.written || s.bytes(a) == 0
  {
  }

  lemma ArrivedHost(s: Space, shared: seq<Extent>, t0: Space, t: Space, part: Option<Part>, a: int)
    requires 0 < s.page && Arrives(s, shared, t0, t, part, a) && s.Cell(a).Some?
    ensures Honoured(t, a + t0.base - s.base) <==> At(shared, a).Some? || s.Cell(a).value.written || !s.Cell(a).value.prot.write
    ensures t.host(a + t0.base - s.base) == HostNeeds(s.Cell(a).value, At(shared, a).Some?)
  {
  }

  /** The access a child is given: memory reserved afresh is never writable, and what is writable
      is readable, as the host needs it to be. */
  ghost function HostNeeds(c: Cell, isShared: bool): (r: Access)
    ensures r.write <==> c.prot.write && (c.written || isShared)
    ensures r.read <==> c.prot.read || r.write
  {
    Access(c.prot.read || (c.prot.write && (c.written || isShared)), c.prot.write && (c.written || isShared))
  }

  /** Of a whole parent, the host lets the child use a byte as the parent may exactly when
      it is shared, recorded as written or not writable; and it lets it do no more. */
  lemma ForkHonoured(s: Space, shared: seq<Extent>, t0: Space, t: Space, plan: seq<Span<Part>>, c: Copy, remapOk: Span<Part> -> bool, a: nat)
    requires Forked(s, shared, t0, t, plan, c, remapOk) && Whole(s, t0.size, plan, remapOk) && s.Cell(a).Some?
    ensures Honoured(t, a + t0.base - s.base) <==> At(shared, a).Some? || s.Cell(a).value.written || !s.Cell(a).value.prot.write
    ensures t.host(a + t0.base - s.base) == HostNeeds(s.Cell(a).value, At(shared, a).Some?)
  {
    var part := ByteArrives(s, shared, t0, t, plan, c, remapOk, a);
    ArrivedHost(s, shared, t0, t, part, a);
  }

  /** Where the fork puts the parent's byte `a`. */
  function Image(s: Space, t0: Space, a: int): int { a + (t0.base - s.base) }

  /** The copying fork of a whole parent: wherever the parent has memory the child has memory with
      the same protection and contents, and its allocator will not hand that memory out. The guest
      knows it by the same address in both exactly when the parent's addresses start at its arena. */
  lemma ForkAtGuestAddress(s: Space, shared: seq<Extent>, t0: Space, t: Space, plan: seq<Span<Part>>, c: Copy, remapOk: Span<Part> -> bool,
                           guestBase: nat, g: nat)
    requires Forked(s, shared, t0, t, plan, c, remapOk) && Whole(s, t0.size, plan, remapOk) && WrittenSound(s)
    requires s.Cell(guestBase + g).Some?
    ensures SameMemory(s, guestBase + g, t, Image(s, t0, guestBase + g))
    ensures Image(s, t0, guestBase + g) == t0.base + g <==> guestBase == s.base
  {
    SoundAt(s, guestBase + g);
    SoundByteArrives(s, shared, t0, t, plan, c, remapOk, guestBase + g);
  }

  lemma SoundByteArrives(s: Space, shared: seq<Extent>, t0: Space, t: Space, plan: seq<Span<Part>>, c: Copy, remapOk: Span<Part> -> bool, a: nat)
    requires Forked(s, shared, t0, t, plan, c, remapOk) && Whole(s, t0.size, plan, remapOk)
    requires s.Cell(a).Some? && (s.Cell(a).value.written || s.bytes(a) == 0)
    ensures SameMemory(s, a, t, Image(s, t0, a))
  {
    var part := ByteArrives(s, shared, t0, t, plan, c, remapOk, a);
    ArrivedMemory(s, shared, t0, t, part, a, Image(s, t0, a));
  }

  lemma SoundAt(s: Space, a: int)
    requires WrittenSound(s) && s.Cell(a).Some?
    ensures s.Cell(a).value.written || s.bytes(a) == 0
  {
  }

  lemma ArrivedMemory(s: Space, shared: seq<Extent>, t0: Space, t: Space, part: Option<Part>, a: nat, b: int)
    requires 0 < s.page && Arrives(s, shared, t0, t, part, a) && b == Image(s, t0, a)
    requires s.Cell(a).Some? && (s.Cell(a).value.written || s.bytes(a) == 0)
    ensures SameMemory(s, a, t, b)
  {
  }

  /** Ranges of whole host pages above the lowest 64 KB: the child has memory at exactly the
      parent's guest addresses, with its protection and contents. */
  lemma AlignedForkAtGuestAddress(s: Space, shared: seq<Extent>, t0: Space, t: Space, plan: seq<Span<Part>>, c: Copy,
                                  remapOk: Span<Part> -> bool, g: nat)
    requires Forked(s, shared, t0, t, plan, c, remapOk) && Accepted(plan, remapOk) && WrittenSound(s)
    requires PageRanges(s.committed, s.page) && Reachable(s, t0.size)
    ensures t.Cell(t0.base + g).Some? <==> s.Cell(s.base + g).Some?
    ensures s.Cell(s.base + g).Some? ==> SameMemory(s, s.base + g, t, t0.base + g)
  {
    var a := s.base + g;
    PageRangesApart(s.committed, s.page);
    ForkArrives(s, shared, t0, t, plan, c, remapOk, a);
    assert a + t0.base - s.base == t0.base + g;
    PageAllOrNone(s, a);
    if s.Cell(a).Some? { ForkAtGuestAddress(s, shared, t0, t, plan, c, remapOk, s.base, g); }
  }

  /** Both have memory, with one protection and one value, and `t` does not count it as free. */
  predicate SameMemory(s: Space, a: int, t: Space, b: int) {
    && s.Cell(a).Some? && t.Cell(b).Some? && t.Cell(b).value.prot == s.Cell(a).value.prot
    && t.bytes(b) == s.bytes(a) && !t.Free(b)
  }

  // ---- A child that forks again ----

  /** One byte over two forks: read-only memory that was copied is recorded in the child as
      never written, and the child's own fork reserves it afresh. */
  lemma TwoForks(s: Space, shared: seq<Extent>, t0: Space, t: Space, part: Option<Part>,
                 shared': seq<Extent>, u0: Space, u: Space, part': Option<Part>, a: int, b: int)
    requires 0 < s.page && 0 < t.page && s.Cell(a).Some? && b == a + t0.base - s.base
    requires Arrives(s, shared, t0, t, part, a) && Arrives(t, shared', u0, u, part', b)
    requires !s.Cell(a).value.written ==> s.bytes(a) == 0
    ensures t.Cell(b).Some?
    ensures t.Cell(b).value.written <==> (At(shared, a).Some? || s.Cell(a).value.written) && s.Cell(a).value.prot.write
    ensures u.bytes(b + u0.base - t.base) == s.bytes(a) <==>
      At(shared', b).Some? || ((At(shared, a).Some? || s.Cell(a).value.written) && s.Cell(a).value.prot.write) || s.bytes(a) == 0
  {
  }

  /** A byte a first fork brought over survives the child's own fork exactly when it is shared
      in the child, writable and copied by the first fork, or zero. */
  lemma SecondForkKeepsBytes(s: Space, shared: seq<Extent>, t0: Space, t: Space, part: Option<Part>,
                             shared': seq<Extent>, u0: Space, u: Space, plan': seq<Span<Part>>, c': Copy, remapOk': Span<Part> -> bool,
                             a: int, b: int)
    requires 0 < s.page && Arrives(s, shared, t0, t, part, a) && s.Cell(a).Some? && b == a + t0.base - s.base
    requires Forked(t, shared', u0, u, plan', c', remapOk') && Whole(t, u0.size, plan', remapOk')
    requires !s.Cell(a).value.written ==> s.bytes(a) == 0
    ensures u.bytes(b + u0.base - t.base) == s.bytes(a) <==>
      At(shared', b).Some? || ((At(shared, a).Some? || s.Cell(a).value.written) && s.Cell(a).value.prot.write) || s.bytes(a) == 0
  {
    var part' := ByteArrives(t, shared', u0, u, plan', c', remapOk', b);
    TwoForks(s, shared, t0, t, part, shared', u0, u, part', a, b);
  }

  // ---- What a lost part costs ----

  lemma {:induction false} AdoptedWitness(plan: seq<Span<Part>>, remapOk: Span<Part> -> bool, page: nat, floor: int, top: int, a: int)
    returns (j: int)
    requires 0 < page && Real(plan)
    ensures At(Copying(plan, remapOk, page, floor, top).adopted, a).Some? ==>
      && 0 <= j < |plan| && Rounded(plan[j], page).Has(a)
      && Fits(Copying(plan[..j], remapOk, page, floor, top).adopted, Rounded(plan[j], page), floor, top)
    decreases |plan|
  {
    j := |plan| - 1;
    if plan != [] {
      var x, c := plan[j], Copying(plan[..j], remapOk, page, floor, top);
      AtSnoc(c.adopted, Rounded(x, page), a);
      if !((x.tag.copied ==> remapOk(x)) && Fits(c.adopted, Rounded(x, page), floor, top) && Rounded(x, page).Has(a)) {
        ghost var n := j;
        j := AdoptedWitness(plan[..n], remapOk, page, floor, top, a);
        if 0 <= j < n { assert plan[..n][..j] == plan[..j]; }
      }
    }
  }

  /** A part that starts in a host page the part before it ends in does not fit. */
  lemma NoRoom(plan: seq<Span<Part>>, remapOk: Span<Part> -> bool, page: nat, floor: nat, top: nat, i: int)
    requires 0 < page && Real(plan) && Sorted(plan) && 0 < i < |plan| && Aligned(floor, page) && Aligned(top, page)
    requires Copying(plan[..i], remapOk, page, floor, top).lost == []
    requires AlignDown(plan[i].begin, page) < AlignUp(plan[i - 1].End(), page)
    ensures !Fits(Copying(plan[..i], remapOk, page, floor, top).adopted, Rounded(plan[i], page), floor, top)
  {
    RecordedPrefix(plan, remapOk, page, floor, top, i);
    OrderedIndex(plan, 0, i - 1, i);
    NotClear(plan[..i], plan[i], page);
  }

  lemma RecordedPrefix(plan: seq<Span<Part>>, remapOk: Span<Part> -> bool, page: nat, floor: nat, top: nat, i: int)
    requires 0 < page && Real(plan) && Sorted(plan) && 0 <= i <= |plan| && Aligned(floor, page) && Aligned(top, page)
    requires Copying(plan[..i], remapOk, page, floor, top).lost == []
    ensures Separate(plan[..i], page) && Copying(plan[..i], remapOk, page, floor, top).adopted == RoundAll(plan[..i], page)
  {
    OrderedPrefix(plan, 0, i);
    AllRecorded(plan[..i], remapOk, page, floor, top);
  }

  lemma NotClear(plan: seq<Span<Part>>, x: Span<Part>, page: nat)
    requires 0 < page && Real(plan) && Separate(plan, page) && plan != []
    requires plan[|plan| - 1].End() <= x.begin && 0 < x.size
    requires AlignDown(x.begin, page) < AlignUp(plan[|plan| - 1].End(), page)
    ensures !Clear(RoundAll(plan, page), Rounded(x, page).begin, Rounded(x, page).End())
  {
    RoomAfter(RoundAll(plan, page), plan[|plan| - 1], x, Rounded(x, page), page);
  }

  /** Such a part is lost: past that page, and short of the page it ends in, the child has no
      record of it. */
  lemma SharedPageLosesPart(plan: seq<Span<Part>>, remapOk: Span<Part> -> bool, page: nat, floor: nat, top: nat, i: int, a: nat)
    requires 0 < page && Real(plan) && Sorted(plan) && 0 < i < |plan| && Aligned(floor, page) && Aligned(top, page)
    requires Copying(plan[..i], remapOk, page, floor, top).lost == []
    requires AlignDown(plan[i].begin, page) < AlignUp(plan[i - 1].End(), page) <= a < AlignDown(plan[i].End(), page)
    ensures plan[i].Has(a) && At(Copying(plan, remapOk, page, floor, top).adopted, a).None?
  {
    NoRoom(plan, remapOk, page, floor, top, i);
    PastPage(plan[i].begin, AlignUp(plan[i - 1].End(), page), page);
    var j := AdoptedWitness(plan, remapOk, page, floor, top, a);
    if At(Copying(plan, remapOk, page, floor, top).adopted, a).Some? {
      if j < i {
        OrderedIndex(plan, 0, j, i - 1);
        AlignUpMonotone(plan[j].End(), plan[i - 1].End(), page);
      } else if i < j {
        OrderedIndex(plan, 0, i, j);
        AlignDownMonotone(plan[i].End(), plan[j].begin, page);
      }
    }
  }

  lemma PastPage(v: nat, b: nat, page: nat)
    requires 0 < page && Aligned(b, page) && AlignDown(v, page) < b
    ensures v < b
  {
    AlignedApart(AlignDown(v, page), b, page);
  }

  /** A mapping with one guest page unmapped in its first host page: everything past that host
      page is missing from the child. */
  lemma HoleLosesTheRest(f: nat, top: nat, part: Part, remapOk: Span<Part> -> bool)
    requires Aligned(f, 0x4000) && Aligned(top, 0x4000) && f + 0x10000 <= top && remapOk(Span(f, 0x1000, part))
    ensures var plan := [Span(f, 0x1000, part), Span(f + 0x2000, 0xE000, part)];
      forall a :: f + 0x4000 <= a < f + 0x10000 ==> plan[1].Has(a) && At(Copying(plan, remapOk, 0x4000, f, top).adopted, a).None?
  {
    var plan := [Span(f, 0x1000, part), Span(f + 0x2000, 0xE000, part)];
    HoleRounds(f);
    HoleStart(plan, remapOk, f, top);
    forall a | f + 0x4000 <= a < f + 0x10000
      ensures plan[1].Has(a) && At(Copying(plan, remapOk, 0x4000, f, top).adopted, a).None?
    {
      SharedPageLosesPart(plan, remapOk, 0x4000, f, top, 1, a);
    }
  }

  lemma HoleStart(plan: seq<Span<Part>>, remapOk: Span<Part> -> bool, f: nat, top: nat)
    requires |plan| == 2 && plan[0].begin == f && plan[0].size == 0x1000 && plan[1].begin == f + 0x2000 && plan[1].size == 0xE000
    requires Aligned(f, 0x4000) && Aligned(top, 0x4000) && f + 0x10000 <= top && remapOk(plan[0])
    ensures Sorted(plan) && Real(plan) && Copying(plan[..1], remapOk, 0x4000, f, top).lost == []
  {
    assert plan[..1] == [plan[0]] && [plan[0]][..0] == [];
    OrderedOne(plan[0], 0);
    RoundedBounds(plan[0], 0x4000, f, top);
    NextLost(Copy([], [], [], []), plan[0], remapOk(plan[0]), 0x4000, f, top);
  }

  lemma HoleRounds(f: nat)
    requires Aligned(f, 0x4000)
    ensures AlignUp(f + 0x1000, 0x4000) == f + 0x4000
    ensures AlignDown(f + 0x2000, 0x4000) == f && AlignDown(f + 0x10000, 0x4000) == f + 0x10000
  {
    SamePage(f, f + 0x2000, 0x4000);
    SamePage(f, f + 0x1000, 0x4000);
    AlignedIsMultiple(0x10000, 0x4000);
    AlignedSum(f, 0x10000, 0x4000);
    AlignedFixed(f + 0x10000, 0x4000);
  }

  lemma AlignUpMonotone(v: nat, w: nat, page: nat)
    requires 0 < page && v <= w
    ensures AlignUp(v, page) <= AlignUp(w, page)
  {
    AlignUpLeast(v, AlignUp(w, page), page);
  }

  lemma AlignDownMonotone(v: nat, w: nat, page: nat)
    requires 0 < page && v <= w
    ensures AlignDown(v, page) <= AlignDown(w, page)
  {
    AlignDownGreatest(w, AlignDown(v, page), page);
  }
}
