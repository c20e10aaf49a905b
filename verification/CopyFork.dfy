/** The copying fork: everything committed in the parent's arena is remapped into a fresh arena
    at the same offsets, copy-on-write, except that shared parts stay shared and reservations
    never written are reserved again. */
module CopyFork {
  import opened Pages
  import opened Spans
  import opened GuestView
  import opened SpaceSpec
  import opened SpaceOps
  import opened Regions
  import opened AddressSpace
  import opened ForkPlan

  // ---- The remaps, in order ----

  /** Parts lie at real addresses and are not empty. */
  ghost predicate Real(parts: seq<Span<Part>>) {
    forall i :: 0 <= i < |parts| ==> 0 <= parts[i].begin && 0 < parts[i].size
  }

  /** The host pages a part touches. */
  function Rounded(x: Span<Part>, page: nat): Span<Part>
    requires 0 < page && 0 <= x.begin && 0 < x.size
  {
    Span(AlignDown(x.begin, page), AlignUp(x.End(), page) - AlignDown(x.begin, page), x.tag)
  }

  /** What a fork has done so far: the parts recorded in the child, those whose contents were
      brought over, those given host access, and those the child has no record of. Parts are
      named by their addresses in the parent. */
  datatype Copy = Copy(adopted: seq<Span<Part>>, images: seq<Span<Part>>, laid: seq<Span<Part>>, lost: seq<Span<Part>>)

  /** [x.begin, x.End()) lies in the usable arena and nothing recorded so far meets it. */
  ghost predicate Fits(adopted: seq<Span<Part>>, x: Span<Part>, floor: int, top: int) {
    floor <= x.begin && x.End() <= top && Clear(adopted, x.begin, x.End())
  }

  /** One remap: a copy the host refuses leaves no trace; otherwise the pages are laid out, and
      recorded if they are still free. */
  ghost function Next(c: Copy, x: Span<Part>, ok: bool, page: nat, floor: int, top: int): Copy
    requires 0 < page && 0 <= x.begin && 0 < x.size
  {
    var y := Rounded(x, page);
    if x.tag.copied && !ok then c.(lost := c.lost + [x])
    else
      var images := if x.tag.copied then c.images + [y] else c.images;
      if Fits(c.adopted, y, floor, top)
      then Copy(c.adopted + [y], images, c.laid + [y], c.lost)
      else Copy(c.adopted, images, c.laid + [y], c.lost + [x])
  }

  ghost function Copying(parts: seq<Span<Part>>, remapOk: Span<Part> -> bool, page: nat, floor: int, top: int): Copy
    requires 0 < page && Real(parts)
  {
    if parts == [] then Copy([], [], [], [])
    else
      var x := parts[|parts| - 1];
      Next(Copying(parts[..|parts| - 1], remapOk, page, floor, top), x, remapOk(x), page, floor, top)
  }

  /** Host access of a laid out part: a copy is readable where the guest may write. */
  function HostOf(part: Part): Access {
    if part.copied then Access(part.prot.read || part.prot.write, part.prot.write) else Access(part.prot.read, false)
  }

  /** The child after the remaps `c`, `t0` being its fresh arena and `s` the parent. */
  ghost predicate Copies(s: Space, t0: Space, t: Space, c: Copy) {
    var d := t0.base - s.base;
    && SameArena(t0, t)
    && (forall b :: t.Free(b) <==> t0.Free(b) && At(c.adopted, b - d).None?)
    && (forall b :: Recorded1(t.Cell(b), At(c.adopted, b - d)))
    && (forall b :: t.bytes(b) == if At(c.images, b - d).Some? then s.bytes(b - d) else t0.bytes(b))
    && (forall b :: t.host(b) == if At(c.laid, b - d).Some? then HostOf(At(c.laid, b - d).value) else t0.host(b))
  }

  /** The record of one byte. A copy counts as written only where it is writable. */
  predicate Recorded1(cell: Option<Cell>, part: Option<Part>) {
    match part
    case None => cell.None?
    case Some(p) => cell.Some? && cell.value.prot == p.prot && cell.value.written == (p.copied && p.prot.write)
  }

  lemma FreshIsFree(t0: Space, b: int)
    requires Initial(t0)
    ensures t0.Free(b) <==> t0.base + LOWEST_USABLE <= b < t0.Top()
  {
    if t0.free != [] { AtSnoc([], t0.free[0], b); assert [] + [t0.free[0]] == t0.free; }
  }

  /** The child's free list has room for a part exactly when it fits. */
  lemma RoomIsFit(s: Space, t0: Space, t: Space, c: Copy, lo: int, hi: int)
    requires Initial(t0) && Copies(s, t0, t, c) && lo < hi
    ensures var d := t0.base - s.base;
      Full(t.free, lo + d, hi + d) <==> s.base + LOWEST_USABLE <= lo && hi <= s.base + t0.size && Clear(c.adopted, lo, hi)
  {
    var d := t0.base - s.base;
    if Full(t.free, lo + d, hi + d) {
      forall a | lo <= a < hi ensures s.base + LOWEST_USABLE <= a < s.base + t0.size && At(c.adopted, a).None? {
        assert At(t.free, a + d).Some? && t.Free(a + d);
        FreshIsFree(t0, a + d);
      }
      assert At(c.adopted, lo).None? && At(c.adopted, hi - 1).None?;
    }
    if s.base + LOWEST_USABLE <= lo && hi <= s.base + t0.size && Clear(c.adopted, lo, hi) {
      forall b | lo + d <= b < hi + d ensures At(t.free, b).Some? {
        FreshIsFree(t0, b);
        assert At(c.adopted, b - d).None? && t.Free(b);
      }
    }
  }

  /** One remap's effect on the memory behind the child, before it is recorded. */
  ghost predicate Laid(s: Space, t: Space, u: Space, d: int, y: Span<Part>) {
    && SameLists(t, u)
    && (forall b :: u.bytes(b) == if y.tag.copied && y.Has(b - d) then s.bytes(b - d) else t.bytes(b))
    && (forall b :: u.host(b) == if y.Has(b - d) then HostOf(y.tag) else t.host(b))
  }

  /** The record of one remap, `adopted` saying whether there was room for it. */
  ghost predicate Filed(u: Space, v: Space, d: int, y: Span<Part>, adopted: bool) {
    if adopted
    then Adopts(u, v, y.begin + d, y.End() + d, Cell(y.tag.prot, u.nextEpoch, y.tag.copied && y.tag.prot.write))
    else v == u
  }

  lemma RemapMemory(s: Space, t0: Space, t: Space, u: Space, c: Copy, y: Span<Part>)
    requires Copies(s, t0, t, c) && Laid(s, t, u, t0.base - s.base, y)
    ensures var d, images := t0.base - s.base, if y.tag.copied then c.images + [y] else c.images;
      && (forall b :: u.bytes(b) == if At(images, b - d).Some? then s.bytes(b - d) else t0.bytes(b))
      && (forall b :: u.host(b) == if At(c.laid + [y], b - d).Some? then HostOf(At(c.laid + [y], b - d).value) else t0.host(b))
  {
    var d := t0.base - s.base;
    forall a ensures At(c.images + [y], a).Some? <==> y.Has(a) || At(c.images, a).Some? {
      AtSnoc(c.images, y, a);
    }
    forall a ensures At(c.laid + [y], a) == if y.Has(a) then Some(y.tag) else At(c.laid, a) {
      AtSnoc(c.laid, y, a);
    }
  }

  lemma RemapRecord(s: Space, t0: Space, t: Space, u: Space, v: Space, c: Copy, y: Span<Part>)
    requires Copies(s, t0, t, c) && SameLists(t, u) && Filed(u, v, t0.base - s.base, y, true)
    ensures var d := t0.base - s.base;
      && (forall b :: v.Free(b) <==> t0.Free(b) && At(c.adopted + [y], b - d).None?)
      && (forall b :: Recorded1(v.Cell(b), At(c.adopted + [y], b - d)))
  {
    var d := t0.base - s.base;
    forall b
      ensures v.Free(b) <==> t0.Free(b) && At(c.adopted + [y], b - d).None?
      ensures Recorded1(v.Cell(b), At(c.adopted + [y], b - d))
    {
      AtSnoc(c.adopted, y, b - d);
      assert t.Free(b) <==> t0.Free(b) && At(c.adopted, b - d).None?;
      assert Recorded1(t.Cell(b), At(c.adopted, b - d));
    }
  }

  lemma RemapStep(s: Space, t0: Space, t: Space, u: Space, v: Space, c: Copy, x: Span<Part>, y: Span<Part>, d: int, ok: bool)
    requires x.tag.copied ==> ok
    requires 0 < s.page && 0 <= x.begin && 0 < x.size && Initial(t0) && Copies(s, t0, t, c)
    requires y == Rounded(x, s.page) && y.begin < y.End()
    requires d == t0.base - s.base && Laid(s, t, u, d, y) && Filed(u, v, d, y, Full(u.free, y.begin + d, y.End() + d))
    ensures Copies(s, t0, v, Next(c, x, ok, s.page, s.base + LOWEST_USABLE, s.base + t0.size))
  {
    RoomIsFit(s, t0, t, c, y.begin, y.End());
    RemapMemory(s, t0, t, u, c, y);
    if Fits(c.adopted, y, s.base + LOWEST_USABLE, s.base + t0.size) {
      RemapRecord(s, t0, t, u, v, c, y);
    } else {
      forall b ensures Recorded1(v.Cell(b), At(c.adopted, b - d)) {
        assert Recorded1(t.Cell(b), At(c.adopted, b - d));
      }
    }
  }

  lemma RefusedStep(s: Space, t0: Space, t: Space, c: Copy, x: Span<Part>)
    requires 0 < s.page && 0 <= x.begin && 0 < x.size && x.tag.copied && Copies(s, t0, t, c)
    ensures Copies(s, t0, t, Next(c, x, false, s.page, s.base + LOWEST_USABLE, s.base + t0.size))
  {
  }

  /** Gives the host pages `y` of the parent an image in the child. */
  method LayOut(from: GuestAddressSpace, to: GuestAddressSpace, y: Span<Part>, d: int, ghost s: Space, ghost t: Space)
    returns (ghost u: Space)
    requires from != to && s == from.Now() && t == to.Now() && d == to.base - from.base
    modifies to`bytes, to`host
    ensures u == to.Now() && Laid(s, t, u, d, y)
  {
    if y.tag.copied {
      CopyBytes(from, to, y.begin, y.End());
    }
    to.HostProtect(y.begin + d, y.End() + d, HostOf(y.tag));
    u := to.Now();
  }

  /** The pages of [begin, end) become the child's, with the parent's contents. */
  method CopyBytes(from: GuestAddressSpace, to: GuestAddressSpace, begin: int, end: int)
    requires from != to
    modifies to`bytes
    ensures var d := to.base - from.base;
      forall b :: to.bytes(b) == if begin <= b - d < end then from.bytes(b - d) else old(to.bytes)(b)
  {
    var d, source, target := to.base - from.base, from.bytes, to.bytes;
    to.bytes := (b: int) => if begin <= b - d < end then source(b - d) else target(b);
  }

  /** Records the host pages `y` in the child, if they are still free there. */
  method File(to: GuestAddressSpace, y: Span<Part>, d: int, ghost u: Space) returns (ghost v: Space)
    requires to.Inv() && u == to.Now() && 0 <= y.begin + d && 0 < y.size && Aligned(y.begin + d, to.page) && Aligned(y.size, to.page)
    modifies to`free, to`committed, to`nextEpoch, to`committedWords
    ensures to.Inv() && v == to.Now()
    ensures Filed(u, v, d, y, Full(u.free, y.begin + d, y.End() + d))
  {
    FullInArena(u, y.begin + d, y.End() + d);
    AlignedSum(y.begin + d, y.size, to.page);
    var adopted := to.AdoptCopiedMapping(y.begin + d, y.size, y.tag.prot, y.tag.copied);
    v := to.Now();
  }

  lemma FullInArena(s: Space, lo: int, hi: int)
    requires Valid(s) && lo < hi
    ensures Full(s.free, lo, hi) ==> s.base <= lo && hi <= s.Top()
  {
    if Full(s.free, lo, hi) {
      assert At(s.free, lo).Some? && At(s.free, hi - 1).Some?;
      assert s.Free(lo) && s.Free(hi - 1);
    }
  }

  lemma RoundedAligned(x: Span<Part>, page: nat, fromBase: nat, toBase: nat)
    requires 0 < page && Aligned(fromBase, page) && Aligned(toBase, page)
    requires 0 <= x.begin && 0 < x.size && 0 <= x.begin + toBase - fromBase
    ensures var y, d := Rounded(x, page), toBase - fromBase;
      0 < y.size && 0 <= y.begin + d && Aligned(y.begin + d, page) && Aligned(y.size, page)
  {
    var lo, hi := AlignDown(x.begin, page), AlignUp(x.End(), page);
    AlignedDifference(hi, lo, page);
    if fromBase <= toBase {
      AlignedDifference(toBase, fromBase, page);
      AlignedSum(lo, toBase - fromBase, page);
    } else {
      AlignedDifference(fromBase, toBase, page);
      AlignDownGreatest(x.begin, fromBase - toBase, page);
      AlignedDifference(lo, fromBase - toBase, page);
    }
  }

  /** Lays the host pages of a part out in the child and records them there. Whether the
      recording succeeded is not looked at. */
  method Place(from: GuestAddressSpace, to: GuestAddressSpace, y: Span<Part>, d: int, ghost s: Space, ghost t: Space)
    returns (ghost u: Space, ghost v: Space)
    requires from != to && to.Inv() && s == from.Now() && t == to.Now() && d == to.base - from.base
    requires 0 < y.size && 0 <= y.begin + d && Aligned(y.begin + d, to.page) && Aligned(y.size, to.page)
    modifies to
    ensures to.Inv() && v == to.Now()
    ensures Laid(s, t, u, d, y) && Filed(u, v, d, y, Full(u.free, y.begin + d, y.End() + d))
  {
    u := LayOut(from, to, y, d, s, t);
    SameListsValid(t, u);
    v := File(to, y, d, u);
  }

  /** One remap; `ok` is the host's answer to a copy. */
  method Remap(from: GuestAddressSpace, to: GuestAddressSpace, x: Span<Part>, ok: bool, ghost s: Space, ghost t0: Space, ghost t: Space, ghost c: Copy)
    returns (ghost v: Space)
    requires from != to && from.page == to.page && 0 < from.page && Aligned(from.base, from.page) && to.Inv()
    requires 0 <= x.begin && 0 < x.size && 0 <= x.begin + to.base - from.base
    requires s == from.Now() && t == to.Now() && t0.base == t.base && t0.size == t.size
    requires Initial(t0) && Copies(s, t0, t, c)
    modifies to
    ensures to.Inv() && v == to.Now()
    ensures Copies(s, t0, v, Next(c, x, ok, s.page, s.base + LOWEST_USABLE, s.base + t0.size))
  {
    v := t;
    if x.tag.copied && !ok {
      RefusedStep(s, t0, t, c, x);
    } else {
      ghost var u;
      var y, d := Rounded(x, from.page), to.base - from.base;
      RoundedAligned(x, from.page, from.base, to.base);
      u, v := Place(from, to, y, d, s, t);
      RemapStep(s, t0, t, u, v, c, x, y, d, ok);
    }
  }

  /** The plan of a copying fork of `s`, and what carrying it out does. */
  ghost predicate Planned(s: Space, shared: seq<Extent>, t0: Space, plan: seq<Span<Part>>, c: Copy, remapOk: Span<Part> -> bool) {
    && Geometry(s) && Sorted(s.committed) && Real(plan) && Sorted(plan) && Aligned(t0.size, s.page)
    && (forall a :: At(plan, a) == PartAt(s.committed, shared, a)) && CutAtPages(plan, s.committed, s.page)
    && c == Copying(plan, remapOk, s.page, s.base + LOWEST_USABLE, s.base + t0.size)
  }

  /** `t` is the fresh arena `t0` after a copying fork of `s`. */
  ghost predicate Forked(s: Space, shared: seq<Extent>, t0: Space, t: Space, plan: seq<Span<Part>>, c: Copy, remapOk: Span<Part> -> bool) {
    Planned(s, shared, t0, plan, c, remapOk) && Initial(t0) && Copies(s, t0, t, c)
  }

  /** Every range of the parent, cut at the shared spans, is remapped in order. */
  method CopyAddressSpace(from: GuestAddressSpace, to: GuestAddressSpace, shared: seq<Extent>, remapOk: Span<Part> -> bool, ghost s: Space, ghost t0: Space)
    returns (plan: seq<Span<Part>>, ghost t: Space, ghost c: Copy)
    requires from != to && from.Inv() && to.Inv() && from.page == to.page && s == from.Now() && t0 == to.Now()
    requires Initial(t0) && WholePages(shared, from.page)
    requires forall a :: At(s.committed, a).Some? ==> 0 <= a + to.base - from.base
    modifies to
    ensures to.Inv() && t == to.Now()
    ensures Forked(s, shared, t0, t, plan, c, remapOk)
  {
    RangesAreReal(s);
    plan := PlanFor(from.committed, shared, from.page);
    PlanIsReal(s, shared, plan);
    forall i | 0 <= i < |plan| ensures 0 <= plan[i].begin + to.base - from.base {
      PartIsCommitted(s, shared, plan, i);
    }
    t := RemapAll(from, to, plan, remapOk, s, t0);
    c := Copying(plan, remapOk, s.page, s.base + LOWEST_USABLE, s.base + t0.size);
  }

  method RemapAll(from: GuestAddressSpace, to: GuestAddressSpace, plan: seq<Span<Part>>, remapOk: Span<Part> -> bool, ghost s: Space, ghost t0: Space)
    returns (ghost t: Space)
    requires from != to && from.page == to.page && 0 < from.page && Aligned(from.base, from.page) && to.Inv()
    requires s == from.Now() && t0 == to.Now() && Initial(t0)
    requires Real(plan) && forall i :: 0 <= i < |plan| ==> 0 <= plan[i].begin + to.base - from.base
    modifies to
    ensures to.Inv() && t == to.Now()
    ensures Copies(s, t0, t, Copying(plan, remapOk, s.page, s.base + LOWEST_USABLE, s.base + t0.size))
  {
    t := t0;
    ghost var c := Copy([], [], [], []);
    NothingCopied(s, t0);
    var i := 0;
    while i < |plan|
      invariant 0 <= i <= |plan| && to.Inv() && s == from.Now() && t == to.Now() && t0.base == t.base && t0.size == t.size
      invariant c == Copying(plan[..i], remapOk, s.page, s.base + LOWEST_USABLE, s.base + t0.size)
      invariant Copies(s, t0, t, c)
    {
      assert plan[..i + 1][..i] == plan[..i];
      t := Remap(from, to, plan[i], remapOk(plan[i]), s, t0, t, c);
      c := Next(c, plan[i], remapOk(plan[i]), s.page, s.base + LOWEST_USABLE, s.base + t0.size);
      i := i + 1;
    }
    assert plan[..i] == plan;
  }

  lemma NothingCopied(s: Space, t0: Space)
    requires Initial(t0)
    ensures Copies(s, t0, t0, Copy([], [], [], []))
  {
  }

  method PlanFor(committed: seq<GuestRange>, shared: seq<Extent>, page: nat) returns (plan: seq<Span<Part>>)
    requires 0 < page && Sorted(committed) && WholePages(shared, page) && forall i :: 0 <= i < |committed| ==> 0 <= committed[i].begin
    ensures Sorted(plan)
    ensures forall a :: At(plan, a) == PartAt(committed, shared, a)
    ensures CutAtPages(plan, committed, page)
  {
    var sorted := SortByBegin(shared);
    SortAscending(shared);
    assert WholePages(sorted, page) by {
      forall i | 0 <= i < |sorted|
        ensures 0 <= sorted[i].begin && 0 <= sorted[i].size && Aligned(sorted[i].begin, page) && Aligned(sorted[i].size, page)
      {
        var j := SortMembers(shared, i);
      }
    }
    plan := ForkPlan.Plan(committed, sorted, page);
    forall a ensures At(plan, a) == PartAt(committed, shared, a) {
      SortUnion(shared, a);
    }
  }

  /** A part lies in one committed byte after another. */
  lemma PartIsCommitted(s: Space, shared: seq<Extent>, plan: seq<Span<Part>>, i: int)
    requires Sorted(plan) && 0 <= i < |plan| && forall a :: At(plan, a) == PartAt(s.committed, shared, a)
    ensures 0 < plan[i].size
    ensures At(s.committed, plan[i].begin).Some? && At(s.committed, plan[i].End() - 1).Some?
  {
    OrderedIndex(plan, 0, i, i);
    AtIndex(plan, i, plan[i].begin);
    AtIndex(plan, i, plan[i].End() - 1);
  }

  lemma RangesAreReal(s: Space)
    requires EpochsOk(s) && Sorted(s.committed)
    ensures forall i :: 0 <= i < |s.committed| ==> 0 <= s.committed[i].begin
  {
    forall i | 0 <= i < |s.committed| ensures 0 <= s.committed[i].begin {
      OrderedIndex(s.committed, 0, i, i);
      AtIndex(s.committed, i, s.committed[i].begin);
      assert s.Cell(s.committed[i].begin).Some?;
    }
  }

  lemma PlanIsReal(s: Space, shared: seq<Extent>, plan: seq<Span<Part>>)
    requires EpochsOk(s) && Sorted(plan) && forall a :: At(plan, a) == PartAt(s.committed, shared, a)
    ensures Real(plan)
  {
    forall i | 0 <= i < |plan| ensures 0 <= plan[i].begin && 0 < plan[i].size {
      PartIsCommitted(s, shared, plan, i);
      assert s.Cell(plan[i].begin).Some?;
    }
  }
}
