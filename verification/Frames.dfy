/** The host's page frames behind parent and child of a copying fork: which pages of the two are
    one piece of memory, and what later stores by either side do to the other. */
module Frames {
  import opened Pages
  import opened Spans
  import opened GuestView
  import opened SpaceSpec
  import opened ForkPlan
  import opened CopyFork
  import opened CopyComplete
  import opened CopyResult

  /** A page frame: one the parent had, one the child's arena was reserved with, or one made for
      a page copied by the remap of that number. Pages are named by the parent's address. */
  datatype Frame = Inherited(id: int) | Reserved(at: int) | Duplicate(remap: nat, at: int)

  datatype Side = Parent | Child

  /** What backs each page of the two, and what the frames hold, offset by offset. The child's
      page is the one at the same distance from its arena. */
  datatype Host = Host(page: nat, parent: int -> Frame, child: int -> Frame, store: (Frame, int) -> int)

  function FrameOf(h: Host, side: Side, a: nat): Frame
    requires 0 < h.page
  {
    if side == Parent then h.parent(AlignDown(a, h.page)) else h.child(AlignDown(a, h.page))
  }

  function Offset(h: Host, a: nat): int
    requires 0 < h.page
  {
    a - AlignDown(a, h.page)
  }

  /** The byte one side finds at `a`, the child's addresses being counted as the parent's. */
  function Read(h: Host, side: Side, a: nat): int
    requires 0 < h.page
  {
    h.store(FrameOf(h, side, a), Offset(h, a))
  }

  // ---- The fork ----

  /** Remap number `n` of the pages `y`: a shared part is backed by the parent's frames, a copied
      one by frames of its own with the same contents; a reservation keeps the frames the arena
      came with. */
  function Remapped(h: Host, y: Span<Part>, n: nat): Host {
    if !y.tag.copied then h
    else if y.tag.aliased then h.(child := (g: int) => if y.Has(g) then h.parent(g) else h.child(g))
    else h.(child := (g: int) => if y.Has(g) then Duplicate(n, g) else h.child(g),
            store := (f: Frame, o: int) => if f.Duplicate? && f.remap == n && y.Has(f.at) then h.store(h.parent(f.at), o) else h.store(f, o))
  }

  /** All remaps of a plan, in order; a copy the host refuses changes nothing. */
  function Carried(h: Host, plan: seq<Span<Part>>, remapOk: Span<Part> -> bool): Host
    requires 0 < h.page && Real(plan)
    ensures Carried(h, plan, remapOk).page == h.page && Carried(h, plan, remapOk).parent == h.parent
  {
    if plan == [] then h
    else
      var n := |plan| - 1;
      var before := Carried(h, plan[..n], remapOk);
      if plan[n].tag.copied && !remapOk(plan[n]) then before else Remapped(before, Rounded(plan[n], h.page), n)
  }

  /** Before the fork: the parent's frames are its own, and the child has a freshly reserved
      arena. */
  ghost predicate Before(h: Host) {
    && 0 < h.page
    && (forall g :: h.parent(g).Inherited?)
    && (forall g :: h.child(g) == Reserved(g))
    && (forall g, o :: h.store(Reserved(g), o) == 0)
  }

  /** `image` is what the remaps so far, `n` in number, have made of the page at `g`. */
  ghost predicate Backs(h0: Host, h: Host, image: Option<Part>, n: nat, g: int) {
    match image
    case None => h.child(g) == Reserved(g)
    case Some(part) =>
      if part.aliased then h.child(g) == h.parent(g)
      else
        && h.child(g).Duplicate? && h.child(g).at == g && h.child(g).remap < n
        && forall o :: h.store(h.child(g), o) == h0.store(h0.parent(g), o)
  }

  /** Frames that were there before keep their contents. */
  ghost predicate OldFramesKept(h0: Host, h: Host) {
    forall f: Frame, o :: !f.Duplicate? ==> h.store(f, o) == h0.store(f, o)
  }

  lemma {:induction false} CarriedBacks(h0: Host, plan: seq<Span<Part>>, remapOk: Span<Part> -> bool, floor: int, top: int, g: int)
    requires Before(h0) && Real(plan)
    ensures var h := Carried(h0, plan, remapOk);
      OldFramesKept(h0, h) && Backs(h0, h, At(Copying(plan, remapOk, h0.page, floor, top).images, g), |plan|, g)
    decreases |plan|
  {
    if plan != [] {
      var n := |plan| - 1;
      CarriedBacks(h0, plan[..n], remapOk, floor, top, g);
      var x, c := plan[n], Copying(plan[..n], remapOk, h0.page, floor, top);
      AtSnoc(c.images, Rounded(x, h0.page), g);
    }
  }

  // ---- Reading through the frames ----

  /** An image covers a page or misses it. */
  lemma {:induction false} ImagesCoverPages(plan: seq<Span<Part>>, remapOk: Span<Part> -> bool, page: nat, floor: int, top: int, a: nat)
    requires 0 < page && Real(plan)
    ensures var images := Copying(plan, remapOk, page, floor, top).images;
      At(images, AlignDown(a, page)) == At(images, a)
    decreases |plan|
  {
    if plan != [] {
      var n := |plan| - 1;
      ImagesCoverPages(plan[..n], remapOk, page, floor, top, a);
      var y, c := Rounded(plan[n], page), Copying(plan[..n], remapOk, page, floor, top);
      AtSnoc(c.images, y, a);
      AtSnoc(c.images, y, AlignDown(a, page));
      PageSplit(y.begin, y.End(), a, AlignDown(a, page), page);
    }
  }

  /** The frames hold what the two spaces hold. */
  ghost predicate Holds(h: Host, s: Space, t: Space) {
    && 0 < h.page == s.page
    && (forall a: nat :: Read(h, Parent, a) == s.bytes(a))
    && (forall a: nat :: Read(h, Child, a) == t.bytes(a + (t.base - s.base)))
  }

  /** Reading through the frames after the fork finds what the fork leaves in the two spaces. */
  lemma CarriedHolds(s: Space, shared: seq<Extent>, t0: Space, t: Space, plan: seq<Span<Part>>, c: Copy, remapOk: Span<Part> -> bool, h0: Host)
    requires Forked(s, shared, t0, t, plan, c, remapOk) && Before(h0) && h0.page == s.page
    requires forall a: nat :: Read(h0, Parent, a) == s.bytes(a)
    ensures Holds(Carried(h0, plan, remapOk), s, t)
  {
    var h := Carried(h0, plan, remapOk);
    forall a: nat
      ensures Read(h, Parent, a) == s.bytes(a)
      ensures Read(h, Child, a) == t.bytes(a + (t.base - s.base))
    {
      FrameBytes(h0, plan, c, remapOk, s.base + LOWEST_USABLE, s.base + t0.size, a);
      ByteHolds(s, t0, t, c, h0, h, a);
    }
  }

  /** What the remaps leave in the frames, byte by byte. */
  lemma FrameBytes(h0: Host, plan: seq<Span<Part>>, c: Copy, remapOk: Span<Part> -> bool, floor: int, top: int, a: nat)
    requires Before(h0) && Real(plan) && c == Copying(plan, remapOk, h0.page, floor, top)
    ensures var h := Carried(h0, plan, remapOk);
      && Read(h, Parent, a) == Read(h0, Parent, a)
      && Read(h, Child, a) == if At(c.images, a).Some? then Read(h0, Parent, a) else 0
  {
    CarriedBacks(h0, plan, remapOk, floor, top, AlignDown(a, h0.page));
    ImagesCoverPages(plan, remapOk, h0.page, floor, top, a);
    ReadBacked(h0, Carried(h0, plan, remapOk), At(c.images, a), |plan|, a);
  }

  lemma ReadBacked(h0: Host, h: Host, image: Option<Part>, n: nat, a: nat)
    requires Before(h0) && h.page == h0.page && h.parent == h0.parent && OldFramesKept(h0, h)
    requires Backs(h0, h, image, n, AlignDown(a, h0.page))
    ensures Read(h, Parent, a) == Read(h0, Parent, a)
    ensures Read(h, Child, a) == if image.Some? then Read(h0, Parent, a) else 0
  {
    assert h0.parent(AlignDown(a, h0.page)).Inherited?;
  }

  /** `h` is what a fork of `s` into `t` leaves of frames that held `s` before. */
  lemma ByteHolds(s: Space, t0: Space, t: Space, c: Copy, h0: Host, h: Host, a: nat)
    requires 0 < h0.page == h.page && Initial(t0) && Copies(s, t0, t, c) && Read(h0, Parent, a) == s.bytes(a)
    requires Read(h, Parent, a) == Read(h0, Parent, a) && Read(h, Child, a) == if At(c.images, a).Some? then Read(h0, Parent, a) else 0
    ensures Read(h, Parent, a) == s.bytes(a) && Read(h, Child, a) == t.bytes(a + (t.base - s.base))
  {
    ImageByte(s, t0, t, c, a);
  }

  lemma ImageByte(s: Space, t0: Space, t: Space, c: Copy, a: int)
    requires Copies(s, t0, t, c) && Initial(t0)
    ensures t.bytes(a + (t.base - s.base)) == if At(c.images, a).Some? then s.bytes(a) else 0
  {
    var b, d := a + (t.base - s.base), t0.base - s.base;
    assert b - d == a;
    assert t.bytes(b) == if At(c.images, b - d).Some? then s.bytes(b - d) else t0.bytes(b);
  }

  // ---- Later stores ----

  /** A store of one byte by one side. */
  datatype Store = Store(side: Side, at: nat, value: int)

  function Other(side: Side): Side { if side == Parent then Child else Parent }

  function Stored(h: Host, w: Store): Host
    requires 0 < h.page
  {
    var f, o := FrameOf(h, w.side, w.at), Offset(h, w.at);
    h.(store := (e: Frame, i: int) => if e == f && i == o then w.value else h.store(e, i))
  }

  /** Any number of stores, by either side, in any order. */
  function After(h: Host, stores: seq<Store>): Host
    requires 0 < h.page
    ensures After(h, stores) == h.(store := After(h, stores).store)
  {
    if stores == [] then h else Stored(After(h, stores[..|stores| - 1]), stores[|stores| - 1])
  }

  /** The two sides have one frame at `a`. */
  predicate Aliased(h: Host, a: nat)
    requires 0 < h.page
  {
    FrameOf(h, Child, a) == FrameOf(h, Parent, a)
  }

  /** At any time after the fork, a store by one side is seen by the other at the same place if
      the page is one for both, and changes nothing there if not. */
  lemma SeenIffAliased(h: Host, stores: seq<Store>, side: Side, a: nat, v: int)
    requires 0 < h.page
    ensures var now := After(h, stores);
      Read(Stored(now, Store(side, a, v)), Other(side), a) == if Aliased(h, a) then v else Read(now, Other(side), a)
  {
  }

  /** A page that is one for both reads the same from both sides, always. */
  lemma AliasedAgree(h: Host, stores: seq<Store>, a: nat)
    requires 0 < h.page && Aliased(h, a)
    ensures Read(After(h, stores), Child, a) == Read(After(h, stores), Parent, a)
  {
  }

  /** The value one side last stored at `a`, or `was` if it has stored nothing there. */
  function LastOwn(stores: seq<Store>, side: Side, a: nat, was: int): int {
    if stores == [] then was
    else
      var w := stores[|stores| - 1];
      if w.side == side && w.at == a then w.value else LastOwn(stores[..|stores| - 1], side, a, was)
  }

  /** No other page of either side has the frame `side` has at `a`. */
  ghost predicate Alone(h: Host, side: Side, a: nat)
    requires 0 < h.page
  {
    forall other: Side, b: nat :: FrameOf(h, other, b) == FrameOf(h, side, a) ==> other == side && AlignDown(b, h.page) == AlignDown(a, h.page)
  }

  /** Memory backed by a frame of its own changes by its own side's stores there and by nothing
      else. */
  lemma {:induction false} AloneKeepsOwn(h: Host, stores: seq<Store>, side: Side, a: nat)
    requires 0 < h.page && Alone(h, side, a)
    ensures Read(After(h, stores), side, a) == LastOwn(stores, side, a, Read(h, side, a))
    decreases |stores|
  {
    if stores != [] {
      var n := |stores| - 1;
      AloneKeepsOwn(h, stores[..n], side, a);
      var w, now := stores[n], After(h, stores[..n]);
      if FrameOf(now, w.side, w.at) == FrameOf(now, side, a) && Offset(now, w.at) == Offset(now, a) {
        assert FrameOf(h, w.side, w.at) == FrameOf(h, side, a);
      }
    }
  }

  // ---- What a copying fork shares ----

  /** A page of the child is one with the parent's exactly when its image was shared; any other
      is backed by a frame of its own. */
  lemma ForkedPages(h0: Host, plan: seq<Span<Part>>, remapOk: Span<Part> -> bool, floor: int, top: int, a: nat)
    requires Before(h0) && Real(plan)
    ensures var h, image := Carried(h0, plan, remapOk), At(Copying(plan, remapOk, h0.page, floor, top).images, a);
      && (Aliased(h, a) <==> image.Some? && image.value.aliased)
      && (!Aliased(h, a) ==> Alone(h, Child, a))
  {
    var h := Carried(h0, plan, remapOk);
    var g := AlignDown(a, h0.page);
    CarriedBacks(h0, plan, remapOk, floor, top, g);
    ImagesCoverPages(plan, remapOk, h0.page, floor, top, a);
    assert h.parent(g).Inherited?;
    if !Aliased(h, a) {
      forall other: Side, b: nat | FrameOf(h, other, b) == FrameOf(h, Child, a)
        ensures other == Child && AlignDown(b, h.page) == g
      {
        CarriedBacks(h0, plan, remapOk, floor, top, AlignDown(b, h0.page));
        assert h.parent(AlignDown(b, h.page)).Inherited?;
      }
    }
  }

  /** What a page shared, or not, at the fork means for any later stores by either side. */
  lemma SharedOrOwn(h0: Host, plan: seq<Span<Part>>, remapOk: Span<Part> -> bool, floor: int, top: int, stores: seq<Store>, a: nat, isShared: bool)
    requires Before(h0) && Real(plan)
    requires var image := At(Copying(plan, remapOk, h0.page, floor, top).images, a); isShared <==> image.Some? && image.value.aliased
    ensures var h := Carried(h0, plan, remapOk);
      && (Aliased(h, a) <==> isShared)
      && Read(After(h, stores), Child, a) ==
           if isShared then Read(After(h, stores), Parent, a) else LastOwn(stores, Child, a, Read(h, Child, a))
  {
    var h := Carried(h0, plan, remapOk);
    ForkedPages(h0, plan, remapOk, floor, top, a);
    if isShared {
      AliasedAgree(h, stores, a);
    } else {
      AloneKeepsOwn(h, stores, Child, a);
    }
  }

  /** After a copying fork of a whole parent, and any stores by either side: a byte the parent
      shared is one byte for both, and any other byte of the child holds what the child itself
      last stored there, or what the fork left. */
  lemma ForkSharesExactly(s: Space, shared: seq<Extent>, t0: Space, plan: seq<Span<Part>>, c: Copy, remapOk: Span<Part> -> bool,
                          h0: Host, stores: seq<Store>, a: nat)
    requires Planned(s, shared, t0, plan, c, remapOk) && Whole(s, t0.size, plan, remapOk) && s.Cell(a).Some? && Before(h0) && h0.page == s.page
    ensures var h := Carried(h0, plan, remapOk);
      && (Aliased(h, a) <==> At(shared, a).Some?)
      && Read(After(h, stores), Child, a) ==
           if At(shared, a).Some? then Read(After(h, stores), Parent, a) else LastOwn(stores, Child, a, Read(h, Child, a))
  {
    LosesNothingIff(s, shared, t0, plan, c, remapOk);
    var top := s.base + t0.size;
    ImageShared(s, shared, t0, plan, c, remapOk, a, top);
    SharedOrOwn(h0, plan, remapOk, s.base + LOWEST_USABLE, top, stores, a, At(shared, a).Some?);
  }

  /** At any time after such a fork, a store by either side at a committed byte is what the other
      reads there exactly if the parent shared the byte; otherwise it changes nothing there. */
  lemma StoreSeenIffShared(s: Space, shared: seq<Extent>, t0: Space, plan: seq<Span<Part>>, c: Copy, remapOk: Span<Part> -> bool,
                           h0: Host, stores: seq<Store>, side: Side, a: nat, v: int)
    requires Planned(s, shared, t0, plan, c, remapOk) && Whole(s, t0.size, plan, remapOk) && s.Cell(a).Some? && Before(h0) && h0.page == s.page
    ensures var now := After(Carried(h0, plan, remapOk), stores);
      Read(Stored(now, Store(side, a, v)), Other(side), a) == if At(shared, a).Some? then v else Read(now, Other(side), a)
  {
    ForkSharesExactly(s, shared, t0, plan, c, remapOk, h0, stores, a);
    SeenIffAliased(Carried(h0, plan, remapOk), stores, side, a, v);
  }

  lemma ImageShared(s: Space, shared: seq<Extent>, t0: Space, plan: seq<Span<Part>>, c: Copy, remapOk: Span<Part> -> bool, a: nat, top: int)
    requires Planned(s, shared, t0, plan, c, remapOk) && c.lost == [] && s.Cell(a).Some? && top == s.base + t0.size
    ensures var image := At(Copying(plan, remapOk, s.page, s.base + LOWEST_USABLE, top).images, a);
      At(shared, a).Some? <==> image.Some? && image.value.aliased
  {
    var part := ByteParts(s, shared, t0, plan, c, remapOk, a);
  }

  /** A store the child makes in memory it does not share reaches no byte of the parent. */
  lemma ParentNeverSees(h0: Host, plan: seq<Span<Part>>, remapOk: Span<Part> -> bool, stores: seq<Store>, b: nat, v: int, a: nat)
    requires Before(h0) && Real(plan) && !Aliased(Carried(h0, plan, remapOk), b)
    ensures var now := After(Carried(h0, plan, remapOk), stores);
      Read(Stored(now, Store(Child, b, v)), Parent, a) == Read(now, Parent, a)
  {
    ForkedPages(h0, plan, remapOk, 0, 0, b);
    var h := Carried(h0, plan, remapOk);
    assert FrameOf(h, Parent, a) == FrameOf(h, Child, b) ==> Parent == Child;
  }

  /** The stores without those the child made in memory it does not share. */
  function ParentsView(h: Host, stores: seq<Store>): seq<Store>
    requires 0 < h.page
  {
    if stores == [] then []
    else
      var n := |stores| - 1;
      var before, w := ParentsView(h, stores[..n]), stores[n];
      if w.side == Child && !Aliased(h, w.at) then before else before + [w]
  }

  /** Two hosts with the same pages that read alike do so after one store more. */
  lemma StoredAlike(h: Host, h': Host, w: Store, a: nat)
    requires 0 < h.page == h'.page && h.parent == h'.parent && h.child == h'.child && Read(h, Parent, a) == Read(h', Parent, a)
    ensures Read(Stored(h, w), Parent, a) == Read(Stored(h', w), Parent, a)
  {
  }

  /** After any stores by either side the parent reads what it would have read had the child's
      stores in memory it does not share never been made. */
  lemma {:induction false} ParentSeesOnlyShared(h0: Host, plan: seq<Span<Part>>, remapOk: Span<Part> -> bool, stores: seq<Store>, a: nat)
    requires Before(h0) && Real(plan)
    ensures var h := Carried(h0, plan, remapOk); Read(After(h, stores), Parent, a) == Read(After(h, ParentsView(h, stores)), Parent, a)
    decreases |stores|
  {
    if stores != [] {
      var n, h := |stores| - 1, Carried(h0, plan, remapOk);
      var before, w := stores[..n], stores[n];
      ParentSeesOnlyShared(h0, plan, remapOk, before, a);
      var seen := ParentsView(h, before);
      if w.side == Child && !Aliased(h, w.at) {
        ParentNeverSees(h0, plan, remapOk, before, w.at, w.value, a);
      } else {
        assert (seen + [w])[..|seen|] == seen;
        StoredAlike(After(h, before), After(h, seen), w, a);
      }
    }
  }
}
