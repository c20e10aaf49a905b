/** Arenas with one usable byte, and what two copying forks in a row make of it. */
module ForkScenarios {
  import opened Pages
  import opened Spans
  import opened GuestView
  import opened SpaceSpec
  import opened ForkPlan
  import opened CopyFork

  const SIZE := LOWEST_USABLE + 1

  function Empty(base: nat): Space {
    Space(base, SIZE, 1, [Span(base + LOWEST_USABLE, 1, ())], [], 1, (a: int) => 0, (a: int) => NO_ACCESS)
  }

  /** The byte is committed as `cell` and holds `v`. */
  function Holding(base: nat, cell: Cell, v: int, host: Access): Space {
    var at := base + LOWEST_USABLE;
    Space(base, SIZE, 1, [], [Span(at, 1, cell)], 2,
          (a: int) => if a == at then v else 0, (a: int) => if a == at then host else NO_ACCESS)
  }

  function ThePart(base: nat, cell: Cell): Span<Part> { Span(base + LOWEST_USABLE, 1, PartOf(cell, false)) }

  function TheCopy(base: nat, cell: Cell): Copy {
    var x := ThePart(base, cell);
    Copy([x], if cell.written then [x] else [], [x], [])
  }

  /** What a fork makes of it: a byte once writable is copied, another is reserved afresh. */
  function Image(base: nat, cell: Cell, v: int): Space {
    Holding(base, Cell(cell.prot, 1, cell.written && cell.prot.write), if cell.written then v else 0, HostOf(PartOf(cell, false)))
  }

  lemma PageOfOne(v: nat)
    ensures Aligned(v, 1) && AlignDown(v, 1) == v == AlignUp(v, 1)
  {
    AlignedIsMultiple(v, 1);
    AlignedFixed(v, 1);
  }

  lemma OneAt<T>(x: Span<T>, a: int)
    ensures At([x], a) == if x.Has(a) then Some(x.tag) else None
  {
    AtSnoc([], x, a);
    assert [] + [x] == [x];
  }

  lemma OneCopied(base: nat, cell: Cell, top: int, remapOk: Span<Part> -> bool)
    requires remapOk(ThePart(base, cell)) && base + SIZE <= top
    ensures Real([ThePart(base, cell)])
    ensures Copying([ThePart(base, cell)], remapOk, 1, base + LOWEST_USABLE, top) == TheCopy(base, cell)
  {
    var x := ThePart(base, cell);
    PageOfOne(x.begin);
    PageOfOne(x.begin + 1);
    assert [x][..0] == [] && Rounded(x, 1) == x;
    assert Copying([], remapOk, 1, base + LOWEST_USABLE, top) == Copy([], [], [], []);
    assert Fits([], x, base + LOWEST_USABLE, top);
    assert [] + [x] == [x];
  }

  lemma OneCopies(base: nat, to: nat, cell: Cell, v: int, host: Access)
    ensures Copies(Holding(base, cell, v, host), Empty(to), Image(to, cell, v), TheCopy(base, cell))
  {
    var s, t0, t, c := Holding(base, cell, v, host), Empty(to), Image(to, cell, v), TheCopy(base, cell);
    var x, d := ThePart(base, cell), to - base;
    forall b
      ensures At(c.adopted, b - d) == (if b == to + LOWEST_USABLE then Some(x.tag) else None)
      ensures At(c.images, b - d).Some? <==> b == to + LOWEST_USABLE && cell.written
      ensures t0.Free(b) <==> b == to + LOWEST_USABLE
      ensures t.Cell(b).Some? <==> b == to + LOWEST_USABLE
      ensures Recorded1(t.Cell(b), At(c.adopted, b - d))
    {
      OneAt(x, b - d);
      OneAt(t0.free[0], b);
      OneAt(t.committed[0], b);
    }
  }

  /** A fork of the one-byte arena at `base` into a fresh one at `to`, losing nothing. */
  lemma OneByteFork(base: nat, to: nat, cell: Cell, v: int, host: Access, remapOk: Span<Part> -> bool)
    requires 0 < base && remapOk(ThePart(base, cell))
    ensures Forked(Holding(base, cell, v, host), [], Empty(to), Image(to, cell, v), [ThePart(base, cell)], TheCopy(base, cell), remapOk)
  {
    var s, x := Holding(base, cell, v, host), ThePart(base, cell);
    PageOfOne(base);
    PageOfOne(SIZE);
    PageOfOne(LOWEST_USABLE);
    OneCopied(base, cell, base + SIZE, remapOk);
    OneCopies(base, to, cell, v, host);
    OrderedOne(x, 0);
    OrderedOne(s.committed[0], 0);
    forall a ensures At([x], a) == PartAt(s.committed, [], a) {
      OneAt(x, a);
      OneAt(s.committed[0], a);
    }
  }

  lemma HoldingValid(base: nat, cell: Cell, v: int, host: Access)
    requires 0 < base && cell.epoch == 1
    ensures Valid(Holding(base, cell, v, host))
  {
    var s := Holding(base, cell, v, host);
    PageOfOne(base);
    PageOfOne(SIZE);
    PageOfOne(LOWEST_USABLE);
    OrderedOne(s.committed[0], 0);
    forall a ensures s.Cell(a) == if a == base + LOWEST_USABLE then Some(cell) else None { OneAt(s.committed[0], a); }
    PageOfOne(base + LOWEST_USABLE);
    assert At(s.committed, base + LOWEST_USABLE).Some? && !s.PageClear(base + LOWEST_USABLE);
  }

  /** A byte once written and then made read-only: both forks lose nothing, the child still reads
      7 there, and the child's own child reads 0. */
  lemma GrandchildReadsZero() returns (s: Space, t0: Space, t: Space, plan: seq<Span<Part>>, c: Copy,
                                       u0: Space, u: Space, plan': seq<Span<Part>>, c': Copy, a: nat)
    ensures Forked(s, [], t0, t, plan, c, x => true) && c.lost == [] && Forked(t, [], u0, u, plan', c', x => true) && c'.lost == []
    ensures Valid(s) && s.Cell(a) == Some(Cell(Prot(true, false, false), 1, true)) && s.bytes(a) == 7
    ensures t.bytes(a + t0.base - s.base) == 7 && u.bytes(a + u0.base - s.base) == 0
  {
    var cell, all := Cell(Prot(true, false, false), 1, true), (x: Span<Part>) => true;
    var host := Access(true, false);
    s, t0, t := Holding(1, cell, 7, host), Empty(0x100000), Image(0x100000, cell, 7);
    plan, c := [ThePart(1, cell)], TheCopy(1, cell);
    HoldingValid(1, cell, 7, host);
    OneByteFork(1, 0x100000, cell, 7, host, all);
    var cell' := Cell(cell.prot, 1, false);
    u0, u := Empty(0x200000), Image(0x200000, cell', 7);
    plan', c' := [ThePart(0x100000, cell')], TheCopy(0x100000, cell');
    OneByteFork(0x100000, 0x200000, cell', 7, HostOf(PartOf(cell, false)), all);
    a := 1 + LOWEST_USABLE;
    OneAt(s.committed[0], a);
  }
}
