/** Building the initial stack: strings are pushed downward from the top, then the words are
    written upward from the stack pointer. */
module StackBuild {
  import opened Words
  import opened InitialStack

  function Down16(x: int): (r: int)
    ensures r % 16 == 0 && x - 16 < r <= x
  {
    x - x % 16
  }

  // ---- Where things go ----

  /** Where a string pushed at `cursor` starts. */
  function Below(cursor: int, s: Bytes): int { Down16(cursor - |s| - 1) }

  /** Where the first of the strings starts, the last having been pushed first. */
  function StringsBottom(cursor: int, strings: seq<Bytes>): int {
    if strings == [] then cursor else Below(StringsBottom(cursor, strings[1..]), strings[0])
  }

  lemma {:induction false} StringsBottomBelow(cursor: int, strings: seq<Bytes>)
    ensures StringsBottom(cursor, strings) <= cursor
    ensures strings != [] || cursor % 16 == 0 ==> StringsBottom(cursor, strings) % 16 == 0
    decreases |strings|
  {
    if strings != [] { StringsBottomBelow(cursor, strings[1..]); }
  }

  /** Memory after the strings have been pushed at `cursor`, the last one first. */
  function PushAll(mem: Memory, cursor: int, strings: seq<Bytes>): Memory {
    if strings == [] then mem
    else Stored(PushAll(mem, cursor, strings[1..]), StringsBottom(cursor, strings), strings[0] + [0])
  }

  /** The strings, each with its NUL, lie at `addresses` in [floor, ceiling), in order, apart
      from each other and on 16-byte boundaries. */
  ghost predicate Placed(mem: Memory, addresses: seq<int>, strings: seq<Bytes>, floor: int, ceiling: int) {
    if addresses == [] || strings == [] then addresses == [] && strings == [] && floor <= ceiling
    else
      && BytesAt(mem, addresses[0], strings[0] + [0])
      && floor <= addresses[0] && addresses[0] % 16 == 0
      && Placed(mem, addresses[1..], strings[1..], addresses[0] + |strings[0]| + 1, ceiling)
  }

  lemma {:induction false} PlacedKept(before: Memory, after: Memory, addresses: seq<int>, strings: seq<Bytes>, floor: int, ceiling: int, lo: int, hi: int)
    requires Placed(before, addresses, strings, floor, ceiling) && Within(before, after, lo, hi) && (hi <= floor || ceiling <= lo)
    ensures Placed(after, addresses, strings, floor, ceiling)
    decreases |addresses|
  {
    if addresses != [] {
      PlacedBounds(before, addresses[1..], strings[1..], addresses[0] + |strings[0]| + 1, ceiling);
      PlacedKept(before, after, addresses[1..], strings[1..], addresses[0] + |strings[0]| + 1, ceiling, lo, hi);
      var a, data := addresses[0], strings[0] + [0];
      forall i | 0 <= i < |data| ensures after(a + i) == data[i] {
        assert before(a + i) == data[i];
      }
    }
  }

  lemma {:induction false} PlacedBounds(mem: Memory, addresses: seq<int>, strings: seq<Bytes>, floor: int, ceiling: int)
    requires Placed(mem, addresses, strings, floor, ceiling)
    ensures floor <= ceiling && |addresses| == |strings|
    ensures forall i :: 0 <= i < |addresses| ==> floor <= addresses[i] < ceiling
    decreases |addresses|
  {
    if addresses != [] {
      PlacedBounds(mem, addresses[1..], strings[1..], addresses[0] + |strings[0]| + 1, ceiling);
      forall i | 0 <= i < |addresses| ensures floor <= addresses[i] < ceiling {
        if i > 0 { assert addresses[i] == addresses[1..][i - 1]; }
      }
    }
  }

  // ---- Words in a row ----

  /** The words `ws` lie one after another from `a`. */
  ghost predicate WordsAt(mem: Memory, a: int, narrow: bool, ws: seq<nat>)
    decreases |ws|
  {
    ws == [] || (WordAt(mem, a, narrow) == Word(ws[0], narrow) && WordsAt(mem, a + Width(narrow), narrow, ws[1..]))
  }

  /** A value cut to the width of a word. */
  function Word(v: nat, narrow: bool): (r: nat)
    ensures v < Limit(narrow) ==> r == v
  {
    LimitValue();
    v % Limit(narrow)
  }

  lemma {:induction false} WordsKept(before: Memory, after: Memory, a: int, narrow: bool, ws: seq<nat>, hi: int)
    requires WordsAt(before, a, narrow, ws) && Within(before, after, a + Width(narrow) * |ws|, hi)
    ensures WordsAt(after, a, narrow, ws)
    decreases |ws|
  {
    if ws != [] {
      SameWord(before, after, a, narrow);
      WordsKept(before, after, a + Width(narrow), narrow, ws[1..], hi);
    }
  }

  lemma {:induction false} WordsSnoc(mem: Memory, a: int, narrow: bool, ws: seq<nat>, v: nat)
    requires WordsAt(mem, a, narrow, ws) && WordAt(mem, a + Width(narrow) * |ws|, narrow) == Word(v, narrow)
    ensures WordsAt(mem, a, narrow, ws + [v])
    decreases |ws|
  {
    if ws == [] {
      assert ([v])[1..] == [];
    } else {
      WordsSnoc(mem, a + Width(narrow), narrow, ws[1..], v);
      assert (ws + [v])[1..] == ws[1..] + [v];
    }
  }

  lemma {:induction false} WordsDrop(mem: Memory, a: int, narrow: bool, xs: seq<nat>, ys: seq<nat>)
    requires WordsAt(mem, a, narrow, xs + ys)
    ensures WordsAt(mem, a + Width(narrow) * |xs|, narrow, ys)
    decreases |xs|
  {
    if xs == [] {
      assert xs + ys == ys;
    } else {
      assert (xs + ys)[1..] == xs[1..] + ys;
      WordsDrop(mem, a + Width(narrow), narrow, xs[1..], ys);
    }
  }

  /** Pointers followed by a zero read as a vector of pointers. */
  lemma {:induction false} VectorFromWords(mem: Memory, a: int, narrow: bool, ptrs: seq<nat>, rest: seq<nat>)
    requires WordsAt(mem, a, narrow, ptrs + [0] + rest) && forall i :: 0 <= i < |ptrs| ==> 0 < ptrs[i] < Limit(narrow)
    ensures VectorAt(mem, a, narrow, ptrs)
    decreases |ptrs|
  {
    LimitValue();
    if ptrs != [] {
      assert (ptrs + [0] + rest)[1..] == ptrs[1..] + [0] + rest;
      VectorFromWords(mem, a + Width(narrow), narrow, ptrs[1..], rest);
    }
  }

  function Flat(aux: seq<(nat, nat)>): seq<nat> {
    if aux == [] then [] else [aux[0].0, aux[0].1] + Flat(aux[1..])
  }

  function Cut(aux: seq<(nat, nat)>, narrow: bool): seq<(int, int)> {
    if aux == [] then [] else [(Word(aux[0].0, narrow) as int, Word(aux[0].1, narrow) as int)] + Cut(aux[1..], narrow)
  }

  /** Tagged values followed by a zero tag read as an auxiliary vector. */
  lemma {:induction false} AuxFromWords(mem: Memory, a: int, narrow: bool, aux: seq<(nat, nat)>, rest: seq<nat>)
    requires WordsAt(mem, a, narrow, Flat(aux) + [0] + rest) && forall i :: 0 <= i < |aux| ==> 0 < aux[i].0 < Limit(narrow)
    ensures AuxAt(mem, a, narrow, Cut(aux, narrow))
    decreases |aux|
  {
    LimitValue();
    if aux != [] {
      var ws := Flat(aux) + [0] + rest;
      assert ws[1..][1..] == Flat(aux[1..]) + [0] + rest;
      assert ws[0] == aux[0].0 && ws[1..][0] == aux[0].1;
      AuxFromWords(mem, a + 2 * Width(narrow), narrow, aux[1..], rest);
      assert Cut(aux, narrow)[1..] == Cut(aux[1..], narrow);
    }
  }

  /** Stored strings without NULs are read back whole. */
  lemma {:induction false} StringsFromPlaced(mem: Memory, base: int, addresses: seq<int>, ptrs: seq<nat>, strings: seq<Bytes>, floor: int, ceiling: int)
    requires Placed(mem, addresses, strings, floor, ceiling) && |ptrs| == |addresses|
    requires forall i :: 0 <= i < |ptrs| ==> base + ptrs[i] == addresses[i]
    requires forall i :: 0 <= i < |strings| ==> NulFree(strings[i])
    ensures StringsAt(mem, base, ptrs, strings)
    decreases |ptrs|
  {
    if ptrs != [] {
      ReadBack(mem, addresses[0], strings[0]);
      StringsFromPlaced(mem, base, addresses[1..], ptrs[1..], strings[1..], addresses[0] + |strings[0]| + 1, ceiling);
    }
  }

  // ---- The builder ----

  class Builder {
    const narrow: bool
    var mem: Memory
    var cursor: int
    var word: int

    constructor (narrow: bool, mem: Memory, top: int)
      ensures this.narrow == narrow && this.mem == mem && cursor == top
    {
      this.narrow, this.mem, cursor, word := narrow, mem, top, top;
    }

    method Store(a: int, data: Bytes)
      modifies this`mem
      ensures mem == Stored(old(mem), a, data) && BytesAt(mem, a, data) && Within(old(mem), mem, a, a + |data|)
    {
      mem := Stored(mem, a, data);
    }

    method PushBytes(data: Bytes) returns (address: int)
      modifies this`mem, this`cursor
      ensures address == cursor == Down16(old(cursor) - |data|) && mem == Stored(old(mem), address, data)
      ensures BytesAt(mem, cursor, data) && Within(old(mem), mem, cursor, cursor + |data|)
    {
      cursor := cursor - |data|;
      cursor := Down16(cursor);
      Store(cursor, data);
      address := cursor;
    }

    method PushString(s: Bytes) returns (address: int)
      modifies this`mem, this`cursor
      ensures address == cursor == Below(old(cursor), s) && mem == Stored(old(mem), address, s + [0])
      ensures address % 16 == 0 && address + |s| + 1 <= old(cursor)
      ensures BytesAt(mem, address, s + [0]) && Within(old(mem), mem, address, address + |s| + 1)
    {
      address := PushBytes(s + [0]);
    }

    /** Pushes the strings from the last to the first. */
    method PushStrings(strings: seq<Bytes>) returns (addresses: seq<int>)
      modifies this`mem, this`cursor
      ensures cursor == StringsBottom(old(cursor), strings) && mem == PushAll(old(mem), old(cursor), strings)
      ensures Placed(mem, addresses, strings, cursor, old(cursor)) && Within(old(mem), mem, cursor, old(cursor))
    {
      addresses := [];
      var k := |strings|;
      while k > 0
        invariant 0 <= k <= |strings| && cursor == StringsBottom(old(cursor), strings[k..]) && cursor <= old(cursor)
        invariant mem == PushAll(old(mem), old(cursor), strings[k..])
        invariant Placed(mem, addresses, strings[k..], cursor, old(cursor)) && Within(old(mem), mem, cursor, old(cursor))
      {
        k := k - 1;
        ghost var before, was := mem, cursor;
        assert strings[k..][1..] == strings[k + 1..];
        var a := PushString(strings[k]);
        PlacedNext(before, mem, a, addresses, strings[k..], was, old(cursor));
        addresses := [a] + addresses;
      }
    }

    method Put(value: nat)
      modifies this`mem, this`word
      ensures word == old(word) + Width(narrow)
      ensures WordAt(mem, old(word), narrow) == Word(value, narrow) && Within(old(mem), mem, old(word), word)
    {
      Store(word, Encode(value, Width(narrow)));
      StoredWord(mem, word, value, narrow);
      word := word + Width(narrow);
    }

    /** Appends a word to those written from `start`. */
    method PutNext(value: nat, ghost start: int, ghost mem0: Memory, ghost ws: seq<nat>)
      requires Written(mem0, mem, start, word, narrow, ws)
      modifies this`mem, this`word
      ensures Written(mem0, mem, start, word, narrow, ws + [value])
    {
      ghost var before, was := mem, word;
      Put(value);
      WrittenNext(mem0, before, mem, start, was, narrow, ws, value);
    }

    method PutAll(values: seq<nat>, ghost start: int, ghost mem0: Memory, ghost ws: seq<nat>)
      requires Written(mem0, mem, start, word, narrow, ws)
      modifies this`mem, this`word
      ensures Written(mem0, mem, start, word, narrow, ws + values)
    {
      var i := 0;
      assert ws + values[..0] == ws;
      while i < |values|
        invariant 0 <= i <= |values| && Written(mem0, mem, start, word, narrow, ws + values[..i])
      {
        assert ws + values[..i + 1] == ws + values[..i] + [values[i]];
        PutNext(values[i], start, mem0, ws + values[..i]);
        i := i + 1;
      }
      assert values[..i] == values;
    }

    /** Pushes what the auxiliary vector points at. */
    method PushHead(p: Program, top: int)
      requires cursor == top
      modifies this`mem, this`cursor
      ensures cursor == ExecAt(top, p, narrow) && mem == HeadStored(old(mem), p, narrow, top)
      ensures Head(mem, p, narrow, top) && Within(old(mem), mem, cursor, top)
    {
      var random := PushBytes(p.random);
      ghost var mem1 := mem;
      var platform := PushString(Platform(narrow));
      ghost var mem2 := mem;
      BytesKept(mem1, mem2, random, p.random, platform, random);
      var execfn := PushString(p.execPath);
      BytesKept(mem2, mem, random, p.random, execfn, platform);
      BytesKept(mem2, mem, platform, Platform(narrow) + [0], execfn, platform);
    }

    /** Pushes every string of the program. */
    method PushProgram(p: Program, top: int) returns (args: seq<int>, envs: seq<int>)
      requires cursor == top
      modifies this`mem, this`cursor
      ensures cursor == StringFloor(top, p, narrow) && mem == StringsStored(old(mem), p, narrow, top)
      ensures Pushed(mem, p, narrow, top, args, envs) && Within(old(mem), mem, cursor, top)
    {
      PushHead(p, top);
      ghost var mem1 := mem;
      envs := PushStrings(p.envp);
      ghost var mem2 := mem;
      args := PushStrings(p.argv);
      PushedHolds(old(mem), mem1, mem2, mem, p, narrow, top, args, envs);
    }

    /** Writes every word from `start` upward. */
    method PutProgram(start: int, args: seq<nat>, envs: seq<nat>, aux: seq<(nat, nat)>)
      requires |args| < Limit(narrow) && Pointers(args, narrow) && Pointers(envs, narrow) && Tagged(aux, narrow)
      modifies this`mem, this`word
      ensures Reads(mem, start, narrow, args, envs, Cut(aux, narrow))
      ensures Within(old(mem), mem, start, start + Span(narrow, |args| + |envs| + 2 * |aux| + 5))
    {
      ghost var mem0 := mem;
      word := start;
      PutNext(|args|, start, mem0, []);
      PutAll(args, start, mem0, [] + [|args|]);
      PutNext(0, start, mem0, [] + [|args|] + args);
      PutAll(envs, start, mem0, [] + [|args|] + args + [0]);
      PutNext(0, start, mem0, [] + [|args|] + args + [0] + envs);
      PutAll(Flat(aux), start, mem0, [] + [|args|] + args + [0] + envs + [0]);
      PutAll([0, 0], start, mem0, [] + [|args|] + args + [0] + envs + [0] + Flat(aux));
      assert [] + [|args|] == [|args|];
      WordsRead(mem, start, narrow, args, envs, aux);
      CountWords(args, envs, aux, narrow);
    }
  }

  // ---- Words and strings together ----

  /** Nothing but the words `ws`, from `start` up to `word`, has been written. */
  ghost predicate Written(mem0: Memory, mem: Memory, start: int, word: int, narrow: bool, ws: seq<nat>) {
    word == start + Width(narrow) * |ws| && WordsAt(mem, start, narrow, ws) && Within(mem0, mem, start, word)
  }

  lemma WrittenNext(mem0: Memory, before: Memory, after: Memory, start: int, word: int, narrow: bool, ws: seq<nat>, value: nat)
    requires Written(mem0, before, start, word, narrow, ws)
    requires WordAt(after, word, narrow) == Word(value, narrow) && Within(before, after, word, word + Width(narrow))
    ensures Written(mem0, after, start, word + Width(narrow), narrow, ws + [value])
  {
    WordsKept(before, after, start, narrow, ws, word + Width(narrow));
    WordsSnoc(after, start, narrow, ws, value);
    assert Width(narrow) * |ws + [value]| == Width(narrow) * |ws| + Width(narrow);
  }

  /** One more string below those already placed. */
  lemma PlacedNext(before: Memory, after: Memory, a: int, addresses: seq<int>, strings: seq<Bytes>, floor: int, ceiling: int)
    requires strings != [] && Placed(before, addresses, strings[1..], floor, ceiling)
    requires a % 16 == 0 && a + |strings[0]| + 1 <= floor
    requires BytesAt(after, a, strings[0] + [0]) && Within(before, after, a, a + |strings[0]| + 1)
    ensures Placed(after, [a] + addresses, strings, a, ceiling)
  {
    var end := a + |strings[0]| + 1;
    PlacedBounds(before, addresses, strings[1..], floor, ceiling);
    assert Placed(before, addresses, strings[1..], end, ceiling);
    PlacedKept(before, after, addresses, strings[1..], end, ceiling, a, end);
    assert ([a] + addresses)[1..] == addresses;
  }

  // ---- The whole stack ----

  /** The parts of a loaded image the auxiliary vector mentions. */
  datatype Image = Image(phdr: nat, phentsize: nat, phnum: nat, entry: nat)

  /** Everything the stack is made of. */
  datatype Program = Program(image: Image, interpreter: nat, argv: seq<Bytes>, envp: seq<Bytes>, execPath: Bytes, random: Bytes)

  const X86_64 := [120, 56, 54, 95, 54, 52]
  const I686 := [105, 54, 56, 54]

  function Platform(narrow: bool): Bytes { if narrow then I686 else X86_64 }

  /** The auxiliary vector without its terminator, with the three pointers into this stack. */
  function Aux(p: Program, platform: nat, random: nat, execfn: nat): (r: seq<(nat, nat)>)
    ensures |r| == 18 && forall i :: 0 <= i < |r| ==> 0 < r[i].0 < 256
    ensures Ascending(r)
  {
    [(3, p.image.phdr), (4, p.image.phentsize), (5, p.image.phnum), (6, 4096), (7, p.interpreter), (8, 0), (9, p.image.entry),
     (11, 1000), (12, 1000), (13, 1000), (14, 1000), (15, platform), (16, 0), (17, 100), (23, 0), (25, random), (26, 0), (31, execfn)]
  }

  /** Where the three strings of the auxiliary vector go. */
  function RandomAt(top: int, p: Program): int { Down16(top - |p.random|) }
  function PlatformAt(top: int, p: Program, narrow: bool): int { Below(RandomAt(top, p), Platform(narrow)) }
  function ExecAt(top: int, p: Program, narrow: bool): int { Below(PlatformAt(top, p, narrow), p.execPath) }

  /** The lowest byte of any string. */
  function StringFloor(top: int, p: Program, narrow: bool): int {
    StringsBottom(StringsBottom(ExecAt(top, p, narrow), p.envp), p.argv)
  }

  /** Memory after what the auxiliary vector points at has been pushed. */
  function HeadStored(mem: Memory, p: Program, narrow: bool, top: int): Memory {
    Stored(Stored(Stored(mem, RandomAt(top, p), p.random), PlatformAt(top, p, narrow), Platform(narrow) + [0]),
           ExecAt(top, p, narrow), p.execPath + [0])
  }

  /** Memory after every string has been pushed. */
  function StringsStored(mem: Memory, p: Program, narrow: bool, top: int): Memory {
    var exec := ExecAt(top, p, narrow);
    PushAll(PushAll(HeadStored(mem, p, narrow, top), exec, p.envp), StringsBottom(exec, p.envp), p.argv)
  }

  /** How many words lie below the strings. */
  function WordCount(p: Program): nat { 1 + |p.argv| + 1 + |p.envp| + 1 + 2 * 19 }

  /** How many bytes `n` words take. */
  function Span(narrow: bool, n: int): int { if narrow then 4 * n else 8 * n }

  /** The stack pointer, as a host address. */
  function StackPointer(top: int, p: Program, narrow: bool): int {
    Down16(StringFloor(top, p, narrow) - Span(narrow, WordCount(p)))
  }

  /** The stack pointer is the highest 16-byte boundary that leaves room below the strings for
      argc, both vectors with their terminators, and 18 pairs and a terminator. */
  lemma StackPointerIsHighest(top: int, p: Program, narrow: bool)
    ensures StackPointer(top, p, narrow) % 16 == 0
    ensures StackPointer(top, p, narrow) + Width(narrow) * (|p.argv| + |p.envp| + 41) <= StringFloor(top, p, narrow)
    ensures StringFloor(top, p, narrow) < StackPointer(top, p, narrow) + Width(narrow) * (|p.argv| + |p.envp| + 41) + 16
  {
  }

  function ToGuest(addresses: seq<int>, base: int): (r: seq<nat>)
    requires forall i :: 0 <= i < |addresses| ==> base <= addresses[i]
    ensures |r| == |addresses| && forall i :: 0 <= i < |r| ==> base + r[i] == addresses[i]
  {
    seq(|addresses|, i requires 0 <= i < |addresses| => addresses[i] - base)
  }

  /** What the auxiliary vector points at lies where it was pushed. */
  ghost predicate Head(mem: Memory, p: Program, narrow: bool, top: int) {
    && BytesAt(mem, RandomAt(top, p), p.random)
    && BytesAt(mem, PlatformAt(top, p, narrow), Platform(narrow) + [0])
    && BytesAt(mem, ExecAt(top, p, narrow), p.execPath + [0])
  }

  lemma HeadKept(before: Memory, after: Memory, p: Program, narrow: bool, top: int, lo: int, hi: int)
    requires Head(before, p, narrow, top) && Within(before, after, lo, hi) && hi <= ExecAt(top, p, narrow)
    ensures Head(after, p, narrow, top)
  {
    BytesKept(before, after, RandomAt(top, p), p.random, lo, hi);
    BytesKept(before, after, PlatformAt(top, p, narrow), Platform(narrow) + [0], lo, hi);
    BytesKept(before, after, ExecAt(top, p, narrow), p.execPath + [0], lo, hi);
  }

  /** Every string of the program lies where it was pushed. */
  ghost predicate Pushed(mem: Memory, p: Program, narrow: bool, top: int, args: seq<int>, envs: seq<int>) {
    var exec := ExecAt(top, p, narrow);
    var middle := StringsBottom(exec, p.envp);
    && Head(mem, p, narrow, top)
    && Placed(mem, envs, p.envp, middle, exec)
    && Placed(mem, args, p.argv, StringsBottom(middle, p.argv), middle)
  }

  lemma BytesKept(before: Memory, after: Memory, a: int, data: Bytes, lo: int, hi: int)
    requires BytesAt(before, a, data) && Within(before, after, lo, hi) && hi <= a
    ensures BytesAt(after, a, data)
  {
    forall i | 0 <= i < |data| ensures after(a + i) == data[i] { assert before(a + i) == data[i]; }
  }

  lemma PushedHolds(mem0: Memory, mem1: Memory, mem2: Memory, mem3: Memory, p: Program, narrow: bool, top: int, args: seq<int>, envs: seq<int>)
    requires var exec := ExecAt(top, p, narrow);
      var middle := StringsBottom(exec, p.envp);
      && Head(mem1, p, narrow, top) && Within(mem0, mem1, exec, top)
      && Placed(mem2, envs, p.envp, middle, exec) && Within(mem1, mem2, middle, exec)
      && Placed(mem3, args, p.argv, StringsBottom(middle, p.argv), middle) && Within(mem2, mem3, StringsBottom(middle, p.argv), middle)
    ensures Pushed(mem3, p, narrow, top, args, envs)
    ensures Within(mem0, mem3, StringFloor(top, p, narrow), top)
  {
    var exec := ExecAt(top, p, narrow);
    var middle := StringsBottom(exec, p.envp);
    var floor := StringsBottom(middle, p.argv);
    StringsBottomBelow(exec, p.envp);
    StringsBottomBelow(middle, p.argv);
    HeadKept(mem1, mem2, p, narrow, top, middle, exec);
    HeadKept(mem2, mem3, p, narrow, top, floor, middle);
    PlacedKept(mem2, mem3, envs, p.envp, middle, exec, floor, middle);
  }

  /** Words written below the strings leave them alone. */
  lemma PushedKept(before: Memory, after: Memory, p: Program, narrow: bool, top: int, args: seq<int>, envs: seq<int>, lo: int, hi: int)
    requires Pushed(before, p, narrow, top, args, envs) && Within(before, after, lo, hi) && hi <= StringFloor(top, p, narrow)
    ensures Pushed(after, p, narrow, top, args, envs)
  {
    var exec := ExecAt(top, p, narrow);
    var middle := StringsBottom(exec, p.envp);
    StringsBottomBelow(exec, p.envp);
    StringsBottomBelow(middle, p.argv);
    HeadKept(before, after, p, narrow, top, lo, hi);
    PlacedKept(before, after, envs, p.envp, middle, exec, lo, hi);
    PlacedKept(before, after, args, p.argv, StringsBottom(middle, p.argv), middle, lo, hi);
  }

  /** Every string address is at or above the lowest, and below the top. */
  lemma PushedBounds(mem: Memory, p: Program, narrow: bool, top: int, args: seq<int>, envs: seq<int>)
    requires Pushed(mem, p, narrow, top, args, envs)
    ensures |args| == |p.argv| && |envs| == |p.envp| && StringFloor(top, p, narrow) <= ExecAt(top, p, narrow)
    ensures forall i :: 0 <= i < |args| ==> StringFloor(top, p, narrow) <= args[i] < top
    ensures forall i :: 0 <= i < |envs| ==> StringFloor(top, p, narrow) <= envs[i] < top
  {
    var exec := ExecAt(top, p, narrow);
    var middle := StringsBottom(exec, p.envp);
    StringsBottomBelow(exec, p.envp);
    StringsBottomBelow(middle, p.argv);
    PlacedBounds(mem, envs, p.envp, middle, exec);
    PlacedBounds(mem, args, p.argv, StringsBottom(middle, p.argv), middle);
  }

  // ---- Reading it back ----

  /** A vector of pointers among the words. */
  lemma ListFind(mem: Memory, at: int, narrow: bool, all: seq<nat>, before: seq<nat>, ptrs: seq<nat>, rest: seq<nat>, n: nat)
    requires WordsAt(mem, at, narrow, all) && all == before + (ptrs + [0] + rest) && n == |before|
    requires forall i :: 0 <= i < |ptrs| ==> 0 < ptrs[i] < Limit(narrow)
    ensures VectorAt(mem, at + Width(narrow) * n, narrow, ptrs)
  {
    WordsDrop(mem, at, narrow, before, ptrs + [0] + rest);
    VectorFromWords(mem, at + Width(narrow) * n, narrow, ptrs, rest);
  }

  /** The auxiliary vector among the words. */
  lemma AuxFind(mem: Memory, at: int, narrow: bool, all: seq<nat>, before: seq<nat>, aux: seq<(nat, nat)>, rest: seq<nat>, n: nat)
    requires WordsAt(mem, at, narrow, all) && all == before + (Flat(aux) + [0] + rest) && n == |before|
    requires forall i :: 0 <= i < |aux| ==> 0 < aux[i].0 < Limit(narrow)
    ensures AuxAt(mem, at + Width(narrow) * n, narrow, Cut(aux, narrow))
  {
    WordsDrop(mem, at, narrow, before, Flat(aux) + [0] + rest);
    AuxFromWords(mem, at + Width(narrow) * n, narrow, aux, rest);
  }

  lemma FindArgs(mem: Memory, at: int, narrow: bool, args: seq<nat>, envs: seq<nat>, flat: seq<nat>)
    requires WordsAt(mem, at, narrow, [|args|] + args + [0] + envs + [0] + flat + [0, 0])
    requires |args| < Limit(narrow) && Pointers(args, narrow)
    ensures WordAt(mem, at, narrow) == |args| && VectorAt(mem, at + Width(narrow), narrow, args)
  {
    var all, rest := [|args|] + args + [0] + envs + [0] + flat + [0, 0], envs + [0] + flat + [0, 0];
    assert all == [|args|] + (args + [0] + rest);
    ListFind(mem, at, narrow, all, [|args|], args, rest, 1);
  }

  lemma FindEnvs(mem: Memory, at: int, narrow: bool, args: seq<nat>, envs: seq<nat>, flat: seq<nat>)
    requires WordsAt(mem, at, narrow, [|args|] + args + [0] + envs + [0] + flat + [0, 0])
    requires Pointers(envs, narrow)
    ensures VectorAt(mem, at + Width(narrow) * (|args| + 2), narrow, envs)
  {
    var all, before, rest := [|args|] + args + [0] + envs + [0] + flat + [0, 0], [|args|] + args + [0], flat + [0, 0];
    assert all == before + (envs + [0] + rest);
    ListFind(mem, at, narrow, all, before, envs, rest, |args| + 2);
  }

  lemma FindAux(mem: Memory, at: int, narrow: bool, args: seq<nat>, envs: seq<nat>, aux: seq<(nat, nat)>)
    requires WordsAt(mem, at, narrow, [|args|] + args + [0] + envs + [0] + Flat(aux) + [0, 0])
    requires Tagged(aux, narrow)
    ensures AuxAt(mem, at + Width(narrow) * (|args| + |envs| + 3), narrow, Cut(aux, narrow))
  {
    var all, before := [|args|] + args + [0] + envs + [0] + Flat(aux) + [0, 0], [|args|] + args + [0] + envs + [0];
    assert all == before + (Flat(aux) + [0] + [0]);
    AuxFind(mem, at, narrow, all, before, aux, [0], |args| + |envs| + 3);
  }

  ghost predicate Pointers(ptrs: seq<nat>, narrow: bool) {
    forall i :: 0 <= i < |ptrs| ==> 0 < ptrs[i] < Limit(narrow)
  }

  ghost predicate Tagged(aux: seq<(nat, nat)>, narrow: bool) {
    forall i :: 0 <= i < |aux| ==> 0 < aux[i].0 < Limit(narrow)
  }

  lemma WordsRead(mem: Memory, at: int, narrow: bool, args: seq<nat>, envs: seq<nat>, aux: seq<(nat, nat)>)
    requires WordsAt(mem, at, narrow, [|args|] + args + [0] + envs + [0] + Flat(aux) + [0, 0])
    requires |args| < Limit(narrow) && Pointers(args, narrow) && Pointers(envs, narrow) && Tagged(aux, narrow)
    ensures Reads(mem, at, narrow, args, envs, Cut(aux, narrow))
  {
    FindArgs(mem, at, narrow, args, envs, Flat(aux));
    FindEnvs(mem, at, narrow, args, envs, Flat(aux));
    FindAux(mem, at, narrow, args, envs, aux);
  }

  lemma CountWords(args: seq<nat>, envs: seq<nat>, aux: seq<(nat, nat)>, narrow: bool)
    ensures Width(narrow) * |[|args|] + args + [0] + envs + [0] + Flat(aux) + [0, 0]| == Span(narrow, |args| + |envs| + 2 * |aux| + 5)
  {
    FlatLength(aux);
  }

  lemma {:induction false} FlatLength(aux: seq<(nat, nat)>)
    ensures |Flat(aux)| == 2 * |aux|
  {
    if aux != [] { FlatLength(aux[1..]); }
  }

  /** The auxiliary vector of a program whose stack ends at `top`, in guest addresses. */
  function AuxOf(p: Program, narrow: bool, top: int, guestBase: int): (r: seq<(nat, nat)>)
    requires guestBase <= ExecAt(top, p, narrow)
    ensures |r| == 18
  {
    Aux(p, PlatformAt(top, p, narrow) - guestBase, RandomAt(top, p) - guestBase, ExecAt(top, p, narrow) - guestBase)
  }

  lemma AuxTagged(p: Program, narrow: bool, top: int, guestBase: int)
    requires guestBase <= ExecAt(top, p, narrow)
    ensures Tagged(AuxOf(p, narrow, top, guestBase), narrow)
  {
    LimitValue();
  }

  lemma {:induction false} CutIndex(aux: seq<(nat, nat)>, narrow: bool, i: nat)
    requires i < |aux|
    ensures |Cut(aux, narrow)| == |aux| && Cut(aux, narrow)[i] == (Word(aux[i].0, narrow) as int, Word(aux[i].1, narrow) as int)
    decreases |aux|
  {
    if i > 0 {
      CutIndex(aux[1..], narrow, i - 1);
    } else if |aux| > 1 {
      CutIndex(aux[1..], narrow, 0);
    }
  }

  ghost predicate Ascending(aux: seq<(nat, nat)>) {
    forall i, j :: 0 <= i < j < |aux| ==> aux[i].0 < aux[j].0
  }

  /** A reader finds each value, cut to a word, under its tag. */
  lemma AuxValue(aux: seq<(nat, nat)>, narrow: bool, i: nat, tag: nat, value: nat)
    requires Tagged(aux, narrow) && Ascending(aux) && i < |aux| && aux[i] == (tag, value)
    ensures ValueOf(Cut(aux, narrow), tag) == Word(value, narrow)
  {
    var cut := Cut(aux, narrow);
    forall j | 0 <= j <= i ensures j < |cut| && cut[j].0 == aux[j].0 { CutIndex(aux, narrow, j); }
    CutIndex(aux, narrow, i);
    ValueAt(cut, i);
  }

  /** What the auxiliary vector tells the program, tag by tag: where its image and its interpreter
      are, the size of its pages, who it runs as, and where to find the name of the machine, the
      random bytes and its own path. */
  ghost predicate Tells(mem: Memory, p: Program, narrow: bool, base: int, aux: seq<(int, int)>) {
    |aux| == 18 && TellsImage(p, narrow, aux) && TellsSystem(aux) && Points(mem, p, narrow, base, aux)
  }

  /** The program headers, the interpreter's base and the program's entry. */
  predicate TellsImage(p: Program, narrow: bool, aux: seq<(int, int)>) {
    LimitValue();
    && ValueOf(aux, 3) == p.image.phdr % Limit(narrow)
    && ValueOf(aux, 4) == p.image.phentsize % Limit(narrow)
    && ValueOf(aux, 5) == p.image.phnum % Limit(narrow)
    && ValueOf(aux, 7) == p.interpreter % Limit(narrow)
    && ValueOf(aux, 9) == p.image.entry % Limit(narrow)
  }

  /** Pages of 4096 bytes, 100 ticks a second, user and group 1000, and nothing else. */
  predicate TellsSystem(aux: seq<(int, int)>) {
    && ValueOf(aux, 6) == 4096 && ValueOf(aux, 17) == 100
    && ValueOf(aux, 11) == 1000 && ValueOf(aux, 12) == 1000 && ValueOf(aux, 13) == 1000 && ValueOf(aux, 14) == 1000
    && ValueOf(aux, 8) == 0 && ValueOf(aux, 16) == 0 && ValueOf(aux, 23) == 0 && ValueOf(aux, 26) == 0
  }

  /** The string at `a` is "i686" or "x86_64". */
  ghost predicate NamesMachine(mem: Memory, a: int, narrow: bool) {
    StringAt(mem, a, if narrow then [105, 54, 56, 54] else [120, 56, 54, 95, 54, 52])
  }

  /** The three values that are pointers lead to "i686" or "x86_64", to the random bytes, and to the
      program's path, terminated. */
  ghost predicate Points(mem: Memory, p: Program, narrow: bool, base: int, aux: seq<(int, int)>) {
    && NamesMachine(mem, base + ValueOf(aux, 15), narrow)
    && BytesAt(mem, base + ValueOf(aux, 25), p.random)
    && BytesAt(mem, base + ValueOf(aux, 31), p.execPath + [0])
    && StringAt(mem, base + ValueOf(aux, 31), UpToNul(p.execPath))
  }

  ghost predicate AllNulFree(p: Program) {
    && (forall i :: 0 <= i < |p.argv| ==> NulFree(p.argv[i]))
    && (forall i :: 0 <= i < |p.envp| ==> NulFree(p.envp[i]))
  }

  /** `ptrs` are the guest's numbers for `addresses`. */
  ghost predicate Numbers(ptrs: seq<nat>, addresses: seq<int>, guestBase: int) {
    |ptrs| == |addresses| && forall i :: 0 <= i < |ptrs| ==> guestBase + ptrs[i] == addresses[i]
  }

  /** The strings lie above the words, and every pointer fits a word. */
  lemma Fitting(mem: Memory, p: Program, narrow: bool, base: int, top: int, guestBase: nat, args: seq<int>, envs: seq<int>)
    requires Pushed(mem, p, narrow, top, args, envs) && guestBase < base <= StackPointer(top, p, narrow)
    requires top - guestBase <= Limit(narrow)
    ensures |args| == |p.argv| < Limit(narrow) && |envs| == |p.envp|
    ensures StackPointer(top, p, narrow) + Span(narrow, WordCount(p)) <= StringFloor(top, p, narrow) <= ExecAt(top, p, narrow) <= top
    ensures forall i :: 0 <= i < |args| ==> 0 < args[i] - guestBase < Limit(narrow)
    ensures forall i :: 0 <= i < |envs| ==> 0 < envs[i] - guestBase < Limit(narrow)
  {
    PushedBounds(mem, p, narrow, top, args, envs);
  }

  lemma BuiltStrings(mem: Memory, p: Program, narrow: bool, top: int, guestBase: nat, args: seq<int>, envs: seq<int>, gargs: seq<nat>, genvs: seq<nat>)
    requires Pushed(mem, p, narrow, top, args, envs) && AllNulFree(p)
    requires Numbers(gargs, args, guestBase) && Numbers(genvs, envs, guestBase)
    ensures StringsAt(mem, guestBase, gargs, p.argv) && StringsAt(mem, guestBase, genvs, p.envp)
    ensures |gargs| == |p.argv| && |genvs| == |p.envp|
  {
    var exec := ExecAt(top, p, narrow);
    var middle := StringsBottom(exec, p.envp);
    PushedBounds(mem, p, narrow, top, args, envs);
    StringsFromPlaced(mem, guestBase, args, gargs, p.argv, StringsBottom(middle, p.argv), middle);
    StringsFromPlaced(mem, guestBase, envs, genvs, p.envp, middle, exec);
  }

  /** A built stack reads as the program it was built for. */
  lemma BuiltFinds(mem: Memory, p: Program, narrow: bool, top: int, at: int, guestBase: nat, args: seq<int>, envs: seq<int>,
                   gargs: seq<nat>, genvs: seq<nat>, aux: seq<(int, int)>)
    requires Pushed(mem, p, narrow, top, args, envs) && at % 16 == 0 && guestBase % 16 == 0 && AllNulFree(p)
    requires Numbers(gargs, args, guestBase) && Numbers(genvs, envs, guestBase)
    requires Reads(mem, at, narrow, gargs, genvs, aux)
    ensures Finds(mem, guestBase, at - guestBase, narrow, Entry(p.argv, p.envp, aux), gargs, genvs)
  {
    BuiltStrings(mem, p, narrow, top, guestBase, args, envs, gargs, genvs);
    assert guestBase + (at - guestBase) == at;
  }

  lemma AuxSmall(aux: seq<(nat, nat)>, narrow: bool, i: nat, tag: nat, value: nat)
    requires Tagged(aux, narrow) && Ascending(aux) && i < |aux| && aux[i] == (tag, value) && value < 0x1_0000_0000
    ensures ValueOf(Cut(aux, narrow), tag) == value
  {
    AuxValue(aux, narrow, i, tag, value);
    LimitValue();
  }

  predicate ListsSystem(aux: seq<(nat, nat)>) {
    && |aux| == 18
    && aux[3] == (6, 4096) && aux[5] == (8, 0) && aux[7] == (11, 1000) && aux[8] == (12, 1000) && aux[9] == (13, 1000)
    && aux[10] == (14, 1000) && aux[12] == (16, 0) && aux[13] == (17, 100) && aux[14] == (23, 0) && aux[16] == (26, 0)
  }

  predicate ListsImage(aux: seq<(nat, nat)>, p: Program) {
    && |aux| == 18
    && aux[0] == (3, p.image.phdr) && aux[1] == (4, p.image.phentsize) && aux[2] == (5, p.image.phnum)
    && aux[4] == (7, p.interpreter) && aux[6] == (9, p.image.entry)
  }

  predicate ListsPointers(aux: seq<(nat, nat)>, platform: int, random: int, exec: int) {
    |aux| == 18 && aux[11] == (15, platform) && aux[15] == (25, random) && aux[17] == (31, exec)
  }

  lemma AuxLists(p: Program, platform: nat, random: nat, exec: nat)
    ensures var aux := Aux(p, platform, random, exec);
      ListsSystem(aux) && ListsImage(aux, p) && ListsPointers(aux, platform, random, exec)
  {
  }

  lemma AuxSystem(aux: seq<(nat, nat)>, narrow: bool)
    requires Tagged(aux, narrow) && Ascending(aux) && ListsSystem(aux)
    ensures TellsSystem(Cut(aux, narrow))
  {
    AuxSmall(aux, narrow, 3, 6, 4096);
    AuxSmall(aux, narrow, 5, 8, 0);
    AuxSmall(aux, narrow, 7, 11, 1000);
    AuxSmall(aux, narrow, 8, 12, 1000);
    AuxSmall(aux, narrow, 9, 13, 1000);
    AuxSmall(aux, narrow, 10, 14, 1000);
    AuxSmall(aux, narrow, 12, 16, 0);
    AuxSmall(aux, narrow, 13, 17, 100);
    AuxSmall(aux, narrow, 14, 23, 0);
    AuxSmall(aux, narrow, 16, 26, 0);
  }

  lemma AuxImage(aux: seq<(nat, nat)>, p: Program, narrow: bool)
    requires Tagged(aux, narrow) && Ascending(aux) && ListsImage(aux, p)
    ensures TellsImage(p, narrow, Cut(aux, narrow))
  {
    AuxValue(aux, narrow, 0, 3, p.image.phdr);
    AuxValue(aux, narrow, 1, 4, p.image.phentsize);
    AuxValue(aux, narrow, 2, 5, p.image.phnum);
    AuxValue(aux, narrow, 4, 7, p.interpreter);
    AuxValue(aux, narrow, 6, 9, p.image.entry);
  }

  /** A pointer into the strings fits a word: the reader who adds the base gets back `at`. */
  lemma AuxPointer(aux: seq<(nat, nat)>, narrow: bool, i: nat, tag: nat, base: int, at: int)
    requires Tagged(aux, narrow) && Ascending(aux) && base <= at < base + Limit(narrow) && i < |aux| && aux[i] == (tag, at - base)
    ensures base + ValueOf(Cut(aux, narrow), tag) == at
  {
    AuxValue(aux, narrow, i, tag, at - base);
  }

  lemma PlatformRead(mem: Memory, a: int, narrow: bool)
    requires BytesAt(mem, a, Platform(narrow) + [0])
    ensures NamesMachine(mem, a, narrow)
  {
    ReadBack(mem, a, Platform(narrow));
  }

  lemma AuxLeads(narrow: bool, base: int, aux: seq<(nat, nat)>, platform: int, random: int, exec: int, length: nat)
    requires Tagged(aux, narrow) && Ascending(aux) && ListsPointers(aux, platform - base, random - base, exec - base)
    requires base <= exec < platform <= random && platform < base + Limit(narrow) && random + length <= base + Limit(narrow)
    ensures base + ValueOf(Cut(aux, narrow), 15) == platform && base + ValueOf(Cut(aux, narrow), 31) == exec
    ensures 0 < length ==> base + ValueOf(Cut(aux, narrow), 25) == random
  {
    AuxPointer(aux, narrow, 11, 15, base, platform);
    AuxPointer(aux, narrow, 17, 31, base, exec);
    if 0 < length { AuxPointer(aux, narrow, 15, 25, base, random); }
  }

  lemma LeadsToPoints(mem: Memory, p: Program, narrow: bool, base: int, aux: seq<(int, int)>, platform: int, random: int, exec: int)
    requires base + ValueOf(aux, 15) == platform && base + ValueOf(aux, 31) == exec
    requires 0 < |p.random| ==> base + ValueOf(aux, 25) == random
    requires NamesMachine(mem, platform, narrow) && BytesAt(mem, random, p.random) && BytesAt(mem, exec, p.execPath + [0])
    ensures Points(mem, p, narrow, base, aux)
  {
    ReadBack(mem, exec, p.execPath);
  }

  lemma ListIsTold(mem: Memory, p: Program, narrow: bool, base: int, aux: seq<(nat, nat)>, platform: int, random: int, exec: int)
    requires Tagged(aux, narrow) && Ascending(aux) && ListsSystem(aux) && ListsImage(aux, p)
    requires ListsPointers(aux, platform - base, random - base, exec - base)
    requires base <= exec < platform <= random && platform < base + Limit(narrow) && random + |p.random| <= base + Limit(narrow)
    requires NamesMachine(mem, platform, narrow) && BytesAt(mem, random, p.random) && BytesAt(mem, exec, p.execPath + [0])
    ensures Tells(mem, p, narrow, base, Cut(aux, narrow))
  {
    AuxImage(aux, p, narrow);
    AuxSystem(aux, narrow);
    AuxLeads(narrow, base, aux, platform, random, exec, |p.random|);
    LeadsToPoints(mem, p, narrow, base, Cut(aux, narrow), platform, random, exec);
    CutIndex(aux, narrow, 0);
  }

  ghost predicate Listed(aux: seq<(nat, nat)>, p: Program, narrow: bool, top: int, guestBase: int) {
    && Tagged(aux, narrow) && Ascending(aux) && ListsSystem(aux) && ListsImage(aux, p)
    && ListsPointers(aux, PlatformAt(top, p, narrow) - guestBase, RandomAt(top, p) - guestBase, ExecAt(top, p, narrow) - guestBase)
  }

  lemma AuxListed(p: Program, narrow: bool, top: int, guestBase: int)
    requires guestBase <= ExecAt(top, p, narrow)
    ensures Listed(AuxOf(p, narrow, top, guestBase), p, narrow, top, guestBase)
  {
    AuxTagged(p, narrow, top, guestBase);
    AuxLists(p, PlatformAt(top, p, narrow) - guestBase, RandomAt(top, p) - guestBase, ExecAt(top, p, narrow) - guestBase);
  }

  lemma AuxIsTold(mem: Memory, p: Program, narrow: bool, top: int, guestBase: int, aux: seq<(nat, nat)>)
    requires guestBase <= ExecAt(top, p, narrow) && top - guestBase <= Limit(narrow) && Head(mem, p, narrow, top)
    requires Listed(aux, p, narrow, top, guestBase)
    ensures Tells(mem, p, narrow, guestBase, Cut(aux, narrow))
  {
    var platform, random, exec := PlatformAt(top, p, narrow), RandomAt(top, p), ExecAt(top, p, narrow);
    PlatformRead(mem, platform, narrow);
    ListIsTold(mem, p, narrow, guestBase, aux, platform, random, exec);
  }

  /** Writes the words below strings already pushed. */
  method PutWords(builder: Builder, p: Program, base: int, top: int, guestBase: nat, args: seq<int>, envs: seq<int>)
    returns (gargs: seq<nat>, genvs: seq<nat>, aux: seq<(nat, nat)>)
    requires Pushed(builder.mem, p, builder.narrow, top, args, envs) && guestBase < base <= StackPointer(top, p, builder.narrow)
    requires top - guestBase <= Limit(builder.narrow)
    modifies builder
    ensures guestBase <= ExecAt(top, p, builder.narrow) && aux == AuxOf(p, builder.narrow, top, guestBase)
    ensures Pushed(builder.mem, p, builder.narrow, top, args, envs)
    ensures Within(old(builder.mem), builder.mem, base, StringFloor(top, p, builder.narrow))
    ensures Numbers(gargs, args, guestBase) && Numbers(genvs, envs, guestBase)
    ensures Reads(builder.mem, StackPointer(top, p, builder.narrow), builder.narrow, gargs, genvs, Cut(aux, builder.narrow))
  {
    Fitting(builder.mem, p, builder.narrow, base, top, guestBase, args, envs);
    AuxTagged(p, builder.narrow, top, guestBase);
    gargs, genvs, aux := ToGuest(args, guestBase), ToGuest(envs, guestBase), AuxOf(p, builder.narrow, top, guestBase);
    ghost var before, rsp := builder.mem, StackPointer(top, p, builder.narrow);
    builder.PutProgram(StackPointer(top, p, builder.narrow), gargs, genvs, aux);
    PushedKept(before, builder.mem, p, builder.narrow, top, args, envs, rsp, rsp + Span(builder.narrow, WordCount(p)));
  }

  /** What a successful build leaves for the program. */
  ghost predicate Built(mem0: Memory, mem: Memory, p: Program, narrow: bool, base: int, top: int, guestBase: nat, at: int,
                        gargs: seq<nat>, genvs: seq<nat>, aux: seq<(nat, nat)>) {
    && Within(mem0, mem, base, top)
    && guestBase <= ExecAt(top, p, narrow) && aux == AuxOf(p, narrow, top, guestBase)
    && Starts(mem, p, narrow, guestBase, at, gargs, genvs, Cut(aux, narrow))
  }

  /** What a program finds that reads from the stack pointer. */
  ghost predicate Starts(mem: Memory, p: Program, narrow: bool, guestBase: nat, at: int, gargs: seq<nat>, genvs: seq<nat>,
                         aux: seq<(int, int)>) {
    && Reads(mem, at, narrow, gargs, genvs, aux) && Tells(mem, p, narrow, guestBase, aux)
    && (guestBase % 16 == 0 && AllNulFree(p) ==>
         Finds(mem, guestBase, at - guestBase, narrow, Entry(p.argv, p.envp, aux), gargs, genvs))
  }

  /** Writes the words of a stack that is large enough. */
  method FinishStack(builder: Builder, p: Program, base: int, top: int, guestBase: nat, at: int, args: seq<int>, envs: seq<int>, ghost mem0: Memory)
    returns (gargs: seq<nat>, genvs: seq<nat>, aux: seq<(nat, nat)>)
    requires Pushed(builder.mem, p, builder.narrow, top, args, envs) && guestBase < base <= at == StackPointer(top, p, builder.narrow)
    requires top - guestBase <= Limit(builder.narrow) && Within(mem0, builder.mem, StringFloor(top, p, builder.narrow), top)
    modifies builder
    ensures Pushed(builder.mem, p, builder.narrow, top, args, envs)
    ensures Built(mem0, builder.mem, p, builder.narrow, base, top, guestBase, at, gargs, genvs, aux)
  {
    Fitting(builder.mem, p, builder.narrow, base, top, guestBase, args, envs);
    gargs, genvs, aux := PutWords(builder, p, base, top, guestBase, args, envs);
    AuxListed(p, builder.narrow, top, guestBase);
    AuxIsTold(builder.mem, p, builder.narrow, top, guestBase, aux);
    if guestBase % 16 == 0 && AllNulFree(p) {
      BuiltFinds(builder.mem, p, builder.narrow, top, at, guestBase, args, envs, gargs, genvs, Cut(aux, builder.narrow));
    }
  }

  /** Writes the strings and finds where the stack pointer goes. */
  method PlaceStrings(mem0: Memory, top: int, narrow: bool, p: Program) returns (builder: Builder, at: int, args: seq<int>, envs: seq<int>)
    ensures fresh(builder) && builder.narrow == narrow && builder.mem == StringsStored(mem0, p, narrow, top)
    ensures at == StackPointer(top, p, narrow)
    ensures Pushed(builder.mem, p, narrow, top, args, envs) && Within(mem0, builder.mem, StringFloor(top, p, narrow), top)
  {
    builder := new Builder(narrow, mem0, top);
    args, envs := builder.PushProgram(p, top);
    at := Down16(builder.cursor - Span(narrow, WordCount(p)));
  }

  /** Builds the stack of a program in [base, top). Whenever it succeeds a program reading from
      the stack pointer finds its arguments, environment and auxiliary vector, and nothing
      outside the stack has been written. The size is looked at only after the strings have
      been written, and a failure leaves them behind: `OverrunIff` says when they reach below
      the stack. */
  method BuildInitialStack(mem0: Memory, base: int, top: int, guestBase: nat, narrow: bool, p: Program)
    returns (ok: bool, mem: Memory, at: int, args: seq<int>, envs: seq<int>, gargs: seq<nat>, genvs: seq<nat>, aux: seq<(nat, nat)>)
    requires guestBase < base && top - guestBase <= Limit(narrow)
    ensures at == StackPointer(top, p, narrow) && at % 16 == 0 && (ok <==> base <= at)
    ensures Pushed(mem, p, narrow, top, args, envs)
    ensures ok ==> Built(mem0, mem, p, narrow, base, top, guestBase, at, gargs, genvs, aux)
    ensures !ok ==> mem == StringsStored(mem0, p, narrow, top) && Within(mem0, mem, StringFloor(top, p, narrow), top)
  {
    var builder;
    builder, at, args, envs := PlaceStrings(mem0, top, narrow, p);
    gargs, genvs, aux := [], [], [];
    ok := base <= at;
    if ok {
      gargs, genvs, aux := FinishStack(builder, p, base, top, guestBase, at, args, envs, mem0);
    }
    mem := builder.mem;
  }

  /** Whoever reads a built stack is told this, however they read it. */
  lemma ReaderIsTold(mem0: Memory, mem: Memory, p: Program, narrow: bool, base: int, top: int, guestBase: nat, at: int,
                     gargs: seq<nat>, genvs: seq<nat>, aux: seq<(nat, nat)>, args: seq<int>, envs: seq<int>, read: seq<(int, int)>)
    requires Built(mem0, mem, p, narrow, base, top, guestBase, at, gargs, genvs, aux) && Reads(mem, at, narrow, args, envs, read)
    ensures Tells(mem, p, narrow, guestBase, read)
  {
    ReadsUnique(mem, at, narrow, gargs, genvs, Cut(aux, narrow), args, envs, read);
  }

  // ---- Strings that do not fit ----

  lemma {:induction false} PushAllAbove(mem: Memory, cursor: int, strings: seq<Bytes>, a: int)
    requires a < StringsBottom(cursor, strings)
    ensures PushAll(mem, cursor, strings)(a) == mem(a)
    decreases |strings|
  {
    if strings != [] {
      StringsBottomBelow(cursor, strings[1..]);
      PushAllAbove(mem, cursor, strings[1..], a);
    }
  }

  /** Nothing below the lowest string is touched. */
  lemma StringsStayAbove(mem: Memory, p: Program, narrow: bool, top: int, a: int)
    requires a < StringFloor(top, p, narrow)
    ensures StringsStored(mem, p, narrow, top)(a) == mem(a)
  {
    var exec := ExecAt(top, p, narrow);
    var middle := StringsBottom(exec, p.envp);
    StringsBottomBelow(exec, p.envp);
    StringsBottomBelow(middle, p.argv);
    PushAllAbove(HeadStored(mem, p, narrow, top), exec, p.envp, a);
    PushAllAbove(PushAll(HeadStored(mem, p, narrow, top), exec, p.envp), middle, p.argv, a);
  }

  /** The string pushed last, which lies lowest. */
  function Lowest(p: Program): Bytes {
    if p.argv != [] then p.argv[0] else if p.envp != [] then p.envp[0] else p.execPath
  }

  /** Whatever was there before, the string pushed last starts at the floor. */
  lemma FloorIsStored(mem: Memory, p: Program, narrow: bool, top: int, i: nat)
    requires i <= |Lowest(p)|
    ensures StringsStored(mem, p, narrow, top)(StringFloor(top, p, narrow) + i) == (Lowest(p) + [0])[i]
  {
  }

  /** The strings leave memory below the stack alone, whatever it holds, exactly when the lowest
      of them starts in the stack. */
  lemma OverrunIff(p: Program, narrow: bool, base: int, top: int)
    ensures (forall mem: Memory, a: int :: a < base ==> StringsStored(mem, p, narrow, top)(a) == mem(a))
      <==> base <= StringFloor(top, p, narrow)
  {
    var floor := StringFloor(top, p, narrow);
    if base <= floor {
      forall mem: Memory, a: int | a < base ensures StringsStored(mem, p, narrow, top)(a) == mem(a) {
        StringsStayAbove(mem, p, narrow, top, a);
      }
    } else {
      var mem: Memory := (a: int) => (Lowest(p) + [0])[0] + 1;
      FloorIsStored(mem, p, narrow, top, 0);
      assert StringsStored(mem, p, narrow, top)(floor) != mem(floor);
    }
  }

  /** A program path longer than the stack, and nothing else: its first byte is found below the
      stack, whatever was there. */
  lemma LongStringOverruns(mem: Memory, base: int, top: int, p: Program, narrow: bool)
    requires top - base <= |p.execPath| && p.argv == [] && p.envp == []
    ensures var floor := StringFloor(top, p, narrow);
      && floor < base && StackPointer(top, p, narrow) < base
      && StringsStored(mem, p, narrow, top)(floor) == (p.execPath + [0])[0]
  {
    FloorIsStored(mem, p, narrow, top, 0);
  }
}
