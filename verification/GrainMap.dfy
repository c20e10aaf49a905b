/** One-way coarse bitmaps over an arena: one bit per grain, set when anything in the grain
    is noted and never cleared. A set bit may be a false yes; a clear bit is a certain no. */
module GrainMap {
  type Words = seq<bv64>

  /** The bit of grain `k` in its word: the low six bits of the number say which. */
  function Bit(k: nat): bv64 { 1 << ((k % 64) as bv6) }

  predicate Has(w: bv64, bit: bv64) { w & bit != 0 }

  predicate Marked(words: Words, k: nat) {
    k / 64 < |words| && Has(words[k / 64], Bit(k))
  }

  function ZeroWords(n: nat): (words: Words)
    ensures |words| == n
    ensures forall k: nat :: !Marked(words, k)
  {
    seq(n, i => 0)
  }

  /** The grain of address `a`, counted from the arena's base. */
  function GrainOf(base: nat, grain: nat, a: int): (k: nat)
    requires 0 < grain && base <= a
    ensures grain * k <= a - base < grain * (k + 1)
  {
    assert a - base == grain * ((a - base) / grain) + (a - base) % grain;
    (a - base) / grain
  }

  /** The byte at `a` lies in a marked grain. */
  predicate Noted(words: Words, base: nat, grain: nat, a: int) {
    0 < grain && base <= a && Marked(words, GrainOf(base, grain, a))
  }

  /** Every mark of `before` is still there. */
  ghost predicate Keeps(before: Words, after: Words) {
    && |after| == |before|
    && forall k: nat :: Marked(before, k) ==> Marked(after, k)
  }

  lemma BitNonZero(k: nat)
    ensures Bit(k) != 0
  {
  }

  lemma ShiftsApart(a: bv6, b: bv6)
    requires a != b
    ensures ((1 as bv64) << a) & ((1 as bv64) << b) == 0
  {
  }

  lemma SixBits(n: nat)
    requires n < 64
    ensures (n as bv6) as nat == n
  {
  }

  /** Two grains of one word have different bits. */
  lemma BitsApart(i: nat, k: nat)
    requires i % 64 != k % 64
    ensures Bit(i) & Bit(k) == 0
  {
    SixBits(i % 64);
    SixBits(k % 64);
    assert (i % 64) as bv6 != (k % 64) as bv6;
    ShiftsApart((i % 64) as bv6, (k % 64) as bv6);
  }

  lemma OrHasOnly(w: bv64, x: bv64, b: bv64)
    requires x & b == 0
    ensures Has(w | x, b) <==> Has(w, b)
  {
  }

  lemma OrHas(w: bv64, x: bv64)
    ensures x != 0 ==> Has(w | x, x)
    ensures forall b: bv64 :: Has(w, b) ==> Has(w | x, b)
  {
  }

  lemma ReplaceWord(words: Words, i: nat, w: bv64)
    requires i < |words| && forall b: bv64 :: Has(words[i], b) ==> Has(w, b)
    ensures Keeps(words, words[i := w])
  {
  }

  lemma MarkOne(words: Words, k: nat)
    requires k / 64 < |words|
    ensures var after := words[k / 64 := words[k / 64] | Bit(k)];
      Keeps(words, after) && Marked(after, k) && forall j: nat :: Marked(after, j) && j != k ==> Marked(words, j)
  {
    var w, bit := words[k / 64], Bit(k);
    var after := words[k / 64 := w | bit];
    BitNonZero(k);
    OrHas(w, bit);
    ReplaceWord(words, k / 64, w | bit);
    forall j: nat | Marked(after, j) && j != k ensures Marked(words, j) { OtherMark(words, k, j); }
  }

  lemma OtherBit(w: bv64, k: nat, j: nat, bit: bv64, other: bv64)
    requires k % 64 != j % 64 && bit == Bit(k) && other == Bit(j)
    ensures Has(w | bit, other) <==> Has(w, other)
  {
    BitsApart(k, j);
    OrHasOnly(w, bit, other);
  }

  lemma OtherMark(words: Words, k: nat, j: nat)
    requires k / 64 < |words| && j != k && Marked(words[k / 64 := words[k / 64] | Bit(k)], j)
    ensures Marked(words, j)
  {
    if j / 64 == k / 64 {
      OtherBit(words[k / 64], k, j, Bit(k), Bit(j));
    }
  }

  lemma DivideMonotone(x: nat, y: nat, d: nat)
    requires 0 < d && x <= y
    ensures x / d <= y / d
  {
    var q, r := x / d, y / d;
    assert x == d * q + x % d && y == d * r + y % d;
    assert q > r ==> d * q >= d * (r + 1);
  }

  /** The grain size: doubled from 64 KB until the map fits in 65536 words and one more. */
  method ChooseGrain(size: nat) returns (grain: nat)
    ensures 64 * 1024 <= grain && size / grain / 64 <= 65536
  {
    grain := 64 * 1024;
    while size / grain / 64 > 65536
      invariant 64 * 1024 <= grain
      decreases size - grain
    {
      QuotientAtLeastOne(size, grain);
      grain := grain * 2;
    }
  }

  /** A map of the whole arena with nothing noted. */
  method EmptyMap(size: nat) returns (grain: nat, words: Words)
    ensures 64 * 1024 <= grain && |words| == size / grain / 64 + 1 <= 65537
    ensures forall k: nat :: !Marked(words, k)
  {
    grain := ChooseGrain(size);
    words := ZeroWords(size / grain / 64 + 1);
  }

  lemma QuotientAtLeastOne(x: nat, d: nat)
    requires 0 < d && 0 < x / d
    ensures d <= x
  {
    assert x == d * (x / d) + x % d;
    assert d * (x / d) >= d;
  }

  /** No address of the arena has a grain beyond the last word. */
  lemma InArena(base: nat, size: nat, grain: nat, a: nat)
    requires 0 < grain && base <= a < base + size
    ensures GrainOf(base, grain, a) / 64 < size / grain / 64 + 1
  {
    DivideMonotone(a - base, size, grain);
    DivideMonotone((a - base) / grain, size / grain, 64);
  }

  /** Visits the grains of [begin, end): marks them when `set`, and says whether any was
      marked before, answering yes past the end of the map. */
  method WalkCodeMap(words: Words, base: nat, grain: nat, begin: nat, end: nat, set_: bool)
    returns (had: bool, after: Words)
    requires 0 < grain && base <= begin < end
    ensures Keeps(words, after) && (!set_ ==> after == words)
    ensures GrainOf(base, grain, end - 1) / 64 < |words| ==>
      (had <==> exists k: nat :: GrainOf(base, grain, begin) <= k <= GrainOf(base, grain, end - 1) && Marked(words, k))
    ensures GrainOf(base, grain, end - 1) / 64 >= |words| ==> had
    ensures set_ && GrainOf(base, grain, end - 1) / 64 < |words| ==>
      forall k: nat :: GrainOf(base, grain, begin) <= k <= GrainOf(base, grain, end - 1) ==> Marked(after, k)
    ensures forall k: nat :: Marked(after, k) ==> Marked(words, k) || GrainOf(base, grain, begin) <= k <= GrainOf(base, grain, end - 1)
  {
    had, after := false, words;
    var first, last := GrainOf(base, grain, begin), GrainOf(base, grain, end - 1);
    DivideMonotone(begin - base, end - 1 - base, grain);
    var index := first;
    while index <= last
      invariant first <= index <= last + 1
      invariant Keeps(words, after) && (!set_ ==> after == words)
      invariant index > first ==> (index - 1) / 64 < |words|
      invariant had <==> exists k: nat :: first <= k < index && Marked(words, k)
      invariant set_ ==> forall k: nat :: first <= k < index ==> Marked(after, k)
      invariant forall k: nat :: Marked(after, k) ==> Marked(words, k) || first <= k < index
    {
      if index / 64 >= |words| {
        DivideMonotone(index, last, 64);
        return true, after;
      }
      if Marked(words, index) {
        had := true;
      }
      if set_ {
        MarkOne(after, index);
        after := after[index / 64 := after[index / 64] | Bit(index)];
      }
      index := index + 1;
    }
  }

  /** The byte is in the grain of some byte of [begin, end). */
  predicate NearBytes(base: nat, grain: nat, begin: nat, end: nat, a: int) {
    && 0 < grain && base <= begin < end && base <= a
    && GrainOf(base, grain, begin) <= GrainOf(base, grain, a) <= GrainOf(base, grain, end - 1)
  }

  /** Notes that code is about to be compiled from [begin, end). */
  method NoteExecutable(words: Words, base: nat, size: nat, grain: nat, begin: nat, end: nat)
    returns (had: bool, after: Words)
    requires 0 < grain && |words| == size / grain / 64 + 1
    ensures Keeps(words, after)
    ensures base <= begin < end <= base + size ==>
      forall a :: begin <= a < end ==> Noted(after, base, grain, a)
    ensures (exists a :: begin <= a < end && Noted(words, base, grain, a)) ==> had
    ensures !(base <= begin < end <= base + size) ==> had && after == words
    ensures forall a :: Noted(after, base, grain, a) ==> Noted(words, base, grain, a) || NearBytes(base, grain, begin, end, a)
  {
    if end <= begin || begin < base || base + size < end {
      return true, words;
    }
    InArena(base, size, grain, end - 1);
    had, after := WalkCodeMap(words, base, grain, begin, end, true);
    forall a | begin <= a < end ensures Noted(after, base, grain, a) {
      DivideMonotone(begin - base, a - base, grain);
      DivideMonotone(a - base, end - 1 - base, grain);
    }
    if a :| begin <= a < end && Noted(words, base, grain, a) {
      NotedInWalk(words, base, grain, begin, end, a);
    }
  }

  /** Whether [begin, end) may hold code: no is certain, and yes means a grain of the span is
      marked or the span leaves the arena. */
  method HasHeldCode(words: Words, base: nat, size: nat, grain: nat, begin: nat, end: nat) returns (had: bool)
    requires 0 < grain && |words| == size / grain / 64 + 1
    ensures (exists a :: begin <= a < end && Noted(words, base, grain, a)) ==> had
    ensures had && base <= begin < end <= base + size ==>
      exists k: nat :: GrainOf(base, grain, begin) <= k <= GrainOf(base, grain, end - 1) && Marked(words, k)
    ensures !(base <= begin < end <= base + size) ==> had
  {
    if end <= begin || begin < base || base + size < end {
      return true;
    }
    InArena(base, size, grain, end - 1);
    var after: Words;
    had, after := WalkCodeMap(words, base, grain, begin, end, false);
    if a :| begin <= a < end && Noted(words, base, grain, a) {
      NotedInWalk(words, base, grain, begin, end, a);
    }
  }

  lemma NotedInWalk(words: Words, base: nat, grain: nat, begin: nat, end: nat, a: nat)
    requires 0 < grain && base <= begin <= a < end && Noted(words, base, grain, a)
    ensures exists k: nat :: GrainOf(base, grain, begin) <= k <= GrainOf(base, grain, end - 1) && Marked(words, k)
  {
    DivideMonotone(begin - base, a - base, grain);
    DivideMonotone(a - base, end - 1 - base, grain);
    MarkedBetween(words, GrainOf(base, grain, begin), GrainOf(base, grain, end - 1), GrainOf(base, grain, a));
  }

  lemma MarkedBetween(words: Words, lo: nat, hi: nat, k: nat)
    requires lo <= k <= hi && Marked(words, k)
    ensures exists k: nat :: lo <= k <= hi && Marked(words, k)
  {
  }

  /** Whether anything was ever committed near `address`: no is certain. */
  method MaybeCommitted(words: Words, base: nat, size: nat, grain: nat, address: nat) returns (maybe: bool)
    requires 0 < grain && |words| == size / grain / 64 + 1
    ensures base <= address < base + size ==> (maybe <==> Noted(words, base, grain, address))
    ensures !(base <= address < base + size) ==> maybe
  {
    if address < base || base + size <= address {
      return true;
    }
    var k := GrainOf(base, grain, address);
    InArena(base, size, grain, address);
    return Has(words[k / 64], Bit(k));
  }
}
