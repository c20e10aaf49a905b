/** Page arithmetic: the host's page size is a run-time value, so it is a parameter here.
    Alignment is defined by page steps, which keeps every later proof linear;
    `AlignDownIsMasking` ties the definition to the masking the source does. */
module Pages {

  /** `v` is a whole number of pages of size `p`. */
  predicate Aligned(v: nat, p: nat)
    requires 0 < p
    decreases v
  {
    v == 0 || (p <= v && Aligned(v - p, p))
  }

  /** The start of the page holding `v`. */
  function AlignDown(v: nat, p: nat): (r: nat)
    requires 0 < p
    ensures r <= v < r + p
    ensures Aligned(r, p)
    decreases v
  {
    if v < p then 0 else p + AlignDown(v - p, p)
  }

  /** The first page boundary at or above `v`. */
  function AlignUp(v: nat, p: nat): (r: nat)
    requires 0 < p
    ensures v <= r < v + p
    ensures Aligned(r, p)
  {
    AlignDown(v + p - 1, p)
  }

  lemma {:induction false} AlignedSum(a: nat, b: nat, p: nat)
    requires 0 < p && Aligned(a, p) && Aligned(b, p)
    ensures Aligned(a + b, p)
    decreases a
  {
    if a != 0 {
      AlignedSum(a - p, b, p);
    }
  }

  lemma {:induction false} AlignedDifference(a: nat, b: nat, p: nat)
    requires 0 < p && Aligned(a, p) && Aligned(b, p) && b <= a
    ensures Aligned(a - b, p)
    decreases b
  {
    if b != 0 {
      AlignedDifference(a - p, b - p, p);
    }
  }

  /** Distinct page boundaries are at least a page apart. */
  lemma {:induction false} AlignedApart(a: nat, b: nat, p: nat)
    requires 0 < p && Aligned(a, p) && Aligned(b, p) && a < b
    ensures a + p <= b
    decreases a
  {
    if a != 0 {
      AlignedApart(a - p, b - p, p);
    }
  }

  /** Rounding down gives the greatest boundary at or below `v`. */
  lemma AlignDownGreatest(v: nat, b: nat, p: nat)
    requires 0 < p && Aligned(b, p) && b <= v
    ensures b <= AlignDown(v, p)
  {
    if AlignDown(v, p) < b {
      AlignedApart(AlignDown(v, p), b, p);
    }
  }

  /** Rounding up gives the least boundary at or above `v`. */
  lemma AlignUpLeast(v: nat, b: nat, p: nat)
    requires 0 < p && Aligned(b, p) && v <= b
    ensures AlignUp(v, p) <= b
  {
    if b < AlignUp(v, p) {
      AlignedApart(b, AlignUp(v, p), p);
    }
  }

  lemma AlignedFixed(v: nat, p: nat)
    requires 0 < p && Aligned(v, p)
    ensures AlignDown(v, p) == v == AlignUp(v, p)
  {
    AlignDownGreatest(v, v, p);
    AlignUpLeast(v, v, p);
  }

  /** A span between two boundaries that meets a page holds all of it. */
  lemma PageInside(lo: nat, hi: nat, v: nat, p: nat)
    requires 0 < p && Aligned(lo, p) && Aligned(hi, p) && lo <= v < hi
    ensures lo <= AlignDown(v, p) && AlignDown(v, p) + p <= hi
  {
    AlignDownGreatest(v, lo, p);
    AlignedApart(AlignDown(v, p), hi, p);
  }

  /** The page of any byte of the page at `h` is the page at `h`. */
  lemma SamePage(h: nat, v: nat, p: nat)
    requires 0 < p && Aligned(h, p) && h <= v < h + p
    ensures AlignDown(v, p) == h
  {
    AlignDownGreatest(v, h, p);
    if h < AlignDown(v, p) {
      AlignedApart(h, AlignDown(v, p), p);
    }
  }

  lemma {:induction false} AlignedIsMultiple(v: nat, p: nat)
    requires 0 < p
    ensures Aligned(v, p) <==> v % p == 0
    decreases v
  {
    if p <= v {
      AlignedIsMultiple(v - p, p);
      RemainderStep(v, p);
    }
  }

  lemma RemainderStep(v: nat, p: nat)
    requires 0 < p <= v
    ensures v % p == (v - p) % p
  {
    assert v == p * (v / p) + v % p;
    var q, r := v / p, v % p;
    assert v - p == p * (q - 1) + r;
    QuotientUnique(v - p, p, q - 1, r);
  }

  lemma QuotientUnique(v: int, p: nat, q: int, r: nat)
    requires 0 < p && v == p * q + r && r < p
    ensures v % p == r
  {
    var d := v / p - q;
    assert p * d == r - v % p;
    assert d >= 1 ==> p * d >= p;
    assert d <= -1 ==> p * d + p <= 0;
  }

  /** The definition by steps is the source's masking, `v & ~(p - 1)`, for a power of two. */
  lemma {:induction false} AlignDownIsMasking(v: nat, p: nat)
    requires 0 < p
    ensures AlignDown(v, p) == v - v % p
    decreases v
  {
    if p <= v {
      AlignDownIsMasking(v - p, p);
      RemainderStep(v, p);
    }
  }
}
