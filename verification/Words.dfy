/** Little-endian machine words in byte memory. */
module Words {
  import opened Pages

  type Memory = int -> int

  /** The bytes `data` lie at `a`. */
  ghost predicate BytesAt(mem: Memory, a: int, data: seq<int>) {
    forall i :: 0 <= i < |data| ==> mem(a + i) == data[i]
  }

  /** Only bytes of [lo, hi) differ. */
  ghost predicate Within(before: Memory, after: Memory, lo: int, hi: int) {
    forall a :: a < lo || hi <= a ==> after(a) == before(a)
  }

  function Stored(mem: Memory, a: int, data: seq<int>): Memory {
    (x: int) => if a <= x < a + |data| then data[x - a] else mem(x)
  }

  function Radix(n: nat): nat { if n == 0 then 1 else 256 * Radix(n - 1) }

  function Encode(v: nat, n: nat): (r: seq<int>)
    ensures |r| == n
  {
    if n == 0 then [] else [v % 256] + Encode(v / 256, n - 1)
  }

  function Decode(data: seq<int>): int {
    if data == [] then 0 else data[0] + 256 * Decode(data[1..])
  }

  lemma SplitRemainder(v: nat, m: nat)
    requires 0 < m
    ensures v % (256 * m) == v % 256 + 256 * ((v / 256) % m)
  {
    var q, r := (v / 256) / m, (v / 256) % m;
    assert v / 256 == m * q + r;
    assert v == 256 * (v / 256) + v % 256;
    assert v == (256 * m) * q + (256 * r + v % 256);
    var low := 256 * r + v % 256;
    assert 0 <= low < 256 * m;
    QuotientUnique(v, 256 * m, q, low);
  }

  /** Reading a word back gives the value stored, modulo the width of the word. */
  lemma {:induction false} DecodeEncode(v: nat, n: nat)
    ensures 0 < Radix(n) && Decode(Encode(v, n)) == v % Radix(n)
    decreases n
  {
    if n > 0 {
      DecodeEncode(v / 256, n - 1);
      SplitRemainder(v, Radix(n - 1));
      assert Encode(v, n)[1..] == Encode(v / 256, n - 1);
    }
  }

  // ---- Words of four or eight bytes ----

  function Width(narrow: bool): nat { if narrow then 4 else 8 }

  function Limit(narrow: bool): nat { Radix(Width(narrow)) }

  lemma LimitValue()
    ensures Limit(true) == 0x1_0000_0000 && Limit(false) == 0x1_0000_0000_0000_0000
  {
    assert Radix(4) == 256 * Radix(3) == 0x1_0000 * Radix(2) == 0x1_0000_0000 * Radix(0);
    assert Radix(8) == 256 * Radix(7) == 0x1_0000 * Radix(6) == 0x100_0000 * Radix(5) == 0x1_0000_0000 * Radix(4);
  }

  /** The word at `a`. */
  function WordAt(mem: Memory, a: int, narrow: bool): int {
    Decode(seq(Width(narrow), i => mem(a + i)))
  }

  lemma DecodeFour(d: seq<int>)
    requires 4 <= |d|
    ensures Decode(d) == d[0] + 0x100 * d[1] + 0x1_0000 * d[2] + 0x100_0000 * d[3] + 0x1_0000_0000 * Decode(d[4..])
  {
    assert Decode(d) == d[0] + 256 * Decode(d[1..]);
    assert Decode(d[1..]) == d[1] + 256 * Decode(d[1..][1..]) && d[1..][1..] == d[2..];
    assert Decode(d[2..]) == d[2] + 256 * Decode(d[2..][1..]) && d[2..][1..] == d[3..];
    assert Decode(d[3..]) == d[3] + 256 * Decode(d[3..][1..]) && d[3..][1..] == d[4..];
  }

  /** Words are little-endian, lowest byte first. */
  lemma LittleEndian(mem: Memory, a: int)
    ensures WordAt(mem, a, true) == mem(a) + 0x100 * mem(a + 1) + 0x1_0000 * mem(a + 2) + 0x100_0000 * mem(a + 3)
    ensures WordAt(mem, a, false) == WordAt(mem, a, true) + 0x1_0000_0000 * WordAt(mem, a + 4, true)
  {
    var wide := seq(8, i => mem(a + i));
    var low, high := seq(4, i => mem(a + i)), seq(4, i => mem(a + 4 + i));
    DecodeFour(low);
    DecodeFour(high);
    DecodeFour(wide);
    assert wide[4..] == high && low[4..] == [];
  }

  lemma StoredWord(mem: Memory, a: int, v: nat, narrow: bool)
    requires BytesAt(mem, a, Encode(v, Width(narrow)))
    ensures 0 < Limit(narrow) && WordAt(mem, a, narrow) == v % Limit(narrow)
  {
    DecodeEncode(v, Width(narrow));
    assert seq(Width(narrow), i => mem(a + i)) == Encode(v, Width(narrow));
  }

  lemma SameWord(before: Memory, after: Memory, a: int, narrow: bool)
    requires forall x :: a <= x < a + Width(narrow) ==> after(x) == before(x)
    ensures WordAt(after, a, narrow) == WordAt(before, a, narrow)
  {
    assert seq(Width(narrow), i => after(a + i)) == seq(Width(narrow), i => before(a + i));
  }
}
