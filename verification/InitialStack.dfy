/** The stack a program starts on: its strings at the top, and below them argc, the argument and
    environment pointers and the auxiliary vector, as section 3.4.1 of the System V AMD64 psABI
    lays them out, in words of four or eight bytes. */
module InitialStack {
  import opened Words

  type Bytes = seq<int>

  // ---- What a program reads ----

  predicate NulFree(s: Bytes) { 0 !in s }

  /** Reading a C string at `a`, byte after byte up to a NUL, gives `s`. */
  ghost predicate StringAt(mem: Memory, a: int, s: Bytes)
    decreases |s|
  {
    if s == [] then mem(a) == 0 else mem(a) == s[0] && s[0] != 0 && StringAt(mem, a + 1, s[1..])
  }

  /** What is read is determined. */
  lemma {:induction false} StringUnique(mem: Memory, a: int, s: Bytes, t: Bytes)
    requires StringAt(mem, a, s) && StringAt(mem, a, t)
    ensures s == t
    decreases |s|
  {
    if s != [] && t != [] {
      StringUnique(mem, a + 1, s[1..], t[1..]);
      assert s == [s[0]] + s[1..] && t == [t[0]] + t[1..];
    }
  }

  function UpToNul(s: Bytes): (r: Bytes)
    ensures r == s <==> NulFree(s)
  {
    if s == [] || s[0] == 0 then [] else [s[0]] + UpToNul(s[1..])
  }

  /** A stored string is read back up to its first NUL, so all of it exactly when it has none. */
  lemma {:induction false} ReadBack(mem: Memory, a: int, s: Bytes)
    requires BytesAt(mem, a, s + [0])
    ensures StringAt(mem, a, UpToNul(s))
    ensures StringAt(mem, a, s) <==> NulFree(s)
    decreases |s|
  {
    assert mem(a + 0) == (s + [0])[0];
    if s != [] && s[0] != 0 {
      forall i | 0 <= i < |s| ensures mem(a + 1 + i) == (s[1..] + [0])[i] {
        assert mem(a + (i + 1)) == (s + [0])[i + 1];
      }
      ReadBack(mem, a + 1, s[1..]);
    }
  }

  /** Reading words from `a` up to the first zero gives `ptrs`. */
  ghost predicate VectorAt(mem: Memory, a: int, narrow: bool, ptrs: seq<int>)
    decreases |ptrs|
  {
    if ptrs == [] then WordAt(mem, a, narrow) == 0
    else WordAt(mem, a, narrow) == ptrs[0] && ptrs[0] != 0 && VectorAt(mem, a + Width(narrow), narrow, ptrs[1..])
  }

  lemma {:induction false} VectorUnique(mem: Memory, a: int, narrow: bool, p: seq<int>, q: seq<int>)
    requires VectorAt(mem, a, narrow, p) && VectorAt(mem, a, narrow, q)
    ensures p == q
    decreases |p|
  {
    if p != [] && q != [] {
      VectorUnique(mem, a + Width(narrow), narrow, p[1..], q[1..]);
      assert p == [p[0]] + p[1..] && q == [q[0]] + q[1..];
    }
  }

  /** Reading pairs of words from `a` up to the first zero tag gives `aux`. */
  ghost predicate AuxAt(mem: Memory, a: int, narrow: bool, aux: seq<(int, int)>)
    decreases |aux|
  {
    if aux == [] then WordAt(mem, a, narrow) == 0
    else
      && WordAt(mem, a, narrow) == aux[0].0 && aux[0].0 != 0 && WordAt(mem, a + Width(narrow), narrow) == aux[0].1
      && AuxAt(mem, a + 2 * Width(narrow), narrow, aux[1..])
  }

  lemma {:induction false} AuxUnique(mem: Memory, a: int, narrow: bool, x: seq<(int, int)>, y: seq<(int, int)>)
    requires AuxAt(mem, a, narrow, x) && AuxAt(mem, a, narrow, y)
    ensures x == y
    decreases |x|
  {
    if x != [] && y != [] {
      AuxUnique(mem, a + 2 * Width(narrow), narrow, x[1..], y[1..]);
      assert x == [x[0]] + x[1..] && y == [y[0]] + y[1..];
    }
  }

  /** What a reader finds under `tag`: the value of the first pair that has it, -1 if none does. */
  function ValueOf(aux: seq<(int, int)>, tag: int): int {
    if aux == [] then -1 else if aux[0].0 == tag then aux[0].1 else ValueOf(aux[1..], tag)
  }

  lemma {:induction false} ValueAt(aux: seq<(int, int)>, i: nat)
    requires i < |aux| && forall j :: 0 <= j < i ==> aux[j].0 != aux[i].0
    ensures ValueOf(aux, aux[i].0) == aux[i].1
    decreases |aux|
  {
    if i > 0 {
      assert aux[0].0 != aux[i].0;
      assert aux[1..][i - 1] == aux[i];
      ValueAt(aux[1..], i - 1);
    }
  }

  /** Every pointer leads to the string beside it. */
  ghost predicate StringsAt(mem: Memory, base: int, ptrs: seq<int>, strings: seq<Bytes>) {
    if ptrs == [] || strings == [] then ptrs == [] && strings == []
    else StringAt(mem, base + ptrs[0], strings[0]) && StringsAt(mem, base, ptrs[1..], strings[1..])
  }

  lemma {:induction false} StringsUnique(mem: Memory, base: int, ptrs: seq<int>, x: seq<Bytes>, y: seq<Bytes>)
    requires StringsAt(mem, base, ptrs, x) && StringsAt(mem, base, ptrs, y)
    ensures x == y
    decreases |ptrs|
  {
    if ptrs != [] {
      StringUnique(mem, base + ptrs[0], x[0], y[0]);
      StringsUnique(mem, base, ptrs[1..], x[1..], y[1..]);
      assert x == [x[0]] + x[1..] && y == [y[0]] + y[1..];
    }
  }

  /** What a program finds at its entry point. */
  datatype Entry = Entry(argv: seq<Bytes>, envp: seq<Bytes>, aux: seq<(int, int)>)

  /** The words at `at` read as argc, two vectors of pointers and an auxiliary vector. */
  ghost predicate Reads(mem: Memory, at: int, narrow: bool, args: seq<int>, envs: seq<int>, aux: seq<(int, int)>) {
    && WordAt(mem, at, narrow) == |args|
    && VectorAt(mem, at + Width(narrow), narrow, args)
    && VectorAt(mem, at + Width(narrow) * (|args| + 2), narrow, envs)
    && AuxAt(mem, at + Width(narrow) * (|args| + |envs| + 3), narrow, aux)
  }

  lemma ReadsUnique(mem: Memory, at: int, narrow: bool, args: seq<int>, envs: seq<int>, aux: seq<(int, int)>,
                    args': seq<int>, envs': seq<int>, aux': seq<(int, int)>)
    requires Reads(mem, at, narrow, args, envs, aux) && Reads(mem, at, narrow, args', envs', aux')
    ensures args == args' && envs == envs' && aux == aux'
  {
    VectorUnique(mem, at + Width(narrow), narrow, args, args');
    VectorUnique(mem, at + Width(narrow) * (|args| + 2), narrow, envs, envs');
    AuxUnique(mem, at + Width(narrow) * (|args| + |envs| + 3), narrow, aux, aux');
  }

  /** Reading from the stack pointer gives `entry`, `args` and `envs` being the pointers met on
      the way. The stack pointer and every pointer are guest addresses: `base` away from the
      host's. */
  ghost predicate Finds(mem: Memory, base: int, sp: int, narrow: bool, entry: Entry, args: seq<int>, envs: seq<int>) {
    && sp % 16 == 0
    && Reads(mem, base + sp, narrow, args, envs, entry.aux)
    && StringsAt(mem, base, args, entry.argv) && StringsAt(mem, base, envs, entry.envp)
  }

  /** A stack can be read in one way only. */
  lemma EntryUnique(mem: Memory, base: int, sp: int, narrow: bool,
                    e: Entry, args: seq<int>, envs: seq<int>, e': Entry, args': seq<int>, envs': seq<int>)
    requires Finds(mem, base, sp, narrow, e, args, envs) && Finds(mem, base, sp, narrow, e', args', envs')
    ensures e == e'
  {
    ReadsUnique(mem, base + sp, narrow, args, envs, e.aux, args', envs', e'.aux);
    StringsUnique(mem, base, args, e.argv, e'.argv);
    StringsUnique(mem, base, envs, e.envp, e'.envp);
  }
}
