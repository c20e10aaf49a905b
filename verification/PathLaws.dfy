/** What a path means, part by part: each law says what one kind of name does to where a path
    leads, whatever stands before and after it. */
module PathLaws {
  import opened Spans
  import opened GuestPath

  // ---- Slashes ----

  /** A slash separates what stands before it from what stands after, and does nothing else. */
  lemma {:induction false} NamesSplit(before: string, after: string)
    ensures Names(before + "/" + after) == Names(before) + Names(after)
    decreases |before|
  {
    var path := before + "/" + after;
    if before == "" {
      assert path[1..] == after;
    } else if before[0] == '/' {
      assert path[1..] == before[1..] + "/" + after;
      NamesSplit(before[1..], after);
    } else {
      var n := NameLength(before);
      FirstNameOf(before, n, after);
      assert path[..n] == before[..n] && path[n..] == before[n..] + "/" + after;
      NamesSplit(before[n..], after);
    }
  }

  lemma FirstNameOf(before: string, n: nat, after: string)
    requires n == NameLength(before)
    ensures NameLength(before + "/" + after) == n
  {
    var name, rest := before[..n], before[n..] + "/" + after;
    assert before + "/" + after == name + rest;
    NameEnds(name, rest);
  }

  lemma OneName(name: string)
    requires IsName(name)
    ensures Names(name) == [name]
  {
    FirstName(name, "");
    assert name + "" == name;
  }

  // ---- Where names lead ----

  /** Where `parts` leads from the root. */
  function Leads(links: Links, root: string, follow: bool, parts: seq<string>): Outcome {
    Walk(links, root, follow, parts, [], 0)
  }

  predicate Plain(name: string) { IsName(name) && name != "." && name != ".." }

  /** What a directory reached by `first`, links followed, makes of the names after it. */
  lemma AfterFirst(links: Links, root: string, follow: bool, first: seq<string>, later: seq<string>)
    requires !Leads(links, root, true, first).exhausted && later != []
    ensures var mid := Leads(links, root, true, first);
      mid.hops <= MAX_HOPS && Leads(links, root, follow, first + later) == Walk(links, root, follow, later, mid.names, mid.hops)
  {
    WalkInSteps(links, root, follow, first, later, [], 0);
  }

  /** Where a path goes on to if nothing more is said: the directory `first` leads to, followed
      all the way, or on along `rest`. */
  function Onward(links: Links, root: string, follow: bool, first: seq<string>, rest: seq<string>): Outcome {
    if rest == [] then Leads(links, root, true, first) else Leads(links, root, follow, first + rest)
  }

  lemma OnwardFrom(links: Links, root: string, follow: bool, first: seq<string>, rest: seq<string>)
    requires !Leads(links, root, true, first).exhausted
    ensures var mid := Leads(links, root, true, first);
      mid.hops <= MAX_HOPS && Onward(links, root, follow, first, rest) == Walk(links, root, follow, rest, mid.names, mid.hops)
  {
    if rest == [] {
      WalkHops(links, root, first, [], 0);
    } else {
      AfterFirst(links, root, follow, first, rest);
    }
  }

  lemma {:induction false} WalkHops(links: Links, root: string, pending: seq<string>, names: seq<string>, hops: nat)
    requires hops <= MAX_HOPS && !Walk(links, root, true, pending, names, hops).exhausted
    ensures hops <= Walk(links, root, true, pending, names, hops).hops <= MAX_HOPS
  {
    var mid := Walk(links, root, true, pending, names, hops);
    WalkInSteps(links, root, true, pending, ["."], names, hops);
    HopsGrow(links, root, pending, names, hops);
  }

  lemma {:induction false} HopsGrow(links: Links, root: string, pending: seq<string>, names: seq<string>, hops: nat)
    requires hops <= MAX_HOPS
    ensures hops <= Walk(links, root, true, pending, names, hops).hops
    decreases MAX_HOPS - hops, |pending|
  {
    if pending != [] {
      var part, rest := pending[0], pending[1..];
      if part == "." {
        HopsGrow(links, root, rest, names, hops);
      } else if part == ".." {
        HopsGrow(links, root, rest, Shorter(names), hops);
      } else {
        var next := names + [part];
        match links(Joined(root, next))
        case None => HopsGrow(links, root, rest, next, hops);
        case Some(target) =>
          if hops < MAX_HOPS {
            if target == "" {
              HopsGrow(links, root, rest, next, hops + 1);
            } else {
              HopsGrow(links, root, Names(target) + rest, if target[0] == '/' then [] else names, hops + 1);
            }
          }
      }
    }
  }

  /** "." is where it stands. */
  lemma DotStays(links: Links, root: string, follow: bool, first: seq<string>, rest: seq<string>)
    requires !Leads(links, root, true, first).exhausted
    ensures Leads(links, root, follow, first + ["."] + rest) == Onward(links, root, follow, first, rest)
  {
    assert first + ["."] + rest == first + (["."] + rest);
    AfterFirst(links, root, follow, first, ["."] + rest);
    OnwardFrom(links, root, follow, first, rest);
    assert (["."] + rest)[1..] == rest;
  }

  /** A name that is no link where it stands goes one down, and ".." after it comes back. */
  lemma DotDotUndoes(links: Links, root: string, follow: bool, first: seq<string>, name: string, rest: seq<string>)
    requires !Leads(links, root, true, first).exhausted && Plain(name)
    requires links(Joined(root, Leads(links, root, true, first).names + [name])).None?
    ensures Leads(links, root, follow, first + [name, ".."] + rest) == Onward(links, root, follow, first, rest)
  {
    var mid, later := Leads(links, root, true, first), [name, ".."] + rest;
    assert first + [name, ".."] + rest == first + later;
    AfterFirst(links, root, follow, first, later);
    OnwardFrom(links, root, follow, first, rest);
    assert later[1..] == [".."] + rest && ([".."] + rest)[1..] == rest;
    assert (mid.names + [name])[..|mid.names|] == mid.names;
  }

  /** ".." at the root is the root. */
  lemma DotDotAtRoot(links: Links, root: string, follow: bool, rest: seq<string>)
    ensures Leads(links, root, follow, [".."] + rest) == Leads(links, root, follow, rest)
  {
    assert ([".."] + rest)[1..] == rest;
  }

  /** A name that is no link, or one that cannot be read, or is the last and not to be followed, is
      found where it stands. */
  lemma NameGoesDown(links: Links, root: string, follow: bool, first: seq<string>, name: string, mid: Outcome)
    requires mid == Leads(links, root, true, first) && !mid.exhausted && Plain(name)
    requires follow ==> Unfollowable(links, Joined(root, mid.names + [name])) && mid.hops < MAX_HOPS
    ensures Leads(links, root, follow, first + [name]).names == mid.names + [name]
  {
    AfterFirst(links, root, follow, first, [name]);
    assert [name][1..] == [];
  }

  // ---- Links ----

  /** A walk with hops to spare leads where one with fewer does, if that ends within its budget. */
  lemma {:induction false} FewerHops(links: Links, root: string, follow: bool, pending: seq<string>, names: seq<string>, hops: nat, less: nat,
                                     a: Outcome, b: Outcome)
    requires less <= hops <= MAX_HOPS && a == Walk(links, root, follow, pending, names, hops) && !a.exhausted
    requires b == Walk(links, root, follow, pending, names, less)
    ensures b.names == a.names && !b.exhausted
    decreases MAX_HOPS - hops, |pending|
  {
    if pending != [] {
      var part, rest := pending[0], pending[1..];
      if part == "." {
        FewerHops(links, root, follow, rest, names, hops, less, a, b);
      } else if part == ".." {
        FewerHops(links, root, follow, rest, Shorter(names), hops, less, a, b);
      } else if follow || rest != [] {
        FewerOverName(links, root, follow, pending, names, hops, less, a, b);
      }
    }
  }

  lemma {:induction false} FewerOverName(links: Links, root: string, follow: bool, pending: seq<string>, names: seq<string>, hops: nat, less: nat,
                                         a: Outcome, b: Outcome)
    requires less <= hops <= MAX_HOPS && a == Walk(links, root, follow, pending, names, hops) && !a.exhausted
    requires b == Walk(links, root, follow, pending, names, less)
    requires pending != [] && pending[0] != "." && pending[0] != ".." && (follow || pending[1..] != [])
    ensures b.names == a.names && !b.exhausted
    decreases MAX_HOPS - hops, |pending|, 1
  {
    var rest, next := pending[1..], names + [pending[0]];
    match links(Joined(root, next))
    case None => FewerHops(links, root, follow, rest, next, hops, less, a, b);
    case Some(target) =>
      if target == "" {
        FewerHops(links, root, follow, rest, next, hops + 1, less + 1, a, b);
      } else {
        FewerOverLink(links, root, follow, pending, names, hops, less, target, a, b);
      }
  }

  lemma {:induction false} FewerOverLink(links: Links, root: string, follow: bool, pending: seq<string>, names: seq<string>, hops: nat, less: nat,
                                         target: string, a: Outcome, b: Outcome)
    requires less <= hops <= MAX_HOPS && a == Walk(links, root, follow, pending, names, hops) && !a.exhausted
    requires b == Walk(links, root, follow, pending, names, less)
    requires pending != [] && pending[0] != "." && pending[0] != ".." && (follow || pending[1..] != [])
    requires target != "" && links(Joined(root, names + [pending[0]])) == Some(target)
    ensures b.names == a.names && !b.exhausted
    decreases MAX_HOPS - hops, |pending|, 0
  {
    var queued, at := Names(target) + pending[1..], if target[0] == '/' then [] else names;
    LinkStep(links, root, follow, pending, names, hops, target, queued, at);
    LinkStep(links, root, follow, pending, names, less, target, queued, at);
    FewerHops(links, root, follow, queued, at, hops + 1, less + 1, a, b);
  }

  lemma LinkStep(links: Links, root: string, follow: bool, pending: seq<string>, names: seq<string>, hops: nat, target: string,
                 queued: seq<string>, at: seq<string>)
    requires hops <= MAX_HOPS && pending != [] && pending[0] != "." && pending[0] != ".." && (follow || pending[1..] != [])
    requires target != "" && links(Joined(root, names + [pending[0]])) == Some(target)
    requires queued == Names(target) + pending[1..] && at == if target[0] == '/' then [] else names
    ensures Walk(links, root, follow, pending, names, hops) ==
      if hops == MAX_HOPS then Outcome(names + [pending[0]], hops + 1, true) else Walk(links, root, follow, queued, at, hops + 1)
  {
  }

  /** The walk goes on at a link as at its target. */
  lemma AtLink(links: Links, root: string, follow: bool, first: seq<string>, link: string, rest: seq<string>, target: string,
               mid: Outcome, end: Outcome)
    requires mid == Leads(links, root, true, first) && !mid.exhausted && Plain(link) && target != "" && (follow || rest != [])
    requires links(Joined(root, mid.names + [link])) == Some(target)
    requires end == Leads(links, root, follow, first + [link] + rest) && !end.exhausted
    ensures mid.hops + 1 <= MAX_HOPS
    ensures end == Walk(links, root, follow, Names(target) + rest, if target[0] == '/' then [] else mid.names, mid.hops + 1)
  {
    var later := [link] + rest;
    assert first + [link] + rest == first + later;
    AfterFirst(links, root, follow, first, later);
    assert later[1..] == rest;
    LinkStep(links, root, follow, later, mid.names, mid.hops, target, Names(target) + rest, if target[0] == '/' then [] else mid.names);
  }

  /** Within the budget, a path through a link to "/t" leads where "/t" and the rest does. */
  lemma ThroughAbsoluteLink(links: Links, root: string, follow: bool, first: seq<string>, link: string, rest: seq<string>, target: string,
                            mid: Outcome, end: Outcome)
    requires mid == Leads(links, root, true, first) && !mid.exhausted && Plain(link) && target != "" && (follow || rest != [])
    requires links(Joined(root, mid.names + [link])) == Some(target) && target[0] == '/'
    requires end == Leads(links, root, follow, first + [link] + rest) && !end.exhausted
    ensures end.names == Leads(links, root, follow, Names(target) + rest).names
  {
    AtLink(links, root, follow, first, link, rest, target, mid, end);
    FewerHops(links, root, follow, Names(target) + rest, [], mid.hops + 1, 0, end, Leads(links, root, follow, Names(target) + rest));
  }

  /** Within the budget, a path through a link to "t" leads where the link's directory, "t" and the
      rest does. */
  lemma ThroughRelativeLink(links: Links, root: string, follow: bool, first: seq<string>, link: string, rest: seq<string>, target: string,
                            mid: Outcome, end: Outcome)
    requires mid == Leads(links, root, true, first) && !mid.exhausted && Plain(link) && target != "" && (follow || rest != [])
    requires links(Joined(root, mid.names + [link])) == Some(target) && target[0] != '/' && AllNames(first)
    requires end == Leads(links, root, follow, first + [link] + rest) && !end.exhausted
    ensures end.names == Leads(links, root, follow, mid.names + (Names(target) + rest)).names
  {
    AtLink(links, root, follow, first, link, rest, target, mid, end);
    SomeName(target);
    FromDirectory(links, root, follow, first, mid, Names(target) + rest, end);
  }

  lemma SomeName(path: string)
    requires path != "" && path[0] != '/'
    ensures Names(path) != []
  {
  }

  /** What the directory `first` leads to makes of `later` does not depend on how it was reached. */
  lemma FromDirectory(links: Links, root: string, follow: bool, first: seq<string>, mid: Outcome, later: seq<string>, end: Outcome)
    requires AllNames(first) && mid == Leads(links, root, true, first) && !mid.exhausted && mid.hops < MAX_HOPS && later != []
    requires end == Walk(links, root, follow, later, mid.names, mid.hops + 1) && !end.exhausted
    ensures Leads(links, root, follow, mid.names + later).names == end.names
  {
    var again := LeadsAgain(links, root, first);
    AfterFirst(links, root, follow, mid.names, later);
    FewerHops(links, root, follow, later, mid.names, mid.hops + 1, again, end, Leads(links, root, follow, mid.names + later));
  }

  /** Where a path leads, it leads to itself, over no more links. */
  lemma LeadsAgain(links: Links, root: string, first: seq<string>) returns (hops: nat)
    requires AllNames(first) && !Leads(links, root, true, first).exhausted
    ensures var mid := Leads(links, root, true, first);
      hops <= mid.hops && Leads(links, root, true, mid.names) == Outcome(mid.names, hops, false)
  {
    var names := Leads(links, root, true, first).names;
    WalkIsClean(links, root, true, first, [], 0);
    WalkEndsWell(links, root, true, first, [], 0);
    assert names[0..] == names && names[..0] == [];
    WalkStays(links, root, true, names, 0, 0);
    hops := Stuck(links, root, names, |names|);
  }

  // ---- The same of paths ----

  /** The first part of a path within its budget is within it too. */
  lemma FirstInBudget(links: Links, root: string, follow: bool, first: seq<string>, later: seq<string>)
    requires !Leads(links, root, follow, first + later).exhausted && later != []
    ensures !Leads(links, root, true, first).exhausted
  {
    WalkInSteps(links, root, follow, first, later, [], 0);
  }

  lemma NamesOfThree(first: string, name: string, rest: string)
    requires IsName(name)
    ensures Names(first + "/" + name + "/" + rest) == Names(first) + [name] + Names(rest)
  {
    NamesSplit(first + "/" + name, rest);
    NamesSplit(first, name);
    OneName(name);
  }

  lemma Grouped(a: string, b: string, c: string)
    ensures a + "/" + b + "/" + c == a + ("/" + (b + "/" + c)) && a + ("/" + (b + "/" + c)) == a + "/" + (b + "/" + c)
  {
  }

  lemma DotDotGrouped(a: string, b: string, c: string)
    ensures a + "/" + b + "/../" + c == a + "/" + b + "/" + (".." + "/" + c)
  {
  }

  lemma DotDotNames(first: string, name: string, rest: string)
    requires IsName(name)
    ensures Names(first + "/" + name + "/../" + rest) == Names(first) + [name, ".."] + Names(rest)
  {
    var up := ".." + "/" + rest;
    DotDotGrouped(first, name, rest);
    NamesOfThree(first, name, up);
    NamesSplit("..", rest);
    OneName("..");
    var head, tail := Names(first), Names(rest);
    assert head + [name] + ([".."] + tail) == head + [name, ".."] + tail;
  }

  /** Two paths with names that lead to one place resolve alike. */
  lemma SameEnd(links: Links, root: string, follow: bool, path: string, other: string, parts: seq<string>, others: seq<string>)
    requires root != "" && parts == Names(path) && others == Names(other)
    requires Leads(links, root, follow, parts).names == Leads(links, root, follow, others).names
    ensures Resolved(links, root, path, follow) == Resolved(links, root, other, follow)
  {
  }

  /** "first/name/../rest" is "first/rest", for a name that is no link there. */
  lemma ResolveDotDot(links: Links, root: string, follow: bool, first: string, name: string, rest: string)
    requires root != "" && Plain(name) && (follow || Names(rest) != []) && FewLinks(links, root, first, true)
    requires links(Joined(root, End(links, root, first, true) + [name])).None?
    ensures Resolved(links, root, first + "/" + name + "/../" + rest, follow) == Resolved(links, root, first + "/" + rest, follow)
  {
    InBudgetIffFewLinks(links, root, first, true);
    DotDotNames(first, name, rest);
    NamesSplit(first, rest);
    var head, tail := Names(first), Names(rest);
    DotDotUndoes(links, root, follow, head, name, tail);
    assert tail == [] ==> head + tail == head;
    SameEnd(links, root, follow, first + "/" + name + "/../" + rest, first + "/" + rest, head + [name, ".."] + tail, head + tail);
  }

  /** "first/link/rest" is "target/rest" if the target starts at the root, and the link's directory
      followed by "target/rest" if not. */
  lemma ResolveThroughLink(links: Links, root: string, follow: bool, first: string, link: string, rest: string, target: string)
    requires root != "" && Plain(link) && target != "" && (follow || Names(rest) != [])
    requires FewLinks(links, root, first + "/" + link + "/" + rest, follow)
    requires links(Joined(root, End(links, root, first, true) + [link])) == Some(target)
    ensures Resolved(links, root, first + "/" + link + "/" + rest, follow) ==
      Resolved(links, root, if target[0] == '/' then target + "/" + rest
                            else Joined("", End(links, root, first, true)) + "/" + target + "/" + rest, follow)
  {
    var path := first + "/" + link + "/" + rest;
    InBudgetIffFewLinks(links, root, path, follow);
    NamesOfThree(first, link, rest);
    var head, tail := Names(first), Names(rest);
    assert head + [link] + tail == head + ([link] + tail);
    FirstInBudget(links, root, follow, head, [link] + tail);
    var mid, end := Leads(links, root, true, head), Leads(links, root, follow, head + [link] + tail);
    if target[0] == '/' {
      ThroughAbsoluteLink(links, root, follow, head, link, tail, target, mid, end);
      NamesSplit(target, rest);
      SameEnd(links, root, follow, path, target + "/" + rest, head + [link] + tail, Names(target) + tail);
    } else {
      ThroughRelativeLink(links, root, follow, head, link, tail, target, mid, end);
      DirectoryNames(links, root, first, target, rest);
      SameEnd(links, root, follow, path, Joined("", mid.names) + "/" + target + "/" + rest, head + [link] + tail, mid.names + (Names(target) + tail));
    }
  }

  lemma DirectoryNames(links: Links, root: string, first: string, target: string, rest: string)
    ensures var names := End(links, root, first, true);
      Names(Joined("", names) + "/" + target + "/" + rest) == names + (Names(target) + Names(rest))
  {
    var names := End(links, root, first, true);
    WalkIsClean(links, root, true, Names(first), [], 0);
    NamesUnder(names, target, rest);
  }

  lemma NamesUnder(names: seq<string>, target: string, rest: string)
    requires AllNames(names)
    ensures Names(Joined("", names) + "/" + target + "/" + rest) == names + (Names(target) + Names(rest))
  {
    var up, after := Joined("", names), target + "/" + rest;
    Grouped(up, target, rest);
    NamesOfJoined(names, "");
    assert up + "" == up && names + [] == names;
    NamesSplit(up, after);
    NamesSplit(target, rest);
  }
}
