/** Resolving the guest's paths under its root on the host, following the guest's symbolic
    links as the guest would. */
module GuestPath {
  import opened Spans

  const MAX_HOPS := 40

  // ---- Paths as lists of names ----

  /** What may stand between two slashes. */
  predicate IsName(s: string) { s != "" && '/' !in s }

  /** The length of the name `path` starts with. */
  function NameLength(path: string): (n: nat)
    ensures n <= |path| && '/' !in path[..n] && (n < |path| ==> path[n] == '/')
  {
    if path == "" || path[0] == '/' then 0 else
      var n := 1 + NameLength(path[1..]);
      assert path[..n] == [path[0]] + path[1..][..n - 1];
      n
  }

  /** The names in a path, empty ones left out. */
  function Names(path: string): (parts: seq<string>)
    ensures forall i :: 0 <= i < |parts| ==> IsName(parts[i])
    decreases |path|
  {
    if path == "" then []
    else if path[0] == '/' then Names(path[1..])
    else
      var n := NameLength(path);
      assert n > 0;
      [path[..n]] + Names(path[n..])
  }

  /** The host path of `parts` under `root`. */
  function Joined(root: string, parts: seq<string>): string {
    if parts == [] then root else Joined(root, parts[..|parts| - 1]) + "/" + parts[|parts| - 1]
  }

  method PastSlashes(path: string, start: nat) returns (index: nat)
    requires start <= |path|
    ensures start <= index <= |path| && (index < |path| ==> path[index] != '/')
    ensures Names(path[index..]) == Names(path[start..])
  {
    index := start;
    while index < |path| && path[index] == '/'
      invariant start <= index <= |path| && Names(path[index..]) == Names(path[start..])
    {
      assert path[index..][1..] == path[index + 1..];
      index := index + 1;
    }
  }

  method EndOfName(path: string, start: nat) returns (index: nat)
    requires start <= |path|
    ensures start <= index <= |path| && index == start + NameLength(path[start..])
  {
    index := start;
    while index < |path| && path[index] != '/'
      invariant start <= index <= |path| && NameLength(path[start..]) == index - start + NameLength(path[index..])
    {
      assert path[index..][1..] == path[index + 1..];
      index := index + 1;
    }
  }

  method Split(path: string) returns (parts: seq<string>)
    ensures parts == Names(path)
  {
    parts := [];
    var index := 0;
    assert path[0..] == path;
    while index < |path|
      invariant 0 <= index <= |path| && parts + Names(path[index..]) == Names(path)
      decreases |path| - index, if index < |path| && path[index] == '/' then 1 else 0
    {
      index := PastSlashes(path, index);
      var start := index;
      index := EndOfName(path, start);
      if start != index {
        assert path[start..][..index - start] == path[start..index] && path[start..][index - start..] == path[index..];
        parts := parts + [path[start..index]];
      }
    }
  }

  method Join(root: string, parts: seq<string>) returns (path: string)
    ensures path == Joined(root, parts)
  {
    path := root;
    var i := 0;
    while i < |parts|
      invariant 0 <= i <= |parts| && path == Joined(root, parts[..i])
    {
      assert parts[..i + 1][..i] == parts[..i];
      path := path + "/";
      path := path + parts[i];
      i := i + 1;
    }
    assert parts[..i] == parts;
  }

  /** Splitting undoes joining. */
  lemma {:induction false} NamesOfJoined(parts: seq<string>, rest: string)
    requires (forall i :: 0 <= i < |parts| ==> IsName(parts[i])) && (rest == "" || rest[0] == '/')
    ensures Names(Joined("", parts) + rest) == parts + Names(rest)
    decreases |parts|
  {
    if parts == [] {
      assert "" + rest == rest;
    } else {
      var n := |parts| - 1;
      var last := parts[n];
      NamesOfJoined(parts[..n], "/" + last + rest);
      assert Joined("", parts) + rest == Joined("", parts[..n]) + ("/" + last + rest);
      SlashName(last, rest);
      assert parts == parts[..n] + [last];
    }
  }

  lemma SlashName(name: string, rest: string)
    requires IsName(name) && (rest == "" || rest[0] == '/')
    ensures Names("/" + name + rest) == [name] + Names(rest)
  {
    assert ("/" + name + rest)[1..] == name + rest;
    FirstName(name, rest);
  }

  lemma FirstName(name: string, rest: string)
    requires IsName(name) && (rest == "" || rest[0] == '/')
    ensures Names(name + rest) == [name] + Names(rest)
  {
    NameEnds(name, rest);
    assert (name + rest)[..|name|] == name && (name + rest)[|name|..] == rest;
  }

  lemma {:induction false} NameEnds(name: string, rest: string)
    requires '/' !in name && (rest == "" || rest[0] == '/')
    ensures NameLength(name + rest) == |name|
    decreases |name|
  {
    if name == "" {
      assert "" + rest == rest;
    } else {
      assert (name + rest)[1..] == name[1..] + rest;
      NameEnds(name[1..], rest);
    }
  }

  // ---- The walk ----

  /** The guest's links, by host path: what a link holds, empty if it cannot be read. */
  type Links = string -> Option<string>

  /** Where a walk ends: the names below the root, how many links it met, and whether that was
      one too many. */
  datatype Outcome = Outcome(names: seq<string>, hops: nat, exhausted: bool)

  function Shorter(names: seq<string>): seq<string> { if names == [] then [] else names[..|names| - 1] }

  /** Takes the names of `pending` one after another, having reached `names` over `hops` links. */
  function Walk(links: Links, root: string, follow: bool, pending: seq<string>, names: seq<string>, hops: nat): Outcome
    requires hops <= MAX_HOPS
    decreases MAX_HOPS - hops, |pending|
  {
    if pending == [] then Outcome(names, hops, false)
    else
      var part, rest := pending[0], pending[1..];
      if part == "." then Walk(links, root, follow, rest, names, hops)
      else if part == ".." then Walk(links, root, follow, rest, Shorter(names), hops)
      else
        var next := names + [part];
        if !follow && rest == [] then Outcome(next, hops, false)
        else
          match links(Joined(root, next))
          case None => Walk(links, root, follow, rest, next, hops)
          case Some(target) =>
            if hops + 1 > MAX_HOPS then Outcome(next, hops + 1, true)
            else if target == "" then Walk(links, root, follow, rest, next, hops + 1)
            else Walk(links, root, follow, Names(target) + rest, if target[0] == '/' then [] else names, hops + 1)
  }

  /** The host path of a guest path. */
  function Resolved(links: Links, root: string, path: string, follow: bool): string {
    if root == "" then path else Joined(root, Walk(links, root, follow, Names(path), [], 0).names)
  }

  /** Replaces the link just reached by what it points at. */
  method FollowLink(names: seq<string>, pending: seq<string>, target: string) returns (reached: seq<string>, queued: seq<string>)
    requires names != [] && target != ""
    ensures queued == Names(target) + pending
    ensures reached == if target[0] == '/' then [] else names[..|names| - 1]
  {
    reached := names[..|names| - 1];
    if target[0] == '/' {
      reached := [];
    }
    var pieces := Split(target);
    queued := pieces + pending;
  }

  method ResolveGuestPathOnHost(links: Links, root: string, path: string, follow: bool) returns (host: string)
    ensures host == Resolved(links, root, path, follow)
  {
    if root == "" {
      return path;
    }
    var pending := Split(path);
    var names: seq<string>, hops := [], 0;
    ghost var end := Walk(links, root, follow, pending, [], 0);
    while pending != []
      invariant hops <= MAX_HOPS && Walk(links, root, follow, pending, names, hops) == end
      decreases MAX_HOPS - hops, |pending|
    {
      var part := pending[0];
      pending := pending[1..];
      if part == "." {
        continue;
      }
      if part == ".." {
        if names != [] {
          names := names[..|names| - 1];
        }
        continue;
      }
      names := names + [part];
      if !follow && pending == [] {
        break;
      }
      var here := Join(root, names);
      var target := links(here);
      if target.None? {
        continue;
      }
      hops := hops + 1;
      if hops > MAX_HOPS {
        break;
      }
      if target.value == "" {
        continue;
      }
      assert (names[..|names| - 1] + [part]) == names;
      names, pending := FollowLink(names, pending, target.value);
    }
    host := Join(root, names);
  }

  // ---- Where a walk can end ----

  predicate IsClean(names: seq<string>) {
    forall i :: 0 <= i < |names| ==> IsName(names[i]) && names[i] != "." && names[i] != ".."
  }

  predicate AllNames(names: seq<string>) { forall i :: 0 <= i < |names| ==> IsName(names[i]) }

  /** The host path is no link, or one that cannot be read. */
  ghost predicate Unfollowable(links: Links, path: string) { links(path).None? || links(path) == Some("") }

  /** Each of the first `k` prefixes is no link, or one that cannot be read. */
  ghost predicate Settled(links: Links, root: string, names: seq<string>, k: int) {
    k <= |names| && forall i :: 0 < i <= k ==> Unfollowable(links, Joined(root, names[..i]))
  }

  /** How many of the first `k` prefixes are links that cannot be read. */
  function Stuck(links: Links, root: string, names: seq<string>, k: nat): nat
    requires k <= |names|
  {
    if k == 0 then 0
    else Stuck(links, root, names, k - 1) + if links(Joined(root, names[..k])) == Some("") then 1 else 0
  }

  lemma {:induction false} StuckPrefix(links: Links, root: string, names: seq<string>, longer: seq<string>, k: nat)
    requires k <= |names| && names <= longer
    ensures Stuck(links, root, longer, k) == Stuck(links, root, names, k)
    decreases k
  {
    if k > 0 {
      assert longer[..k] == names[..k];
      StuckPrefix(links, root, names, longer, k - 1);
    }
  }

  /** The first `k` prefixes are settled, and each unreadable link among them has cost a hop. */
  ghost predicate Reached(links: Links, root: string, names: seq<string>, k: nat, hops: nat) {
    Settled(links, root, names, k) && Stuck(links, root, names, k) <= hops
  }

  lemma ReachedShorter(links: Links, root: string, names: seq<string>, hops: nat)
    requires Reached(links, root, names, |names|, hops)
    ensures Reached(links, root, Shorter(names), |Shorter(names)|, hops)
  {
    var less := Shorter(names);
    forall i | 0 < i <= |less| ensures Unfollowable(links, Joined(root, less[..i])) {
      assert less[..i] == names[..i];
    }
    StuckPrefix(links, root, less, names, |less|);
  }

  lemma ReachedLonger(links: Links, root: string, names: seq<string>, part: string, hops: nat)
    requires Reached(links, root, names, |names|, hops)
    ensures var next := names + [part];
      && Reached(links, root, next, |names|, hops)
      && (links(Joined(root, next)).None? ==> Reached(links, root, next, |next|, hops))
      && (links(Joined(root, next)) == Some("") ==> Reached(links, root, next, |next|, hops + 1))
  {
    var next := names + [part];
    forall i | 0 < i <= |names| ensures Unfollowable(links, Joined(root, next[..i])) {
      assert next[..i] == names[..i];
    }
    StuckPrefix(links, root, names, next, |names|);
    assert next[..|names| + 1] == next;
  }

  /** A walk ends below the root, at names free of "." and ".."; whatever it meets on the way,
      it does not climb out. */
  lemma {:induction false} WalkIsClean(links: Links, root: string, follow: bool, pending: seq<string>, names: seq<string>, hops: nat)
    requires hops <= MAX_HOPS && AllNames(pending) && IsClean(names)
    ensures IsClean(Walk(links, root, follow, pending, names, hops).names)
    decreases MAX_HOPS - hops, |pending|
  {
    if pending != [] {
      var part, rest := pending[0], pending[1..];
      if part == "." {
        WalkIsClean(links, root, follow, rest, names, hops);
      } else if part == ".." {
        WalkIsClean(links, root, follow, rest, Shorter(names), hops);
      } else if follow || rest != [] {
        NameIsClean(links, root, follow, pending, names, hops);
      }
    }
  }

  lemma {:induction false} NameIsClean(links: Links, root: string, follow: bool, pending: seq<string>, names: seq<string>, hops: nat)
    requires hops <= MAX_HOPS && AllNames(pending) && IsClean(names)
    requires pending != [] && pending[0] != "." && pending[0] != ".." && (follow || pending[1..] != [])
    ensures IsClean(Walk(links, root, follow, pending, names, hops).names)
    decreases MAX_HOPS - hops, |pending|, 0
  {
    var rest, next := pending[1..], names + [pending[0]];
    match links(Joined(root, next))
    case None => WalkIsClean(links, root, follow, rest, next, hops);
    case Some(target) =>
      if hops < MAX_HOPS {
        if target == "" {
          WalkIsClean(links, root, follow, rest, next, hops + 1);
        } else {
          WalkIsClean(links, root, follow, Names(target) + rest, if target[0] == '/' then [] else names, hops + 1);
        }
      }
  }

  /** How much of a walk's end is sure to be settled: all but the last name, if links there are
      not to be followed. */
  function SureUpTo(follow: bool, names: seq<string>): nat {
    if follow || names == [] then |names| else |names| - 1
  }

  /** Within the budget, every prefix of the end is no link or one that cannot be read, the whole
      of it excepted when the last link is not to be followed; over it, the end is a link. */
  ghost predicate EndsWell(links: Links, root: string, follow: bool, end: Outcome) {
    if end.exhausted then end.names != [] && links(Joined(root, end.names)).Some?
    else end.hops <= MAX_HOPS && Reached(links, root, end.names, SureUpTo(follow, end.names), end.hops)
  }

  lemma {:induction false} WalkEndsWell(links: Links, root: string, follow: bool, pending: seq<string>, names: seq<string>, hops: nat)
    requires hops <= MAX_HOPS && Reached(links, root, names, |names|, hops)
    ensures EndsWell(links, root, follow, Walk(links, root, follow, pending, names, hops))
    decreases MAX_HOPS - hops, |pending|
  {
    if pending == [] {
      if names != [] { ReachedInit(links, root, names, hops); }
    } else {
      var part, rest := pending[0], pending[1..];
      if part == "." {
        WalkEndsWell(links, root, follow, rest, names, hops);
      } else if part == ".." {
        ReachedShorter(links, root, names, hops);
        WalkEndsWell(links, root, follow, rest, Shorter(names), hops);
      } else {
        ReachedLonger(links, root, names, part, hops);
        if follow || rest != [] { WalkOverName(links, root, follow, pending, names, hops); }
      }
    }
  }

  lemma ReachedInit(links: Links, root: string, names: seq<string>, hops: nat)
    requires names != [] && Reached(links, root, names, |names|, hops)
    ensures Reached(links, root, names, |names| - 1, hops)
  {
  }

  lemma {:induction false} WalkOverName(links: Links, root: string, follow: bool, pending: seq<string>, names: seq<string>, hops: nat)
    requires hops <= MAX_HOPS && Reached(links, root, names, |names|, hops)
    requires pending != [] && pending[0] != "." && pending[0] != ".." && (follow || pending[1..] != [])
    ensures EndsWell(links, root, follow, Walk(links, root, follow, pending, names, hops))
    decreases MAX_HOPS - hops, |pending|, 0
  {
    var part, rest := pending[0], pending[1..];
    var next := names + [part];
    ReachedLonger(links, root, names, part, hops);
    match links(Joined(root, next))
    case None => WalkEndsWell(links, root, follow, rest, next, hops);
    case Some(target) =>
      if hops < MAX_HOPS {
        if target == "" {
          WalkEndsWell(links, root, follow, rest, next, hops + 1);
        } else {
          WalkEndsWell(links, root, follow, Names(target) + rest, if target[0] == '/' then [] else names, hops + 1);
        }
      }
  }

  // ---- The links met on the way ----

  /** Taking `pending` from `names` on meets exactly `n` links. No budget is involved: of a path
      that leads round in circles this holds for no `n`. */
  ghost predicate Meets(links: Links, root: string, follow: bool, pending: seq<string>, names: seq<string>, n: nat)
    decreases n, |pending|
  {
    if pending == [] then n == 0
    else
      var part, rest := pending[0], pending[1..];
      if part == "." then Meets(links, root, follow, rest, names, n)
      else if part == ".." then Meets(links, root, follow, rest, Shorter(names), n)
      else
        var next := names + [part];
        if !follow && rest == [] then n == 0
        else
          match links(Joined(root, next))
          case None => Meets(links, root, follow, rest, next, n)
          case Some(target) =>
            n > 0 &&
            if target == "" then Meets(links, root, follow, rest, next, n - 1)
            else Meets(links, root, follow, Names(target) + rest, if target[0] == '/' then [] else names, n - 1)
  }

  /** A walk that ends within its budget has met no more links than it had hops. */
  lemma {:induction false} InBudgetMeets(links: Links, root: string, follow: bool, pending: seq<string>, names: seq<string>, hops: nat)
    returns (n: nat)
    requires hops <= MAX_HOPS && !Walk(links, root, follow, pending, names, hops).exhausted
    ensures hops + n <= MAX_HOPS && Meets(links, root, follow, pending, names, n)
    decreases MAX_HOPS - hops, |pending|
  {
    n := 0;
    if pending != [] {
      var part, rest := pending[0], pending[1..];
      if part == "." {
        n := InBudgetMeets(links, root, follow, rest, names, hops);
      } else if part == ".." {
        n := InBudgetMeets(links, root, follow, rest, Shorter(names), hops);
      } else if follow || rest != [] {
        n := NameInBudget(links, root, follow, pending, names, hops);
      }
    }
  }

  lemma {:induction false} NameInBudget(links: Links, root: string, follow: bool, pending: seq<string>, names: seq<string>, hops: nat)
    returns (n: nat)
    requires hops <= MAX_HOPS && !Walk(links, root, follow, pending, names, hops).exhausted
    requires pending != [] && pending[0] != "." && pending[0] != ".." && (follow || pending[1..] != [])
    ensures hops + n <= MAX_HOPS && Meets(links, root, follow, pending, names, n)
    decreases MAX_HOPS - hops, |pending|, 0
  {
    var rest, next := pending[1..], names + [pending[0]];
    match links(Joined(root, next))
    case None => n := InBudgetMeets(links, root, follow, rest, next, hops);
    case Some(target) =>
      if target == "" {
        n := InBudgetMeets(links, root, follow, rest, next, hops + 1);
      } else {
        n := InBudgetMeets(links, root, follow, Names(target) + rest, if target[0] == '/' then [] else names, hops + 1);
      }
      n := n + 1;
  }

  /** A path that meets no more links than there are hops left is walked to its end. */
  lemma {:induction false} MeetsInBudget(links: Links, root: string, follow: bool, pending: seq<string>, names: seq<string>, hops: nat, n: nat)
    requires hops + n <= MAX_HOPS && Meets(links, root, follow, pending, names, n)
    ensures !Walk(links, root, follow, pending, names, hops).exhausted
    decreases n, |pending|
  {
    if pending != [] {
      var part, rest := pending[0], pending[1..];
      if part == "." {
        MeetsInBudget(links, root, follow, rest, names, hops, n);
      } else if part == ".." {
        MeetsInBudget(links, root, follow, rest, Shorter(names), hops, n);
      } else if follow || rest != [] {
        MeetsOverName(links, root, follow, pending, names, hops, n);
      }
    }
  }

  lemma {:induction false} MeetsOverName(links: Links, root: string, follow: bool, pending: seq<string>, names: seq<string>, hops: nat, n: nat)
    requires hops + n <= MAX_HOPS && Meets(links, root, follow, pending, names, n)
    requires pending != [] && pending[0] != "." && pending[0] != ".." && (follow || pending[1..] != [])
    ensures !Walk(links, root, follow, pending, names, hops).exhausted
    decreases n, |pending|, 1
  {
    var rest, next := pending[1..], names + [pending[0]];
    match links(Joined(root, next))
    case None => MeetsInBudget(links, root, follow, rest, next, hops, n);
    case Some(target) =>
      if target == "" {
        MeetsInBudget(links, root, follow, rest, next, hops + 1, n - 1);
      } else {
        MeetsOverLink(links, root, follow, pending, names, hops, n, target);
      }
  }

  lemma {:induction false} MeetsOverLink(links: Links, root: string, follow: bool, pending: seq<string>, names: seq<string>, hops: nat, n: nat,
                                         target: string)
    requires hops + n <= MAX_HOPS && Meets(links, root, follow, pending, names, n)
    requires pending != [] && pending[0] != "." && pending[0] != ".." && (follow || pending[1..] != [])
    requires target != "" && links(Joined(root, names + [pending[0]])) == Some(target)
    ensures !Walk(links, root, follow, pending, names, hops).exhausted
    decreases n, |pending|, 0
  {
    MeetsInBudget(links, root, follow, Names(target) + pending[1..], if target[0] == '/' then [] else names, hops + 1, n - 1);
  }

  /** The path meets at most 40 links in all. */
  ghost predicate FewLinks(links: Links, root: string, path: string, follow: bool) {
    exists n :: 0 <= n <= 40 && Meets(links, root, follow, Names(path), [], n)
  }

  /** A walk keeps to its budget exactly when the path meets at most 40 links. */
  lemma InBudgetIffFewLinks(links: Links, root: string, path: string, follow: bool)
    ensures !Walk(links, root, follow, Names(path), [], 0).exhausted <==> FewLinks(links, root, path, follow)
  {
    var end := Walk(links, root, follow, Names(path), [], 0);
    if !end.exhausted {
      var n := InBudgetMeets(links, root, follow, Names(path), [], 0);
    }
    if n :| 0 <= n <= 40 && Meets(links, root, follow, Names(path), [], n) {
      MeetsInBudget(links, root, follow, Names(path), [], 0, n);
    }
  }

  /** The names a guest path resolves to. */
  function End(links: Links, root: string, path: string, follow: bool): seq<string> {
    Walk(links, root, follow, Names(path), [], 0).names
  }

  /** Of a path that meets at most 40 links, every prefix of the result is no link or one that
      cannot be read, the last name excepted if links there are not followed; of any other, the
      result is a link. */
  lemma ResultIsSettled(links: Links, root: string, path: string, follow: bool)
    ensures var end := End(links, root, path, follow);
      if FewLinks(links, root, path, follow) then Settled(links, root, end, SureUpTo(follow, end))
      else end != [] && links(Joined(root, end)).Some?
  {
    InBudgetIffFewLinks(links, root, path, follow);
    WalkEndsWell(links, root, follow, Names(path), [], 0);
  }

  /** Every link can be read. */
  ghost predicate Readable(links: Links) { forall path :: links(path) != Some("") }

  /** Where every link can be read: following all of them, no prefix of the result is a link
      exactly when the path meets at most 40. */
  lemma LinkFreeIffFewLinks(links: Links, root: string, path: string)
    requires Readable(links)
    ensures var end := End(links, root, path, true);
      (forall i :: 0 < i <= |end| ==> links(Joined(root, end[..i])).None?) <==> FewLinks(links, root, path, true)
  {
    ResultIsSettled(links, root, path, true);
    var end := End(links, root, path, true);
    assert end[..|end|] == end;
    if FewLinks(links, root, path, true) {
      forall i | 0 < i <= |end| ensures links(Joined(root, end[..i])).None? {
        assert Unfollowable(links, Joined(root, end[..i]));
      }
    }
  }

  // ---- Walking again, and walking in steps ----

  /** A settled path free of dots is where it says, if there are hops for its unreadable links. */
  lemma {:induction false} WalkStays(links: Links, root: string, follow: bool, all: seq<string>, at: nat, hops: nat)
    requires at <= |all| && IsClean(all[at..]) && Settled(links, root, all, SureUpTo(follow, all))
    requires at <= SureUpTo(follow, all)
    requires hops + Stuck(links, root, all, SureUpTo(follow, all)) - Stuck(links, root, all, at) <= MAX_HOPS && hops <= MAX_HOPS
    ensures var end := Walk(links, root, follow, all[at..], all[..at], hops); end.names == all && !end.exhausted
    ensures Walk(links, root, follow, all[at..], all[..at], hops).hops
      == hops + Stuck(links, root, all, SureUpTo(follow, all)) - Stuck(links, root, all, at)
    decreases |all| - at
  {
    if at == |all| {
      assert all[..at] == all;
    } else {
      StuckGrows(links, root, all, at + 1, SureUpTo(follow, all));
      var next := all[..at] + [all[at]];
      assert next == all[..at + 1] && all[at..][1..] == all[at + 1..];
      if follow || at + 1 < |all| {
        assert Unfollowable(links, Joined(root, all[..at + 1]));
        WalkStays(links, root, follow, all, at + 1, if links(Joined(root, next)).None? then hops else hops + 1);
      } else {
        assert all[..at + 1] == all;
      }
    }
  }

  lemma {:induction false} StuckGrows(links: Links, root: string, names: seq<string>, j: nat, k: nat)
    requires j <= |names| && k <= |names|
    ensures j <= k ==> Stuck(links, root, names, j) <= Stuck(links, root, names, k)
    decreases k
  {
    if j < k { StuckGrows(links, root, names, j, k - 1); }
  }

  /** Walking to where a walk ended ends there again: every unreadable link still in the way
      has cost the first walk a hop. */
  lemma WalkAgain(links: Links, root: string, follow: bool, path: string)
    requires FewLinks(links, root, path, follow)
    ensures var end := End(links, root, path, follow);
      IsClean(end) && Walk(links, root, follow, end, [], 0).names == end
  {
    var end := End(links, root, path, follow);
    InBudgetIffFewLinks(links, root, path, follow);
    WalkIsClean(links, root, follow, Names(path), [], 0);
    WalkEndsWell(links, root, follow, Names(path), [], 0);
    assert end[0..] == end && end[..0] == [];
    WalkStays(links, root, follow, end, 0, 0);
  }

  /** Walking a path is walking its first part, following links, and then the rest from there. */
  lemma {:induction false} WalkInSteps(links: Links, root: string, follow: bool, first: seq<string>, later: seq<string>, names: seq<string>, hops: nat)
    requires hops <= MAX_HOPS && later != []
    ensures var mid := Walk(links, root, true, first, names, hops);
      var end := Walk(links, root, follow, first + later, names, hops);
      if mid.exhausted then end == mid else mid.hops <= MAX_HOPS && end == Walk(links, root, follow, later, mid.names, mid.hops)
    decreases MAX_HOPS - hops, |first|
  {
    if first == [] {
      assert first + later == later;
    } else {
      var part, rest := first[0], first[1..];
      assert (first + later)[1..] == rest + later;
      if part == "." {
        WalkInSteps(links, root, follow, rest, later, names, hops);
      } else if part == ".." {
        WalkInSteps(links, root, follow, rest, later, Shorter(names), hops);
      } else {
        var next := names + [part];
        match links(Joined(root, next))
        case None => WalkInSteps(links, root, follow, rest, later, next, hops);
        case Some(target) =>
          if hops < MAX_HOPS {
            if target == "" {
              WalkInSteps(links, root, follow, rest, later, next, hops + 1);
            } else {
              assert Names(target) + (rest + later) == (Names(target) + rest) + later;
              WalkInSteps(links, root, follow, Names(target) + rest, later, if target[0] == '/' then [] else names, hops + 1);
            }
          }
      }
    }
  }

  // ---- Back to a guest path ----

  /** The guest's name for a host path, empty if it is not under the root. */
  function GuestPathForHostPath(root: string, host: string): string {
    if root == "" || |host| < |root| || host[..|root|] != root then ""
    else
      var rest := host[|root|..];
      if rest == "" then "/" else if rest[0] == '/' then rest else "/" + rest
  }

  predicate Under(root: string, host: string) {
    host == root || (|root| < |host| && host[..|root|] == root && host[|root|] == '/')
  }

  lemma {:induction false} JoinedApart(root: string, names: seq<string>)
    ensures Joined(root, names) == root + Joined("", names)
    decreases |names|
  {
    if names == [] {
      assert root + "" == root;
    } else {
      var init, last := names[..|names| - 1], "/" + names[|names| - 1];
      JoinedApart(root, init);
      assert Joined(root, init) + last == root + (Joined("", init) + last);
      assert Joined(root, names) == Joined(root, init) + last && Joined("", names) == Joined("", init) + last;
    }
  }

  lemma {:induction false} JoinedStarts(names: seq<string>)
    requires names != []
    ensures Joined("", names) != "" && Joined("", names)[0] == '/'
    decreases |names|
  {
    var init, last := names[..|names| - 1], "/" + names[|names| - 1];
    assert Joined("", names) == Joined("", init) + last;
    if init != [] { JoinedStarts(init); }
  }

  lemma JoinedUnder(root: string, names: seq<string>)
    ensures Under(root, Joined(root, names)) && Joined(root, names) == root + Joined("", names)
    ensures names != [] ==> Joined("", names) != "" && Joined("", names)[0] == '/'
  {
    JoinedApart(root, names);
    if names != [] { JoinedStarts(names); }
  }

  /** A resolved path is the root or lies below it, with no way back up in it. */
  lemma ResolvedStaysUnderRoot(links: Links, root: string, path: string, follow: bool)
    requires root != ""
    ensures exists names :: IsClean(names) && Resolved(links, root, path, follow) == Joined(root, names)
    ensures Under(root, Resolved(links, root, path, follow))
  {
    WalkIsClean(links, root, follow, Names(path), [], 0);
    JoinedUnder(root, Walk(links, root, follow, Names(path), [], 0).names);
  }

  /** Resolving the guest's name for a resolved path gives that path again, within the budget. */
  lemma ResolveRoundTrip(links: Links, root: string, path: string, follow: bool)
    requires root != "" && FewLinks(links, root, path, follow)
    ensures var host := Resolved(links, root, path, follow);
      Resolved(links, root, GuestPathForHostPath(root, host), follow) == host
  {
    var end := Walk(links, root, follow, Names(path), [], 0);
    WalkAgain(links, root, follow, path);
    GuestNames(root, end.names);
  }

  /** The guest's name for a joined path names the same things. */
  lemma GuestNames(root: string, names: seq<string>)
    requires root != "" && AllNames(names)
    ensures Names(GuestPathForHostPath(root, Joined(root, names))) == names
  {
    JoinedUnder(root, names);
    assert Joined(root, names)[..|root|] == root && Joined(root, names)[|root|..] == Joined("", names);
    if names == [] {
      assert "/"[1..] == "";
    } else {
      NamesOfJoined(names, "");
      assert Joined("", names) + "" == Joined("", names);
    }
  }

  /** There is an answer exactly if the host path begins with the root, and it is an absolute path.
      The test is on characters, not on names: the answer leads back to the host path exactly when
      that lies under the root. */
  lemma GuestPathLeadsBack(root: string, host: string)
    ensures var guest := GuestPathForHostPath(root, host);
      && (guest != "" <==> root != "" && root <= host)
      && (guest != "" ==> guest[0] == '/' && (Under(root, host) <==> root + (if guest == "/" && host == root then "" else guest) == host))
  {
    if root != "" && root <= host {
      assert host == root + host[|root|..];
      var rest := host[|root|..];
      if rest != "" && rest[0] != '/' {
        assert (root + ("/" + rest))[|root|] == '/';
      }
    }
  }

  /** A sibling whose name merely starts like the root gets a guest path of its own. */
  lemma SiblingIsTakenForChild()
    ensures GuestPathForHostPath("/data/root", "/data/rootfs") == "/fs" && !Under("/data/root", "/data/rootfs")
  {
    assert "/data/rootfs" == "/data/root" + "fs";
  }

  /** A link to itself is what its resolution ends at. */
  lemma {:induction false} SelfLinkExhausts(links: Links, hops: nat)
    requires hops <= MAX_HOPS && links("/r/l") == Some("l")
    ensures Walk(links, "/r", true, ["l"], [], hops) == Outcome(["l"], MAX_HOPS + 1, true)
    decreases MAX_HOPS - hops
  {
    SelfLinkOnce(links, hops);
    if hops < MAX_HOPS { SelfLinkExhausts(links, hops + 1); }
  }

  lemma SelfLinkOnce(links: Links, hops: nat)
    requires hops <= MAX_HOPS && links("/r/l") == Some("l")
    ensures Walk(links, "/r", true, ["l"], [], hops) ==
      if hops < MAX_HOPS then Walk(links, "/r", true, ["l"], [], hops + 1) else Outcome(["l"], hops + 1, true)
  {
    var next: seq<string> := [] + ["l"];
    assert next == ["l"] && next[..0] == [];
    assert Joined("/r", next) == Joined("/r", next[..0]) + "/" + "l" == "/r/l";
    FirstName("l", "");
    assert "l" + "" == "l" && Names("l") + ["l"][1..] == ["l"];
  }
}
