// The lifetime graph (src/helix/Analysis/Lifetimes/LifetimeGraph.cs): three
// dictionaries of lists appended in place, from a lifetime to its parents
// (precursors), its children (derived lifetimes) and the lifetimes it
// depends on, and two stack-driven searches over them.

module LifetimeGraphs {
  import opened Wrappers
  import DataFlow

  type Lifetime = DataFlow.Lifetime

  type Lists = map<Lifetime, seq<Lifetime>>

  /** The list stored for a lifetime, or none when it has no entry. */
  function Get(m: Lists, x: Lifetime): seq<Lifetime> {
    if x in m then m[x] else []
  }

  /** `list.Add(y)` on the entry of `x`, created empty when missing. */
  function Append(m: Lists, x: Lifetime, y: Lifetime): (r: Lists)
    ensures x in r && Get(r, x) == Get(m, x) + [y]
    ensures forall z :: z != x ==> Get(r, z) == Get(m, z) && (z in r <==> z in m)
  {
    m[x := Get(m, x) + [y]]
  }

  /** Every lifetime that is a key of `m` or in one of its lists. */
  predicate Within(m: Lists, all: set<Lifetime>) {
    forall x :: x in m ==> x in all && forall i :: 0 <= i < |m[x]| ==> m[x][i] in all
  }

  /** Every lifetime stored in one of the lists of `m`. */
  function Targets(m: Lists): set<Lifetime> {
    set x, i | x in m && 0 <= i < |m[x]| :: m[x][i]
  }

  lemma InTargets(m: Lists, x: Lifetime, y: Lifetime)
    requires y in Get(m, x)
    ensures y in Targets(m)
  {
    var i :| 0 <= i < |m[x]| && m[x][i] == y;
  }

  lemma SplitLast(s: seq<Lifetime>)
    requires |s| > 0
    ensures s == s[..|s| - 1] + [s[|s| - 1]]
  {
  }

  // ---------------------------------------------------------------------
  // Reachability along lists, where a blocked lifetime is not expanded.

  /** The lifetimes a search pushes after popping `x`: none when `x` is
      blocked, otherwise its list. */
  function Next(m: Lists, blocked: set<Lifetime>, x: Lifetime): seq<Lifetime> {
    if x in blocked then [] else Get(m, x)
  }

  predicate IsWalk(m: Lists, blocked: set<Lifetime>, p: seq<Lifetime>) {
    |p| >= 1 && forall i :: 0 <= i < |p| - 1 ==> p[i + 1] in Next(m, blocked, p[i])
  }

  ghost predicate Reaches(m: Lists, blocked: set<Lifetime>, a: Lifetime, b: Lifetime) {
    exists p :: IsWalk(m, blocked, p) && p[0] == a && p[|p| - 1] == b
  }

  lemma ReachSelf(m: Lists, blocked: set<Lifetime>, a: Lifetime)
    ensures Reaches(m, blocked, a, a)
  {
    assert IsWalk(m, blocked, [a]);
  }

  lemma ReachExtend(m: Lists, blocked: set<Lifetime>, a: Lifetime, v: Lifetime, x: Lifetime)
    requires Reaches(m, blocked, a, v) && x in Next(m, blocked, v)
    ensures Reaches(m, blocked, a, x)
  {
    var p :| IsWalk(m, blocked, p) && p[0] == a && p[|p| - 1] == v;
    var q := p + [x];
    assert forall i :: 0 <= i < |p| ==> q[i] == p[i];
    assert IsWalk(m, blocked, q);
  }

  /** A walk that starts in a set closed under Next stays in it. */
  lemma {:induction false} WalkInside(m: Lists, blocked: set<Lifetime>, p: seq<Lifetime>, visited: set<Lifetime>)
    requires IsWalk(m, blocked, p) && p[0] in visited
    requires forall v, y :: v in visited && y in Next(m, blocked, v) ==> y in visited
    ensures p[|p| - 1] in visited
    decreases |p|
  {
    if |p| > 1 {
      var n := |p| - 1;
      assert IsWalk(m, blocked, p[..n]);
      WalkInside(m, blocked, p[..n], visited);
      assert p[n] in Next(m, blocked, p[n - 1]);
    }
  }

  /** Everything reachable is the start or in some list. */
  lemma ReachBound(m: Lists, blocked: set<Lifetime>, a: Lifetime, b: Lifetime)
    requires Reaches(m, blocked, a, b)
    ensures b == a || b in Targets(m)
  {
    var p :| IsWalk(m, blocked, p) && p[0] == a && p[|p| - 1] == b;
    if |p| > 1 {
      InTargets(m, p[|p| - 2], b);
    }
  }

  /** Nothing but itself is reachable from a blocked lifetime. */
  lemma BlockedReachesOnlyItself(m: Lists, blocked: set<Lifetime>, a: Lifetime, b: Lifetime)
    requires a in blocked && Reaches(m, blocked, a, b)
    ensures b == a
  {
    var p :| IsWalk(m, blocked, p) && p[0] == a && p[|p| - 1] == b;
    assert Next(m, blocked, a) == [];
    WalkInside(m, blocked, p, {a});
  }

  /** The search state: what was visited or is still on the stack is
      reachable from the start, and what was visited leads only to visited
      or stacked lifetimes. */
  ghost predicate Searched(m: Lists, blocked: set<Lifetime>, time: Lifetime, visited: set<Lifetime>, stack: seq<Lifetime>) {
    (forall x :: x in visited ==> Reaches(m, blocked, time, x)) &&
    (forall x :: x in stack ==> Reaches(m, blocked, time, x)) &&
    (forall v, y :: v in visited && y in Next(m, blocked, v) ==> y in visited || y in stack) &&
    (time in visited || time in stack)
  }

  lemma SearchStart(m: Lists, blocked: set<Lifetime>, time: Lifetime)
    ensures Searched(m, blocked, time, {}, [time])
  {
    ReachSelf(m, blocked, time);
  }

  /** Popping a lifetime already visited. */
  lemma SearchSkip(m: Lists, blocked: set<Lifetime>, time: Lifetime, visited: set<Lifetime>, rest: seq<Lifetime>, item: Lifetime)
    requires Searched(m, blocked, time, visited, rest + [item]) && item in visited
    ensures Searched(m, blocked, time, visited, rest)
  {
    assert forall x :: x in rest ==> x in rest + [item];
    assert forall x :: x in rest + [item] ==> x in rest || x == item;
  }

  /** Popping a new lifetime, visiting it and pushing what follows it. */
  lemma SearchVisit(m: Lists, blocked: set<Lifetime>, time: Lifetime, visited: set<Lifetime>, rest: seq<Lifetime>, item: Lifetime)
    requires Searched(m, blocked, time, visited, rest + [item])
    ensures Searched(m, blocked, time, visited + {item}, rest + Next(m, blocked, item))
  {
    var pushed := rest + Next(m, blocked, item);
    assert item in rest + [item];
    assert forall x :: x in rest ==> x in rest + [item];
    assert forall x :: x in rest + [item] ==> x in rest || x == item;
    forall x | x in pushed
      ensures Reaches(m, blocked, time, x)
    {
      if x !in rest {
        ReachExtend(m, blocked, time, item, x);
      }
    }
    assert forall x :: x in rest ==> x in pushed;
  }

  /** At the end of a search, what was visited is exactly what is
      reachable. */
  lemma SearchDone(m: Lists, blocked: set<Lifetime>, time: Lifetime, visited: set<Lifetime>)
    requires Searched(m, blocked, time, visited, [])
    ensures forall x :: x in visited <==> Reaches(m, blocked, time, x)
  {
    forall x | Reaches(m, blocked, time, x)
      ensures x in visited
    {
      var p :| IsWalk(m, blocked, p) && p[0] == time && p[|p| - 1] == x;
      WalkInside(m, blocked, p, visited);
    }
  }

  /** Everything a search touches is the start or in some list. */
  function Universe(m: Lists, time: Lifetime): set<Lifetime> {
    {time} + Targets(m)
  }

  /** The invariant of both search loops. */
  ghost predicate Frontier(m: Lists, blocked: set<Lifetime>, time: Lifetime, visited: set<Lifetime>, stack: seq<Lifetime>) {
    visited <= Universe(m, time) && (forall x :: x in stack ==> x in Universe(m, time)) &&
    Searched(m, blocked, time, visited, stack)
  }

  lemma FrontierStart(m: Lists, blocked: set<Lifetime>, time: Lifetime)
    ensures Frontier(m, blocked, time, {}, [time])
  {
    SearchStart(m, blocked, time);
  }

  lemma FrontierSkip(m: Lists, blocked: set<Lifetime>, time: Lifetime, visited: set<Lifetime>, rest: seq<Lifetime>, item: Lifetime)
    requires Frontier(m, blocked, time, visited, rest + [item]) && item in visited
    ensures Frontier(m, blocked, time, visited, rest)
  {
    SearchSkip(m, blocked, time, visited, rest, item);
    assert forall x :: x in rest ==> x in rest + [item];
  }

  lemma FrontierVisit(m: Lists, blocked: set<Lifetime>, time: Lifetime, visited: set<Lifetime>, rest: seq<Lifetime>, item: Lifetime)
    requires Frontier(m, blocked, time, visited, rest + [item]) && item !in visited
    ensures Frontier(m, blocked, time, visited + {item}, rest + Next(m, blocked, item))
    ensures |Universe(m, time) - (visited + {item})| < |Universe(m, time) - visited|
  {
    SearchVisit(m, blocked, time, visited, rest, item);
    PushedInside(m, blocked, time, Universe(m, time), rest, item);
    assert item in rest + [item];
    assert Universe(m, time) - (visited + {item}) < Universe(m, time) - visited;
  }

  /** What a search pushes stays among the start and the listed lifetimes. */
  lemma PushedInside(m: Lists, blocked: set<Lifetime>, time: Lifetime, universe: set<Lifetime>, rest: seq<Lifetime>, item: Lifetime)
    requires universe == {time} + Targets(m)
    requires forall x :: x in rest + [item] ==> x in universe
    ensures forall x :: x in rest + Next(m, blocked, item) ==> x in universe
  {
    assert forall x :: x in rest ==> x in rest + [item];
    forall x | x in Next(m, blocked, item)
      ensures x in Targets(m)
    {
      InTargets(m, item, x);
    }
  }

  // ---------------------------------------------------------------------
  // What the two searches compute.

  /** The lifetimes the precursor search does not expand: the roots, and
      every lifetime that is its own parent, as AddRoot makes it. */
  function Blocked(parents: Lists, roots: set<Lifetime>): set<Lifetime> {
    roots + (set x | x in parents && x in parents[x])
  }

  /** A lifetime where the precursor search stops: a root, one with no
      entry in the parent dictionary, or one that is its own parent. */
  predicate Stops(parents: Lists, roots: set<Lifetime>, x: Lifetime) {
    x in roots || x !in parents || x in parents[x]
  }

  /** The lifetimes the precursor search returns: those reachable through
      parents without passing a lifetime where it stops, and where it
      stops. */
  ghost function Precursors(parents: Lists, roots: set<Lifetime>, time: Lifetime): set<Lifetime> {
    set x | x in {time} + Targets(parents) && Reaches(parents, Blocked(parents, roots), time, x) && Stops(parents, roots, x)
  }

  lemma PrecursorsMembership(parents: Lists, roots: set<Lifetime>, time: Lifetime)
    ensures forall x :: x in Precursors(parents, roots, time) <==> Reaches(parents, Blocked(parents, roots), time, x) && Stops(parents, roots, x)
  {
    forall x | Reaches(parents, Blocked(parents, roots), time, x)
      ensures x in {time} + Targets(parents)
    {
      ReachBound(parents, Blocked(parents, roots), time, x);
    }
  }

  /** The precursors of a root are the root alone. */
  lemma PrecursorsOfRoot(parents: Lists, roots: set<Lifetime>, time: Lifetime)
    requires time in roots
    ensures Precursors(parents, roots, time) == {time}
  {
    PrecursorsMembership(parents, roots, time);
    ReachSelf(parents, Blocked(parents, roots), time);
    forall x | x in Precursors(parents, roots, time)
      ensures x == time
    {
      BlockedReachesOnlyItself(parents, Blocked(parents, roots), time, x);
    }
  }

  /** The invariant of the precursor search: a frontier, with `found` the
      visited lifetimes where the search stops. */
  ghost predicate PrecursorState(parents: Lists, roots: set<Lifetime>, time: Lifetime,
                                 visited: set<Lifetime>, found: set<Lifetime>, stack: seq<Lifetime>) {
    Frontier(parents, Blocked(parents, roots), time, visited, stack) &&
    (forall x :: x in found <==> x in visited && Stops(parents, roots, x))
  }

  /** One pass of the precursor search keeps its invariant, whichever
      branch it takes; a new lifetime shrinks what is left to visit. */
  lemma PrecursorStep(parents: Lists, roots: set<Lifetime>, time: Lifetime,
                      visited: set<Lifetime>, found: set<Lifetime>, stack: seq<Lifetime>)
    requires |stack| > 0 && PrecursorState(parents, roots, time, visited, found, stack)
    ensures var item := stack[|stack| - 1];
      var rest := stack[..|stack| - 1];
      && (item in visited ==> PrecursorState(parents, roots, time, visited, found, rest))
      && (item !in visited && Stops(parents, roots, item) ==>
            PrecursorState(parents, roots, time, visited + {item}, found + {item}, rest))
      && (item !in visited && !Stops(parents, roots, item) ==>
            PrecursorState(parents, roots, time, visited + {item}, found, rest + parents[item]))
      && (item !in visited ==> |Universe(parents, time) - (visited + {item})| < |Universe(parents, time) - visited|)
  {
    var item := stack[|stack| - 1];
    var rest := stack[..|stack| - 1];
    var blocked := Blocked(parents, roots);
    SplitLast(stack);
    if item in visited {
      FrontierSkip(parents, blocked, time, visited, rest, item);
    } else {
      FrontierVisit(parents, blocked, time, visited, rest, item);
      if Stops(parents, roots, item) {
        assert rest + Next(parents, blocked, item) == rest;
      } else {
        assert parents[item] == Next(parents, blocked, item);
      }
    }
  }

  /** At the end of the precursor search, `found` is the precursor set. */
  lemma PrecursorDone(parents: Lists, roots: set<Lifetime>, time: Lifetime, visited: set<Lifetime>, found: set<Lifetime>)
    requires PrecursorState(parents, roots, time, visited, found, [])
    ensures found == Precursors(parents, roots, time)
    ensures time in roots ==> found == {time}
  {
    SearchDone(parents, Blocked(parents, roots), time, visited);
    PrecursorsMembership(parents, roots, time);
    if time in roots {
      PrecursorsOfRoot(parents, roots, time);
    }
  }

  /** What GetDerivedLifetimes adds for one dependency `dep`: `dep` itself
      when it is a root; otherwise its precursors when all of them are
      roots, or else `dep`. */
  ghost function Contribution(parents: Lists, roots: set<Lifetime>, dep: Lifetime): set<Lifetime> {
    if dep in roots then {dep}
    else
      var found := Precursors(parents, roots, dep);
      if found <= roots then found else {dep}
  }

  /** The union of `f` over a list, accumulated left to right. */
  ghost function UnionOver(f: Lifetime -> set<Lifetime>, deps: seq<Lifetime>): set<Lifetime>
    decreases |deps|
  {
    if deps == [] then {}
    else UnionOver(f, deps[..|deps| - 1]) + f(deps[|deps| - 1])
  }

  lemma {:induction false} UnionOverMembership(f: Lifetime -> set<Lifetime>, deps: seq<Lifetime>, x: Lifetime)
    ensures x in UnionOver(f, deps) <==> exists i :: 0 <= i < |deps| && x in f(deps[i])
    decreases |deps|
  {
    if deps != [] {
      var n := |deps| - 1;
      UnionOverMembership(f, deps[..n], x);
      if x in UnionOver(f, deps[..n]) {
        var i :| 0 <= i < n && x in f(deps[..n][i]);
        assert deps[i] == deps[..n][i];
      }
      if exists i :: 0 <= i < |deps| && x in f(deps[i]) {
        var i :| 0 <= i < |deps| && x in f(deps[i]);
        if i < n {
          assert deps[..n][i] == deps[i];
        }
      }
    }
  }

  /** The contributions of a list of dependencies. */
  ghost function Contributions(parents: Lists, roots: set<Lifetime>, deps: seq<Lifetime>): set<Lifetime> {
    UnionOver(dep => Contribution(parents, roots, dep), deps)
  }

  lemma ContributionsMembership(parents: Lists, roots: set<Lifetime>, deps: seq<Lifetime>, x: Lifetime)
    ensures x in Contributions(parents, roots, deps) <==>
      exists i :: 0 <= i < |deps| && x in Contribution(parents, roots, deps[i])
  {
    UnionOverMembership(dep => Contribution(parents, roots, dep), deps, x);
  }

  /** A derived lifetime is a dependency or one of a dependency's
      precursors. */
  lemma ContributionBound(parents: Lists, roots: set<Lifetime>, dep: Lifetime, x: Lifetime)
    requires x in Contribution(parents, roots, dep)
    ensures x == dep || x in Precursors(parents, roots, dep)
    ensures x in roots || x == dep
  {
  }

  // ---------------------------------------------------------------------
  // GetPrecursorLifetimes as written.

  /** The precursor loop as written, run for at most `fuel` iterations:
      `None` when the stack is not empty by then. A lifetime that is
      expanded is never marked visited. */
  function PrecursorLoopAsWritten(parents: Lists, roots: set<Lifetime>, stack: seq<Lifetime>,
                                  visited: set<Lifetime>, found: set<Lifetime>, fuel: nat): Option<set<Lifetime>>
    decreases fuel
  {
    if stack == [] then Some(found)
    else if fuel == 0 then None
    else
      var item := stack[|stack| - 1];
      var rest := stack[..|stack| - 1];
      if item in visited then PrecursorLoopAsWritten(parents, roots, rest, visited, found, fuel - 1)
      else if item in roots || item !in parents then
        PrecursorLoopAsWritten(parents, roots, rest, visited + {item}, found + {item}, fuel - 1)
      else PrecursorLoopAsWritten(parents, roots, rest + parents[item], visited, found, fuel - 1)
  }

  /** After AddRoot(r) and nothing else, r is its own parent; asked for the
      precursors of r with no roots, the loop as written pops r, pushes r
      again and never empties its stack, however long it runs. */
  lemma {:induction false} PrecursorLoopNeverEnds(r: Lifetime, fuel: nat)
    ensures PrecursorLoopAsWritten(map[r := [r]], {}, [r], {}, {}, fuel) == None
    decreases fuel
  {
    if fuel > 0 {
      assert [r][..0] + map[r := [r]][r] == [r];
      PrecursorLoopNeverEnds(r, fuel - 1);
    }
  }

  /** The same query, with the search stopping at a lifetime that is its
      own parent, finds r; so a dependency on r is kept by
      GetDerivedLifetimes. */
  lemma PrecursorsOfSelfParent(r: Lifetime)
    ensures Precursors(map[r := [r]], {}, r) == {r}
    ensures Contribution(map[r := [r]], {}, r) == {r}
  {
    var m := map[r := [r]];
    assert Blocked(m, {}) == {r};
    PrecursorsOfRoot(m, {r}, r);
    PrecursorsMembership(m, {}, r);
    PrecursorsMembership(m, {r}, r);
    assert Blocked(m, {r}) == {r};
    assert Stops(m, {}, r);
  }

  // ---------------------------------------------------------------------

  class LifetimeGraph {
    var allLifetimes: set<Lifetime>
    var parentLifetimes: Lists
    var childLifetimes: Lists
    var dependentLifetimes: Lists

    /** AllLifetimes holds both ends of every edge, and a lifetime lists a
        parent exactly when the parent lists it as a child. */
    ghost predicate Valid()
      reads this
    {
      Within(parentLifetimes, allLifetimes) && Within(childLifetimes, allLifetimes) &&
      Within(dependentLifetimes, allLifetimes) &&
      forall c, p :: p in Get(parentLifetimes, c) <==> c in Get(childLifetimes, p)
    }

    constructor ()
      ensures Valid()
      ensures allLifetimes == {} && parentLifetimes == map[] && childLifetimes == map[] && dependentLifetimes == map[]
    {
      allLifetimes := {};
      parentLifetimes := map[];
      childLifetimes := map[];
      dependentLifetimes := map[];
    }

    method AddPrecursor(childLifetime: Lifetime, parentLifetime: Lifetime)
      modifies this
      ensures allLifetimes == old(allLifetimes) + {childLifetime, parentLifetime}
      ensures parentLifetimes == Append(old(parentLifetimes), childLifetime, parentLifetime)
      ensures childLifetimes == old(childLifetimes) && dependentLifetimes == old(dependentLifetimes)
    {
      allLifetimes := allLifetimes + {childLifetime, parentLifetime};
      parentLifetimes := Append(parentLifetimes, childLifetime, parentLifetime);
    }

    method AddDerived(parentLifetime: Lifetime, childLifetime: Lifetime)
      modifies this
      ensures allLifetimes == old(allLifetimes) + {childLifetime, parentLifetime}
      ensures childLifetimes == Append(old(childLifetimes), parentLifetime, childLifetime)
      ensures parentLifetimes == old(parentLifetimes) && dependentLifetimes == old(dependentLifetimes)
    {
      allLifetimes := allLifetimes + {childLifetime, parentLifetime};
      childLifetimes := Append(childLifetimes, parentLifetime, childLifetime);
    }

    /** A root is its own parent and its own child. */
    method AddRoot(root: Lifetime)
      requires Valid()
      modifies this
      ensures Valid()
      ensures allLifetimes == old(allLifetimes) + {root}
      ensures parentLifetimes == Append(old(parentLifetimes), root, root)
      ensures childLifetimes == Append(old(childLifetimes), root, root)
      ensures dependentLifetimes == old(dependentLifetimes)
      ensures root in Get(parentLifetimes, root) && root in Get(childLifetimes, root)
    {
      AddDerived(root, root);
      AddPrecursor(root, root);
      WithinAppend(old(parentLifetimes), root, root, old(allLifetimes), allLifetimes);
      WithinAppend(old(childLifetimes), root, root, old(allLifetimes), allLifetimes);
      WithinGrow(old(dependentLifetimes), old(allLifetimes), allLifetimes);
      MirrorAppend(old(parentLifetimes), old(childLifetimes), root, root);
    }

    /** `precursor` becomes a parent of `derived`, and `derived` a child of
        `precursor`. */
    method AddAlias(derived: Lifetime, precursor: Lifetime)
      requires Valid()
      modifies this
      ensures Valid()
      ensures allLifetimes == old(allLifetimes) + {derived, precursor}
      ensures parentLifetimes == Append(old(parentLifetimes), derived, precursor)
      ensures childLifetimes == Append(old(childLifetimes), precursor, derived)
      ensures dependentLifetimes == old(dependentLifetimes)
    {
      AddPrecursor(derived, precursor);
      AddDerived(precursor, derived);
      WithinAppend(old(parentLifetimes), derived, precursor, old(allLifetimes), allLifetimes);
      WithinAppend(old(childLifetimes), precursor, derived, old(allLifetimes), allLifetimes);
      WithinGrow(old(dependentLifetimes), old(allLifetimes), allLifetimes);
      MirrorAppend(old(parentLifetimes), old(childLifetimes), derived, precursor);
    }

    method AddDependency(dependent: Lifetime, target: Lifetime)
      requires Valid()
      modifies this
      ensures Valid()
      ensures allLifetimes == old(allLifetimes) + {dependent, target}
      ensures dependentLifetimes == Append(old(dependentLifetimes), dependent, target)
      ensures parentLifetimes == old(parentLifetimes) && childLifetimes == old(childLifetimes)
    {
      allLifetimes := allLifetimes + {dependent, target};
      dependentLifetimes := Append(dependentLifetimes, dependent, target);
      WithinAppend(old(dependentLifetimes), dependent, target, old(allLifetimes), allLifetimes);
      WithinGrow(parentLifetimes, old(allLifetimes), allLifetimes);
      WithinGrow(childLifetimes, old(allLifetimes), allLifetimes);
    }

    /** GetPrecursorLifetimes, with every popped lifetime marked visited:
        the lifetimes reachable through parents without passing a root,
        where the search stops. */
    method GetPrecursorLifetimes(time: Lifetime, roots: set<Lifetime>) returns (found: set<Lifetime>)
      ensures found == Precursors(parentLifetimes, roots, time)
      ensures forall x :: x in found ==> x in roots || x !in parentLifetimes || x in parentLifetimes[x]
      ensures time in roots ==> found == {time}
    {
      var visited: set<Lifetime> := {};
      var stack := [time];
      found := {};
      FrontierStart(parentLifetimes, Blocked(parentLifetimes, roots), time);
      while |stack| > 0
        invariant PrecursorState(parentLifetimes, roots, time, visited, found, stack)
        decreases |Universe(parentLifetimes, time) - visited|, |stack|
      {
        var item := stack[|stack| - 1];
        var rest := stack[..|stack| - 1];
        PrecursorStep(parentLifetimes, roots, time, visited, found, stack);
        if item in visited {
          stack := rest;
          continue;
        }
        visited := visited + {item};
        if item in roots || item !in parentLifetimes || item in parentLifetimes[item] {
          found := found + {item};
          stack := rest;
        } else {
          stack := rest + parentLifetimes[item];
        }
      }
      PrecursorDone(parentLifetimes, roots, time, visited, found);
    }

    /** The lifetimes a lifetime derives from: for each dependency of each
        lifetime derived from `time`, the dependency or its precursors. */
    method GetDerivedLifetimes(time: Lifetime, roots: set<Lifetime>) returns (children: set<Lifetime>)
      ensures forall x :: x in children <==>
        exists item :: Reaches(childLifetimes, {}, time, item) &&
          x in Contributions(parentLifetimes, roots, Get(dependentLifetimes, item))
      ensures (forall item :: Reaches(childLifetimes, {}, time, item) ==> Get(dependentLifetimes, item) == []) ==> children == {}
    {
      var visited: set<Lifetime> := {};
      var stack := [time];
      children := {};
      FrontierStart(childLifetimes, {}, time);
      while |stack| > 0
        invariant Frontier(childLifetimes, {}, time, visited, stack)
        invariant forall x :: x in children <==>
          exists item :: item in visited && x in Contributions(parentLifetimes, roots, Get(dependentLifetimes, item))
        decreases |Universe(childLifetimes, time) - visited|, |stack|
      {
        var item := stack[|stack| - 1];
        SplitLast(stack);
        var rest := stack[..|stack| - 1];
        if item in visited {
          FrontierSkip(childLifetimes, {}, time, visited, rest, item);
          stack := rest;
          continue;
        }
        FrontierVisit(childLifetimes, {}, time, visited, rest, item);
        var added := DependencyContributions(Get(dependentLifetimes, item), roots);
        children := children + added;
        visited := visited + {item};
        assert Get(childLifetimes, item) == Next(childLifetimes, {}, item);
        stack := rest + Get(childLifetimes, item);
      }
      SearchDone(childLifetimes, {}, time, visited);
    }

    /** The inner loop of GetDerivedLifetimes over one dependency list. */
    method DependencyContributions(deps: seq<Lifetime>, roots: set<Lifetime>) returns (added: set<Lifetime>)
      ensures added == Contributions(parentLifetimes, roots, deps)
    {
      added := {};
      for i := 0 to |deps|
        invariant added == Contributions(parentLifetimes, roots, deps[..i])
      {
        assert deps[..i + 1][..i] == deps[..i];
        var dep := deps[i];
        if dep in roots {
          added := added + {dep};
        } else {
          var parents := GetPrecursorLifetimes(dep, roots);
          if parents <= roots {
            added := added + parents;
          } else {
            added := added + {dep};
          }
        }
      }
      assert deps[..|deps|] == deps;
    }
  }

  lemma WithinGrow(m: Lists, all: set<Lifetime>, all': set<Lifetime>)
    requires Within(m, all) && all <= all'
    ensures Within(m, all')
  {
  }

  lemma WithinAppend(m: Lists, x: Lifetime, y: Lifetime, all: set<Lifetime>, all': set<Lifetime>)
    requires Within(m, all) && all + {x, y} <= all'
    ensures Within(Append(m, x, y), all')
  {
    var r := Append(m, x, y);
    forall z | z in r
      ensures z in all' && forall i :: 0 <= i < |r[z]| ==> r[z][i] in all'
    {
      assert r[z] == Get(r, z);
      if z != x {
        assert r[z] == m[z];
      }
    }
  }

  /** Appending `p` to the parents of `c` and `c` to the children of `p`
      keeps the two dictionaries mirror images. */
  lemma MirrorAppend(parents: Lists, children: Lists, c: Lifetime, p: Lifetime)
    requires forall c', p' :: p' in Get(parents, c') <==> c' in Get(children, p')
    ensures forall c', p' :: p' in Get(Append(parents, c, p), c') <==> c' in Get(Append(children, p, c), p')
  {
  }
}
