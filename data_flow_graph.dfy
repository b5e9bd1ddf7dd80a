// The data-flow graph of lifetimes (src/helix/Analysis/Flow/DataFlowGraph.cs).
// Edges say that one lifetime outlives another (dependence), that two
// lifetimes are the same (equality, added in both directions), or that a
// lifetime belongs to a member of another. A reverse graph holds every
// edge the other way round. Queries are depth-first traversals that follow
// edges of chosen kinds.

module DataFlow {
  /** A lifetime, or Lifetime.None. The lifetime type itself is not part of
      this model: a lifetime is its variable path and a number that tells
      apart the lifetimes of one path. */
  datatype Lifetime = NoLifetime | Lifetime(path: seq<string>, id: nat)

  datatype Relationship = Dependence | Equality | Member

  datatype Edge = Edge(target: Lifetime, kind: Relationship)

  type Graph = map<Lifetime, set<Edge>>

  /** What the default dictionary yields for a lifetime: its edges, or none. */
  function Edges(g: Graph, l: Lifetime): set<Edge> {
    if l in g then g[l] else {}
  }

  /** `graph[from].Add(e)` on a default dictionary. */
  function AddEdge(g: Graph, from: Lifetime, e: Edge): (r: Graph)
    ensures Edges(r, from) == Edges(g, from) + {e}
    ensures forall l :: l != from ==> Edges(r, l) == Edges(g, l)
  {
    g[from := Edges(g, from) + {e}]
  }

  /** The edge kinds GetOutlivedLifetimes and GetPrecursorLifetimes follow. */
  const OutlivesKinds: set<Relationship> := {Equality, Dependence}

  /** The edge kinds GetEquivalentLifetimes follows. */
  const EqualityKinds: set<Relationship> := {Equality}

  /** Whether one of `edges` of a followed kind leads to `b`. */
  predicate FollowsVia(edges: set<Edge>, follow: set<Relationship>, b: Lifetime) {
    (Dependence in follow && Edge(b, Dependence) in edges) ||
    (Equality in follow && Edge(b, Equality) in edges) ||
    (Member in follow && Edge(b, Member) in edges)
  }

  predicate Follows(g: Graph, follow: set<Relationship>, a: Lifetime, b: Lifetime) {
    FollowsVia(Edges(g, a), follow, b)
  }

  /** A walk along followed edges that never passes through None. */
  predicate IsPath(g: Graph, follow: set<Relationship>, p: seq<Lifetime>) {
    |p| >= 1 &&
    (forall i :: 0 <= i < |p| ==> p[i] != NoLifetime) &&
    forall i :: 0 <= i < |p| - 1 ==> Follows(g, follow, p[i], p[i + 1])
  }

  ghost predicate Reachable(g: Graph, follow: set<Relationship>, a: Lifetime, b: Lifetime) {
    exists p :: IsPath(g, follow, p) && p[0] == a && p[|p| - 1] == b
  }

  /** Every lifetime that is the end of an edge. */
  function Targets(g: Graph): set<Lifetime> {
    set a, e | a in g && e in g[a] :: e.target
  }

  lemma SplitLast(s: seq<Lifetime>)
    requires |s| > 0
    ensures s == s[..|s| - 1] + [s[|s| - 1]]
  {
  }

  lemma FollowedIsTarget(g: Graph, follow: set<Relationship>, a: Lifetime, x: Lifetime)
    requires FollowsVia(Edges(g, a), follow, x)
    ensures x in Targets(g)
  {
    var k :| Edge(x, k) in Edges(g, a);
    assert a in g && Edge(x, k) in g[a];
  }

  lemma ReachSelf(g: Graph, follow: set<Relationship>, a: Lifetime)
    requires a != NoLifetime
    ensures Reachable(g, follow, a, a)
  {
    assert IsPath(g, follow, [a]);
  }

  lemma ReachExtend(g: Graph, follow: set<Relationship>, a: Lifetime, v: Lifetime, x: Lifetime)
    requires Reachable(g, follow, a, v) && Follows(g, follow, v, x) && x != NoLifetime
    ensures Reachable(g, follow, a, x)
  {
    var p :| IsPath(g, follow, p) && p[0] == a && p[|p| - 1] == v;
    var q := p + [x];
    assert forall i :: 0 <= i < |p| ==> q[i] == p[i];
    assert IsPath(g, follow, q);
  }

  /** Reachability is transitive: DoesOutlive chains through intermediate
      lifetimes. */
  lemma ReachTransitive(g: Graph, follow: set<Relationship>, a: Lifetime, b: Lifetime, c: Lifetime)
    requires Reachable(g, follow, a, b) && Reachable(g, follow, b, c)
    ensures Reachable(g, follow, a, c)
  {
    var p :| IsPath(g, follow, p) && p[0] == a && p[|p| - 1] == b;
    var q :| IsPath(g, follow, q) && q[0] == b && q[|q| - 1] == c;
    var r := p + q[1..];
    assert forall i :: 0 <= i < |p| ==> r[i] == p[i];
    assert forall i :: |p| <= i < |r| ==> r[i] == q[i - |p| + 1];
    assert IsPath(g, follow, r);
  }

  /** A walk that starts inside a set closed under followed edges stays
      inside it. */
  lemma {:induction false} PathInside(g: Graph, follow: set<Relationship>, p: seq<Lifetime>, visited: set<Lifetime>)
    requires IsPath(g, follow, p) && p[0] in visited
    requires forall v, e :: v in visited && e in Edges(g, v) && e.kind in follow && e.target != NoLifetime ==> e.target in visited
    ensures p[|p| - 1] in visited
    decreases |p|
  {
    if |p| > 1 {
      var n := |p| - 1;
      assert IsPath(g, follow, p[..n]);
      PathInside(g, follow, p[..n], visited);
      assert Follows(g, follow, p[n - 1], p[n]);
    }
  }

  /** Pushes the end of every followed edge, in the set's order. */
  method PushFollowed(stack: seq<Lifetime>, edges: set<Edge>, follow: set<Relationship>) returns (r: seq<Lifetime>)
    ensures |r| >= |stack| && r[..|stack|] == stack
    ensures forall i :: |stack| <= i < |r| ==> FollowsVia(edges, follow, r[i])
    ensures forall e :: e in edges && e.kind in follow ==> e.target in r
  {
    r := stack;
    var remaining := edges;
    while remaining != {}
      invariant remaining <= edges
      invariant |r| >= |stack| && r[..|stack|] == stack
      invariant forall i :: |stack| <= i < |r| ==> FollowsVia(edges, follow, r[i])
      invariant forall e :: e in edges - remaining && e.kind in follow ==> e.target in r
      decreases |remaining|
    {
      var edge :| edge in remaining;
      if edge.kind in follow {
        match edge.kind {
          case Dependence => assert Edge(edge.target, Dependence) == edge;
          case Equality => assert Edge(edge.target, Equality) == edge;
          case Member => assert Edge(edge.target, Member) == edge;
        }
        r := r + [edge.target];
      }
      remaining := remaining - {edge};
    }
  }

  /** What the traversal has found so far is reachable, and what is on the
      stack is the start or the end of an edge from a visited lifetime. */
  ghost predicate Sound(g: Graph, follow: set<Relationship>, time: Lifetime, visited: set<Lifetime>, stack: seq<Lifetime>) {
    (forall v :: v in visited ==> Reachable(g, follow, time, v)) &&
    forall x :: x in stack ==> x == time || exists v :: v in visited && Follows(g, follow, v, x)
  }

  /** Every followed edge from a visited lifetime leads to a visited
      lifetime, to one still on the stack, or to None. */
  predicate Closed(g: Graph, follow: set<Relationship>, visited: set<Lifetime>, stack: seq<Lifetime>) {
    forall v, e :: v in visited && e in Edges(g, v) && e.kind in follow ==>
      e.target in visited || e.target in stack || e.target == NoLifetime
  }

  /** Popping a lifetime already visited, or None. */
  lemma SkipPreserves(g: Graph, follow: set<Relationship>, time: Lifetime, visited: set<Lifetime>, stack: seq<Lifetime>, item: Lifetime)
    requires Sound(g, follow, time, visited, stack + [item]) && Closed(g, follow, visited, stack + [item])
    requires item in visited || item == NoLifetime
    ensures Sound(g, follow, time, visited, stack) && Closed(g, follow, visited, stack)
  {
    assert forall x :: x in stack ==> x in stack + [item];
    assert forall x :: x in stack + [item] ==> x in stack || x == item;
  }

  /** Popping a new lifetime, visiting it and pushing its followed edges. */
  lemma VisitPreserves(g: Graph, follow: set<Relationship>, time: Lifetime, visited: set<Lifetime>,
                       stack: seq<Lifetime>, item: Lifetime, pushed: seq<Lifetime>)
    requires Sound(g, follow, time, visited, stack + [item]) && Closed(g, follow, visited, stack + [item])
    requires item !in visited && item != NoLifetime
    requires |pushed| >= |stack| && pushed[..|stack|] == stack
    requires forall i :: |stack| <= i < |pushed| ==> FollowsVia(Edges(g, item), follow, pushed[i])
    requires forall e :: e in Edges(g, item) && e.kind in follow ==> e.target in pushed
    ensures Reachable(g, follow, time, item)
    ensures Sound(g, follow, time, visited + {item}, pushed) && Closed(g, follow, visited + {item}, pushed)
  {
    assert item in stack + [item];
    if item == time {
      ReachSelf(g, follow, time);
    } else {
      var v :| v in visited && Follows(g, follow, v, item);
      ReachExtend(g, follow, time, v, item);
    }
    assert forall x :: x in stack + [item] ==> x in stack || x == item;
    forall x | x in stack
      ensures x in pushed
    {
      var i :| 0 <= i < |stack| && stack[i] == x;
      assert pushed[i] == x;
    }
    forall x | x in pushed
      ensures x == time || exists v :: v in visited + {item} && Follows(g, follow, v, x)
    {
      var i :| 0 <= i < |pushed| && pushed[i] == x;
      if i >= |stack| {
        assert Follows(g, follow, item, x);
      } else {
        assert x in stack + [item];
      }
    }
  }

  /** The traversal's output so far: the visited lifetimes once each, in
      visiting order, `time` first. */
  ghost predicate Listed(time: Lifetime, visited: set<Lifetime>, result: seq<Lifetime>) {
    (forall x :: x in result <==> x in visited) &&
    (forall i, j :: 0 <= i < j < |result| ==> result[i] != result[j]) &&
    NoLifetime !in visited &&
    (visited != {} ==> |result| > 0 && result[0] == time)
  }

  /** Everything the traversal touches is the start, a source or a target
      of an edge. */
  predicate Bounded(universe: set<Lifetime>, visited: set<Lifetime>, stack: seq<Lifetime>) {
    visited <= universe && forall x :: x in stack ==> x in universe
  }

  lemma ListedVisit(time: Lifetime, visited: set<Lifetime>, result: seq<Lifetime>, item: Lifetime)
    requires Listed(time, visited, result)
    requires item !in visited && item != NoLifetime && (visited == {} ==> item == time)
    ensures Listed(time, visited + {item}, result + [item])
  {
    if |result| > 0 {
      assert result[0] in visited;
    }
  }

  lemma BoundedVisit(g: Graph, follow: set<Relationship>, universe: set<Lifetime>, visited: set<Lifetime>,
                     stack: seq<Lifetime>, item: Lifetime, pushed: seq<Lifetime>)
    requires Targets(g) <= universe
    requires Bounded(universe, visited, stack + [item])
    requires |pushed| >= |stack| && pushed[..|stack|] == stack
    requires forall i :: |stack| <= i < |pushed| ==> FollowsVia(Edges(g, item), follow, pushed[i])
    ensures Bounded(universe, visited + {item}, pushed)
  {
    assert item in stack + [item];
    forall x | x in pushed
      ensures x in universe
    {
      var i :| 0 <= i < |pushed| && pushed[i] == x;
      if i < |stack| {
        assert x == stack[i] && stack[i] in stack + [item];
      } else {
        FollowedIsTarget(g, follow, item, x);
      }
    }
  }

  lemma BoundedPop(universe: set<Lifetime>, visited: set<Lifetime>, stack: seq<Lifetime>, item: Lifetime)
    requires Bounded(universe, visited, stack + [item])
    ensures Bounded(universe, visited, stack) && item in universe
  {
    assert forall x :: x in stack ==> x in stack + [item];
    assert item in stack + [item];
  }

  /** One pass of the traversal loop: pop a lifetime; unless it was
      visited or is None, record it and push the ends of its followed
      edges. */
  method TraverseStep(g: Graph, follow: set<Relationship>, time: Lifetime, ghost universe: set<Lifetime>,
                      visited: set<Lifetime>, stack: seq<Lifetime>, result: seq<Lifetime>)
    returns (visited': set<Lifetime>, stack': seq<Lifetime>, result': seq<Lifetime>)
    requires Targets(g) <= universe && |stack| > 0
    requires Listed(time, visited, result) && Bounded(universe, visited, stack)
    requires Sound(g, follow, time, visited, stack) && Closed(g, follow, visited, stack)
    requires visited == {} && time != NoLifetime ==> stack == [time]
    ensures visited' == {} && time != NoLifetime ==> stack' == [time]
    ensures Listed(time, visited', result') && Bounded(universe, visited', stack')
    ensures Sound(g, follow, time, visited', stack') && Closed(g, follow, visited', stack')
    ensures |universe - visited'| < |universe - visited| || (visited' == visited && |stack'| < |stack|)
  {
    var item := stack[|stack| - 1];
    SplitLast(stack);
    var popped := stack[..|stack| - 1];
    BoundedPop(universe, visited, popped, item);
    if item in visited || item == NoLifetime {
      SkipPreserves(g, follow, time, visited, popped, item);
      return visited, popped, result;
    }
    assert item in popped + [item];
    var pushed := PushFollowed(popped, Edges(g, item), follow);
    VisitPreserves(g, follow, time, visited, popped, item, pushed);
    ListedVisit(time, visited, result, item);
    BoundedVisit(g, follow, universe, visited, popped, item, pushed);
    assert universe - (visited + {item}) < universe - visited;
    visited', stack', result' := visited + {item}, pushed, result + [item];
  }

  /** TraverseGraph: every lifetime reachable from `time` along followed
      edges, each once, `time` first. */
  method TraverseGraph(time: Lifetime, g: Graph, follow: set<Relationship>) returns (result: seq<Lifetime>)
    ensures forall i, j :: 0 <= i < j < |result| ==> result[i] != result[j]
    ensures NoLifetime !in result
    ensures time != NoLifetime ==> |result| > 0 && result[0] == time
    ensures forall x :: x in result <==> Reachable(g, follow, time, x)
  {
    ghost var universe := {time} + Targets(g);
    var visited: set<Lifetime> := {};
    var stack := [time];
    result := [];
    while |stack| > 0
      invariant Listed(time, visited, result) && Bounded(universe, visited, stack)
      invariant Sound(g, follow, time, visited, stack) && Closed(g, follow, visited, stack)
      invariant visited == {} && time != NoLifetime ==> stack == [time]
      decreases |universe - visited|, |stack|
    {
      visited, stack, result := TraverseStep(g, follow, time, universe, visited, stack, result);
    }
    forall x | Reachable(g, follow, time, x)
      ensures x in visited
    {
      var p :| IsPath(g, follow, p) && p[0] == time && p[|p| - 1] == x;
      PathInside(g, follow, p, visited);
    }
  }

  /** The reverse graph holds exactly the edges of the graph, turned round. */
  ghost predicate Mirror(g: Graph, rg: Graph) {
    forall a, b, k :: Edge(b, k) in Edges(g, a) <==> Edge(a, k) in Edges(rg, b)
  }

  /** Equality edges come in pairs. */
  ghost predicate EqualitySymmetric(g: Graph) {
    forall a, b :: Edge(b, Equality) in Edges(g, a) <==> Edge(a, Equality) in Edges(g, b)
  }

  /** Adding an edge to the graph and its turned-round copy to the reverse
      graph keeps them mirrored. */
  lemma MirrorAdd(g: Graph, rg: Graph, a: Lifetime, b: Lifetime, k: Relationship)
    requires Mirror(g, rg)
    ensures Mirror(AddEdge(g, a, Edge(b, k)), AddEdge(rg, b, Edge(a, k)))
  {
    var g', rg' := AddEdge(g, a, Edge(b, k)), AddEdge(rg, b, Edge(a, k));
    forall x, y, j
      ensures Edge(y, j) in Edges(g', x) <==> Edge(x, j) in Edges(rg', y)
    {
      assert Edge(y, j) in Edges(g, x) <==> Edge(x, j) in Edges(rg, y);
    }
  }

  /** A dependence or member edge leaves the equality edges paired. */
  lemma SymmetricAddOther(g: Graph, a: Lifetime, e: Edge)
    requires EqualitySymmetric(g) && e.kind != Equality
    ensures EqualitySymmetric(AddEdge(g, a, e))
  {
    var g' := AddEdge(g, a, e);
    forall x, y
      ensures Edge(y, Equality) in Edges(g', x) <==> Edge(x, Equality) in Edges(g', y)
    {
      assert Edge(y, Equality) in Edges(g, x) <==> Edge(x, Equality) in Edges(g, y);
    }
  }

  /** An equality edge added each way keeps the equality edges paired. */
  lemma SymmetricAddPair(g: Graph, a: Lifetime, b: Lifetime)
    requires EqualitySymmetric(g)
    ensures EqualitySymmetric(AddEdge(AddEdge(g, a, Edge(b, Equality)), b, Edge(a, Equality)))
  {
    var g' := AddEdge(AddEdge(g, a, Edge(b, Equality)), b, Edge(a, Equality));
    forall x, y
      ensures Edge(y, Equality) in Edges(g', x) <==> Edge(x, Equality) in Edges(g', y)
    {
      assert Edge(y, Equality) in Edges(g, x) <==> Edge(x, Equality) in Edges(g, y);
    }
  }

  /** Edges added from two different lifetimes can be added in either order. */
  lemma AddEdgeCommutes(g: Graph, a: Lifetime, ea: Edge, b: Lifetime, eb: Edge)
    requires a != b
    ensures AddEdge(AddEdge(g, a, ea), b, eb) == AddEdge(AddEdge(g, b, eb), a, ea)
  {
  }

  function Reverse(p: seq<Lifetime>): (r: seq<Lifetime>)
    ensures |r| == |p| && forall i :: 0 <= i < |p| ==> r[i] == p[|p| - 1 - i]
  {
    if p == [] then [] else Reverse(p[1..]) + [p[0]]
  }

  /** A lifetime is a precursor of `b` (reachable in the reverse graph) iff
      it outlives `b` in the graph. */
  lemma PrecursorIffOutlives(g: Graph, rg: Graph, follow: set<Relationship>, a: Lifetime, b: Lifetime)
    requires Mirror(g, rg)
    ensures Reachable(rg, follow, b, a) <==> Reachable(g, follow, a, b)
  {
    if Reachable(g, follow, a, b) {
      var p :| IsPath(g, follow, p) && p[0] == a && p[|p| - 1] == b;
      ReversedPath(g, rg, follow, p);
    }
    if Reachable(rg, follow, b, a) {
      var p :| IsPath(rg, follow, p) && p[0] == b && p[|p| - 1] == a;
      ReversedPath(rg, g, follow, p);
    }
  }

  lemma ReversedPath(g: Graph, rg: Graph, follow: set<Relationship>, p: seq<Lifetime>)
    requires IsPath(g, follow, p)
    requires forall a, b, k :: Edge(b, k) in Edges(g, a) ==> Edge(a, k) in Edges(rg, b)
    ensures IsPath(rg, follow, Reverse(p))
  {
    var r := Reverse(p);
    var n := |p|;
    forall i | 0 <= i < n - 1
      ensures Follows(rg, follow, r[i], r[i + 1])
    {
      assert r[i] == p[n - 1 - i] && r[i + 1] == p[n - 2 - i];
      assert Follows(g, follow, p[n - 2 - i], p[n - 1 - i]);
    }
  }

  /** When equality edges come in pairs, equivalence is symmetric. */
  lemma EquivalenceSymmetric(g: Graph, a: Lifetime, b: Lifetime)
    requires EqualitySymmetric(g)
    ensures Reachable(g, EqualityKinds, a, b) <==> Reachable(g, EqualityKinds, b, a)
  {
    forall x, y, k | Edge(y, k) in Edges(g, x) && k in EqualityKinds
      ensures Edge(x, k) in Edges(g, y)
    {
    }
    if Reachable(g, EqualityKinds, a, b) {
      var p :| IsPath(g, EqualityKinds, p) && p[0] == a && p[|p| - 1] == b;
      EqualityPathReversed(g, p);
    }
    if Reachable(g, EqualityKinds, b, a) {
      var p :| IsPath(g, EqualityKinds, p) && p[0] == b && p[|p| - 1] == a;
      EqualityPathReversed(g, p);
    }
  }

  lemma EqualityPathReversed(g: Graph, p: seq<Lifetime>)
    requires EqualitySymmetric(g) && IsPath(g, EqualityKinds, p)
    ensures IsPath(g, EqualityKinds, Reverse(p))
  {
    var r := Reverse(p);
    var n := |p|;
    forall i | 0 <= i < n - 1
      ensures Follows(g, EqualityKinds, r[i], r[i + 1])
    {
      assert r[i] == p[n - 1 - i] && r[i + 1] == p[n - 2 - i];
      assert Follows(g, EqualityKinds, p[n - 2 - i], p[n - 1 - i]);
      assert Edge(p[n - 1 - i], Equality) in Edges(g, p[n - 2 - i]);
    }
  }

  /** A lifetime that belongs to member `name`: the last segment of its
      path. */
  predicate IsMemberNamed(l: Lifetime, name: string) {
    l.Lifetime? && |l.path| > 0 && l.path[|l.path| - 1] == name
  }

  /** The member edges of one lifetime that lead to member `name`. */
  method MemberTargets(edges: set<Edge>, name: string) returns (r: seq<Lifetime>)
    ensures forall y :: y in r <==> Edge(y, Member) in edges && IsMemberNamed(y, name)
  {
    r := [];
    var remaining := edges;
    while remaining != {}
      invariant remaining <= edges
      invariant forall y :: y in r <==> Edge(y, Member) in edges - remaining && IsMemberNamed(y, name)
      decreases |remaining|
    {
      var edge :| edge in remaining;
      if edge.kind == Member && IsMemberNamed(edge.target, name) {
        r := r + [edge.target];
      }
      remaining := remaining - {edge};
    }
  }

  class DataFlowGraph {
    var outlives: Graph
    var reverse: Graph

    ghost predicate Valid()
      reads this
    {
      Mirror(outlives, reverse) && EqualitySymmetric(outlives)
    }

    constructor ()
      ensures Valid() && outlives == map[] && reverse == map[]
    {
      outlives := map[];
      reverse := map[];
    }

    /** Two lifetimes are the same: an equality edge each way, in both
        graphs. */
    method AddAssignment(lifetime1: Lifetime, lifetime2: Lifetime)
      requires Valid()
      modifies this
      ensures Valid()
      ensures lifetime1 == NoLifetime || lifetime2 == NoLifetime || lifetime1 == lifetime2 ==>
        outlives == old(outlives) && reverse == old(reverse)
      ensures lifetime1 != NoLifetime && lifetime2 != NoLifetime && lifetime1 != lifetime2 ==>
        outlives == AddEdge(AddEdge(old(outlives), lifetime1, Edge(lifetime2, Equality)), lifetime2, Edge(lifetime1, Equality)) &&
        reverse == AddEdge(AddEdge(old(reverse), lifetime1, Edge(lifetime2, Equality)), lifetime2, Edge(lifetime1, Equality))
    {
      if lifetime1 == NoLifetime || lifetime2 == NoLifetime || lifetime1 == lifetime2 {
        return;
      }
      MirrorAdd(outlives, reverse, lifetime1, lifetime2, Equality);
      MirrorAdd(AddEdge(outlives, lifetime1, Edge(lifetime2, Equality)), AddEdge(reverse, lifetime2, Edge(lifetime1, Equality)),
        lifetime2, lifetime1, Equality);
      AddEdgeCommutes(reverse, lifetime1, Edge(lifetime2, Equality), lifetime2, Edge(lifetime1, Equality));
      SymmetricAddPair(outlives, lifetime1, lifetime2);
      outlives := AddEdge(outlives, lifetime1, Edge(lifetime2, Equality));
      outlives := AddEdge(outlives, lifetime2, Edge(lifetime1, Equality));
      reverse := AddEdge(reverse, lifetime1, Edge(lifetime2, Equality));
      reverse := AddEdge(reverse, lifetime2, Edge(lifetime1, Equality));
    }

    /** `lifetime1` outlives `lifetime2`: a dependence edge. */
    method AddStored(lifetime1: Lifetime, lifetime2: Lifetime)
      requires Valid()
      modifies this
      ensures Valid()
      ensures lifetime1 == NoLifetime || lifetime2 == NoLifetime || lifetime1 == lifetime2 ==>
        outlives == old(outlives) && reverse == old(reverse)
      ensures lifetime1 != NoLifetime && lifetime2 != NoLifetime && lifetime1 != lifetime2 ==>
        outlives == AddEdge(old(outlives), lifetime1, Edge(lifetime2, Dependence)) &&
        reverse == AddEdge(old(reverse), lifetime2, Edge(lifetime1, Dependence))
      ensures lifetime1 != NoLifetime && lifetime2 != NoLifetime && lifetime1 != lifetime2 ==>
        Reachable(outlives, OutlivesKinds, lifetime1, lifetime2)
    {
      if lifetime1 == NoLifetime || lifetime2 == NoLifetime || lifetime1 == lifetime2 {
        return;
      }
      MirrorAdd(outlives, reverse, lifetime1, lifetime2, Dependence);
      SymmetricAddOther(outlives, lifetime1, Edge(lifetime2, Dependence));
      outlives := AddEdge(outlives, lifetime1, Edge(lifetime2, Dependence));
      reverse := AddEdge(reverse, lifetime2, Edge(lifetime1, Dependence));
      assert IsPath(outlives, OutlivesKinds, [lifetime1, lifetime2]) by {
        assert Edge(lifetime2, Dependence) in Edges(outlives, lifetime1);
      }
    }

    /** `member` is the lifetime of a member of `parent`. */
    method AddMember(parent: Lifetime, member: Lifetime)
      requires Valid()
      modifies this
      ensures Valid()
      ensures parent == NoLifetime || member == NoLifetime || parent == member ==>
        outlives == old(outlives) && reverse == old(reverse)
      ensures parent != NoLifetime && member != NoLifetime && parent != member ==>
        outlives == AddEdge(old(outlives), parent, Edge(member, Member)) &&
        reverse == AddEdge(old(reverse), member, Edge(parent, Member))
    {
      if parent == NoLifetime || member == NoLifetime || parent == member {
        return;
      }
      MirrorAdd(outlives, reverse, parent, member, Member);
      SymmetricAddOther(outlives, parent, Edge(member, Member));
      outlives := AddEdge(outlives, parent, Edge(member, Member));
      reverse := AddEdge(reverse, member, Edge(parent, Member));
    }

    method GetOutlivedLifetimes(time: Lifetime) returns (r: seq<Lifetime>)
      ensures forall x :: x in r <==> Reachable(outlives, OutlivesKinds, time, x)
      ensures forall i, j :: 0 <= i < j < |r| ==> r[i] != r[j]
    {
      r := TraverseGraph(time, outlives, OutlivesKinds);
    }

    /** The lifetimes that outlive `time`, found in the reverse graph. */
    method GetPrecursorLifetimes(time: Lifetime) returns (r: seq<Lifetime>)
      requires Valid()
      ensures forall x :: x in r <==> Reachable(outlives, OutlivesKinds, x, time)
      ensures forall i, j :: 0 <= i < j < |r| ==> r[i] != r[j]
    {
      r := TraverseGraph(time, reverse, OutlivesKinds);
      forall x ensures x in r <==> Reachable(outlives, OutlivesKinds, x, time) {
        PrecursorIffOutlives(outlives, reverse, OutlivesKinds, x, time);
      }
    }

    method GetEquivalentLifetimes(time: Lifetime) returns (r: seq<Lifetime>)
      ensures forall x :: x in r <==> Reachable(outlives, EqualityKinds, time, x)
      ensures forall i, j :: 0 <= i < j < |r| ==> r[i] != r[j]
    {
      r := TraverseGraph(time, outlives, EqualityKinds);
    }

    /** The lifetimes of member `memberName` of anything equivalent to
        `time`. */
    method GetMemberLifetimes(time: Lifetime, memberName: string) returns (r: seq<Lifetime>)
      ensures forall y :: y in r <==> (IsMemberNamed(y, memberName) &&
        exists x :: Reachable(outlives, EqualityKinds, time, x) && Edge(y, Member) in Edges(outlives, x))
    {
      var equivalent := GetEquivalentLifetimes(time);
      r := [];
      var i := 0;
      while i < |equivalent|
        invariant 0 <= i <= |equivalent|
        invariant forall y :: y in r <==> (IsMemberNamed(y, memberName) &&
          exists j :: 0 <= j < i && Edge(y, Member) in Edges(outlives, equivalent[j]))
      {
        var found := MemberTargets(Edges(outlives, equivalent[i]), memberName);
        r := r + found;
        i := i + 1;
      }
      forall y | IsMemberNamed(y, memberName) && exists x :: Reachable(outlives, EqualityKinds, time, x) && Edge(y, Member) in Edges(outlives, x)
        ensures y in r
      {
        var x :| Reachable(outlives, EqualityKinds, time, x) && Edge(y, Member) in Edges(outlives, x);
        var j :| 0 <= j < |equivalent| && equivalent[j] == x;
      }
    }

    method DoesOutlive(first: Lifetime, second: Lifetime) returns (outlived: bool)
      ensures outlived <==> Reachable(outlives, OutlivesKinds, first, second)
    {
      var lifetimes := GetOutlivedLifetimes(first);
      outlived := second in lifetimes;
    }
  }

  /** After AddStored(a, b), DoesOutlive(a, b); with AddStored(b, c) as
      well, DoesOutlive(a, c). */
  lemma StoredChain(g: Graph, a: Lifetime, b: Lifetime, c: Lifetime)
    requires a != NoLifetime && b != NoLifetime && c != NoLifetime
    requires Edge(b, Dependence) in Edges(g, a) && Edge(c, Dependence) in Edges(g, b)
    ensures Reachable(g, OutlivesKinds, a, c)
  {
    assert IsPath(g, OutlivesKinds, [a, b]);
    assert IsPath(g, OutlivesKinds, [b, c]);
    ReachTransitive(g, OutlivesKinds, a, b, c);
  }
}
