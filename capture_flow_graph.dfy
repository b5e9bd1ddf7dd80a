/** The capture flow graph of Attempt19/FlowGraph.cs: an immutable set of
    edges "a dependent variable captures a captured variable, with a kind",
    and the breadth-first searches that list what a variable captures,
    transitively, or what transitively depends on it. */
module CaptureFlow {
  import opened Wrappers
  import Int32

  /** An identifier path, compared segment by segment. */
  type Path = seq<string>

  datatype CaptureKind = MoveCapture | ReferenceCapture | ValueCapture

  /** The kinds the one-argument Find* overloads search. */
  const AllKinds: set<CaptureKind> := {MoveCapture, ReferenceCapture, ValueCapture}

  lemma InAllKinds(k: CaptureKind)
    ensures k in AllKinds
  {
    match k
    case MoveCapture =>
    case ReferenceCapture =>
    case ValueCapture =>
  }

  datatype FlowEdge = FlowEdge(captured: Path, dependent: Path, kind: CaptureKind)

  /** What a search yields: the kind of the edge and the variable at its far end. */
  datatype VariableCapture = VariableCapture(kind: CaptureKind, variable: Path)

  /** FlowGraphEdge.Equals(object): null is unequal; otherwise kind,
      captured and dependent variables are compared. */
  function EdgeEquals(e: FlowEdge, other: Option<FlowEdge>): (b: bool)
    ensures b <==> other == Some(e)
  {
    match other
    case None => false
    case Some(o) => o.kind == e.kind && o.captured == e.captured && o.dependent == e.dependent
  }

  /** FlowGraphEdge.GetHashCode, each product and sum wrapping as an
      unchecked C# `int`. */
  function EdgeHash(pathHash: Path -> int, kindHash: CaptureKind -> int, e: FlowEdge): (h: int)
    ensures Int32.InRange(h)
  {
    var captured := pathHash(e.captured);
    var dependent := Int32.Wrap(7 * pathHash(e.dependent));
    var kind := Int32.Wrap(11 * kindHash(e.kind));
    Int32.Wrap(Int32.Wrap(captured + dependent) + kind)
  }

  /** The hash is the wrapped weighted sum of the three field hashes, so
      edges that are Equals have equal hashes. */
  lemma EdgeHashSum(pathHash: Path -> int, kindHash: CaptureKind -> int, e: FlowEdge, o: FlowEdge)
    requires EdgeEquals(e, Some(o))
    ensures EdgeHash(pathHash, kindHash, e) == EdgeHash(pathHash, kindHash, o)
    ensures EdgeHash(pathHash, kindHash, e) ==
      Int32.Wrap(pathHash(e.captured) + 7 * pathHash(e.dependent) + 11 * kindHash(e.kind))
  {
    var c, d, k := pathHash(e.captured), 7 * pathHash(e.dependent), 11 * kindHash(e.kind);
    Int32.CongruentAdd(c, c, Int32.Wrap(d), d);
    Int32.CongruentTrans(Int32.Wrap(c + Int32.Wrap(d)), c + Int32.Wrap(d), c + d);
    Int32.CongruentAdd(Int32.Wrap(c + Int32.Wrap(d)), c + d, Int32.Wrap(k), k);
    Int32.WrapCongruent(Int32.Wrap(c + Int32.Wrap(d)) + Int32.Wrap(k), c + d + k);
  }

  /** A flow graph never changes: AddEdge returns a new one. */
  datatype FlowGraph = FlowGraph(edges: set<FlowEdge>)

  const EmptyGraph: FlowGraph := FlowGraph({})

  function AddEdge(g: FlowGraph, captured: Path, dependent: Path, kind: CaptureKind): (r: FlowGraph)
    ensures FlowEdge(captured, dependent, kind) in r.edges
    ensures forall e :: e in r.edges && e != FlowEdge(captured, dependent, kind) ==> e in g.edges
    ensures g.edges <= r.edges
  {
    FlowGraph(g.edges + {FlowEdge(captured, dependent, kind)})
  }

  /** Adding an edge twice is adding it once, and the order of two
      additions does not matter: the graph is a set of edges. */
  lemma AddEdgeAlgebra(g: FlowGraph, c1: Path, d1: Path, k1: CaptureKind, c2: Path, d2: Path, k2: CaptureKind)
    ensures AddEdge(AddEdge(g, c1, d1, k1), c1, d1, k1) == AddEdge(g, c1, d1, k1)
    ensures AddEdge(AddEdge(g, c1, d1, k1), c2, d2, k2) == AddEdge(AddEdge(g, c2, d2, k2), c1, d1, k1)
  {
    var e1, e2 := FlowEdge(c1, d1, k1), FlowEdge(c2, d2, k2);
    assert AddEdge(AddEdge(g, c1, d1, k1), c1, d1, k1).edges == g.edges + {e1};
    assert AddEdge(AddEdge(g, c1, d1, k1), c2, d2, k2).edges == g.edges + {e1, e2};
    assert AddEdge(AddEdge(g, c2, d2, k2), c1, d1, k1).edges == g.edges + {e1, e2};
  }

  /** FindAllCapturedVariables follows an edge from its dependent to its
      captured variable; FindAllDependentVariables the other way round. */
  datatype Direction = TowardCaptured | TowardDependent

  function Source(e: FlowEdge, dir: Direction): Path {
    if dir == TowardCaptured then e.dependent else e.captured
  }

  function Target(e: FlowEdge, dir: Direction): Path {
    if dir == TowardCaptured then e.captured else e.dependent
  }

  function Yield(e: FlowEdge, dir: Direction): VariableCapture {
    VariableCapture(e.kind, Target(e, dir))
  }

  /** An edge a search leaving `x` follows. */
  predicate Follows(g: FlowGraph, kinds: set<CaptureKind>, dir: Direction, e: FlowEdge, x: Path) {
    e in g.edges && e.kind in kinds && Source(e, dir) == x
  }

  function Successors(g: FlowGraph, kinds: set<CaptureKind>, dir: Direction, x: Path): set<Path> {
    set e | e in g.edges && e.kind in kinds && Source(e, dir) == x :: Target(e, dir)
  }

  predicate IsWalk(g: FlowGraph, kinds: set<CaptureKind>, dir: Direction, p: seq<Path>) {
    |p| >= 1 && forall i :: 0 <= i < |p| - 1 ==> p[i + 1] in Successors(g, kinds, dir, p[i])
  }

  /** `y` can be reached from `x` through edges of the allowed kinds. */
  ghost predicate Reaches(g: FlowGraph, kinds: set<CaptureKind>, dir: Direction, x: Path, y: Path) {
    exists p :: IsWalk(g, kinds, dir, p) && p[0] == x && p[|p| - 1] == y
  }

  lemma ReachSelf(g: FlowGraph, kinds: set<CaptureKind>, dir: Direction, x: Path)
    ensures Reaches(g, kinds, dir, x, x)
  {
    assert IsWalk(g, kinds, dir, [x]);
  }

  lemma ReachExtend(g: FlowGraph, kinds: set<CaptureKind>, dir: Direction, x: Path, y: Path, z: Path)
    requires Reaches(g, kinds, dir, x, y) && z in Successors(g, kinds, dir, y)
    ensures Reaches(g, kinds, dir, x, z)
  {
    var p :| IsWalk(g, kinds, dir, p) && p[0] == x && p[|p| - 1] == y;
    var q := p + [z];
    assert forall i :: 0 <= i < |q| - 1 ==> q[i + 1] in Successors(g, kinds, dir, q[i]) by {
      forall i | 0 <= i < |q| - 1
        ensures q[i + 1] in Successors(g, kinds, dir, q[i])
      {
        if i < |p| - 1 {
          assert q[i] == p[i] && q[i + 1] == p[i + 1];
        } else {
          assert q[i] == y && q[i + 1] == z;
        }
      }
    }
    assert IsWalk(g, kinds, dir, q) && q[0] == x && q[|q| - 1] == z;
  }

  /** The far end of every followed edge is a successor. */
  lemma FollowedIsSuccessor(g: FlowGraph, kinds: set<CaptureKind>, dir: Direction, e: FlowEdge, x: Path)
    requires Follows(g, kinds, dir, e, x)
    ensures Target(e, dir) in Successors(g, kinds, dir, x)
  {
  }

  /** A walk that starts in a set closed under successors stays in it. */
  lemma {:induction false} WalkStays(g: FlowGraph, kinds: set<CaptureKind>, dir: Direction, p: seq<Path>, closed: set<Path>)
    requires IsWalk(g, kinds, dir, p) && p[0] in closed
    requires forall x :: x in closed ==> Successors(g, kinds, dir, x) <= closed
    ensures p[|p| - 1] in closed
    decreases |p|
  {
    if |p| > 1 {
      var q := p[..|p| - 1];
      assert IsWalk(g, kinds, dir, q) by {
        assert forall i :: 0 <= i < |q| ==> q[i] == p[i];
      }
      WalkStays(g, kinds, dir, q, closed);
      assert p[|p| - 1] in Successors(g, kinds, dir, p[|p| - 2]);
    }
  }

  /** Whatever a graph reaches, a graph with one more edge still reaches,
      and the new edge itself is followed. */
  lemma AddEdgeReaches(g: FlowGraph, captured: Path, dependent: Path, kind: CaptureKind,
                       kinds: set<CaptureKind>, dir: Direction, x: Path, y: Path)
    ensures Reaches(g, kinds, dir, x, y) ==> Reaches(AddEdge(g, captured, dependent, kind), kinds, dir, x, y)
    ensures kind in kinds ==>
      Reaches(AddEdge(g, captured, dependent, kind), kinds, TowardCaptured, dependent, captured) &&
      Reaches(AddEdge(g, captured, dependent, kind), kinds, TowardDependent, captured, dependent)
  {
    var r := AddEdge(g, captured, dependent, kind);
    assert forall z :: Successors(g, kinds, dir, z) <= Successors(r, kinds, dir, z);
    if Reaches(g, kinds, dir, x, y) {
      var p :| IsWalk(g, kinds, dir, p) && p[0] == x && p[|p| - 1] == y;
      assert IsWalk(r, kinds, dir, p);
    }
    if kind in kinds {
      var e := FlowEdge(captured, dependent, kind);
      ReachSelf(r, kinds, TowardCaptured, dependent);
      FollowedIsSuccessor(r, kinds, TowardCaptured, e, dependent);
      ReachExtend(r, kinds, TowardCaptured, dependent, dependent, captured);
      ReachSelf(r, kinds, TowardDependent, captured);
      FollowedIsSuccessor(r, kinds, TowardDependent, e, captured);
      ReachExtend(r, kinds, TowardDependent, captured, captured, dependent);
    }
  }

  predicate Distinct<T(==)>(s: seq<T>) {
    forall i, j :: 0 <= i < j < |s| ==> s[i] != s[j]
  }

  lemma DistinctConcat<T>(a: seq<T>, b: seq<T>)
    requires Distinct(a) && Distinct(b)
    requires forall x :: x in a ==> x !in b
    ensures Distinct(a + b)
  {
    var c := a + b;
    forall i, j | 0 <= i < j < |c|
      ensures c[i] != c[j]
    {
      if j < |a| {
        assert c[i] == a[i] && c[j] == a[j];
      } else if i >= |a| {
        assert c[i] == b[i - |a|] && c[j] == b[j - |a|];
      } else {
        assert c[i] == a[i] && a[i] in a;
        assert c[j] == b[j - |a|] && b[j - |a|] in b;
      }
    }
  }

  /** One enumeration of the graph's edge set: the immutable hash set
      lists every edge exactly once, in an order the model leaves open. */
  ghost predicate Lists(order: seq<FlowEdge>, g: FlowGraph) {
    Distinct(order) && forall e :: e in order <==> e in g.edges
  }

  /** The `Where` filters of a search step: the edges leaving `x` whose
      kind is allowed, in enumeration order. */
  function Matching(order: seq<FlowEdge>, kinds: set<CaptureKind>, dir: Direction, x: Path): seq<FlowEdge>
    decreases |order|
  {
    if order == [] then []
    else
      var rest := Matching(order[1..], kinds, dir, x);
      if order[0].kind in kinds && Source(order[0], dir) == x then [order[0]] + rest else rest
  }

  /** The filter keeps exactly the edges that leave `x` with an allowed
      kind, each as often as the enumeration lists it. */
  lemma {:induction false} MatchingMembers(order: seq<FlowEdge>, kinds: set<CaptureKind>, dir: Direction, x: Path)
    ensures forall e :: e in Matching(order, kinds, dir, x) <==> e in order && e.kind in kinds && Source(e, dir) == x
    ensures Distinct(order) ==> Distinct(Matching(order, kinds, dir, x))
    decreases |order|
  {
    if order != [] {
      MatchingMembers(order[1..], kinds, dir, x);
      assert forall e :: e in order <==> e == order[0] || e in order[1..];
      if Distinct(order) {
        assert Distinct(order[1..]);
        assert order[0] !in order[1..];
      }
    }
  }

  /** One unfolding of the filter, for enumerations written out. */
  lemma MatchingCons(e: FlowEdge, rest: seq<FlowEdge>, kinds: set<CaptureKind>, dir: Direction, x: Path)
    ensures Matching([e] + rest, kinds, dir, x) ==
      if e.kind in kinds && Source(e, dir) == x then [e] + Matching(rest, kinds, dir, x) else Matching(rest, kinds, dir, x)
  {
    assert ([e] + rest)[1..] == rest;
  }

  function Yields(es: seq<FlowEdge>, dir: Direction): (r: seq<VariableCapture>)
    ensures |r| == |es| && forall i :: 0 <= i < |es| ==> r[i] == Yield(es[i], dir)
  {
    seq(|es|, i requires 0 <= i < |es| => Yield(es[i], dir))
  }

  lemma YieldsAppend(a: seq<FlowEdge>, b: seq<FlowEdge>, dir: Direction)
    ensures Yields(a + b, dir) == Yields(a, dir) + Yields(b, dir)
  {
  }

  function Targets(es: seq<FlowEdge>, dir: Direction): (r: seq<Path>)
    ensures |r| == |es| && forall i :: 0 <= i < |es| ==> r[i] == Target(es[i], dir)
  {
    seq(|es|, i requires 0 <= i < |es| => Target(es[i], dir))
  }

  /** The Find* loop as written: `visited` is never added to, so every
      far end is enqueued again each time an edge reaches it. `fuel`
      bounds the number of dequeues; None means the enumeration has not
      finished within it. */
  function FindAllAsWritten(order: seq<FlowEdge>, kinds: set<CaptureKind>, dir: Direction,
                            queue: seq<Path>, fuel: nat): (r: Option<seq<VariableCapture>>)
    decreases fuel
  {
    if queue == [] then Some([])
    else if fuel == 0 then None
    else
      var es := Matching(order, kinds, dir, queue[0]);
      var rest := FindAllAsWritten(order, kinds, dir, queue[1..] + Targets(es, dir), fuel - 1);
      if rest.None? then None else Some(Yields(es, dir) + rest.value)
  }

  /** Every variable of `vs` is reachable from `start`. */
  ghost predicate AllReachable(g: FlowGraph, kinds: set<CaptureKind>, dir: Direction, start: Path, vs: seq<Path>) {
    forall x :: x in vs ==> Reaches(g, kinds, dir, start, x)
  }

  function Variables(cs: seq<VariableCapture>): (r: seq<Path>)
    ensures |r| == |cs| && forall i :: 0 <= i < |cs| ==> r[i] == cs[i].variable
  {
    seq(|cs|, i requires 0 <= i < |cs| => cs[i].variable)
  }

  lemma AllReachableConcat(g: FlowGraph, kinds: set<CaptureKind>, dir: Direction, start: Path, a: seq<Path>, b: seq<Path>)
    ensures AllReachable(g, kinds, dir, start, a + b) <==>
      AllReachable(g, kinds, dir, start, a) && AllReachable(g, kinds, dir, start, b)
  {
    assert forall x :: x in a + b <==> x in a || x in b;
  }

  /** What the as-written loop yields is reachable from the start: the
      loop errs only in how often it yields, not in what. */
  lemma {:induction false} AsWrittenYieldsReachable(g: FlowGraph, order: seq<FlowEdge>, kinds: set<CaptureKind>,
                                                   dir: Direction, start: Path, queue: seq<Path>, fuel: nat)
    requires Lists(order, g)
    requires AllReachable(g, kinds, dir, start, queue)
    requires FindAllAsWritten(order, kinds, dir, queue, fuel).Some?
    ensures AllReachable(g, kinds, dir, start, Variables(FindAllAsWritten(order, kinds, dir, queue, fuel).value))
    decreases fuel
  {
    if queue != [] {
      var es := Matching(order, kinds, dir, queue[0]);
      var next := queue[1..] + Targets(es, dir);
      QueueStepReachable(g, order, kinds, dir, start, queue, es, next);
      AsWrittenYieldsReachable(g, order, kinds, dir, start, next, fuel - 1);
      YieldsReachable(g, kinds, dir, start, es, FindAllAsWritten(order, kinds, dir, next, fuel - 1).value);
    }
  }

  /** One dequeue keeps every queued variable reachable. */
  lemma QueueStepReachable(g: FlowGraph, order: seq<FlowEdge>, kinds: set<CaptureKind>, dir: Direction, start: Path,
                           queue: seq<Path>, es: seq<FlowEdge>, next: seq<Path>)
    requires Lists(order, g) && queue != [] && AllReachable(g, kinds, dir, start, queue)
    requires es == Matching(order, kinds, dir, queue[0]) && next == queue[1..] + Targets(es, dir)
    ensures AllReachable(g, kinds, dir, start, next)
  {
    StepReachable(g, order, kinds, dir, start, queue[0]);
    assert queue == [queue[0]] + queue[1..];
    AllReachableConcat(g, kinds, dir, start, [queue[0]], queue[1..]);
    AllReachableConcat(g, kinds, dir, start, queue[1..], Targets(es, dir));
  }

  /** The captures a step yields name the far ends it enqueued. */
  lemma YieldsReachable(g: FlowGraph, kinds: set<CaptureKind>, dir: Direction, start: Path,
                        es: seq<FlowEdge>, rest: seq<VariableCapture>)
    requires AllReachable(g, kinds, dir, start, Targets(es, dir))
    requires AllReachable(g, kinds, dir, start, Variables(rest))
    ensures AllReachable(g, kinds, dir, start, Variables(Yields(es, dir) + rest))
  {
    assert Variables(Yields(es, dir) + rest) == Targets(es, dir) + Variables(rest);
    AllReachableConcat(g, kinds, dir, start, Targets(es, dir), Variables(rest));
  }

  /** The far ends of the edges a reachable variable expands into are
      reachable. */
  lemma StepReachable(g: FlowGraph, order: seq<FlowEdge>, kinds: set<CaptureKind>, dir: Direction, start: Path, x: Path)
    requires Lists(order, g) && Reaches(g, kinds, dir, start, x)
    ensures AllReachable(g, kinds, dir, start, Targets(Matching(order, kinds, dir, x), dir))
  {
    var es := Matching(order, kinds, dir, x);
    MatchingMembers(order, kinds, dir, x);
    forall i | 0 <= i < |es|
      ensures Reaches(g, kinds, dir, start, Target(es[i], dir))
    {
      FollowedIsSuccessor(g, kinds, dir, es[i], x);
      ReachExtend(g, kinds, dir, start, x, Target(es[i], dir));
    }
  }

  /** A variable that captures itself makes FindAllCapturedVariables run
      forever: the queue is [x] again after every dequeue. */
  lemma {:induction false} SelfCaptureNeverEnds(x: Path, kind: CaptureKind, fuel: nat)
    ensures FindAllAsWritten([FlowEdge(x, x, kind)], {kind}, TowardCaptured, [x], fuel).None?
    decreases fuel
  {
    if fuel > 0 {
      var es := Matching([FlowEdge(x, x, kind)], {kind}, TowardCaptured, x);
      assert [FlowEdge(x, x, kind)][1..] == [];
      assert Matching([], {kind}, TowardCaptured, x) == [];
      assert es == [FlowEdge(x, x, kind)];
      assert [x][1..] + Targets(es, TowardCaptured) == [x];
      SelfCaptureNeverEnds(x, kind, fuel - 1);
    }
  }

  /** A diamond: `d` captures `b` and `c`, both capture `a`, and `a`
      captures `z`. The as-written loop expands `a` twice, so the one edge
      from `a` to `z` is yielded twice. */
  lemma DiamondYieldsTwice(a: Path, b: Path, c: Path, d: Path, z: Path, k: CaptureKind)
    requires a != b && a != c && a != d && a != z && b != c && b != d && b != z && c != d && c != z && d != z
    ensures
      var order := [FlowEdge(b, d, k), FlowEdge(c, d, k), FlowEdge(a, b, k), FlowEdge(a, c, k), FlowEdge(z, a, k)];
      FindAllAsWritten(order, {k}, TowardCaptured, [d], 7) ==
        Some([VariableCapture(k, b), VariableCapture(k, c), VariableCapture(k, a),
              VariableCapture(k, a), VariableCapture(k, z), VariableCapture(k, z)])
  {
    var e0, e1, e2, e3, e4 := FlowEdge(b, d, k), FlowEdge(c, d, k), FlowEdge(a, b, k), FlowEdge(a, c, k), FlowEdge(z, a, k);
    var order := [e0, e1, e2, e3, e4];
    var dir := TowardCaptured;
    DiamondMatching(a, b, c, d, z, k);
    DiamondLowerHalf(a, b, c, d, z, k);
    var vb, vc, va, vz := VariableCapture(k, b), VariableCapture(k, c), VariableCapture(k, a), VariableCapture(k, z);
    assert Yields([e3], dir) == [va] && Targets([e3], dir) == [a];
    assert Yields([e2], dir) == [va] && Targets([e2], dir) == [a];
    assert Yields([e0, e1], dir) == [vb, vc] && Targets([e0, e1], dir) == [b, c];
    assert [a] + Targets(Matching(order, {k}, dir, c), dir) == [a] + [a];
    AsWrittenStep(order, {k}, dir, c, [a], 4, [vz, vz]);
    assert Yields(Matching(order, {k}, dir, c), dir) + [vz, vz] == [va, vz, vz];
    assert FindAllAsWritten(order, {k}, dir, [c] + [a], 5) == Some([va, vz, vz]);
    assert [c] + Targets(Matching(order, {k}, dir, b), dir) == [c] + [a];
    AsWrittenStep(order, {k}, dir, b, [c], 5, [va, vz, vz]);
    assert Yields(Matching(order, {k}, dir, b), dir) + [va, vz, vz] == [va, va, vz, vz];
    assert FindAllAsWritten(order, {k}, dir, [b] + [c], 6) == Some([va, va, vz, vz]);
    assert [] + Targets(Matching(order, {k}, dir, d), dir) == [b] + [c];
    AsWrittenStep(order, {k}, dir, d, [], 6, [va, va, vz, vz]);
    assert [d] + [] == [d];
    assert Yields(Matching(order, {k}, dir, d), dir) + [va, va, vz, vz] == [vb, vc, va, va, vz, vz];
  }

  /** The last four dequeues of the diamond: `a` twice, then `z` twice. */
  lemma DiamondLowerHalf(a: Path, b: Path, c: Path, d: Path, z: Path, k: CaptureKind)
    requires a != b && a != c && a != d && a != z && b != c && b != d && b != z && c != d && c != z && d != z
    ensures
      var order := [FlowEdge(b, d, k), FlowEdge(c, d, k), FlowEdge(a, b, k), FlowEdge(a, c, k), FlowEdge(z, a, k)];
      FindAllAsWritten(order, {k}, TowardCaptured, [a] + [a], 4) ==
        Some([VariableCapture(k, z), VariableCapture(k, z)])
  {
    var e0, e1, e2, e3, e4 := FlowEdge(b, d, k), FlowEdge(c, d, k), FlowEdge(a, b, k), FlowEdge(a, c, k), FlowEdge(z, a, k);
    var order := [e0, e1, e2, e3, e4];
    var dir := TowardCaptured;
    DiamondMatching(a, b, c, d, z, k);
    var vz := VariableCapture(k, z);
    assert Yields([], dir) == [] && Targets([], dir) == [];
    assert Yields([e4], dir) == [vz] && Targets([e4], dir) == [z];
    AsWrittenStep(order, {k}, dir, z, [], 0, []);
    AsWrittenStep(order, {k}, dir, z, [z], 1, []);
    assert FindAllAsWritten(order, {k}, dir, [z] + [z], 2) == Some([]);
    assert [z] + Targets(Matching(order, {k}, dir, a), dir) == [z] + [z];
    AsWrittenStep(order, {k}, dir, a, [z], 2, []);
    assert Yields(Matching(order, {k}, dir, a), dir) + [] == [vz];
    assert FindAllAsWritten(order, {k}, dir, [a] + [z], 3) == Some([vz]);
    assert [a] + Targets(Matching(order, {k}, dir, a), dir) == [a] + [z];
    AsWrittenStep(order, {k}, dir, a, [a], 3, [vz]);
    assert Yields(Matching(order, {k}, dir, a), dir) + [vz] == [vz, vz];
  }

  /** One dequeue of the as-written loop. */
  lemma AsWrittenStep(order: seq<FlowEdge>, kinds: set<CaptureKind>, dir: Direction, x: Path, rest: seq<Path>,
                      fuel: nat, tail: seq<VariableCapture>)
    requires FindAllAsWritten(order, kinds, dir, rest + Targets(Matching(order, kinds, dir, x), dir), fuel) == Some(tail)
    ensures FindAllAsWritten(order, kinds, dir, [x] + rest, fuel + 1) == Some(Yields(Matching(order, kinds, dir, x), dir) + tail)
  {
    assert ([x] + rest)[0] == x && ([x] + rest)[1..] == rest;
  }

  /** The edges each variable of the diamond captures, in enumeration order. */
  lemma DiamondMatching(a: Path, b: Path, c: Path, d: Path, z: Path, k: CaptureKind)
    requires a != b && a != c && a != d && a != z && b != c && b != d && b != z && c != d && c != z && d != z
    ensures
      var order := [FlowEdge(b, d, k), FlowEdge(c, d, k), FlowEdge(a, b, k), FlowEdge(a, c, k), FlowEdge(z, a, k)];
      && Matching(order, {k}, TowardCaptured, d) == order[..2]
      && Matching(order, {k}, TowardCaptured, b) == [order[2]]
      && Matching(order, {k}, TowardCaptured, c) == [order[3]]
      && Matching(order, {k}, TowardCaptured, a) == [order[4]]
      && Matching(order, {k}, TowardCaptured, z) == []
  {
    var e0, e1, e2, e3, e4 := FlowEdge(b, d, k), FlowEdge(c, d, k), FlowEdge(a, b, k), FlowEdge(a, c, k), FlowEdge(z, a, k);
    var order := [e0, e1, e2, e3, e4];
    MatchingFive(e0, e1, e2, e3, e4, {k}, TowardCaptured, d);
    MatchingFive(e0, e1, e2, e3, e4, {k}, TowardCaptured, b);
    MatchingFive(e0, e1, e2, e3, e4, {k}, TowardCaptured, c);
    MatchingFive(e0, e1, e2, e3, e4, {k}, TowardCaptured, a);
    MatchingFive(e0, e1, e2, e3, e4, {k}, TowardCaptured, z);
    assert order[..2] == [e0] + [e1];
  }

  /** The edges among `e` that leave `x` with an allowed kind. */
  function Kept(e: FlowEdge, kinds: set<CaptureKind>, dir: Direction, x: Path): seq<FlowEdge> {
    if e.kind in kinds && Source(e, dir) == x then [e] else []
  }

  /** The filter over a five-edge enumeration, edge by edge. */
  lemma MatchingFive(e0: FlowEdge, e1: FlowEdge, e2: FlowEdge, e3: FlowEdge, e4: FlowEdge,
                     kinds: set<CaptureKind>, dir: Direction, x: Path)
    ensures Matching([e0, e1, e2, e3, e4], kinds, dir, x) ==
      Kept(e0, kinds, dir, x) + (Kept(e1, kinds, dir, x) + (Kept(e2, kinds, dir, x) + (Kept(e3, kinds, dir, x) + Kept(e4, kinds, dir, x))))
  {
    assert [e0, e1, e2, e3, e4] == [e0] + ([e1] + ([e2] + ([e3] + [e4])));
    MatchingKept(e4, [], kinds, dir, x);
    assert [e4] + [] == [e4];
    assert Kept(e4, kinds, dir, x) + [] == Kept(e4, kinds, dir, x);
    MatchingKept(e3, [e4], kinds, dir, x);
    MatchingKept(e2, [e3] + [e4], kinds, dir, x);
    MatchingKept(e1, [e2] + ([e3] + [e4]), kinds, dir, x);
    MatchingKept(e0, [e1] + ([e2] + ([e3] + [e4])), kinds, dir, x);
  }

  lemma MatchingKept(e: FlowEdge, rest: seq<FlowEdge>, kinds: set<CaptureKind>, dir: Direction, x: Path)
    ensures Matching([e] + rest, kinds, dir, x) == Kept(e, kinds, dir, x) + Matching(rest, kinds, dir, x)
  {
    MatchingCons(e, rest, kinds, dir, x);
  }

  /** Every variable a search can hand out. */
  function Universe(g: FlowGraph, dir: Direction, start: Path): set<Path> {
    {start} + set e | e in g.edges :: Target(e, dir)
  }

  /** The invariant of the corrected search: `visited` holds reachable
      variables, each either expanded (`done`) or waiting in the queue,
      the queue holds each at most once, an expanded variable's
      successors are all visited, and `yielded` lists, once each, the
      edges leaving expanded variables. */
  ghost predicate Search(g: FlowGraph, kinds: set<CaptureKind>, dir: Direction, start: Path,
                         visited: set<Path>, queue: seq<Path>, done: set<Path>, yielded: seq<FlowEdge>)
  {
    && start in visited
    && visited <= Universe(g, dir, start)
    && (forall x :: x in visited ==> Reaches(g, kinds, dir, start, x))
    && (forall x :: x in visited <==> x in done || x in queue)
    && (forall x :: x in queue ==> x !in done)
    && Distinct(queue)
    && (forall x :: x in done ==> Successors(g, kinds, dir, x) <= visited)
    && Distinct(yielded)
    && (forall e :: e in yielded <==> e in g.edges && e.kind in kinds && Source(e, dir) in done)
  }

  lemma SearchStart(g: FlowGraph, kinds: set<CaptureKind>, dir: Direction, start: Path)
    ensures Search(g, kinds, dir, start, {start}, [start], {}, [])
  {
    ReachSelf(g, kinds, dir, start);
  }

  /** Expanding the head of the queue keeps the invariant, and either
      visits a new variable or shortens the queue. */
  lemma SearchExpand(g: FlowGraph, order: seq<FlowEdge>, kinds: set<CaptureKind>, dir: Direction, start: Path,
                     visited: set<Path>, queue: seq<Path>, done: set<Path>, yielded: seq<FlowEdge>,
                     es: seq<FlowEdge>, visited': set<Path>, added: seq<Path>)
    requires Lists(order, g)
    requires Search(g, kinds, dir, start, visited, queue, done, yielded)
    requires |queue| > 0 && es == Matching(order, kinds, dir, queue[0])
    requires visited' == visited + set e | e in es :: Target(e, dir)
    requires Distinct(added)
    requires forall t :: t in added <==> t in visited' && t !in visited
    ensures Search(g, kinds, dir, start, visited', queue[1..] + added, done + {queue[0]}, yielded + es)
    ensures visited' == visited ==> |queue[1..] + added| < |queue|
    ensures visited' != visited ==> Universe(g, dir, start) - visited' < Universe(g, dir, start) - visited
  {
    var x, rest := queue[0], queue[1..];
    MatchingMembers(order, kinds, dir, x);
    assert x !in rest by {
      assert forall i :: 0 <= i < |rest| ==> rest[i] == queue[i + 1];
    }
    assert Distinct(rest);
    DistinctConcat(rest, added);
    forall e | e in es
      ensures e !in yielded
    {
      assert Source(e, dir) == x && x !in done;
    }
    DistinctConcat(yielded, es);
    assert Successors(g, kinds, dir, x) <= visited' by {
      forall t | t in Successors(g, kinds, dir, x)
        ensures t in visited'
      {
        var e :| e in g.edges && e.kind in kinds && Source(e, dir) == x && Target(e, dir) == t;
        assert e in es;
      }
    }
    forall t | t in visited' && t !in visited
      ensures Reaches(g, kinds, dir, start, t)
    {
      var e :| e in es && Target(e, dir) == t;
      FollowedIsSuccessor(g, kinds, dir, e, x);
      ReachExtend(g, kinds, dir, start, x, t);
    }
    if |added| > 0 {
      assert added[0] in visited' && added[0] !in visited;
    }
  }

  /** When the queue is empty the expanded variables are exactly the
      reachable ones. */
  lemma SearchDone(g: FlowGraph, kinds: set<CaptureKind>, dir: Direction, start: Path,
                   visited: set<Path>, done: set<Path>, yielded: seq<FlowEdge>)
    requires Search(g, kinds, dir, start, visited, [], done, yielded)
    ensures forall e :: e in yielded <==>
      e in g.edges && e.kind in kinds && Reaches(g, kinds, dir, start, Source(e, dir))
  {
    forall y | Reaches(g, kinds, dir, start, y)
      ensures y in done
    {
      var p :| IsWalk(g, kinds, dir, p) && p[0] == start && p[|p| - 1] == y;
      WalkStays(g, kinds, dir, p, done);
    }
  }

  /** The inner `foreach`: yield every edge, and enqueue each far end not
      yet visited, marking it visited. */
  method ExpandEdges(es: seq<FlowEdge>, dir: Direction, visited: set<Path>, result: seq<VariableCapture>)
    returns (visited': set<Path>, added: seq<Path>, result': seq<VariableCapture>)
    ensures result' == result + Yields(es, dir)
    ensures visited' == visited + set e | e in es :: Target(e, dir)
    ensures Distinct(added)
    ensures forall t :: t in added <==> t in visited' && t !in visited
  {
    visited', added, result' := visited, [], result;
    for i := 0 to |es|
      invariant result' == result + Yields(es[..i], dir)
      invariant visited' == visited + set e | e in es[..i] :: Target(e, dir)
      invariant Distinct(added)
      invariant forall t :: t in added <==> t in visited' && t !in visited
    {
      var e := es[i];
      assert es[..i + 1] == es[..i] + [e];
      result' := result' + [Yield(e, dir)];
      if Target(e, dir) !in visited' {
        DistinctConcat(added, [Target(e, dir)]);
        added := added + [Target(e, dir)];
        visited' := visited' + {Target(e, dir)};
      }
    }
    assert es[..|es|] == es;
  }

  /** The corrected Find*: a variable is marked visited when it is first
      enqueued, so each is expanded once. It yields, once each, exactly
      the allowed edges leaving a variable reachable from `start`; what
      it yields is reachable from `start`. */
  method FindAll(g: FlowGraph, order: seq<FlowEdge>, kinds: set<CaptureKind>, dir: Direction, start: Path)
    returns (result: seq<VariableCapture>, ghost yielded: seq<FlowEdge>)
    requires Lists(order, g)
    ensures result == Yields(yielded, dir)
    ensures Distinct(yielded)
    ensures forall e :: e in yielded <==>
      e in g.edges && e.kind in kinds && Reaches(g, kinds, dir, start, Source(e, dir))
    ensures forall c :: c in result ==> Reaches(g, kinds, dir, start, c.variable)
  {
    var visited: set<Path> := {start};
    var queue: seq<Path> := [start];
    result, yielded := [], [];
    ghost var done: set<Path> := {};
    SearchStart(g, kinds, dir, start);
    while |queue| > 0
      invariant Search(g, kinds, dir, start, visited, queue, done, yielded)
      invariant result == Yields(yielded, dir)
      decreases Universe(g, dir, start) - visited, |queue|
    {
      var next := queue[0];
      var es := Matching(order, kinds, dir, next);
      var visited', added, result' := ExpandEdges(es, dir, visited, result);
      SearchExpand(g, order, kinds, dir, start, visited, queue, done, yielded, es, visited', added);
      YieldsAppend(yielded, es, dir);
      queue := queue[1..] + added;
      visited, result := visited', result';
      done, yielded := done + {next}, yielded + es;
    }
    SearchDone(g, kinds, dir, start, visited, done, yielded);
    forall c | c in result
      ensures Reaches(g, kinds, dir, start, c.variable)
    {
      var i :| 0 <= i < |yielded| && result[i] == c;
      var e := yielded[i];
      FollowedIsSuccessor(g, kinds, dir, e, Source(e, dir));
      ReachExtend(g, kinds, dir, start, Source(e, dir), c.variable);
    }
  }

  /** FindAllCapturedVariables(dependent): every capture kind. */
  method FindAllCapturedVariables(g: FlowGraph, order: seq<FlowEdge>, dependent: Path)
    returns (result: seq<VariableCapture>)
    requires Lists(order, g)
    ensures forall c :: c in result ==> Reaches(g, AllKinds, TowardCaptured, dependent, c.variable)
    ensures forall e :: e in g.edges && Reaches(g, AllKinds, TowardCaptured, dependent, e.dependent) ==>
      VariableCapture(e.kind, e.captured) in result
  {
    ghost var yielded;
    result, yielded := FindAll(g, order, AllKinds, TowardCaptured, dependent);
    forall e | e in g.edges && Reaches(g, AllKinds, TowardCaptured, dependent, e.dependent)
      ensures VariableCapture(e.kind, e.captured) in result
    {
      assert Source(e, TowardCaptured) == e.dependent;
      InAllKinds(e.kind);
      assert e in yielded;
      var i :| 0 <= i < |yielded| && yielded[i] == e;
      assert result[i] == Yield(e, TowardCaptured);
    }
  }

  /** FindAllDependentVariables(captured): every capture kind. */
  method FindAllDependentVariables(g: FlowGraph, order: seq<FlowEdge>, captured: Path)
    returns (result: seq<VariableCapture>)
    requires Lists(order, g)
    ensures forall c :: c in result ==> Reaches(g, AllKinds, TowardDependent, captured, c.variable)
    ensures forall e :: e in g.edges && Reaches(g, AllKinds, TowardDependent, captured, e.captured) ==>
      VariableCapture(e.kind, e.dependent) in result
  {
    ghost var yielded;
    result, yielded := FindAll(g, order, AllKinds, TowardDependent, captured);
    forall e | e in g.edges && Reaches(g, AllKinds, TowardDependent, captured, e.captured)
      ensures VariableCapture(e.kind, e.dependent) in result
    {
      assert Source(e, TowardDependent) == e.captured;
      InAllKinds(e.kind);
      assert e in yielded;
      var i :| 0 <= i < |yielded| && yielded[i] == e;
      assert result[i] == Yield(e, TowardDependent);
    }
  }

  /** Following an edge one way and back: `y` captures `x` transitively
      exactly when `x` is a transitive dependent of `y`. */
  lemma DirectionsMirror(g: FlowGraph, kinds: set<CaptureKind>, x: Path, y: Path)
    ensures Reaches(g, kinds, TowardCaptured, x, y) <==> Reaches(g, kinds, TowardDependent, y, x)
  {
    if Reaches(g, kinds, TowardCaptured, x, y) {
      var p :| IsWalk(g, kinds, TowardCaptured, p) && p[0] == x && p[|p| - 1] == y;
      ReversedWalk(g, kinds, TowardCaptured, p);
    }
    if Reaches(g, kinds, TowardDependent, y, x) {
      var p :| IsWalk(g, kinds, TowardDependent, p) && p[0] == y && p[|p| - 1] == x;
      ReversedWalk(g, kinds, TowardDependent, p);
    }
  }

  function Flip(dir: Direction): Direction {
    if dir == TowardCaptured then TowardDependent else TowardCaptured
  }

  function Reverse<T>(p: seq<T>): (r: seq<T>)
    ensures |r| == |p| && forall i :: 0 <= i < |p| ==> r[i] == p[|p| - 1 - i]
  {
    seq(|p|, i requires 0 <= i < |p| => p[|p| - 1 - i])
  }

  lemma ReversedWalk(g: FlowGraph, kinds: set<CaptureKind>, dir: Direction, p: seq<Path>)
    requires IsWalk(g, kinds, dir, p)
    ensures IsWalk(g, kinds, Flip(dir), Reverse(p))
  {
    var q := Reverse(p);
    forall i | 0 <= i < |q| - 1
      ensures q[i + 1] in Successors(g, kinds, Flip(dir), q[i])
    {
      var j := |p| - 2 - i;
      assert q[i] == p[j + 1] && q[i + 1] == p[j];
      var e :| e in g.edges && e.kind in kinds && Source(e, dir) == p[j] && Target(e, dir) == p[j + 1];
      assert Source(e, Flip(dir)) == q[i] && Target(e, Flip(dir)) == q[i + 1];
    }
  }
}
