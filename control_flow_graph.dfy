// The control-flow graph of a function body
// (src/helix/Analysis/Flow/ControlFlowGraph.cs): labelled edges between
// scopes and the start and end nodes, kept with a reverse copy, the
// statement that follows each statement, a recursive search that decides
// whether a scope always returns, and the enumeration of the simple paths
// between two nodes.

module ControlFlow {
  import opened Wrappers

  /** The segments of an identifier path. */
  type Path = seq<string>

  /** IFlowControlNode: the start node, the end node, the none node, or the
      node of a scope. */
  datatype Node = Start | End | NoneNode | Scope(path: Path)

  /** The syntax predicates on edges are not part of this model: a
      predicate is a label, and ISyntaxPredicate.Empty is EmptyPredicate. */
  datatype SyntaxPredicate = EmptyPredicate | Condition(text: string)

  type Graph = map<Node, map<Node, SyntaxPredicate>>

  datatype FlowError = DuplicateContinuation(stat: Path)

  /** What the default dictionary yields for a node: its out-edges, or
      none. */
  function Successors(g: Graph, n: Node): map<Node, SyntaxPredicate> {
    if n in g then g[n] else map[]
  }

  /** The label of the edge from `a` to `b`, if there is one. */
  function Label(g: Graph, a: Node, b: Node): Option<SyntaxPredicate> {
    if b in Successors(g, a) then Some(Successors(g, a)[b]) else None
  }

  /** `graph[a][b] = pred`. */
  function SetEdge(g: Graph, a: Node, b: Node, pred: SyntaxPredicate): (r: Graph)
    ensures Label(r, a, b) == Some(pred)
    ensures forall x, y :: x != a || y != b ==> Label(r, x, y) == Label(g, x, y)
  {
    g[a := Successors(g, a)[b := pred]]
  }

  /** The reverse graph holds every edge turned round, with its label. */
  ghost predicate Mirror(g: Graph, rg: Graph) {
    forall a, b :: Label(g, a, b) == Label(rg, b, a)
  }

  /** The none node is never an end of an edge. */
  predicate NoneFree(g: Graph) {
    forall a :: a in g ==> a != NoneNode && NoneNode !in g[a]
  }

  /** Every node that has out-edges or is the end of one. */
  function Nodes(g: Graph): set<Node> {
    g.Keys + set a, b | a in g && b in g[a] :: b
  }

  lemma SuccessorInNodes(g: Graph, a: Node, b: Node)
    requires b in Successors(g, a)
    ensures b in Nodes(g)
  {
    assert a in g && b in g[a];
  }

  // ---------------------------------------------------------------------
  // AlwaysReturns.

  /** A node control falls off: not the end node, and without out-edges. */
  predicate DeadEnd(g: Graph, n: Node) {
    n != End && |Successors(g, n)| == 0
  }

  /** A run of control along edges; control stops at the end node. */
  predicate IsRun(g: Graph, p: seq<Node>) {
    |p| >= 1 && forall i :: 0 <= i < |p| - 1 ==> p[i] != End && p[i + 1] in Successors(g, p[i])
  }

  ghost predicate Leads(g: Graph, a: Node, b: Node) {
    exists p :: IsRun(g, p) && p[0] == a && p[|p| - 1] == b
  }

  /** Some run from `n` reaches a node control falls off. */
  ghost predicate CanFallOff(g: Graph, n: Node) {
    exists d :: Leads(g, n, d) && DeadEnd(g, d)
  }

  lemma LeadsSelf(g: Graph, a: Node)
    ensures Leads(g, a, a)
  {
    assert IsRun(g, [a]);
  }

  /** A run from a successor is a run from its predecessor. */
  lemma LeadsPrepend(g: Graph, a: Node, c: Node, v: Node)
    requires a != End && c in Successors(g, a) && Leads(g, c, v)
    ensures Leads(g, a, v)
  {
    var p :| IsRun(g, p) && p[0] == c && p[|p| - 1] == v;
    var q := [a] + p;
    assert forall i :: 1 <= i < |q| ==> q[i] == p[i - 1];
    assert IsRun(g, q);
  }

  /** A run that starts in a set closed under the edges of its non-end
      nodes stays in it. */
  lemma {:induction false} RunInside(g: Graph, p: seq<Node>, visited: set<Node>)
    requires IsRun(g, p) && p[0] in visited
    requires forall v, c :: v in visited && v != End && c in Successors(g, v) ==> c in visited
    ensures p[|p| - 1] in visited
    decreases |p|
  {
    if |p| > 1 {
      var n := |p| - 1;
      assert IsRun(g, p[..n]);
      RunInside(g, p[..n], visited);
    }
  }

  // ---------------------------------------------------------------------
  // GetAllPaths.

  predicate Simple(p: seq<Node>) {
    forall i, j :: 0 <= i < j < |p| ==> p[i] != p[j]
  }

  predicate IsEdgePath(g: Graph, p: seq<Node>) {
    |p| >= 1 && forall i :: 0 <= i < |p| - 1 ==> p[i + 1] in Successors(g, p[i])
  }

  /** A path GetAllPaths should find: simple, along edges, from `start` to
      `end`, with at least one edge. */
  predicate Connects(g: Graph, start: Node, end: Node, p: seq<Node>) {
    IsEdgePath(g, p) && Simple(p) && |p| >= 2 && p[0] == start && p[|p| - 1] == end
  }

  /** A path on the search stack: simple, along edges, from `start`, inside
      `universe`. */
  predicate Rooted(g: Graph, start: Node, universe: set<Node>, p: seq<Node>) {
    IsEdgePath(g, p) && Simple(p) && p[0] == start && forall i :: 0 <= i < |p| ==> p[i] in universe
  }

  function Pow(b: nat, e: nat): (r: nat)
    ensures b > 0 ==> r > 0
  {
    if e == 0 then 1 else b * Pow(b, e - 1)
  }

  /** The weight of a stacked path of length k among n nodes: popping it
      and pushing at most n longer paths lowers the total. */
  function PathWeight(n: nat, k: nat): nat {
    if k <= n + 1 then Pow(n + 1, n + 1 - k) else 0
  }

  function StackWeight(n: nat, stack: seq<seq<Node>>): nat {
    if stack == [] then 0 else StackWeight(n, stack[..|stack| - 1]) + PathWeight(n, |stack[|stack| - 1]|)
  }

  lemma {:induction false} StackWeightConcat(n: nat, a: seq<seq<Node>>, b: seq<seq<Node>>)
    ensures StackWeight(n, a + b) == StackWeight(n, a) + StackWeight(n, b)
    decreases |b|
  {
    if b != [] {
      var m := |b| - 1;
      assert (a + b)[..|a + b| - 1] == a + b[..m];
      assert (a + b)[|a + b| - 1] == b[m];
      StackWeightConcat(n, a, b[..m]);
    } else {
      assert a + b == a;
    }
  }

  lemma {:induction false} StackWeightUniform(n: nat, b: seq<seq<Node>>, k: nat)
    requires forall i :: 0 <= i < |b| ==> |b[i]| == k
    ensures StackWeight(n, b) == |b| * PathWeight(n, k)
    decreases |b|
  {
    if b != [] {
      StackWeightUniform(n, b[..|b| - 1], k);
    }
  }

  /** Replacing a path of length k <= n by at most n paths of length k+1
      lowers the weight. */
  lemma WeightDrops(n: nat, k: nat, m: nat)
    requires 1 <= k <= n && m <= n
    ensures m * PathWeight(n, k + 1) < PathWeight(n, k)
  {
    var w := Pow(n + 1, n - k);
    assert PathWeight(n, k + 1) == w;
    assert PathWeight(n, k) == (n + 1) * w;
    assert m * w < (n + 1) * w;
  }

  /** Popping a path and pushing at most n paths one node longer lowers
      the weight of the stack. */
  lemma WeightStep(n: nat, rest: seq<seq<Node>>, path: seq<Node>, pushed: seq<seq<Node>>)
    requires 1 <= |path| <= n && |pushed| <= n
    requires forall i :: 0 <= i < |pushed| ==> |pushed[i]| == |path| + 1
    ensures StackWeight(n, rest + pushed) < StackWeight(n, rest + [path])
  {
    StackWeightConcat(n, rest, [path]);
    assert StackWeight(n, [path]) == PathWeight(n, |path|) by {
      assert [path][..0] == [];
    }
    StackWeightConcat(n, rest, pushed);
    StackWeightUniform(n, pushed, |path| + 1);
    WeightDrops(n, |path|, |pushed|);
  }

  /** A simple path inside a set is no longer than the set is large. */
  lemma {:induction false} SimpleBound(p: seq<Node>, universe: set<Node>)
    requires Simple(p) && forall i :: 0 <= i < |p| ==> p[i] in universe
    ensures |p| <= |universe|
    decreases |p|
  {
    if p != [] {
      var n := |p| - 1;
      assert forall i :: 0 <= i < n ==> p[..n][i] == p[i] && p[i] != p[n];
      SimpleBound(p[..n], universe - {p[n]});
    }
  }

  /** A path one edge longer than a stacked path, ending at a node not yet
      on it. */
  predicate ExtendsBy(path: seq<Node>, children: set<Node>, end: Node, p: seq<Node>) {
    |p| == |path| + 1 && p[..|path|] == path && p[|path|] in children && p[|path|] !in path && p[|path|] != end
  }

  /** The loop over the children of the last node of `path`: a child
      already on the path is skipped; the end node completes a path;
      any other child extends a path that is pushed. */
  method ExtendPath(path: seq<Node>, children: set<Node>, end: Node, result: set<seq<Node>>)
    returns (pushed: seq<seq<Node>>, result': set<seq<Node>>)
    ensures |pushed| <= |children|
    ensures forall i :: 0 <= i < |pushed| ==> ExtendsBy(path, children, end, pushed[i])
    ensures forall c :: c in children && c !in path && c != end ==> path + [c] in pushed
    ensures forall p :: p in result' <==> p in result || (end in children && end !in path && p == path + [end])
  {
    pushed := [];
    result' := result;
    var remaining := children;
    while remaining != {}
      invariant remaining <= children
      invariant |pushed| <= |children - remaining|
      invariant forall i :: 0 <= i < |pushed| ==> ExtendsBy(path, children, end, pushed[i])
      invariant forall c :: c in children - remaining && c !in path && c != end ==> path + [c] in pushed
      invariant forall p :: p in result' <==>
        p in result || (end in children - remaining && end !in path && p == path + [end])
      decreases |remaining|
    {
      var child :| child in remaining;
      assert children - (remaining - {child}) == (children - remaining) + {child};
      if child in path {
      } else if child == end {
        result' := result' + {path + [child]};
      } else {
        assert (path + [child])[..|path|] == path;
        pushed := pushed + [path + [child]];
      }
      remaining := remaining - {child};
    }
  }

  class ControlFlowGraph {
    var edges: Graph
    var reverseEdges: Graph
    var continuations: map<Path, Node>

    ghost predicate Valid()
      reads this
    {
      Mirror(edges, reverseEdges) && NoneFree(edges) && NoneFree(reverseEdges) &&
      forall s :: s in continuations ==> continuations[s] != NoneNode
    }

    constructor ()
      ensures Valid()
      ensures edges == map[] && reverseEdges == map[] && continuations == map[]
    {
      edges := map[];
      reverseEdges := map[];
      continuations := map[];
    }

    /** The overloads taking identifier paths wrap them with Scope, and
        those without a predicate pass EmptyPredicate. */
    method AddEdge(parent: Node, child: Node, pred: SyntaxPredicate)
      requires Valid()
      modifies this
      ensures Valid()
      ensures parent == NoneNode || child == NoneNode ==> edges == old(edges) && reverseEdges == old(reverseEdges)
      ensures parent != NoneNode && child != NoneNode ==>
        edges == SetEdge(old(edges), parent, child, pred) && reverseEdges == SetEdge(old(reverseEdges), child, parent, pred)
      ensures continuations == old(continuations)
    {
      if parent == NoneNode || child == NoneNode {
        return;
      }
      MirrorSet(edges, reverseEdges, parent, child, pred);
      edges := SetEdge(edges, parent, child, pred);
      reverseEdges := SetEdge(reverseEdges, child, parent, pred);
    }

    /** Records the statement that follows `stat`; the dictionary's Add
        throws when `stat` already has one. */
    method AddContinuation(stat: Path, sibling: Node) returns (r: Result<(), FlowError>)
      requires Valid()
      modifies this
      ensures Valid()
      ensures sibling == NoneNode ==> r.Success? && continuations == old(continuations)
      ensures sibling != NoneNode && stat in old(continuations) ==>
        r == Failure(DuplicateContinuation(stat)) && continuations == old(continuations)
      ensures sibling != NoneNode && stat !in old(continuations) ==>
        r.Success? && continuations == old(continuations)[stat := sibling]
      ensures edges == old(edges) && reverseEdges == old(reverseEdges)
    {
      if sibling == NoneNode {
        return Success(());
      }
      if stat in continuations {
        return Failure(DuplicateContinuation(stat));
      }
      continuations := continuations[stat := sibling];
      r := Success(());
    }

    /** The continuation of a statement, or the none node. */
    function GetContinuation(stat: Path): (n: Node)
      reads this
      ensures n == NoneNode <==> stat !in continuations || continuations[stat] == NoneNode
      ensures stat in continuations ==> n == continuations[stat]
    {
      if stat in continuations then continuations[stat] else NoneNode
    }

    /** Whether control entering the scope `tree` always reaches the end
        node: exactly when no run from it falls off a node without
        out-edges. */
    method AlwaysReturns(tree: Path) returns (b: bool)
      ensures b <==> !CanFallOff(edges, Scope(tree))
    {
      var visited;
      b, visited := AlwaysReturnsHelper(Scope(tree), {});
      if b {
        forall d | Leads(edges, Scope(tree), d)
          ensures !DeadEnd(edges, d)
        {
          var p :| IsRun(edges, p) && p[0] == Scope(tree) && p[|p| - 1] == d;
          RunInside(edges, p, visited);
        }
      }
    }

    /** The recursive search, sharing one visited set: it visits `tree`,
        and every child not yet visited; the result is false when some
        node it visited has no out-edges. */
    method AlwaysReturnsHelper(tree: Node, visited: set<Node>) returns (b: bool, visited': set<Node>)
      requires tree !in visited
      ensures visited + {tree} <= visited'
      ensures forall v :: v in visited' && v !in visited ==> Leads(edges, tree, v)
      ensures forall v, c :: v in visited' && v !in visited && v != End && c in Successors(edges, v) ==> c in visited'
      ensures b <==> forall v :: v in visited' && v !in visited ==> !DeadEnd(edges, v)
      decreases |({tree} + Nodes(edges)) - visited|
    {
      visited' := visited + {tree};
      LeadsSelf(edges, tree);
      if tree == End {
        return true, visited';
      }
      if tree in edges && |edges[tree]| > 0 {
        var alwaysReturns := true;
        var remaining := edges[tree].Keys;
        while remaining != {}
          invariant remaining <= edges[tree].Keys
          invariant visited + {tree} <= visited'
          invariant forall c :: c in edges[tree] && c !in remaining ==> c in visited'
          invariant HelperSoFar(edges, tree, visited, visited', alwaysReturns)
          decreases |remaining|
        {
          var child :| child in remaining;
          if child !in visited' {
            SuccessorInNodes(edges, tree, child);
            assert {child} + Nodes(edges) == Nodes(edges);
            ProperSubsetSize(({child} + Nodes(edges)) - visited', ({tree} + Nodes(edges)) - visited, tree);
            var r, after := AlwaysReturnsHelper(child, visited');
            HelperExtend(edges, tree, child, visited, visited', after, alwaysReturns, r);
            alwaysReturns := alwaysReturns && r;
            visited' := after;
          }
          remaining := remaining - {child};
        }
        return alwaysReturns, visited';
      }
      return false, visited';
    }

    /** Every simple path along edges from `start` to `end`. */
    method GetAllPaths(start: Node, end: Node) returns (result: set<seq<Node>>)
      ensures forall p :: p in result <==> Connects(edges, start, end, p)
    {
      ghost var universe := {start} + Nodes(edges);
      ghost var n := |universe|;
      var stack := [[start]];
      result := {};
      SearchStarts(edges, start, end, universe);
      while |stack| > 0
        invariant PathSearch(edges, start, end, universe, stack, result)
        decreases StackWeight(n, stack)
      {
        var path := stack[|stack| - 1];
        var rest := stack[..|stack| - 1];
        SplitLastPath(stack);
        StackedPathBound(edges, start, universe, stack, path);
        var last := path[|path| - 1];
        if path in result {
          PopKeeps(edges, start, end, universe, rest, path, result);
          WeightStep(n, rest, path, []);
          stack := rest;
          continue;
        }
        var children := Successors(edges, last).Keys;
        var pushed, result' := ExtendPath(path, children, end, result);
        ExtendKeeps(edges, start, end, universe, rest, path, result, pushed, result');
        ChildrenBound(edges, last, universe);
        WeightStep(n, rest, path, pushed);
        stack := rest + pushed;
        result := result';
      }
    }
  }

  /** The invariant of the search loop of GetAllPaths: stacked paths are
      simple paths from `start`, found paths are paths to be found, and
      every path to be found is found or runs through a stacked path. */
  ghost predicate PathSearch(g: Graph, start: Node, end: Node, universe: set<Node>, stack: seq<seq<Node>>, result: set<seq<Node>>) {
    (forall p :: p in stack ==> Rooted(g, start, universe, p)) &&
    (forall p :: p in result ==> Connects(g, start, end, p)) &&
    (forall q :: Connects(g, start, end, q) ==> q in result || exists k :: 1 <= k < |q| && q[..k] in stack)
  }

  lemma SearchStarts(g: Graph, start: Node, end: Node, universe: set<Node>)
    requires start in universe
    ensures PathSearch(g, start, end, universe, [[start]], {})
  {
    forall q | Connects(g, start, end, q)
      ensures q[..1] in [[start]]
    {
      assert q[..1] == [start];
    }
  }

  lemma SplitLastPath(s: seq<seq<Node>>)
    requires |s| > 0
    ensures s == s[..|s| - 1] + [s[|s| - 1]]
  {
  }

  lemma StackedPathBound(g: Graph, start: Node, universe: set<Node>, stack: seq<seq<Node>>, path: seq<Node>)
    requires forall p :: p in stack ==> Rooted(g, start, universe, p)
    requires path in stack
    ensures 1 <= |path| <= |universe|
  {
    SimpleBound(path, universe);
  }

  /** What the search loop of AlwaysReturnsHelper knows: everything it
      visited is reachable from `tree`; every node visited below `tree` has
      all its children visited; the result so far says whether none of
      them has no out-edges. */
  ghost predicate HelperSoFar(g: Graph, tree: Node, visited: set<Node>, visited': set<Node>, b: bool) {
    (forall v :: v in visited' && v !in visited ==> Leads(g, tree, v)) &&
    (forall v, c :: v in visited' && v !in visited && v != tree && v != End && c in Successors(g, v) ==> c in visited') &&
    (b <==> forall v :: v in visited' && v !in visited && v != tree ==> !DeadEnd(g, v))
  }

  lemma HelperExtend(g: Graph, tree: Node, child: Node, visited: set<Node>, mid: set<Node>, after: set<Node>, b: bool, r: bool)
    requires tree != End && child in Successors(g, tree) && tree in mid && visited <= mid
    requires HelperSoFar(g, tree, visited, mid, b)
    requires mid + {child} <= after
    requires forall v :: v in after && v !in mid ==> Leads(g, child, v)
    requires forall v, c :: v in after && v !in mid && v != End && c in Successors(g, v) ==> c in after
    requires r <==> forall v :: v in after && v !in mid ==> !DeadEnd(g, v)
    ensures HelperSoFar(g, tree, visited, after, b && r)
  {
    forall v | v in after && v !in mid
      ensures Leads(g, tree, v)
    {
      LeadsPrepend(g, tree, child, v);
    }
  }

  lemma ChildrenBound(g: Graph, last: Node, universe: set<Node>)
    requires Nodes(g) <= universe
    ensures |Successors(g, last).Keys| <= |universe|
  {
    forall c | c in Successors(g, last)
      ensures c in universe
    {
      SuccessorInNodes(g, last, c);
    }
    SubsetSize(Successors(g, last).Keys, universe);
  }

  lemma ProperSubsetSize(a: set<Node>, b: set<Node>, x: Node)
    requires a <= b && x in b && x !in a
    ensures |a| < |b|
  {
    SubsetSize(a, b - {x});
  }

  lemma {:induction false} SubsetSize(a: set<Node>, b: set<Node>)
    requires a <= b
    ensures |a| <= |b|
    decreases |a|
  {
    if a != {} {
      var x :| x in a;
      SubsetSize(a - {x}, b - {x});
    }
  }

  /** Popping a path already found keeps the search invariant: no path to
      be found runs through a found one. */
  lemma PopKeeps(g: Graph, start: Node, end: Node, universe: set<Node>, rest: seq<seq<Node>>,
                 path: seq<Node>, result: set<seq<Node>>)
    requires PathSearch(g, start, end, universe, rest + [path], result) && path in result
    ensures PathSearch(g, start, end, universe, rest, result)
  {
    var stack := rest + [path];
    assert forall p :: p in rest ==> p in stack;
    forall q | Connects(g, start, end, q) && q !in result
      ensures exists k :: 1 <= k < |q| && q[..k] in rest
    {
      var k :| 1 <= k < |q| && q[..k] in stack;
      assert q[..k][k - 1] == q[k - 1] != q[|q| - 1];
      assert path[|path| - 1] == end;
      assert q[..k] != path;
      assert q[..k] in rest;
    }
  }

  /** Replacing a stacked path by its extensions keeps the search
      invariant. */
  lemma ExtendKeeps(g: Graph, start: Node, end: Node, universe: set<Node>, rest: seq<seq<Node>>, path: seq<Node>,
                    result: set<seq<Node>>, pushed: seq<seq<Node>>, result': set<seq<Node>>)
    requires Nodes(g) <= universe && |path| >= 1
    requires PathSearch(g, start, end, universe, rest + [path], result)
    requires var children := Successors(g, path[|path| - 1]).Keys;
      (forall i :: 0 <= i < |pushed| ==> ExtendsBy(path, children, end, pushed[i])) &&
      (forall c :: c in children && c !in path && c != end ==> path + [c] in pushed) &&
      (forall p :: p in result' <==> p in result || (end in children && end !in path && p == path + [end]))
    ensures PathSearch(g, start, end, universe, rest + pushed, result')
  {
    assert path in rest + [path];
    var children := Successors(g, path[|path| - 1]).Keys;
    forall p | p in rest + pushed
      ensures Rooted(g, start, universe, p)
    {
      if p !in rest {
        var i :| 0 <= i < |pushed| && pushed[i] == p;
        OneStepLonger(g, start, universe, path, p);
      } else {
        assert p in rest + [path];
      }
    }
    if end in children && end !in path {
      OneStepLonger(g, start, universe, path, path + [end]);
      assert (path + [end])[..|path|] == path;
    }
    forall q | Connects(g, start, end, q) && q !in result'
      ensures exists k :: 1 <= k < |q| && q[..k] in rest + pushed
    {
      var k :| 1 <= k < |q| && q[..k] in rest + [path];
      if q[..k] == path {
        ExtendCovers(g, start, end, path, children, pushed, result', q, k);
      } else {
        assert q[..k] in rest;
      }
    }
  }

  /** A path to be found that runs through the popped path runs through
      one of its extensions, unless it is completed by the end node. */
  lemma ExtendCovers(g: Graph, start: Node, end: Node, path: seq<Node>, children: set<Node>,
                     pushed: seq<seq<Node>>, result': set<seq<Node>>, q: seq<Node>, k: nat)
    requires |path| >= 1 && children == Successors(g, path[|path| - 1]).Keys
    requires forall c :: c in children && c !in path && c != end ==> path + [c] in pushed
    requires end in children && end !in path ==> path + [end] in result'
    requires Connects(g, start, end, q) && q !in result' && 1 <= k < |q| && q[..k] == path
    ensures q[..k + 1] in pushed
  {
    var c := q[k];
    assert q[..k + 1] == path + [c];
    assert q[k - 1] == path[|path| - 1];
    assert c in children;
    assert forall i :: 0 <= i < k ==> path[i] == q[i];
    assert c !in path;
    assert q[..|q|] == q;
    assert c != end;
  }

  /** A stacked path extended by a child not on it is a stacked path. */
  lemma OneStepLonger(g: Graph, start: Node, universe: set<Node>, path: seq<Node>, p: seq<Node>)
    requires Nodes(g) <= universe && Rooted(g, start, universe, path)
    requires |p| == |path| + 1 && p[..|path|] == path
    requires p[|path|] in Successors(g, path[|path| - 1]) && p[|path|] !in path
    ensures Rooted(g, start, universe, p)
  {
    var n := |path|;
    assert forall i :: 0 <= i < n ==> p[i] == path[i];
    SuccessorInNodes(g, path[n - 1], p[n]);
  }

  /** Adding an edge and its turned-round copy keeps the graphs mirrored. */
  lemma MirrorSet(g: Graph, rg: Graph, a: Node, b: Node, pred: SyntaxPredicate)
    requires Mirror(g, rg)
    ensures Mirror(SetEdge(g, a, b, pred), SetEdge(rg, b, a, pred))
  {
    var g', rg' := SetEdge(g, a, b, pred), SetEdge(rg, b, a, pred);
    forall x, y
      ensures Label(g', x, y) == Label(rg', y, x)
    {
      assert Label(g, x, y) == Label(rg, y, x);
    }
  }
}
