/*
 * Lists in the Attempt12 interpreter: a list is a chain of dictionaries
 * `{value: x, next: rest}` ending in the integer 0; the empty list is the
 * empty dictionary. The runtime values are the same symbols, integers and
 * reference-compared dictionaries as in IndexedData.
 *
 * Following `next` links reads the heap and need not end (a dictionary can
 * be its own `next`), so the readers take a `fuel` bound on the number of
 * nodes they visit and report `Unbounded` when it runs out.
 */
module LinkedData {
  import opened Wrappers
  import D = IndexedData

  datatype Error = InvalidCast | KeyNotFound | Unbounded

  const ValueKey: D.Data := D.Symbol("value")
  const NextKey: D.Data := D.Symbol("next")

  /** The entries of one list node. */
  function Node(value: D.Data, next: D.Data): (m: map<D.Data, D.Data>)
    ensures m.Keys == {ValueKey, NextKey} && |m| == 2
    ensures m[ValueKey] == value && m[NextKey] == next
  {
    map[ValueKey := value, NextKey := next]
  }

  /** What node `i` of a chain links to: the next node, or 0 after the last. */
  function NextOf(nodes: seq<D.Dictionary>, i: int): D.Data {
    if 0 <= i && i + 1 < |nodes| then D.Dict(nodes[i + 1]) else D.Integer(0)
  }

  /** Node `i` holds `x` and links to its successor. */
  ghost predicate NodeAt(nodes: seq<D.Dictionary>, i: int, x: D.Data)
    reads if 0 <= i < |nodes| then {nodes[i]} else {}
  {
    0 <= i < |nodes| && nodes[i].entries == Node(x, NextOf(nodes, i))
  }

  /** `nodes` is a chain holding `list`, one element per node. */
  ghost predicate Linked(nodes: seq<D.Dictionary>, list: seq<D.Data>)
    reads set i | 0 <= i < |nodes| :: nodes[i]
  {
    |nodes| == |list| &&
    forall i :: 0 <= i < |list| ==> NodeAt(nodes, i, list[i])
  }

  // ---------------------------------------------------------------------
  // Building a list
  // ---------------------------------------------------------------------

  /**
   * Data.From(IList): the empty dictionary for the empty list, otherwise a
   * chain of fresh nodes built from the last element back (the fold over
   * the reversed list).
   */
  method From(list: seq<D.Data>) returns (r: D.Data, ghost nodes: seq<D.Dictionary>)
    ensures r.Dict? && fresh(r.dict)
    ensures list == [] ==> r.dict.entries == map[]
    ensures |list| == 1 ==> r.dict.entries == Node(list[0], D.Integer(0))
    ensures list != [] ==> Linked(nodes, list) && r.dict == nodes[0]
    ensures forall i :: 0 <= i < |nodes| ==> fresh(nodes[i])
    ensures forall i, j :: 0 <= i < j < |nodes| ==> nodes[i] != nodes[j]
  {
    if |list| == 0 {
      var empty := new D.Dictionary(map[]);
      return D.Dict(empty), [];
    } else if |list| == 1 {
      var single := new D.Dictionary(Node(list[0], D.Integer(0)));
      return D.Dict(single), [single];
    }
    var acc := D.Integer(0);
    nodes := [];
    for i := |list| downto 0
      invariant |nodes| == |list| - i
      invariant Linked(nodes, list[i..])
      invariant acc == if nodes == [] then D.Integer(0) else D.Dict(nodes[0])
      invariant forall j :: 0 <= j < |nodes| ==> fresh(nodes[j])
      invariant forall j, k :: 0 <= j < k < |nodes| ==> nodes[j] != nodes[k]
    {
      var node := new D.Dictionary(Node(list[i], acc));
      LinkedCons(node, nodes, list[i], list[i + 1..]);
      SliceCons(list, i);
      nodes := [node] + nodes;
      acc := D.Dict(node);
    }
    assert list[0..] == list;
    r := acc;
  }

  lemma SliceCons<T>(list: seq<T>, i: nat)
    requires i < |list|
    ensures [list[i]] + list[i + 1..] == list[i..]
  {
  }

  /** Putting a node in front of a chain extends it by one element. */
  lemma LinkedCons(node: D.Dictionary, nodes: seq<D.Dictionary>, x: D.Data, rest: seq<D.Data>)
    requires Linked(nodes, rest)
    requires node.entries == Node(x, if nodes == [] then D.Integer(0) else D.Dict(nodes[0]))
    ensures Linked([node] + nodes, [x] + rest)
  {
    var all := [node] + nodes;
    forall i | 0 <= i < |all|
      ensures NodeAt(all, i, ([x] + rest)[i])
    {
      if i > 0 {
        assert NodeAt(nodes, i - 1, rest[i - 1]);
        assert all[i] == nodes[i - 1];
        assert NextOf(all, i) == NextOf(nodes, i - 1);
      }
    }
  }

  // ---------------------------------------------------------------------
  // Reading a list
  // ---------------------------------------------------------------------

  /** What AsList reads from a non-empty dictionary, visiting at most `fuel` nodes. */
  ghost function ListFrom(node: D.Dictionary, fuel: nat): Result<seq<D.Data>, Error>
    reads *
    decreases fuel
  {
    if fuel == 0 then Failure(Unbounded)
    else if NextKey !in node.entries then Failure(KeyNotFound)
    else
      var next := node.entries[NextKey];
      if !D.IsTruthy(next) then
        if ValueKey in node.entries then Success([node.entries[ValueKey]]) else Failure(KeyNotFound)
      else if ValueKey !in node.entries then Failure(KeyNotFound)
      else if !next.Dict? then Failure(InvalidCast)
      else match ListFrom(next.dict, fuel - 1)
        case Success(rest) => Success([node.entries[ValueKey]] + rest)
        case Failure(e) => Failure(e)
  }

  ghost function ListOf(d: D.Data, fuel: nat): Result<seq<D.Data>, Error>
    reads *
  {
    if !d.Dict? then Failure(InvalidCast)
    else if |d.dict.entries| == 0 then Success([])
    else ListFrom(d.dict, fuel)
  }

  function Prepend(prefix: seq<D.Data>, r: Result<seq<D.Data>, Error>): Result<seq<D.Data>, Error> {
    match r
    case Success(rest) => Success(prefix + rest)
    case Failure(e) => Failure(e)
  }

  /** Data.AsList: walks the `next` links while they are truthy, collecting the values. */
  method AsList(d: D.Data, fuel: nat) returns (r: Result<seq<D.Data>, Error>)
    ensures r == ListOf(d, fuel)
  {
    if !d.Dict? {
      return Failure(InvalidCast);
    }
    var current := d.dict;
    if |current.entries| == 0 {
      return Success([]);
    }
    var list: seq<D.Data> := [];
    var remaining := fuel;
    PrependStep([], D.Integer(0), ListFrom(current, remaining));
    while true
      invariant Prepend(list, ListFrom(current, remaining)) == ListOf(d, fuel)
      decreases remaining
    {
      if remaining == 0 {
        return Failure(Unbounded);
      }
      if NextKey !in current.entries {
        return Failure(KeyNotFound);
      }
      var next := current.entries[NextKey];
      if !D.IsTruthy(next) {
        break;
      }
      if ValueKey !in current.entries {
        return Failure(KeyNotFound);
      }
      if !next.Dict? {
        return Failure(InvalidCast);
      }
      PrependStep(list, current.entries[ValueKey], ListFrom(next.dict, remaining - 1));
      list := list + [current.entries[ValueKey]];
      current := next.dict;
      remaining := remaining - 1;
    }
    if ValueKey !in current.entries {
      return Failure(KeyNotFound);
    }
    return Success(list + [current.entries[ValueKey]]);
  }

  lemma PrependStep(list: seq<D.Data>, x: D.Data, r: Result<seq<D.Data>, Error>)
    ensures Prepend(list, Prepend([x], r)) == Prepend(list + [x], r)
    ensures Prepend([], r) == r
  {
    if r.Success? {
      assert list + ([x] + r.value) == (list + [x]) + r.value;
      assert [] + r.value == r.value;
    }
  }

  /** A chain built by From reads back as its list. */
  lemma {:induction false} ListFromLinked(nodes: seq<D.Dictionary>, list: seq<D.Data>, i: nat)
    requires Linked(nodes, list) && i < |list|
    ensures ListFrom(nodes[i], |list| - i) == Success(list[i..])
    decreases |list| - i
  {
    assert NodeAt(nodes, i, list[i]);
    if i + 1 < |list| {
      ListFromLinked(nodes, list, i + 1);
      assert NodeAt(nodes, i + 1, list[i + 1]);
      assert D.IsTruthy(NextOf(nodes, i));
      assert list[i..] == [list[i]] + list[i + 1..];
    } else {
      assert list[i..] == [list[i]];
    }
  }

  /** AsList(From(l)) == l; the empty list goes through the empty dictionary. */
  lemma RoundTrip(list: seq<D.Data>, r: D.Data, nodes: seq<D.Dictionary>)
    requires r.Dict?
    requires list == [] ==> r.dict.entries == map[]
    requires list != [] ==> Linked(nodes, list) && r.dict == nodes[0]
    ensures ListOf(r, |list|) == Success(list)
  {
    if list != [] {
      ListFromLinked(nodes, list, 0);
      assert list[0..] == list;
    }
  }

  /** A chain that is its own successor is read forever: every fuel bound runs out. */
  lemma SelfLoopUnbounded(node: D.Dictionary, x: D.Data, fuel: nat)
    requires node.entries == Node(x, D.Dict(node))
    ensures ListOf(D.Dict(node), fuel) == Failure(Unbounded)
  {
    SelfLoopFrom(node, x, fuel);
  }

  lemma {:induction false} SelfLoopFrom(node: D.Dictionary, x: D.Data, fuel: nat)
    requires node.entries == Node(x, D.Dict(node))
    ensures ListFrom(node, fuel) == Failure(Unbounded)
    decreases fuel
  {
    if fuel > 0 {
      SelfLoopFrom(node, x, fuel - 1);
    }
  }

  // ---------------------------------------------------------------------
  // IsList
  // ---------------------------------------------------------------------

  /** Data.IsList as written: a dictionary with `value` and `next` whose `next` is again a list. */
  ghost function IsListAsWritten(d: D.Data, fuel: nat): Option<bool>
    reads *
    decreases fuel
  {
    if !d.Dict? then Some(false)
    else if ValueKey in d.dict.entries && NextKey in d.dict.entries then
      if fuel == 0 then None else IsListAsWritten(d.dict.entries[NextKey], fuel - 1)
    else Some(false)
  }

  /** As written, IsList never answers true: every finite chain ends in a non-dictionary. */
  lemma {:induction false} IsListNeverTrue(d: D.Data, fuel: nat)
    ensures IsListAsWritten(d, fuel) != Some(true)
    decreases fuel
  {
    if d.Dict? && ValueKey in d.dict.entries && NextKey in d.dict.entries && fuel > 0 {
      IsListNeverTrue(d.dict.entries[NextKey], fuel - 1);
    }
  }

  /** Corrected IsList on a non-empty node: the chain ends at a falsy `next`. */
  ghost function IsListNode(node: D.Dictionary, fuel: nat): Option<bool>
    reads *
    decreases fuel
  {
    if fuel == 0 then None
    else if NextKey !in node.entries || ValueKey !in node.entries then Some(false)
    else
      var next := node.entries[NextKey];
      if !D.IsTruthy(next) then Some(true)
      else if !next.Dict? then Some(false)
      else IsListNode(next.dict, fuel - 1)
  }

  /** Corrected IsList: the empty dictionary or a chain AsList can read. */
  ghost function IsList(d: D.Data, fuel: nat): Option<bool>
    reads *
  {
    if !d.Dict? then Some(false)
    else if |d.dict.entries| == 0 then Some(true)
    else IsListNode(d.dict, fuel)
  }

  lemma {:induction false} IsListNodeReads(node: D.Dictionary, fuel: nat)
    ensures IsListNode(node, fuel) == Some(true) <==> ListFrom(node, fuel).Success?
    ensures IsListNode(node, fuel) == None <==> ListFrom(node, fuel) == Failure(Unbounded)
    decreases fuel
  {
    if fuel > 0 && NextKey in node.entries && ValueKey in node.entries {
      var next := node.entries[NextKey];
      if D.IsTruthy(next) && next.Dict? {
        IsListNodeReads(next.dict, fuel - 1);
      }
    }
  }

  /** The corrected IsList holds exactly when AsList succeeds, and diverges exactly when AsList does. */
  lemma IsListMatchesAsList(d: D.Data, fuel: nat)
    ensures IsList(d, fuel) == Some(true) <==> ListOf(d, fuel).Success?
    ensures IsList(d, fuel) == None <==> ListOf(d, fuel) == Failure(Unbounded)
  {
    if d.Dict? && |d.dict.entries| > 0 {
      IsListNodeReads(d.dict, fuel);
    }
  }

  /** What From builds passes the corrected IsList, given enough fuel to reach its end. */
  lemma FromIsList(list: seq<D.Data>, r: D.Data, nodes: seq<D.Dictionary>)
    requires r.Dict?
    requires list == [] ==> r.dict.entries == map[]
    requires list != [] ==> Linked(nodes, list) && r.dict == nodes[0]
    ensures IsList(r, |list|) == Some(true)
    ensures IsListAsWritten(r, |list|) != Some(true)
  {
    RoundTrip(list, r, nodes);
    IsListMatchesAsList(r, |list|);
    IsListNeverTrue(r, |list|);
  }

  /** The chain's terminator 0 is falsy and every node is truthy, which is where AsList stops. */
  lemma TerminatorFalsy(nodes: seq<D.Dictionary>, list: seq<D.Data>, i: nat)
    requires Linked(nodes, list) && i < |list|
    ensures D.IsTruthy(NextOf(nodes, i)) <==> i + 1 < |list|
    ensures D.IsTruthy(D.Dict(nodes[i]))
  {
    assert NodeAt(nodes, i, list[i]);
    if i + 1 < |list| {
      assert NodeAt(nodes, i + 1, list[i + 1]);
    }
  }
}
