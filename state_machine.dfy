/*
 * The flattened control-flow state machine: numbered states that either run
 * an expression and jump to one next state (constant states) or test a
 * condition and jump to one of two states (conditional states).
 *
 * OptimizeStates threads jumps through the constant states whose expression
 * is pure: every jump into such a state is redirected to the first state
 * along its chain that is not one, and the pure states are removed.
 */
module StateMachines {

  /** A syntax tree of the surrounding compiler; only its purity matters here. */
  datatype Tree = Tree(id: nat, isPure: bool)

  datatype ConditionalState = ConditionalState(condition: Tree, ifId: seq<string>, positiveState: int, negativeState: int)

  datatype ConstantState = ConstantState(expression: Tree, nextState: int)

  // ---------------------------------------------------------------------
  // Keys: the states in label order
  // ---------------------------------------------------------------------

  predicate StrictlyIncreasing(s: seq<int>) {
    forall i, j :: 0 <= i < j < |s| ==> s[i] < s[j]
  }

  /** `order` enumerates the keys of a dictionary: each key exactly once. */
  ghost predicate Lists(order: seq<int>, keys: set<int>) {
    (forall k :: k in order <==> k in keys) &&
    (forall i, j :: 0 <= i < j < |order| ==> order[i] != order[j])
  }

  /** Places `x` into an increasing sequence, dropping it if already present. */
  function Insert(x: int, s: seq<int>): (r: seq<int>)
    requires StrictlyIncreasing(s)
    ensures StrictlyIncreasing(r)
    ensures forall y {:trigger y in r} :: y in r <==> y == x || y in s
  {
    if s == [] then [x]
    else if x < s[0] then
      assert forall y :: y in s ==> x < y by { HeadAndTail(s); }
      ConsIncreasing(x, s);
      [x] + s
    else if x == s[0] then s
    else
      var rest := Insert(x, s[1..]);
      assert forall y :: y in rest ==> s[0] < y by { HeadAndTail(s); }
      ConsIncreasing(s[0], rest);
      [s[0]] + rest
  }

  /** A value below every element of an increasing sequence can go in front. */
  lemma ConsIncreasing(x: int, s: seq<int>)
    requires StrictlyIncreasing(s)
    requires forall y :: y in s ==> x < y
    ensures StrictlyIncreasing([x] + s)
  {
    var r := [x] + s;
    forall i, j | 0 <= i < j < |r|
      ensures r[i] < r[j]
    {
      if i == 0 {
        assert r[j] == s[j - 1] && s[j - 1] in s;
      } else {
        assert r[i] == s[i - 1] && r[j] == s[j - 1];
      }
    }
  }

  /** The elements of `xs` without duplicates, in increasing order. */
  function SortDistinct(xs: seq<int>): (r: seq<int>)
    ensures StrictlyIncreasing(r)
    ensures forall y {:trigger y in r} :: y in r <==> y in xs
  {
    if xs == [] then []
    else
      var r := Insert(xs[|xs| - 1], SortDistinct(xs[..|xs| - 1]));
      assert forall y :: y in xs <==> y == xs[|xs| - 1] || y in xs[..|xs| - 1];
      r
  }

  /** The head of an increasing sequence is its least element; the tail holds the others. */
  lemma HeadAndTail(r: seq<int>)
    requires StrictlyIncreasing(r) && r != []
    ensures forall y :: y in r ==> r[0] <= y
    ensures forall y {:trigger y in r[1..]} :: y in r[1..] <==> y in r && y != r[0]
  {
    forall y | y in r ensures r[0] <= y && (y in r[1..] <==> y != r[0]) {
      var i :| 0 <= i < |r| && r[i] == y;
      if i != 0 {
        assert r[1..][i - 1] == y;
      }
    }
  }

  lemma HeadIn(s: seq<int>)
    ensures |s| == 0 || s[0] in s
  {
  }

  /** Two increasing sequences with the same elements are the same sequence. */
  lemma {:induction false} IncreasingUnique(r: seq<int>, t: seq<int>)
    requires StrictlyIncreasing(r) && StrictlyIncreasing(t)
    requires forall y :: y in r <==> y in t
    ensures r == t
    decreases |r|
  {
    if r == [] || t == [] {
      HeadIn(r);
      HeadIn(t);
    } else {
      HeadAndTail(r);
      HeadAndTail(t);
      assert r[0] in t && t[0] in r;
      IncreasingUnique(r[1..], t[1..]);
      assert r == [r[0]] + r[1..] && t == [t[0]] + t[1..];
    }
  }

  /**
   * The key order in which the states are listed and emitted: the keys of
   * both dictionaries, enumerated in `conditionOrder` and `constantOrder`,
   * without duplicates and sorted.
   */
  function Keys(conditions: map<int, ConditionalState>, constants: map<int, ConstantState>,
                conditionOrder: seq<int>, constantOrder: seq<int>): (r: seq<int>)
    requires Lists(conditionOrder, conditions.Keys) && Lists(constantOrder, constants.Keys)
    ensures StrictlyIncreasing(r)
    ensures forall k {:trigger k in r} :: k in r <==> k in conditions || k in constants
  {
    SortDistinct(conditionOrder + constantOrder)
  }

  /** The dictionaries' enumeration order does not change the key order. */
  lemma KeysIgnoreEnumeration(conditions: map<int, ConditionalState>, constants: map<int, ConstantState>,
                              conditionOrder: seq<int>, constantOrder: seq<int>,
                              conditionOrder': seq<int>, constantOrder': seq<int>)
    requires Lists(conditionOrder, conditions.Keys) && Lists(constantOrder, constants.Keys)
    requires Lists(conditionOrder', conditions.Keys) && Lists(constantOrder', constants.Keys)
    ensures Keys(conditions, constants, conditionOrder, constantOrder)
         == Keys(conditions, constants, conditionOrder', constantOrder')
  {
    IncreasingUnique(Keys(conditions, constants, conditionOrder, constantOrder),
                     Keys(conditions, constants, conditionOrder', constantOrder'));
  }

  // ---------------------------------------------------------------------
  // Following pure constant states
  // ---------------------------------------------------------------------

  /** The constant states whose expression is pure: the ones OptimizeStates removes. */
  function Bad(constants: map<int, ConstantState>): (r: set<int>)
    ensures r <= constants.Keys
  {
    set k | k in constants && constants[k].expression.isPure
  }

  /** Where `n` jumps from `k` lead, stopping at the first state outside `bad`. */
  function Walk(constants: map<int, ConstantState>, bad: set<int>, k: int, n: nat): int
    requires bad <= constants.Keys
    decreases n
  {
    if n == 0 || k !in bad then k else Walk(constants, bad, constants[k].nextState, n - 1)
  }

  ghost predicate Leaves(constants: map<int, ConstantState>, bad: set<int>, k: int)
    requires bad <= constants.Keys
  {
    exists n: nat :: Walk(constants, bad, k, n) !in bad
  }

  /** No chain of pure constant states runs forever. */
  ghost predicate NoPureCycle(constants: map<int, ConstantState>) {
    forall k :: k in Bad(constants) ==> Leaves(constants, Bad(constants), k)
  }

  /** The search for a good state started at `k` ends: `k` is kept, or its
      chain of pure states leaves them. */
  ghost predicate Settles(constants: map<int, ConstantState>, k: int) {
    k in Bad(constants) ==> Leaves(constants, Bad(constants), k)
  }

  /** Every search the first pass starts ends: the next state of each kept constant state settles. */
  ghost predicate KeptSettle(constants: map<int, ConstantState>) {
    forall k :: k in constants && k !in Bad(constants) ==> Settles(constants, constants[k].nextState)
  }

  /** Every search the second pass starts ends: both jumps of each conditional state settle. */
  ghost predicate ConditionsSettle(constants: map<int, ConstantState>, conditions: map<int, ConditionalState>) {
    forall k :: k in conditions ==>
      Settles(constants, conditions[k].positiveState) && Settles(constants, conditions[k].negativeState)
  }

  /** A number of jumps after which the walk from `k` is outside `bad`. */
  ghost function Steps(constants: map<int, ConstantState>, bad: set<int>, k: int): (n: nat)
    requires bad <= constants.Keys
    requires Leaves(constants, bad, k)
    ensures Walk(constants, bad, k, n) !in bad
  {
    var n: nat :| Walk(constants, bad, k, n) !in bad;
    n
  }

  /** The first state outside `bad` reached from `k`. */
  ghost function Settle(constants: map<int, ConstantState>, bad: set<int>, k: int): int
    requires bad <= constants.Keys
    requires Leaves(constants, bad, k)
  {
    Walk(constants, bad, k, Steps(constants, bad, k))
  }

  /** The state a jump to `k` is redirected to. */
  ghost function Target(constants: map<int, ConstantState>, k: int): int
    requires Settles(constants, k)
  {
    if k in Bad(constants) then Settle(constants, Bad(constants), k) else k
  }

  ghost function OptimizedConstants(constants: map<int, ConstantState>): map<int, ConstantState>
    requires KeptSettle(constants)
  {
    map k | k in constants && k !in Bad(constants) ::
      ConstantState(constants[k].expression, Target(constants, constants[k].nextState))
  }

  ghost function OptimizedConditions(constants: map<int, ConstantState>, conditions: map<int, ConditionalState>): map<int, ConditionalState>
    requires ConditionsSettle(constants, conditions)
  {
    map k | k in conditions ::
      conditions[k].(positiveState := Target(constants, conditions[k].positiveState),
                     negativeState := Target(constants, conditions[k].negativeState))
  }

  /** The two maps agree on the states of `bad`. */
  ghost predicate AgreeOn(c1: map<int, ConstantState>, c2: map<int, ConstantState>, bad: set<int>) {
    bad <= c1.Keys && bad <= c2.Keys && forall k :: k in bad ==> c1[k] == c2[k]
  }

  // ---------------------------------------------------------------------
  // Walk lemmas
  // ---------------------------------------------------------------------

  /** One more jump extends the walk by one step, unless it has already left `bad`. */
  lemma {:induction false} WalkStep(constants: map<int, ConstantState>, bad: set<int>, k: int, n: nat)
    requires bad <= constants.Keys
    ensures var w := Walk(constants, bad, k, n);
      Walk(constants, bad, k, n + 1) == if w in bad then constants[w].nextState else w
    decreases n
  {
    if n > 0 && k in bad {
      WalkStep(constants, bad, constants[k].nextState, n - 1);
    }
  }

  /** Once outside `bad`, the walk stays put. */
  lemma {:induction false} WalkStable(constants: map<int, ConstantState>, bad: set<int>, k: int, n: nat, m: nat)
    requires bad <= constants.Keys
    requires Walk(constants, bad, k, n) !in bad
    ensures Walk(constants, bad, k, n + m) == Walk(constants, bad, k, n)
    decreases m
  {
    if m > 0 {
      WalkStable(constants, bad, k, n, m - 1);
      WalkStep(constants, bad, k, n + m - 1);
    }
  }

  /** Every exit from `bad` along one walk is the same state. */
  lemma ExitUnique(constants: map<int, ConstantState>, bad: set<int>, k: int, n: nat, m: nat)
    requires bad <= constants.Keys
    requires Walk(constants, bad, k, n) !in bad && Walk(constants, bad, k, m) !in bad
    ensures Walk(constants, bad, k, n) == Walk(constants, bad, k, m)
  {
    if n <= m {
      WalkStable(constants, bad, k, n, m - n);
    } else {
      WalkStable(constants, bad, k, m, n - m);
    }
  }

  /** Walks only read the states of `bad`. */
  lemma {:induction false} WalkAgrees(c1: map<int, ConstantState>, c2: map<int, ConstantState>, bad: set<int>, k: int, n: nat)
    requires AgreeOn(c1, c2, bad)
    ensures Walk(c1, bad, k, n) == Walk(c2, bad, k, n)
    decreases n
  {
    if n > 0 && k in bad {
      WalkAgrees(c1, c2, bad, c1[k].nextState, n - 1);
    }
  }

  /** A set of pure states that jump only among themselves traps every walk that enters it. */
  lemma {:induction false} WalkTrapped(constants: map<int, ConstantState>, cycle: set<int>, k: int, n: nat)
    requires cycle <= Bad(constants)
    requires forall s :: s in cycle ==> constants[s].nextState in cycle
    requires k in cycle
    ensures Walk(constants, Bad(constants), k, n) in cycle
    decreases n
  {
    if n > 0 {
      WalkTrapped(constants, cycle, constants[k].nextState, n - 1);
    }
  }

  /** On a cycle of pure constant states the search for a good state never ends. */
  lemma PureCycleNeverSettles(constants: map<int, ConstantState>, cycle: set<int>, k: int)
    requires cycle <= Bad(constants)
    requires forall s :: s in cycle ==> constants[s].nextState in cycle
    requires k in cycle
    ensures !Leaves(constants, Bad(constants), k)
    ensures !NoPureCycle(constants)
  {
    forall n: nat ensures Walk(constants, Bad(constants), k, n) in Bad(constants) {
      WalkTrapped(constants, cycle, k, n);
    }
  }

  // ---------------------------------------------------------------------
  // What the optimization achieves
  // ---------------------------------------------------------------------

  /** Without a pure cycle every search ends, whatever jumps into the pure states. */
  lemma NoPureCycleSettles(constants: map<int, ConstantState>, conditions: map<int, ConditionalState>)
    requires NoPureCycle(constants)
    ensures forall k :: Settles(constants, k)
    ensures KeptSettle(constants) && ConditionsSettle(constants, conditions)
  {
  }

  /** A pure cycle that no kept state and no condition jumps into does not
      stop the optimization: here states 0 and 1 jump to each other. */
  lemma UnreachableCycleSettles(t: Tree)
    requires t.isPure
    ensures var constants := map[0 := ConstantState(t, 1), 1 := ConstantState(t, 0)];
      !NoPureCycle(constants) && KeptSettle(constants) && ConditionsSettle(constants, map[]) &&
      OptimizedConstants(constants) == map[]
  {
    var constants := map[0 := ConstantState(t, 1), 1 := ConstantState(t, 0)];
    assert Bad(constants) == {0, 1};
    PureCycleNeverSettles(constants, {0, 1}, 0);
  }

  /** A jump is redirected to a state that is not removed. */
  lemma TargetNotBad(constants: map<int, ConstantState>, k: int)
    requires Settles(constants, k)
    ensures Target(constants, k) !in Bad(constants)
    ensures k !in Bad(constants) ==> Target(constants, k) == k
  {
  }

  /** Redirecting through a pure state lands where its own jump is redirected. */
  lemma TargetSkips(constants: map<int, ConstantState>, k: int)
    requires k in Bad(constants) && Leaves(constants, Bad(constants), k)
    ensures Settles(constants, constants[k].nextState)
    ensures Target(constants, k) == Target(constants, constants[k].nextState)
  {
    var bad := Bad(constants);
    var next := constants[k].nextState;
    var n := Steps(constants, bad, k);
    assert n != 0;
    assert Walk(constants, bad, k, n) == Walk(constants, bad, next, n - 1);
    if next in bad {
      ExitUnique(constants, bad, next, n - 1, Steps(constants, bad, next));
    }
  }

  /**
   * The optimized constant states are exactly the impure ones, with their
   * expressions unchanged, and none of them jumps to a removed state.
   */
  lemma OptimizedConstantsShape(constants: map<int, ConstantState>)
    requires KeptSettle(constants)
    ensures OptimizedConstants(constants).Keys == constants.Keys - Bad(constants)
    ensures forall k :: k in OptimizedConstants(constants) ==>
      var s := OptimizedConstants(constants)[k];
      s.expression == constants[k].expression && !s.expression.isPure &&
      s.nextState !in Bad(constants)
  {
    forall k | k in OptimizedConstants(constants)
      ensures OptimizedConstants(constants)[k].nextState !in Bad(constants)
    {
      TargetNotBad(constants, constants[k].nextState);
    }
  }

  /** The conditional states keep their keys, conditions and ids; neither jump goes to a removed state. */
  lemma OptimizedConditionsShape(constants: map<int, ConstantState>, conditions: map<int, ConditionalState>)
    requires ConditionsSettle(constants, conditions)
    ensures OptimizedConditions(constants, conditions).Keys == conditions.Keys
    ensures forall k :: k in conditions ==>
      var s := OptimizedConditions(constants, conditions)[k];
      s.condition == conditions[k].condition && s.ifId == conditions[k].ifId &&
      s.positiveState !in Bad(constants) && s.negativeState !in Bad(constants)
  {
    forall k | k in conditions
      ensures OptimizedConditions(constants, conditions)[k].positiveState !in Bad(constants)
      ensures OptimizedConditions(constants, conditions)[k].negativeState !in Bad(constants)
    {
      TargetNotBad(constants, conditions[k].positiveState);
      TargetNotBad(constants, conditions[k].negativeState);
    }
  }

  /** Optimizing a second time changes nothing. */
  lemma OptimizeIdempotent(constants: map<int, ConstantState>, conditions: map<int, ConditionalState>)
    requires KeptSettle(constants) && ConditionsSettle(constants, conditions)
    ensures NoPureCycle(OptimizedConstants(constants)) && KeptSettle(OptimizedConstants(constants))
    ensures ConditionsSettle(OptimizedConstants(constants), OptimizedConditions(constants, conditions))
    ensures OptimizedConstants(OptimizedConstants(constants)) == OptimizedConstants(constants)
    ensures OptimizedConditions(OptimizedConstants(constants), OptimizedConditions(constants, conditions))
         == OptimizedConditions(constants, conditions)
  {
    var once := OptimizedConstants(constants);
    OptimizedConstantsShape(constants);
    assert Bad(once) == {};
    assert forall k :: Target(once, k) == k;
  }

  // ---------------------------------------------------------------------
  // The rewriter
  // ---------------------------------------------------------------------

  class FlowRewriter {
    var conditionalStates: map<int, ConditionalState>
    var constantStates: map<int, ConstantState>
    var breakState: int
    var continueState: int
    var returnState: int
    var nextState: int

    constructor ()
      ensures conditionalStates == map[] && constantStates == map[]
      ensures breakState == -1 && continueState == -1 && returnState == -1 && nextState == 0
    {
      conditionalStates := map[];
      constantStates := map[];
      breakState := -1;
      continueState := -1;
      returnState := -1;
      nextState := 0;
    }

    /** Follows jumps through the states of `badKeys`, reading the live constant states. */
    method FindGoodState(ghost original: map<int, ConstantState>, badKeys: set<int>, start: int) returns (r: int)
      requires Settles(original, start) && badKeys == Bad(original)
      requires AgreeOn(constantStates, original, badKeys)
      ensures r == Target(original, start)
    {
      ghost var n: nat := 0;
      if start in badKeys {
        n := Steps(original, badKeys, start);
      }
      ghost var i: nat := 0;
      r := start;
      while r in badKeys
        invariant i <= n
        invariant r == Walk(original, badKeys, start, i)
        invariant start in badKeys ==> Walk(original, badKeys, start, n) !in badKeys
        decreases n - i
      {
        WalkStep(original, badKeys, start, i);
        r := constantStates[r].nextState;
        i := i + 1;
      }
      if start in badKeys {
        ExitUnique(original, badKeys, start, i, n);
      }
    }

    /**
     * First pass: every kept constant state jumps to its target. The pass
     * walks a snapshot of the dictionary, listed in `snapshot`.
     */
    method RedirectConstants(ghost original: map<int, ConstantState>, badKeys: set<int>, snapshot: seq<int>)
      requires KeptSettle(original) && badKeys == Bad(original) && constantStates == original
      requires Lists(snapshot, original.Keys)
      modifies this`constantStates
      ensures constantStates.Keys == original.Keys
      ensures AgreeOn(constantStates, original, badKeys)
      ensures forall k :: k in original && k !in badKeys ==> constantStates[k] == OptimizedConstants(original)[k]
    {
      for i := 0 to |snapshot|
        invariant constantStates.Keys == original.Keys
        invariant AgreeOn(constantStates, original, badKeys)
        invariant forall k :: k in snapshot[..i] && k !in badKeys ==>
          constantStates[k] == OptimizedConstants(original)[k]
        invariant forall k :: k in original && k !in snapshot[..i] ==> constantStates[k] == original[k]
      {
        var key := snapshot[i];
        assert key !in snapshot[..i];
        if key !in badKeys {
          var state := constantStates[key];
          var next := FindGoodState(original, badKeys, state.nextState);
          constantStates := constantStates[key := ConstantState(state.expression, next)];
        }
        assert snapshot[..i + 1] == snapshot[..i] + [key];
      }
      assert snapshot[..|snapshot|] == snapshot;
    }

    /**
     * Second pass: both jumps of every conditional state go to their
     * targets, over a snapshot listed in `snapshot`.
     */
    method RedirectConditions(ghost original: map<int, ConstantState>, badKeys: set<int>, snapshot: seq<int>)
      requires ConditionsSettle(original, conditionalStates) && badKeys == Bad(original)
      requires AgreeOn(constantStates, original, badKeys)
      requires Lists(snapshot, conditionalStates.Keys)
      modifies this`conditionalStates
      ensures conditionalStates == OptimizedConditions(original, old(conditionalStates))
    {
      ghost var before := conditionalStates;
      ghost var opt := OptimizedConditions(original, before);
      ghost var done: set<int> := {};
      for i := 0 to |snapshot|
        invariant conditionalStates.Keys == before.Keys
        invariant forall k :: k in done ==> k in before && conditionalStates[k] == opt[k]
        invariant forall k :: k in before && k !in done ==> conditionalStates[k] == before[k]
        invariant forall j :: 0 <= j < i ==> snapshot[j] in done
        invariant forall j :: i <= j < |snapshot| ==> snapshot[j] !in done
      {
        var key := snapshot[i];
        var state := conditionalStates[key];
        var positive := FindGoodState(original, badKeys, state.positiveState);
        var negative := FindGoodState(original, badKeys, state.negativeState);
        conditionalStates := conditionalStates[key := ConditionalState(state.condition, state.ifId, positive, negative)];
        done := done + {key};
      }
      forall k | k in before
        ensures k in done
      {
        var j :| 0 <= j < |snapshot| && snapshot[j] == k;
      }
      assert opt.Keys == before.Keys;
      assert forall k :: k in conditionalStates ==> conditionalStates[k] == opt[k];
    }

    /** Third pass: the pure constant states are removed, in the order `removal` lists them. */
    method RemoveStates(badKeys: set<int>, removal: seq<int>)
      requires Lists(removal, badKeys)
      modifies this`constantStates
      ensures constantStates == old(constantStates) - badKeys
    {
      ghost var done: set<int> := {};
      for i := 0 to |removal|
        invariant constantStates == old(constantStates) - done
        invariant forall j :: 0 <= j < i ==> removal[j] in done
        invariant forall k :: k in done ==> k in badKeys
      {
        constantStates := constantStates - {removal[i]};
        done := done + {removal[i]};
      }
      assert forall k :: k in done ==> k in badKeys;
      forall k | k in badKeys
        ensures k in done
      {
        var j :| 0 <= j < |removal| && removal[j] == k;
      }
      assert done <= badKeys;
      assert badKeys <= done;
    }

    /**
     * Redirects every jump past the pure constant states, then removes them.
     * The three orders are the enumeration orders of the two dictionaries
     * and of the set of pure keys.
     */
    method OptimizeStates(constantOrder: seq<int>, conditionOrder: seq<int>, badOrder: seq<int>)
      requires KeptSettle(constantStates) && ConditionsSettle(constantStates, conditionalStates)
      requires Lists(constantOrder, constantStates.Keys) && Lists(conditionOrder, conditionalStates.Keys)
      requires Lists(badOrder, Bad(constantStates))
      modifies this
      ensures constantStates == OptimizedConstants(old(constantStates))
      ensures conditionalStates == OptimizedConditions(old(constantStates), old(conditionalStates))
      ensures breakState == old(breakState) && continueState == old(continueState)
      ensures returnState == old(returnState) && nextState == old(nextState)
    {
      ghost var original := constantStates;
      var badKeys := set k | k in constantStates && constantStates[k].expression.isPure;
      assert badKeys == Bad(original);
      RedirectConstants(original, badKeys, constantOrder);
      RedirectConditions(original, badKeys, conditionOrder);
      RemoveStates(badKeys, badOrder);
      assert constantStates.Keys == OptimizedConstants(original).Keys;
      assert forall k :: k in constantStates ==> constantStates[k] == OptimizedConstants(original)[k];
    }
  }
}
