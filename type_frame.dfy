// The type checker's persistent frame (src/helix/TypeChecking/TypeFrame.cs).
// Every With*/Pop*/Combine* builder leaves the receiver as it was and
// returns a new frame, except WithVariableRefinement on a promoted path,
// which returns the receiver itself; only the temporary-name counter
// changes in place.
//
// The nominal types, the signatures and the Helix types themselves are not
// part of this model: they are the type parameters N, S and T. Their
// operations that the frame calls (GetSupertype, CanUnifyFrom) are passed
// in as functions.

module TypeFrames {
  import opened Wrappers
  import ImmutableMap
  import Decimal
  import AnalysisScope

  type IdentifierPath = AnalysisScope.IdentifierPath

  /** The exceptions a builder can throw. */
  datatype FrameError =
    | EmptyScope            // Pop of the root scope
    | AlreadyDeclared       // WithDeclaration of a path already declared
    | DuplicateSignature    // ImmutableDictionary.Add with a different value
    | KeyNotFound           // an indexer on a missing key
    | CannotUnify           // CanUnifyFrom failed: InvalidCastException

  datatype Frame<N(==), S(==), T(==)> = Frame(
    scope: IdentifierPath,
    declarations: map<IdentifierPath, N>,
    functionSignatures: map<IdentifierPath, S>,
    structSignatures: map<IdentifierPath, S>,
    unionSignatures: map<IdentifierPath, S>,
    refinements: map<IdentifierPath, T>,
    breakFrames: set<Frame<N, S, T>>,
    continueFrames: set<Frame<N, S, T>>,
    promoted: set<IdentifierPath>)

  function EmptyFrame<N(==), S(==), T(==)>(): (f: Frame<N, S, T>)
    ensures f.scope.segments == [] && f.declarations == map[] && f.refinements == map[]
    ensures f.functionSignatures == map[] && f.structSignatures == map[] && f.unionSignatures == map[]
    ensures f.breakFrames == {} && f.continueFrames == {} && f.promoted == {}
  {
    Frame(AnalysisScope.IdentifierPath([]), map[], map[], map[], map[], map[], {}, {}, {})
  }

  function WithScope<N(==), S(==), T(==)>(f: Frame<N, S, T>, segment: string): (r: Frame<N, S, T>)
    ensures r.scope.segments == f.scope.segments + [segment]
    ensures r.(scope := f.scope) == f
  {
    f.(scope := f.scope.Append(segment))
  }

  function PopScope<N(==), S(==), T(==)>(f: Frame<N, S, T>): (r: Result<Frame<N, S, T>, FrameError>)
    ensures r.Failure? <==> f.scope.segments == []
    ensures r.Success? ==> r.value.scope.segments == f.scope.segments[..|f.scope.segments| - 1]
    ensures r.Success? ==> r.value.(scope := f.scope) == f
  {
    match f.scope.Pop()
    case Failure(_) => Failure(EmptyScope)
    case Success(p) => Success(f.(scope := p))
  }

  lemma PopScopeOfWithScope<N, S, T>(f: Frame<N, S, T>, segment: string)
    ensures PopScope(WithScope(f, segment)) == Success(f)
  {
    AnalysisScope.PopAppend(f.scope, segment);
  }

  function WithDeclaration<N(==), S(==), T(==)>(f: Frame<N, S, T>, path: IdentifierPath, t: N): (r: Result<Frame<N, S, T>, FrameError>)
    ensures r.Failure? <==> path in f.declarations
    ensures r.Failure? ==> r.error == AlreadyDeclared
    ensures r.Success? ==> r.value.declarations == f.declarations[path := t]
    ensures r.Success? ==> r.value.(declarations := f.declarations) == f
  {
    if path in f.declarations then Failure(AlreadyDeclared)
    else Success(f.(declarations := f.declarations[path := t]))
  }

  /** ImmutableDictionary.Add, with its exception as a FrameError. */
  function AddSignature<S(==)>(m: map<IdentifierPath, S>, path: IdentifierPath, sig: S): (r: Result<map<IdentifierPath, S>, FrameError>)
    ensures r.Success? <==> path !in m || m[path] == sig
    ensures r.Success? ==> r.value == m[path := sig]
    ensures r.Failure? ==> r.error == DuplicateSignature
  {
    match ImmutableMap.Add(m, path, sig)
    case Success(m') => Success(m')
    case Failure(_) => Failure(DuplicateSignature)
  }

  function WithFunctionSignature<N(==), S(==), T(==)>(f: Frame<N, S, T>, path: IdentifierPath, sig: S): (r: Result<Frame<N, S, T>, FrameError>)
    ensures r.Success? <==> path !in f.functionSignatures || f.functionSignatures[path] == sig
    ensures r.Success? ==> r.value.functionSignatures == f.functionSignatures[path := sig]
    ensures r.Success? ==> r.value.(functionSignatures := f.functionSignatures) == f
  {
    var m :- AddSignature(f.functionSignatures, path, sig);
    Success(f.(functionSignatures := m))
  }

  function WithStructSignature<N(==), S(==), T(==)>(f: Frame<N, S, T>, path: IdentifierPath, sig: S): (r: Result<Frame<N, S, T>, FrameError>)
    ensures r.Success? <==> path !in f.structSignatures || f.structSignatures[path] == sig
    ensures r.Success? ==> r.value.structSignatures == f.structSignatures[path := sig]
    ensures r.Success? ==> r.value.(structSignatures := f.structSignatures) == f
  {
    var m :- AddSignature(f.structSignatures, path, sig);
    Success(f.(structSignatures := m))
  }

  function WithUnionSignature<N(==), S(==), T(==)>(f: Frame<N, S, T>, path: IdentifierPath, sig: S): (r: Result<Frame<N, S, T>, FrameError>)
    ensures r.Success? <==> path !in f.unionSignatures || f.unionSignatures[path] == sig
    ensures r.Success? ==> r.value.unionSignatures == f.unionSignatures[path := sig]
    ensures r.Success? ==> r.value.(unionSignatures := f.unionSignatures) == f
  {
    var m :- AddSignature(f.unionSignatures, path, sig);
    Success(f.(unionSignatures := m))
  }

  /** A refinement of a promoted variable is ignored: its value may change
      through a pointer, so no flow-typing fact about it can be kept. */
  function WithVariableRefinement<N(==), S(==), T(==)>(f: Frame<N, S, T>, path: IdentifierPath, t: T): (r: Frame<N, S, T>)
    ensures path in f.promoted ==> r == f
    ensures path !in f.promoted ==> r.refinements == f.refinements[path := t] && r.(refinements := f.refinements) == f
  {
    if path in f.promoted then f
    else f.(refinements := f.refinements[path := t])
  }

  /** `generalize` is the result of following GetSupertype to its fixpoint,
      which TypeFrame.cs does with a loop over types outside this model. */
  function WithVariablePromotion<N(==), S(==), T(==)>(f: Frame<N, S, T>, path: IdentifierPath, generalize: T -> T): (r: Result<Frame<N, S, T>, FrameError>)
    ensures r.Failure? <==> path !in f.refinements
    ensures r.Success? ==> r.value.promoted == f.promoted + {path}
    ensures r.Success? ==> r.value.refinements == f.refinements[path := generalize(f.refinements[path])]
    ensures r.Success? ==> r.value.(refinements := f.refinements, promoted := f.promoted) == f
  {
    if path !in f.refinements then Failure(KeyNotFound)
    else Success(f.(refinements := f.refinements[path := generalize(f.refinements[path])],
                    promoted := f.promoted + {path}))
  }

  /** Once promoted, a variable keeps its general type: a later refinement
      of it changes nothing. */
  lemma RefinementAfterPromotion<N, S, T>(f: Frame<N, S, T>, path: IdentifierPath, generalize: T -> T, t: T)
    requires path in f.refinements
    ensures var p := WithVariablePromotion(f, path, generalize);
      p.Success? && WithVariableRefinement(p.value, path, t) == p.value
  {
  }

  function WithBreakFrame<N(==), S(==), T(==)>(f: Frame<N, S, T>, g: Frame<N, S, T>): (r: Frame<N, S, T>)
    ensures r.breakFrames == f.breakFrames + {g}
    ensures r.(breakFrames := f.breakFrames) == f
  {
    f.(breakFrames := f.breakFrames + {g})
  }

  function WithContinueFrame<N(==), S(==), T(==)>(f: Frame<N, S, T>, g: Frame<N, S, T>): (r: Frame<N, S, T>)
    ensures r.continueFrames == f.continueFrames + {g}
    ensures r.(continueFrames := f.continueFrames) == f
  {
    f.(continueFrames := f.continueFrames + {g})
  }

  function PopLoopFrames<N(==), S(==), T(==)>(f: Frame<N, S, T>): (r: Frame<N, S, T>)
    ensures r.breakFrames == {} && r.continueFrames == {}
    ensures r.(breakFrames := f.breakFrames, continueFrames := f.continueFrames) == f
  {
    f.(breakFrames := {}, continueFrames := {})
  }

  /** Leaving a loop forgets every break and continue frame recorded in it,
      and only those. */
  lemma PopLoopFramesForgetsLoop<N, S, T>(f: Frame<N, S, T>, b: Frame<N, S, T>, c: Frame<N, S, T>)
    ensures PopLoopFrames(WithContinueFrame(WithBreakFrame(f, b), c)) == PopLoopFrames(f)
    ensures PopLoopFrames(PopLoopFrames(f)) == PopLoopFrames(f)
  {
  }

  function CombineLoopFramesWith<N(==), S(==), T(==)>(f: Frame<N, S, T>, other: Frame<N, S, T>): (r: Frame<N, S, T>)
    ensures r.breakFrames == f.breakFrames + other.breakFrames
    ensures r.continueFrames == f.continueFrames + other.continueFrames
    ensures r.(breakFrames := f.breakFrames, continueFrames := f.continueFrames) == f
  {
    f.(breakFrames := f.breakFrames + other.breakFrames,
       continueFrames := f.continueFrames + other.continueFrames)
  }

  /** What CombineRefinementsWith does with one key of either frame:
      Success(None) removes it, Success(Some(t)) sets it to t. */
  function CombinedKey<N(==), S(==), T(==)>(f: Frame<N, S, T>, other: Frame<N, S, T>, unify: (T, T) -> Option<T>, key: IdentifierPath): (r: Result<Option<T>, FrameError>)
    ensures r.Success? ==> (r.value.None? <==> key in f.promoted + other.promoted)
  {
    if key in f.promoted || key in other.promoted then Success(None)
    else if key !in f.declarations then
      if key in other.refinements then Success(Some(other.refinements[key])) else Failure(KeyNotFound)
    else if key !in other.declarations then
      if key in f.refinements then Success(Some(f.refinements[key])) else Failure(KeyNotFound)
    else if key !in f.refinements || key !in other.refinements then Failure(KeyNotFound)
    else match unify(f.refinements[key], other.refinements[key])
      case None => Failure(CannotUnify)
      case Some(t) => Success(Some(t))
  }

  /** The loop of CombineRefinementsWith: visits every key once, starting
      from the receiver's refinements, and removes or sets each key as
      `outcome` says; the first exception aborts. */
  method JoinRefinements<T>(start: map<IdentifierPath, T>, keys: set<IdentifierPath>, outcome: IdentifierPath -> Result<Option<T>, FrameError>)
    returns (r: Result<map<IdentifierPath, T>, FrameError>)
    requires start.Keys <= keys
    ensures r.Failure? <==> exists k :: k in keys && outcome(k).Failure?
    ensures r.Failure? ==> exists k :: k in keys && outcome(k) == Failure(r.error)
    ensures r.Success? ==> forall k :: k in r.value <==> k in keys && outcome(k).value.Some?
    ensures r.Success? ==> forall k :: k in r.value ==> outcome(k) == Success(Some(r.value[k]))
  {
    var values := start;
    var remaining := keys;
    ghost var done: set<IdentifierPath> := {};
    while remaining != {}
      invariant remaining <= keys && done == keys - remaining
      invariant forall k :: k in values ==> k in keys
      invariant forall k :: k in done ==> outcome(k).Success?
      invariant forall k :: k in done ==> (k in values <==> outcome(k).value.Some?)
      invariant forall k :: k in done && k in values ==> outcome(k) == Success(Some(values[k]))
      decreases |remaining|
    {
      var key :| key in remaining;
      var o := outcome(key);
      if o.Failure? {
        return Failure(o.error);
      }
      if o.value.None? {
        values := values - {key};
      } else {
        values := values[key := o.value.value];
      }
      remaining := remaining - {key};
      done := done + {key};
    }
    r := Success(values);
  }

  /** Joins the refinements of two branches. Every promoted key of either
      frame is dropped, and the promoted sets are united; an exception for
      any key aborts the whole join. */
  method CombineRefinementsWith<N(==), S(==), T(==)>(f: Frame<N, S, T>, other: Frame<N, S, T>, unify: (T, T) -> Option<T>)
    returns (r: Result<Frame<N, S, T>, FrameError>)
    ensures var keys := f.refinements.Keys + other.refinements.Keys;
      r.Failure? <==> exists k :: k in keys && CombinedKey(f, other, unify, k).Failure?
    ensures r.Success? ==> r.value.promoted == f.promoted + other.promoted
    ensures r.Success? ==> forall k :: k in r.value.refinements <==>
      k in f.refinements.Keys + other.refinements.Keys && k !in f.promoted + other.promoted
    ensures r.Success? ==> forall k :: k in r.value.refinements ==>
      CombinedKey(f, other, unify, k) == Success(Some(r.value.refinements[k]))
    ensures r.Success? ==> r.value.(refinements := f.refinements, promoted := f.promoted) == f
  {
    var keys := f.refinements.Keys + other.refinements.Keys;
    var outcome := k => CombinedKey(f, other, unify, k);
    var values := JoinRefinements(f.refinements, keys, outcome);
    if values.Failure? {
      return Failure(values.error);
    }
    r := Success(f.(refinements := values.value, promoted := f.promoted + other.promoted));
  }

  /** A frame joined with itself keeps every unpromoted refinement, given
      that a type unifies with itself to itself. */
  lemma CombineWithItself<N, S, T>(f: Frame<N, S, T>, unify: (T, T) -> Option<T>, key: IdentifierPath)
    requires forall t :: unify(t, t) == Some(t)
    requires key in f.refinements
    ensures key in f.promoted ==> CombinedKey(f, f, unify, key) == Success(None)
    ensures key !in f.promoted ==> CombinedKey(f, f, unify, key) == Success(Some(f.refinements[key]))
  {
  }

  /** Whether two frames hold the same refinements: the same number of
      keys, and each key of this frame mapped to an equal value in the
      other. */
  method DoValuesMatchWith<N(==), S(==), T(==)>(f: Frame<N, S, T>, other: Frame<N, S, T>) returns (matches: bool)
    ensures matches <==> f.refinements == other.refinements
  {
    if |f.refinements| != |other.refinements| {
      return false;
    }
    var remaining := f.refinements.Keys;
    while remaining != {}
      invariant remaining <= f.refinements.Keys
      invariant forall k :: k in f.refinements.Keys - remaining ==>
        k in other.refinements && other.refinements[k] == f.refinements[k]
      decreases |remaining|
    {
      var key :| key in remaining;
      if key !in other.refinements || f.refinements[key] != other.refinements[key] {
        return false;
      }
      remaining := remaining - {key};
    }
    SubsetOfSameSize(f.refinements.Keys, other.refinements.Keys);
    return true;
  }

  lemma {:induction false} SubsetOfSameSize<K>(a: set<K>, b: set<K>)
    requires a <= b && |a| == |b|
    ensures a == b
  {
    assert b == a + (b - a);
    assert |b - a| == 0;
  }

  /** The temporary-name counter is the frame's only mutable state. A frame
      a builder newly creates starts its counter at 0; the receiver that
      WithVariableRefinement returns for a promoted path keeps its own. */
  class TypeFrame<N(==), S(==), T(==)> {
    const frame: Frame<N, S, T>
    var tempCounter: nat

    constructor (frame: Frame<N, S, T>)
      ensures this.frame == frame && tempCounter == 0
    {
      this.frame := frame;
      tempCounter := 0;
    }

    method GetVariableName() returns (name: string)
      modifies this
      ensures name == TempName(old(tempCounter))
      ensures tempCounter == old(tempCounter) + 1
    {
      name := TempName(tempCounter);
      tempCounter := tempCounter + 1;
    }
  }

  /** "$t_" followed by the counter in decimal. */
  function TempName(n: nat): string {
    "$t_" + Decimal.NatToString(n)
  }

  /** One frame object never hands out the same temporary name twice. */
  lemma TempNamesDistinct(m: nat, n: nat)
    requires m != n
    ensures TempName(m) != TempName(n)
  {
    if TempName(m) == TempName(n) {
      assert TempName(m)[3..] == Decimal.NatToString(m);
      assert TempName(n)[3..] == Decimal.NatToString(n);
      Decimal.NatToStringInjective(m, n);
    }
  }
}
