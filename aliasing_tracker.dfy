// The aliasing tracker of the middle end's type checker
// (src/helix.middle/Interpreting/AliasingTracker.cs). Each Register*
// operation walks the members of a type and, for each member, reads and
// replaces entries of the two root maps.
//
// The bodies of the member loops are the cases of `Action`; `Step` says
// what one iteration does and `Fold` what the whole loop does, stopping at
// the first failed assertion. The state an exception leaves behind is not
// stated: the exception aborts the analysis.

module AliasingTrackers {
  import opened Wrappers
  import opened AliasRoots
  import opened AliasMembers

  datatype Roots = Roots(referenced: RootMap, boxed: RootMap)

  /** The body of one member loop, with the names it uses. */
  datatype Action =
    | Parameter(name: string)
    | Local(name: string, value: string)
    | LocalWithoutAliasing(name: string)
    | StructRoot(name: string)
    | FieldValue(result: string, field: string, value: string)
    | MemberReference(result: string, target: string, member: string)
    | MemberValue(result: string, target: string, member: string)
    | IndexReference(result: string)
    | IndexValue(result: string)
    | DereferenceReference(result: string, roots: set<Location>)
    | DereferenceValue(result: string, roots: set<Location>)
    | Invalidate(arg: string)
    | Assign(target: string, value: string)

  /** `roots.Select(mem.CreateLocation)`. */
  function MemberRoots(chain: seq<string>, roots: set<Location>): set<Location> {
    set r | r in roots :: ChainLocation(chain, r)
  }

  function KnownOf(locations: set<Location>): (k: set<Location>)
    ensures forall x :: x in k <==> x in locations && !IsUnknown(x)
  {
    set x | x in locations && !IsUnknown(x)
  }

  /** The inner loop of RegisterInvoke: every known root gets {Unknown}
      (or nothing, for a type that does not alias l-values). */
  function InvalidateAll(box: RootMap, roots: set<Location>, aliases: bool): (r: RootMap)
    ensures r.Keys == box.Keys + KnownOf(roots)
    ensures forall k :: k in KnownOf(roots) ==> r[k] == if aliases then {Unknown} else {}
    ensures forall k :: k in box && k !in KnownOf(roots) ==> r[k] == box[k]
  {
    map k | k in box.Keys + KnownOf(roots) ::
      if k in KnownOf(roots) then (if aliases then {Unknown} else {}) else box[k]
  }

  /** The weak update of RegisterAssignment over the targets `done`: each
      known target keeps its roots and gains the assigned roots. */
  function WeakPart(box: RootMap, done: set<Location>, aliases: bool, newRoots: set<Location>): RootMap
    requires aliases ==> KnownOf(done) <= box.Keys
  {
    map k | k in box.Keys + KnownOf(done) ::
      if k in KnownOf(done) then (if aliases then Normalize(box[k] + newRoots) else {}) else box[k]
  }

  /** The weak update: a known target with no entry fails the assertion in
      GetBoxedRoots (when the type aliases l-values). */
  function WeakUpdate(box: RootMap, targets: set<Location>, aliases: bool, newRoots: set<Location>): (r: Result<RootMap, AliasError>)
    ensures r.Failure? <==> aliases && !(KnownOf(targets) <= box.Keys)
  {
    if aliases && !(KnownOf(targets) <= box.Keys) then Failure(AssertionFailed)
    else Success(WeakPart(box, targets, aliases, newRoots))
  }

  /** One target of the weak update, read from the map before the loop. */
  function WeakOutcome(box: RootMap, target: Location, aliases: bool, newRoots: set<Location>): (r: Result<set<Location>, AliasError>)
    ensures !IsUnknown(target) ==> (r.Failure? <==> aliases && target !in box)
    ensures !IsUnknown(target) && r.Success? ==> r.value == if aliases then Normalize(box[target] + newRoots) else {}
  {
    var roots :- GetBoxed(box, target, aliases);
    Success(if aliases then Normalize(roots + newRoots) else {})
  }

  /** A map that agrees with the weak update on every key is the weak
      update. */
  lemma WeakPartPointwise(m: RootMap, box: RootMap, targets: set<Location>, aliases: bool, newRoots: set<Location>)
    requires forall k :: k in m <==> k in box || k in KnownOf(targets)
    requires forall k :: k in KnownOf(targets) ==> WeakOutcome(box, k, aliases, newRoots) == Success(m[k])
    requires forall k :: k in box && k !in KnownOf(targets) ==> m[k] == box[k]
    ensures aliases ==> KnownOf(targets) <= box.Keys
    ensures m == WeakPart(box, targets, aliases, newRoots)
  {
    var w := WeakPart(box, targets, aliases, newRoots);
    assert forall k :: k in m ==> m[k] == w[k];
  }

  /** `targets.Count == 1 && !targets.First().IsUnknown`. */
  predicate SingleKnown(targets: set<Location>) {
    |targets| == 1 && forall t :: t in targets ==> !IsUnknown(t)
  }

  lemma SingletonElement(s: set<Location>, x: Location, y: Location)
    requires |s| == 1 && x in s && y in s
    ensures x == y
  {
    assert |s - {x}| == 0;
    assert s - {x} == {};
  }

  /** One iteration of a member loop. */
  ghost function Step(s: Roots, act: Action, mem: MemberFactory): Result<Roots, AliasError> {
    var c := mem.chain;
    var a := mem.memberType.aliasesLValues;
    match act
    case Parameter(name) =>
      var l := ChainLocation(c, Named(name));
      Success(Roots(SetReferenced(s.referenced, l, {l}), SetBoxed(s.boxed, l, a, {Unknown})))
    case Local(name, value) =>
      var l := ChainLocation(c, Named(name));
      var aliased :- GetBoxed(s.boxed, ChainLocation(c, Named(value)), a);
      Success(Roots(SetReferenced(s.referenced, l, {l}), SetBoxed(s.boxed, l, a, aliased)))
    case LocalWithoutAliasing(name) =>
      var l := ChainLocation(c, Named(name));
      Success(Roots(SetReferenced(s.referenced, l, {l}), SetBoxed(s.boxed, l, a, {})))
    case StructRoot(name) =>
      var l := ChainLocation(c, Named(name));
      Success(s.(referenced := SetReferenced(s.referenced, l, {l})))
    case FieldValue(result, field, value) =>
      var boxed :- GetBoxed(s.boxed, ChainLocation(c, Named(value)), a);
      Success(s.(boxed := SetBoxed(s.boxed, ChainLocation(c, MemberAccess(Named(result), field)), a, boxed)))
    case MemberReference(result, target, member) =>
      var roots :- GetReferenced(s.referenced, MemberAccess(Named(target), member));
      Success(s.(referenced := SetReferenced(s.referenced, ChainLocation(c, Named(result)), MemberRoots(c, roots))))
    case MemberValue(result, target, member) =>
      var roots :- GetBoxed(s.boxed, MemberAccess(Named(target), member), a);
      Success(s.(boxed := SetBoxed(s.boxed, ChainLocation(c, Named(result)), a, MemberRoots(c, roots))))
    case IndexReference(result) =>
      Success(s.(referenced := SetReferenced(s.referenced, ChainLocation(c, Named(result)), {Unknown})))
    case IndexValue(result) =>
      Success(s.(boxed := SetBoxed(s.boxed, ChainLocation(c, Named(result)), a, {Unknown})))
    case DereferenceReference(result, roots) =>
      Success(s.(referenced := SetReferenced(s.referenced, ChainLocation(c, Named(result)), MemberRoots(c, roots))))
    case DereferenceValue(result, roots) =>
      Success(s.(boxed := SetBoxed(s.boxed, ChainLocation(c, Named(result)), a, MemberRoots(c, roots))))
    case Invalidate(arg) =>
      var roots :- GetBoxed(s.boxed, ChainLocation(c, Named(arg)), a);
      Success(s.(boxed := InvalidateAll(s.boxed, roots, a)))
    case Assign(target, value) =>
      var targets :- GetReferenced(s.referenced, ChainLocation(c, Named(target)));
      var newRoots :- GetBoxed(s.boxed, ChainLocation(c, Named(value)), a);
      if SingleKnown(targets) then
        var t :| t in targets;
        Success(s.(boxed := SetBoxed(s.boxed, t, a, newRoots)))
      else
        var box :- WeakUpdate(s.boxed, targets, a, newRoots);
        Success(s.(boxed := box))
  }

  /** A whole member loop, stopping at the first failure. */
  ghost function Fold(s: Roots, act: Action, mems: seq<MemberFactory>): Result<Roots, AliasError>
    decreases |mems|
  {
    if mems == [] then Success(s)
    else
      var prefix :- Fold(s, act, mems[..|mems| - 1]);
      Step(prefix, act, mems[|mems| - 1])
  }

  /** A field initialiser of `new Struct { field = value }`; `valueType` is
      the type the context records for the value. */
  datatype FieldAssignment = FieldAssignment(field: Option<string>, value: string, valueType: HelixType)

  /** The second loop of RegisterNewStruct, over the initialisers. */
  ghost function FieldsFold(s: Roots, result: string, assignments: seq<FieldAssignment>): Result<Roots, AliasError>
    requires forall i :: 0 <= i < |assignments| ==> assignments[i].field.Some?
    decreases |assignments|
  {
    if assignments == [] then Success(s)
    else
      var prefix :- FieldsFold(s, result, assignments[..|assignments| - 1]);
      var last := assignments[|assignments| - 1];
      Fold(prefix, FieldValue(result, last.field.value, last.value), GetMembers(last.valueType))
  }

  /** The outer loop of RegisterInvoke, over the arguments. */
  ghost function InvokeFold(s: Roots, args: seq<string>, argTypes: seq<HelixType>): Result<Roots, AliasError>
    requires |args| == |argTypes|
    decreases |args|
  {
    if args == [] then Success(s)
    else
      var n := |args| - 1;
      var prefix :- InvokeFold(s, args[..n], argTypes[..n]);
      Fold(prefix, Invalidate(args[n]), GetMembers(argTypes[n]))
  }

  class AliasingTracker {
    var referencedRoots: RootMap
    var boxedRoots: RootMap

    constructor ()
      ensures referencedRoots == map[] && boxedRoots == map[]
    {
      referencedRoots := map[];
      boxedRoots := map[];
    }

    constructor Copy(referenced: RootMap, boxed: RootMap)
      ensures referencedRoots == referenced && boxedRoots == boxed
    {
      referencedRoots := referenced;
      boxedRoots := boxed;
    }

    function State(): Roots
      reads this
    {
      Roots(referencedRoots, boxedRoots)
    }

    method CreateScope() returns (t: AliasingTracker)
      ensures fresh(t) && t.State() == State()
    {
      t := new AliasingTracker.Copy(referencedRoots, boxedRoots);
    }

    method MergeWith(other: AliasingTracker) returns (t: AliasingTracker)
      ensures fresh(t)
      ensures t.referencedRoots == Merge(referencedRoots, other.referencedRoots)
      ensures t.boxedRoots == Merge(boxedRoots, other.boxedRoots)
    {
      var referenced := MergeRoots(referencedRoots, other.referencedRoots);
      var boxed := MergeRoots(boxedRoots, other.boxedRoots);
      t := new AliasingTracker.Copy(referenced, boxed);
    }

    method WasModifiedBy(other: AliasingTracker) returns (modified: bool)
      ensures modified <==> Modified(referencedRoots, other.referencedRoots) || Modified(boxedRoots, other.boxedRoots)
    {
      modified := ModifiedRoots(referencedRoots, other.referencedRoots);
      if !modified {
        modified := ModifiedRoots(boxedRoots, other.boxedRoots);
      }
    }

    /** The inner loop of RegisterInvoke: each known root gets the roots
        of an unknown value. */
    static method InvalidateRoots(box: RootMap, roots: set<Location>, aliases: bool) returns (r: RootMap)
      ensures r == InvalidateAll(box, roots, aliases)
    {
      var known := set x | x in roots && !IsUnknown(x);
      var u := UpdateEach(box, known, k => Success(if aliases then {Unknown} else {}));
      r := u.value;
      assert r == InvalidateAll(box, roots, aliases);
    }

    /** The inner loop of RegisterAssignment's weak update: each known
        target reads its boxed roots, which must exist when the type aliases
        l-values, and stores them together with the assigned roots. The
        targets are distinct, so each read sees the map as it was. */
    static method WeakAssign(box: RootMap, targets: set<Location>, aliases: bool, newRoots: set<Location>)
      returns (r: Result<RootMap, AliasError>)
      ensures r == WeakUpdate(box, targets, aliases, newRoots)
    {
      var known := set x | x in targets && !IsUnknown(x);
      var u := UpdateEach(box, known, k => WeakOutcome(box, k, aliases, newRoots));
      if u.Failure? {
        ghost var k :| k in known && WeakOutcome(box, k, aliases, newRoots) == Failure(u.error);
        return Failure(AssertionFailed);
      }
      WeakPartPointwise(u.value, box, targets, aliases, newRoots);
      r := u;
    }

    /** One iteration of a member loop, on the two maps as values. */
    static method StepRoots(s: Roots, act: Action, mem: MemberFactory) returns (r: Result<Roots, AliasError>)
      ensures r == Step(s, act, mem)
    {
      var a := mem.memberType.aliasesLValues;
      match act
      case Parameter(name) =>
        var l := mem.CreateLocation(Named(name));
        r := Success(Roots(SetReferenced(s.referenced, l, {l}), SetBoxed(s.boxed, l, a, {Unknown})));
      case Local(name, value) =>
        var l := mem.CreateLocation(Named(name));
        var v := mem.CreateLocation(Named(value));
        var aliased := GetBoxed(s.boxed, v, a);
        if aliased.Failure? {
          return Failure(aliased.error);
        }
        r := Success(Roots(SetReferenced(s.referenced, l, {l}), SetBoxed(s.boxed, l, a, aliased.value)));
      case LocalWithoutAliasing(name) =>
        var l := mem.CreateLocation(Named(name));
        r := Success(Roots(SetReferenced(s.referenced, l, {l}), SetBoxed(s.boxed, l, a, {})));
      case StructRoot(name) =>
        var l := mem.CreateLocation(Named(name));
        r := Success(s.(referenced := SetReferenced(s.referenced, l, {l})));
      case FieldValue(result, field, value) =>
        var v := mem.CreateLocation(Named(value));
        var boxed := GetBoxed(s.boxed, v, a);
        if boxed.Failure? {
          return Failure(boxed.error);
        }
        var l := mem.CreateLocation(MemberAccess(Named(result), field));
        r := Success(s.(boxed := SetBoxed(s.boxed, l, a, boxed.value)));
      case MemberReference(result, target, member) =>
        var roots := GetReferenced(s.referenced, MemberAccess(Named(target), member));
        if roots.Failure? {
          return Failure(roots.error);
        }
        var l := mem.CreateLocation(Named(result));
        r := Success(s.(referenced := SetReferenced(s.referenced, l, MemberRoots(mem.chain, roots.value))));
      case MemberValue(result, target, member) =>
        var roots := GetBoxed(s.boxed, MemberAccess(Named(target), member), a);
        if roots.Failure? {
          return Failure(roots.error);
        }
        var l := mem.CreateLocation(Named(result));
        r := Success(s.(boxed := SetBoxed(s.boxed, l, a, MemberRoots(mem.chain, roots.value))));
      case IndexReference(result) =>
        var l := mem.CreateLocation(Named(result));
        r := Success(s.(referenced := SetReferenced(s.referenced, l, {Unknown})));
      case IndexValue(result) =>
        var l := mem.CreateLocation(Named(result));
        r := Success(s.(boxed := SetBoxed(s.boxed, l, a, {Unknown})));
      case DereferenceReference(result, roots) =>
        var l := mem.CreateLocation(Named(result));
        r := Success(s.(referenced := SetReferenced(s.referenced, l, MemberRoots(mem.chain, roots))));
      case DereferenceValue(result, roots) =>
        var l := mem.CreateLocation(Named(result));
        r := Success(s.(boxed := SetBoxed(s.boxed, l, a, MemberRoots(mem.chain, roots))));
      case Invalidate(arg) =>
        r := InvalidateStep(s, arg, mem);
      case Assign(target, value) =>
        r := AssignStep(s, target, value, mem);
    }

    /** RegisterInvoke's body for one member of one argument. */
    static method InvalidateStep(s: Roots, arg: string, mem: MemberFactory) returns (r: Result<Roots, AliasError>)
      ensures r == Step(s, Invalidate(arg), mem)
    {
      var a := mem.memberType.aliasesLValues;
      var l := mem.CreateLocation(Named(arg));
      var roots := GetBoxed(s.boxed, l, a);
      if roots.Failure? {
        return Failure(roots.error);
      }
      var box := InvalidateRoots(s.boxed, roots.value, a);
      r := Success(s.(boxed := box));
    }

    /** RegisterAssignment's body for one member: a strong update of the one
        known target, or a weak update of every target. */
    static method AssignStep(s: Roots, target: string, value: string, mem: MemberFactory) returns (r: Result<Roots, AliasError>)
      ensures r == Step(s, Assign(target, value), mem)
    {
      var a := mem.memberType.aliasesLValues;
      var tl := mem.CreateLocation(Named(target));
      var targets := GetReferenced(s.referenced, tl);
      if targets.Failure? {
        return Failure(targets.error);
      }
      var vl := mem.CreateLocation(Named(value));
      var newRoots := GetBoxed(s.boxed, vl, a);
      if newRoots.Failure? {
        return Failure(newRoots.error);
      }
      if SingleKnown(targets.value) {
        var t :| t in targets.value;
        ghost var t' :| t' in targets.value && Step(s, Assign(target, value), mem) == Success(s.(boxed := SetBoxed(s.boxed, t', a, newRoots.value)));
        SingletonElement(targets.value, t, t');
        r := Success(s.(boxed := SetBoxed(s.boxed, t, a, newRoots.value)));
      } else {
        var box := WeakAssign(s.boxed, targets.value, a, newRoots.value);
        if box.Failure? {
          return Failure(box.error);
        }
        r := Success(s.(boxed := box.value));
      }
    }

    /** One iteration of a member loop, applied to the tracker. */
    method DoStep(act: Action, mem: MemberFactory) returns (r: Result<(), AliasError>)
      modifies this
      ensures var f := Step(old(State()), act, mem);
        (r.Success? <==> f.Success?) && (r.Success? ==> State() == f.value)
    {
      var next := StepRoots(State(), act, mem);
      if next.Failure? {
        return Failure(next.error);
      }
      referencedRoots, boxedRoots := next.value.referenced, next.value.boxed;
      r := Success(());
    }

    /** The member loop shared by the Register* operations. */
    method RunMembers(act: Action, mems: seq<MemberFactory>) returns (r: Result<(), AliasError>)
      modifies this
      ensures var f := Fold(old(State()), act, mems);
        (r.Success? <==> f.Success?) && (r.Success? ==> State() == f.value)
    {
      var i := 0;
      while i < |mems|
        invariant 0 <= i <= |mems|
        invariant Fold(old(State()), act, mems[..i]) == Success(State())
      {
        var step := RunMember(old(State()), act, mems, i);
        if step.Failure? {
          return step;
        }
        i := i + 1;
      }
      assert mems[..i] == mems;
      return Success(());
    }

    /** One pass of the loop in RunMembers: the step for `mems[i]`, and on
        failure the whole fold fails. */
    method RunMember(ghost s: Roots, act: Action, mems: seq<MemberFactory>, i: nat) returns (r: Result<(), AliasError>)
      requires i < |mems| && Fold(s, act, mems[..i]) == Success(State())
      modifies this
      ensures r.Success? ==> Fold(s, act, mems[..i + 1]) == Success(State())
      ensures r.Failure? ==> Fold(s, act, mems).Failure?
    {
      assert mems[..i + 1][..i] == mems[..i];
      r := DoStep(act, mems[i]);
      if r.Failure? {
        FoldFailurePropagates(s, act, mems, i + 1);
      }
    }

    method RegisterFunctionParameter(parameterName: string, parameterType: HelixType)
      modifies this
      ensures Fold(old(State()), Parameter(parameterName), GetMembers(parameterType)) == Success(State())
    {
      ParameterNeverFails(old(State()), parameterName, GetMembers(parameterType));
      var _ := RunMembers(Parameter(parameterName), GetMembers(parameterType));
    }

    method RegisterLocal(variableName: string, variableType: HelixType, assignValue: string) returns (r: Result<(), AliasError>)
      modifies this
      ensures var f := Fold(old(State()), Local(variableName, assignValue), GetMembers(variableType));
        (r.Success? <==> f.Success?) && (r.Success? ==> State() == f.value)
    {
      r := RunMembers(Local(variableName, assignValue), GetMembers(variableType));
    }

    method RegisterLocalWithoutAliasing(variableName: string, variableType: HelixType)
      modifies this
      ensures Fold(old(State()), LocalWithoutAliasing(variableName), GetMembers(variableType)) == Success(State())
    {
      LocalWithoutAliasingNeverFails(old(State()), variableName, GetMembers(variableType));
      var _ := RunMembers(LocalWithoutAliasing(variableName), GetMembers(variableType));
    }

    /** Unions register like locals. */
    method RegisterNewUnion(resultName: string, resultType: HelixType, assignValue: string) returns (r: Result<(), AliasError>)
      modifies this
      ensures var f := Fold(old(State()), Local(resultName, assignValue), GetMembers(resultType));
        (r.Success? <==> f.Success?) && (r.Success? ==> State() == f.value)
    {
      r := RegisterLocal(resultName, resultType, assignValue);
    }

    method RegisterNewStruct(resultName: string, variableType: HelixType, assignments: seq<FieldAssignment>) returns (r: Result<(), AliasError>)
      modifies this
      ensures (exists i :: 0 <= i < |assignments| && assignments[i].field.None?) ==> r.Failure? && State() == old(State())
      ensures (forall i :: 0 <= i < |assignments| ==> assignments[i].field.Some?) ==>
        var f := Fold(old(State()), StructRoot(resultName), GetMembers(variableType));
        var g := if f.Success? then FieldsFold(f.value, resultName, assignments) else f;
        (r.Success? <==> g.Success?) && (r.Success? ==> State() == g.value)
    {
      var k := 0;
      while k < |assignments|
        invariant 0 <= k <= |assignments|
        invariant forall i :: 0 <= i < k ==> assignments[i].field.Some?
      {
        if assignments[k].field.None? {
          return Failure(AssertionFailed);
        }
        k := k + 1;
      }
      StructRootNeverFails(State(), resultName, GetMembers(variableType));
      var _ := RunMembers(StructRoot(resultName), GetMembers(variableType));
      ghost var start := State();
      var j := 0;
      while j < |assignments|
        invariant 0 <= j <= |assignments|
        invariant FieldsFold(start, resultName, assignments[..j]) == Success(State())
      {
        assert assignments[..j + 1][..j] == assignments[..j];
        var assign := assignments[j];
        var step := RunMembers(FieldValue(resultName, assign.field.value, assign.value), GetMembers(assign.valueType));
        if step.Failure? {
          FieldsFailurePropagates(start, resultName, assignments, j + 1);
          return Failure(step.error);
        }
        j := j + 1;
      }
      assert assignments[..j] == assignments;
      r := Success(());
    }

    method RegisterMemberAccessReference(resultName: string, accessTarget: string, memberName: string, memberType: HelixType) returns (r: Result<(), AliasError>)
      modifies this
      ensures var f := Fold(old(State()), MemberReference(resultName, accessTarget, memberName), GetMembers(memberType));
        (r.Success? <==> f.Success?) && (r.Success? ==> State() == f.value)
    {
      r := RunMembers(MemberReference(resultName, accessTarget, memberName), GetMembers(memberType));
    }

    method RegisterMemberAccess(resultName: string, accessTarget: string, memberName: string, memberType: HelixType) returns (r: Result<(), AliasError>)
      modifies this
      ensures var f := Fold(old(State()), MemberValue(resultName, accessTarget, memberName), GetMembers(memberType));
        (r.Success? <==> f.Success?) && (r.Success? ==> State() == f.value)
    {
      r := RunMembers(MemberValue(resultName, accessTarget, memberName), GetMembers(memberType));
    }

    /** The index is not consulted: every element reference is unknown. */
    method RegisterArrayIndexReference(resultName: string, elementType: HelixType)
      modifies this
      ensures Fold(old(State()), IndexReference(resultName), GetMembers(elementType)) == Success(State())
    {
      IndexNeverFails(old(State()), IndexReference(resultName), GetMembers(elementType));
      var _ := RunMembers(IndexReference(resultName), GetMembers(elementType));
    }

    method RegisterArrayIndex(resultName: string, elementType: HelixType)
      modifies this
      ensures Fold(old(State()), IndexValue(resultName), GetMembers(elementType)) == Success(State())
    {
      IndexNeverFails(old(State()), IndexValue(resultName), GetMembers(elementType));
      var _ := RunMembers(IndexValue(resultName), GetMembers(elementType));
    }

    /** Array literals are not tracked yet. */
    method RegisterArrayLiteral(resultName: string, length: int, elementType: HelixType)
      ensures State() == old(State())
    {
    }

    method RegisterDereferencedPointerReference(resultName: string, resultType: HelixType, dereferenceTarget: string, dereferenceType: HelixType)
      returns (r: Result<(), AliasError>)
      modifies this
      ensures var roots := GetBoxed(old(boxedRoots), Named(dereferenceTarget), dereferenceType.aliasesLValues);
        var f := if roots.Failure? then Failure(roots.error)
                 else Fold(old(State()), DereferenceReference(resultName, roots.value), GetMembers(resultType));
        (r.Success? <==> f.Success?) && (r.Success? ==> State() == f.value)
    {
      var roots := GetBoxed(boxedRoots, Named(dereferenceTarget), dereferenceType.aliasesLValues);
      if roots.Failure? {
        return Failure(roots.error);
      }
      r := RunMembers(DereferenceReference(resultName, roots.value), GetMembers(resultType));
    }

    method RegisterDereferencedPointer(resultName: string, resultType: HelixType, dereferenceTarget: string, dereferenceType: HelixType)
      returns (r: Result<(), AliasError>)
      modifies this
      ensures var roots := GetBoxed(old(boxedRoots), Named(dereferenceTarget), dereferenceType.aliasesLValues);
        var f := if roots.Failure? then Failure(roots.error)
                 else Fold(old(State()), DereferenceValue(resultName, roots.value), GetMembers(resultType));
        (r.Success? <==> f.Success?) && (r.Success? ==> State() == f.value)
    {
      var roots := GetBoxed(boxedRoots, Named(dereferenceTarget), dereferenceType.aliasesLValues);
      if roots.Failure? {
        return Failure(roots.error);
      }
      r := RunMembers(DereferenceValue(resultName, roots.value), GetMembers(resultType));
    }

    /** A pointer has no members, so only the result itself is set: it
        boxes the roots the target names. */
    method RegisterAddressOf(resultName: string, addressOfTarget: string, addressOfType: HelixType) returns (r: Result<(), AliasError>)
      modifies this
      ensures var roots := GetReferenced(old(referencedRoots), Named(addressOfTarget));
        (r.Success? <==> roots.Success?) &&
        (r.Success? ==> (referencedRoots == old(referencedRoots) &&
           boxedRoots == SetBoxed(old(boxedRoots), Named(resultName), addressOfType.aliasesLValues, roots.value)))
    {
      var roots := GetReferenced(referencedRoots, Named(addressOfTarget));
      if roots.Failure? {
        return Failure(roots.error);
      }
      boxedRoots := SetBoxed(boxedRoots, Named(resultName), addressOfType.aliasesLValues, roots.value);
      r := Success(());
    }

    method RegisterAssignment(targetLValue: string, assignRValue: string, assignType: HelixType) returns (r: Result<(), AliasError>)
      modifies this
      ensures var f := Fold(old(State()), Assign(targetLValue, assignRValue), GetMembers(assignType));
        (r.Success? <==> f.Success?) && (r.Success? ==> State() == f.value)
    {
      r := RunMembers(Assign(targetLValue, assignRValue), GetMembers(assignType));
    }

    /** A call may store anything into what its arguments point to. */
    method RegisterInvoke(args: seq<string>, argTypes: seq<HelixType>) returns (r: Result<(), AliasError>)
      modifies this
      ensures |args| != |argTypes| ==> r.Failure? && State() == old(State())
      ensures |args| == |argTypes| ==>
        var f := InvokeFold(old(State()), args, argTypes);
        (r.Success? <==> f.Success?) && (r.Success? ==> State() == f.value)
    {
      if |args| != |argTypes| {
        return Failure(AssertionFailed);
      }
      var i := 0;
      while i < |args|
        invariant 0 <= i <= |args|
        invariant InvokeFold(old(State()), args[..i], argTypes[..i]) == Success(State())
      {
        assert args[..i + 1][..i] == args[..i] && argTypes[..i + 1][..i] == argTypes[..i];
        var step := RunMembers(Invalidate(args[i]), GetMembers(argTypes[i]));
        if step.Failure? {
          InvokeFailurePropagates(old(State()), args, argTypes, i + 1);
          return Failure(step.error);
        }
        i := i + 1;
      }
      assert args[..i] == args && argTypes[..i] == argTypes;
      r := Success(());
    }
  }

  lemma {:induction false} FoldFailurePropagates(s: Roots, act: Action, mems: seq<MemberFactory>, n: nat)
    requires n <= |mems|
    requires Fold(s, act, mems[..n]).Failure?
    ensures Fold(s, act, mems).Failure?
    decreases |mems|
  {
    if n < |mems| {
      assert mems[..|mems| - 1][..n] == mems[..n];
      FoldFailurePropagates(s, act, mems[..|mems| - 1], n);
    } else {
      assert mems[..n] == mems;
    }
  }

  lemma {:induction false} FieldsFailurePropagates(s: Roots, result: string, assignments: seq<FieldAssignment>, n: nat)
    requires n <= |assignments|
    requires forall i :: 0 <= i < |assignments| ==> assignments[i].field.Some?
    requires FieldsFold(s, result, assignments[..n]).Failure?
    ensures FieldsFold(s, result, assignments).Failure?
    decreases |assignments|
  {
    if n < |assignments| {
      assert assignments[..|assignments| - 1][..n] == assignments[..n];
      FieldsFailurePropagates(s, result, assignments[..|assignments| - 1], n);
    } else {
      assert assignments[..n] == assignments;
    }
  }

  lemma {:induction false} InvokeFailurePropagates(s: Roots, args: seq<string>, argTypes: seq<HelixType>, n: nat)
    requires |args| == |argTypes| && n <= |args|
    requires InvokeFold(s, args[..n], argTypes[..n]).Failure?
    ensures InvokeFold(s, args, argTypes).Failure?
    decreases |args|
  {
    var m := |args| - 1;
    if n < |args| {
      assert args[..m][..n] == args[..n] && argTypes[..m][..n] == argTypes[..n];
      InvokeFailurePropagates(s, args[..m], argTypes[..m], n);
    } else {
      assert args[..n] == args && argTypes[..n] == argTypes;
    }
  }

  lemma {:induction false} ParameterNeverFails(s: Roots, name: string, mems: seq<MemberFactory>)
    ensures Fold(s, Parameter(name), mems).Success?
    decreases |mems|
  {
    if mems != [] {
      ParameterNeverFails(s, name, mems[..|mems| - 1]);
    }
  }

  lemma {:induction false} LocalWithoutAliasingNeverFails(s: Roots, name: string, mems: seq<MemberFactory>)
    ensures Fold(s, LocalWithoutAliasing(name), mems).Success?
    decreases |mems|
  {
    if mems != [] {
      LocalWithoutAliasingNeverFails(s, name, mems[..|mems| - 1]);
    }
  }

  lemma {:induction false} StructRootNeverFails(s: Roots, name: string, mems: seq<MemberFactory>)
    ensures Fold(s, StructRoot(name), mems).Success?
    decreases |mems|
  {
    if mems != [] {
      StructRootNeverFails(s, name, mems[..|mems| - 1]);
    }
  }

  lemma {:induction false} IndexNeverFails(s: Roots, act: Action, mems: seq<MemberFactory>)
    requires act.IndexReference? || act.IndexValue?
    ensures Fold(s, act, mems).Success?
    decreases |mems|
  {
    if mems != [] {
      IndexNeverFails(s, act, mems[..|mems| - 1]);
    }
  }
}

module AliasingTrackerProperties {
  import opened Wrappers
  import opened AliasRoots
  import opened AliasMembers
  import opened AliasingTrackers

  /** The location of member `i` below a variable. */
  function MemberLocation(mems: seq<MemberFactory>, i: nat, name: string): Location
    requires i < |mems|
  {
    ChainLocation(mems[i].chain, Named(name))
  }

  lemma DistinctPrefix(mems: seq<MemberFactory>, n: nat)
    requires DistinctChains(mems) && n <= |mems|
    ensures DistinctChains(mems[..n])
  {
    assert forall i :: 0 <= i < n ==> mems[..n][i] == mems[i];
  }

  /** The location of the last member differs from every earlier one. */
  lemma LastLocationIsNew(mems: seq<MemberFactory>, name: string)
    requires DistinctChains(mems) && |mems| > 0
    ensures !IsUnknown(MemberLocation(mems, |mems| - 1, name))
    ensures forall i :: 0 <= i < |mems| - 1 ==>
      MemberLocation(mems, i, name) != MemberLocation(mems, |mems| - 1, name)
  {
    var n := |mems| - 1;
    ChainDepth(mems[n].chain, Named(name));
    forall i | 0 <= i < n
      ensures MemberLocation(mems, i, name) != MemberLocation(mems, n, name)
    {
      if MemberLocation(mems, i, name) == MemberLocation(mems, n, name) {
        ChainLocationInjective(mems[i].chain, name, mems[n].chain, name);
      }
    }
  }

  /** The roots a member is boxed to by a parameter or a local declared
      without an initial value. */
  function Declared(act: Action): set<Location>
    requires act.Parameter? || act.LocalWithoutAliasing?
  {
    if act.Parameter? then {Unknown} else {}
  }

  lemma {:induction false} DeclarationFold(s: Roots, act: Action, mems: seq<MemberFactory>)
    requires act.Parameter? || act.LocalWithoutAliasing?
    requires DistinctChains(mems)
    ensures Fold(s, act, mems).Success?
    ensures forall i :: 0 <= i < |mems| ==>
      var l := MemberLocation(mems, i, act.name);
      var r := Fold(s, act, mems).value;
      l in r.referenced && r.referenced[l] == {l} &&
      l in r.boxed && r.boxed[l] == if mems[i].memberType.aliasesLValues then Declared(act) else {}
    decreases |mems|
  {
    if mems != [] {
      var n := |mems| - 1;
      DistinctPrefix(mems, n);
      DeclarationFold(s, act, mems[..n]);
      var p := Fold(s, act, mems[..n]).value;
      LastLocationIsNew(mems, act.name);
      var r := DeclarationStep(p, act, mems[n]);
      assert Fold(s, act, mems) == Success(r);
      DeclarationDoneExtend(p, r, act, mems);
    }
  }

  /** What the declaration loop has done for each member of `mems`. */
  ghost predicate DeclarationDone(r: Roots, act: Action, mems: seq<MemberFactory>)
    requires act.Parameter? || act.LocalWithoutAliasing?
  {
    forall i :: 0 <= i < |mems| ==>
      var l := MemberLocation(mems, i, act.name);
      l in r.referenced && r.referenced[l] == {l} &&
      l in r.boxed && r.boxed[l] == if mems[i].memberType.aliasesLValues then Declared(act) else {}
  }

  /** One member of a parameter or of a local without aliasing. */
  lemma DeclarationStep(p: Roots, act: Action, mem: MemberFactory) returns (r: Roots)
    requires act.Parameter? || act.LocalWithoutAliasing?
    requires !IsUnknown(ChainLocation(mem.chain, Named(act.name)))
    ensures var l := ChainLocation(mem.chain, Named(act.name));
      r == Roots(p.referenced[l := {l}], p.boxed[l := if mem.memberType.aliasesLValues then Declared(act) else {}])
    ensures Step(p, act, mem) == Success(r)
  {
    var l := ChainLocation(mem.chain, Named(act.name));
    assert Normalize({l}) == {l};
    assert Normalize({Unknown}) == {Unknown};
    assert Normalize({}) == {};
    r := Roots(p.referenced[l := {l}], p.boxed[l := if mem.memberType.aliasesLValues then Declared(act) else {}]);
  }

  lemma DeclarationDoneExtend(p: Roots, r: Roots, act: Action, mems: seq<MemberFactory>)
    requires act.Parameter? || act.LocalWithoutAliasing?
    requires |mems| > 0
    requires var n := |mems| - 1;
      var l := MemberLocation(mems, n, act.name);
      (forall i :: 0 <= i < n ==> MemberLocation(mems, i, act.name) != l) &&
      DeclarationDone(p, act, mems[..n]) &&
      r == Roots(p.referenced[l := {l}], p.boxed[l := if mems[n].memberType.aliasesLValues then Declared(act) else {}])
    ensures DeclarationDone(r, act, mems)
  {
    var n := |mems| - 1;
    assert forall i :: 0 <= i < n ==> mems[..n][i] == mems[i];
  }

  /** RegisterFunctionParameter: every member of the parameter references
      itself and boxes the unknown location (nothing, if its type does not
      alias l-values). */
  lemma FunctionParameterEffect(s: Roots, name: string, t: HelixType)
    requires WellFormed(t)
    ensures var mems := GetMembers(t);
      var f := Fold(s, Parameter(name), mems);
      f.Success? && forall i :: 0 <= i < |mems| ==>
        var l := MemberLocation(mems, i, name);
        l in f.value.referenced && f.value.referenced[l] == {l} &&
        l in f.value.boxed && f.value.boxed[l] == if mems[i].memberType.aliasesLValues then {Unknown} else {}
  {
    MembersDistinct([], t);
    DeclarationFold(s, Parameter(name), GetMembers(t));
  }

  /** RegisterLocalWithoutAliasing: every member references itself and
      boxes nothing. */
  lemma LocalWithoutAliasingEffect(s: Roots, name: string, t: HelixType)
    requires WellFormed(t)
    ensures var mems := GetMembers(t);
      var f := Fold(s, LocalWithoutAliasing(name), mems);
      f.Success? && forall i :: 0 <= i < |mems| ==>
        var l := MemberLocation(mems, i, name);
        l in f.value.referenced && f.value.referenced[l] == {l} &&
        l in f.value.boxed && f.value.boxed[l] == {}
  {
    MembersDistinct([], t);
    DeclarationFold(s, LocalWithoutAliasing(name), GetMembers(t));
  }

  /** Whether every aliasing member of `value` has boxed roots. */
  predicate ValueBoxed(s: Roots, mems: seq<MemberFactory>, value: string) {
    forall i :: 0 <= i < |mems| && mems[i].memberType.aliasesLValues ==>
      MemberLocation(mems, i, value) in s.boxed
  }

  /** One member of RegisterLocal, below variables with different names. */
  lemma LocalStep(p: Roots, name: string, value: string, mem: MemberFactory)
    requires name != value
    ensures var l := ChainLocation(mem.chain, Named(name));
      var v := ChainLocation(mem.chain, Named(value));
      var a := mem.memberType.aliasesLValues;
      var f := Step(p, Local(name, value), mem);
      (f.Success? <==> (a ==> v in p.boxed)) &&
      (f.Success? ==> f.value == Roots(p.referenced[l := {l}], p.boxed[l := if a then Normalize(p.boxed[v]) else {}])) &&
      forall c :: ChainLocation(c, Named(value)) != l
  {
    var l := ChainLocation(mem.chain, Named(name));
    ChainDepth(mem.chain, Named(name));
    ChainDepth(mem.chain, Named(value));
    assert Normalize({l}) == {l};
    forall c ensures ChainLocation(c, Named(value)) != l {
      if ChainLocation(c, Named(value)) == l {
        ChainLocationInjective(c, value, mem.chain, name);
      }
    }
  }

  /** The member loop of RegisterLocal leaves the value's locations alone. */
  ghost predicate SameBelow(r: RootMap, s: RootMap, value: string) {
    forall c :: (ChainLocation(c, Named(value)) in r <==> ChainLocation(c, Named(value)) in s) &&
      (ChainLocation(c, Named(value)) in s ==> r[ChainLocation(c, Named(value))] == s[ChainLocation(c, Named(value))])
  }

  /** Every member of the local references itself and boxes what the
      value's member boxed in `s`. */
  predicate LocalDone(r: Roots, s: Roots, mems: seq<MemberFactory>, name: string, value: string) {
    forall i :: 0 <= i < |mems| ==>
      var l := MemberLocation(mems, i, name);
      var v := MemberLocation(mems, i, value);
      l in r.referenced && r.referenced[l] == {l} && l in r.boxed &&
      if mems[i].memberType.aliasesLValues then v in s.boxed && r.boxed[l] == Normalize(s.boxed[v])
      else r.boxed[l] == {}
  }

  /** The member loop of RegisterLocal after one more member. */
  lemma LocalDoneExtend(p: Roots, r: Roots, s: Roots, mems: seq<MemberFactory>, name: string, value: string)
    requires |mems| > 0
    requires var n := |mems| - 1;
      var l := MemberLocation(mems, n, name);
      var v := MemberLocation(mems, n, value);
      var a := mems[n].memberType.aliasesLValues;
      (forall i :: 0 <= i < n ==> MemberLocation(mems, i, name) != l) &&
      (forall c :: ChainLocation(c, Named(value)) != l) &&
      SameBelow(p.boxed, s.boxed, value) && LocalDone(p, s, mems[..n], name, value) &&
      (a ==> v in p.boxed) &&
      r == Roots(p.referenced[l := {l}], p.boxed[l := if a then Normalize(p.boxed[v]) else {}])
    ensures SameBelow(r.boxed, s.boxed, value)
    ensures LocalDone(r, s, mems, name, value)
  {
    var n := |mems| - 1;
    assert forall i :: 0 <= i < n ==> mems[..n][i] == mems[i];
  }

  lemma {:induction false} LocalFold(s: Roots, name: string, value: string, mems: seq<MemberFactory>)
    requires DistinctChains(mems) && name != value
    ensures Fold(s, Local(name, value), mems).Success? <==> ValueBoxed(s, mems, value)
    ensures Fold(s, Local(name, value), mems).Success? ==>
      SameBelow(Fold(s, Local(name, value), mems).value.boxed, s.boxed, value) &&
      LocalDone(Fold(s, Local(name, value), mems).value, s, mems, name, value)
    decreases |mems|
  {
    if mems != [] {
      var n := |mems| - 1;
      var init := mems[..n];
      DistinctPrefix(mems, n);
      LocalFold(s, name, value, init);
      assert forall i :: 0 <= i < n ==> init[i] == mems[i];
      assert ValueBoxed(s, mems, value) ==> ValueBoxed(s, init, value);
      var f := Fold(s, Local(name, value), init);
      if f.Success? {
        LocalStep(f.value, name, value, mems[n]);
        LastLocationIsNew(mems, name);
        var v := MemberLocation(mems, n, value);
        assert v in f.value.boxed <==> v in s.boxed;
        if Fold(s, Local(name, value), mems).Success? {
          LocalDoneExtend(f.value, Fold(s, Local(name, value), mems).value, s, mems, name, value);
        }
      }
    }
  }

  /** RegisterLocal: every member references itself and boxes exactly what
      the same member of the assigned value boxes; the declaration fails iff
      some aliasing member of the value has no boxed roots. */
  lemma LocalEffect(s: Roots, name: string, value: string, t: HelixType)
    requires WellFormed(t) && name != value
    ensures var mems := GetMembers(t);
      var f := Fold(s, Local(name, value), mems);
      (f.Success? <==> ValueBoxed(s, mems, value)) &&
      (f.Success? ==> forall i :: 0 <= i < |mems| ==>
        var l := MemberLocation(mems, i, name);
        l in f.value.referenced && f.value.referenced[l] == {l} && l in f.value.boxed &&
        f.value.boxed[l] == if mems[i].memberType.aliasesLValues then Normalize(s.boxed[MemberLocation(mems, i, value)]) else {})
  {
    MembersDistinct([], t);
    LocalFold(s, name, value, GetMembers(t));
  }

  lemma {:induction false} IndexValueFold(s: Roots, result: string, mems: seq<MemberFactory>)
    requires DistinctChains(mems)
    ensures Fold(s, IndexValue(result), mems).Success?
    ensures var r := Fold(s, IndexValue(result), mems).value;
      r.referenced == s.referenced &&
      forall i :: 0 <= i < |mems| ==>
        var l := MemberLocation(mems, i, result);
        l in r.boxed && r.boxed[l] == if mems[i].memberType.aliasesLValues then {Unknown} else {}
    decreases |mems|
  {
    if mems != [] {
      var n := |mems| - 1;
      DistinctPrefix(mems, n);
      IndexValueFold(s, result, mems[..n]);
      LastLocationIsNew(mems, result);
      assert Normalize({Unknown}) == {Unknown};
      forall i | 0 <= i < n
        ensures MemberLocation(mems[..n], i, result) == MemberLocation(mems, i, result)
      {
      }
    }
  }

  /** RegisterArrayIndex: every member of the result boxes the unknown
      location, whatever the array held; references are untouched. */
  lemma ArrayIndexEffect(s: Roots, result: string, t: HelixType)
    requires WellFormed(t)
    ensures var mems := GetMembers(t);
      var f := Fold(s, IndexValue(result), mems);
      f.Success? && f.value.referenced == s.referenced &&
      forall i :: 0 <= i < |mems| ==>
        var l := MemberLocation(mems, i, result);
        l in f.value.boxed && f.value.boxed[l] == if mems[i].memberType.aliasesLValues then {Unknown} else {}
  {
    MembersDistinct([], t);
    IndexValueFold(s, result, GetMembers(t));
  }

  /** RegisterAssignment through a reference to exactly one known root: the
      root's boxed roots are replaced by the assigned ones (a strong
      update); nothing else changes. */
  lemma StrongUpdate(s: Roots, target: string, value: string, mem: MemberFactory, root: Location)
    requires var tl := ChainLocation(mem.chain, Named(target));
      tl in s.referenced && s.referenced[tl] == {root} && !IsUnknown(root)
    ensures var a := mem.memberType.aliasesLValues;
      var g := GetBoxed(s.boxed, ChainLocation(mem.chain, Named(value)), a);
      var f := Step(s, Assign(target, value), mem);
      (f.Success? <==> g.Success?) &&
      (f.Success? ==> (f.value.referenced == s.referenced && root in f.value.boxed &&
         f.value.boxed[root] == (if a then Normalize(g.value) else {}) &&
         forall k :: k in s.boxed && k != root ==> k in f.value.boxed && f.value.boxed[k] == s.boxed[k]))
  {
    ChainDepth(mem.chain, Named(target));
    assert SingleKnown({root});
  }

  /** RegisterAssignment through several roots (or an unknown one): every
      known root keeps what it boxed and gains the assigned roots (a weak
      update); nothing else changes. */
  lemma WeakUpdateKeeps(s: Roots, target: string, value: string, mem: MemberFactory)
    requires CanonicalRoots(s.boxed)
    requires var tl := ChainLocation(mem.chain, Named(target));
      tl in s.referenced && !SingleKnown(s.referenced[tl])
    ensures var a := mem.memberType.aliasesLValues;
      var targets := s.referenced[ChainLocation(mem.chain, Named(target))];
      var g := GetBoxed(s.boxed, ChainLocation(mem.chain, Named(value)), a);
      var f := Step(s, Assign(target, value), mem);
      (f.Success? <==> g.Success? && (a ==> KnownOf(targets) <= s.boxed.Keys)) &&
      (f.Success? ==> (f.value.referenced == s.referenced &&
         (forall t :: t in KnownOf(targets) ==> (t in f.value.boxed &&
           (a ==> s.boxed[t] <= f.value.boxed[t] && Normalize(g.value) <= f.value.boxed[t]) &&
           (!a ==> f.value.boxed[t] == {}))) &&
         forall k :: k in s.boxed && k !in targets ==> k in f.value.boxed && f.value.boxed[k] == s.boxed[k]))
  {
    ChainDepth(mem.chain, Named(target));
    var a := mem.memberType.aliasesLValues;
    var targets := s.referenced[ChainLocation(mem.chain, Named(target))];
    var g := GetBoxed(s.boxed, ChainLocation(mem.chain, Named(value)), a);
    var f := Step(s, Assign(target, value), mem);
    if f.Success? && a {
      forall t | t in KnownOf(targets)
        ensures s.boxed[t] <= f.value.boxed[t] && Normalize(g.value) <= f.value.boxed[t]
      {
        assert f.value.boxed[t] == Normalize(s.boxed[t] + g.value);
      }
    }
  }
}
