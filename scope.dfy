/** Identifier paths and the lexical scope of the type checker: a current
    path plus immutable tables of variables and type variables keyed by the
    full path of each declaration. Lookup by a bare name tries the current
    path first and then each enclosing prefix, ending with the empty path. */
module AnalysisScope {
  import opened Wrappers
  import Int32
  import ImmutableMap

  datatype PathError = EmptyPath

  /** True when the two sequences agree on every position both have: the
      pairwise `Zip(...).Aggregate(true, &&)` of the path comparison. */
  function ZipEqual(xs: seq<string>, ys: seq<string>): bool {
    if xs == [] || ys == [] then true else xs[0] == ys[0] && ZipEqual(xs[1..], ys[1..])
  }

  /** A dotted name, compared segment by segment. */
  datatype IdentifierPath = IdentifierPath(segments: seq<string>) {

    function Append(segment: string): (r: IdentifierPath)
      ensures |r.segments| == |segments| + 1
      ensures r.segments[..|segments|] == segments && r.segments[|segments|] == segment
    {
      IdentifierPath(segments + [segment])
    }

    function AppendPath(path: IdentifierPath): IdentifierPath {
      IdentifierPath(segments + path.segments)
    }

    /** Drops the last segment; an empty path throws. */
    function Pop(): (r: Result<IdentifierPath, PathError>)
      ensures r.Failure? <==> segments == []
      ensures r.Success? ==> r.value.Append(segments[|segments| - 1]) == this
    {
      if segments == [] then Failure(EmptyPath) else Success(IdentifierPath(segments[..|segments| - 1]))
    }

    function StartsWith(path: IdentifierPath): bool {
      if |path.segments| > |segments| then false else ZipEqual(path.segments, segments)
    }

    predicate IsPathToVariable() {
      |segments| > 0 && segments[0] == "%var"
    }

    predicate Equals(other: IdentifierPath) {
      segments == other.segments
    }

    /** `GetHashCode`: the fold `7 + 23 * hash(segment)` over the segments in
        32-bit arithmetic; the string hash is not part of this model and is
        passed in. */
    function Hash(stringHash: string -> int): int {
      Int32.HashFold(7, 23, SegmentHashes(segments, stringHash))
    }
  }

  function SegmentHashes(segments: seq<string>, stringHash: string -> int): (hs: seq<int>)
    ensures |hs| == |segments|
  {
    if segments == [] then [] else [stringHash(segments[0])] + SegmentHashes(segments[1..], stringHash)
  }

  lemma {:induction false} ZipEqualIsPrefix(xs: seq<string>, ys: seq<string>)
    requires |xs| <= |ys|
    ensures ZipEqual(xs, ys) <==> xs <= ys
  {
    if xs != [] {
      ZipEqualIsPrefix(xs[1..], ys[1..]);
      if xs[0] == ys[0] && xs[1..] <= ys[1..] {
        assert xs == [xs[0]] + xs[1..];
        assert ys[..|xs|] == [ys[0]] + ys[1..][..|xs| - 1];
      }
    }
  }

  /** `StartsWith` is prefix testing: reflexive, and the empty path is a
      prefix of every path. */
  lemma StartsWithIsPrefix(path: IdentifierPath, prefix: IdentifierPath)
    ensures path.StartsWith(prefix) <==> prefix.segments <= path.segments
    ensures path.StartsWith(path) && path.StartsWith(IdentifierPath([]))
  {
    if |prefix.segments| <= |path.segments| {
      ZipEqualIsPrefix(prefix.segments, path.segments);
    }
    ZipEqualIsPrefix(path.segments, path.segments);
  }

  /** Popping what was appended gives the path back. */
  lemma PopAppend(path: IdentifierPath, segment: string)
    ensures path.Append(segment).Pop() == Success(path)
  {
    assert (path.segments + [segment])[..|path.segments|] == path.segments;
  }

  /** Equal paths hash alike, and the hash ignores segment order, so a path
      with two segments swapped collides with the original. */
  lemma PathHash(p: IdentifierPath, q: IdentifierPath, a: string, b: string, stringHash: string -> int)
    ensures p.Equals(q) ==> p.Hash(stringHash) == q.Hash(stringHash)
    ensures IdentifierPath([a, b]).Hash(stringHash) == IdentifierPath([b, a]).Hash(stringHash)
  {
    assert SegmentHashes([a, b], stringHash) == [stringHash(a)] + [stringHash(b)];
    assert SegmentHashes([b, a], stringHash) == [stringHash(b)] + [stringHash(a)];
    Int32.HashFoldSwap(7, 23, [stringHash(a)], [stringHash(b)]);
  }

  /** Stand-in for the language's types; only the `VariableType` wrapper that
      `FindType` applies matters here. */
  datatype LanguageType = NamedType(name: string) | VariableType(inner: LanguageType)

  datatype Scope<V> = Scope(
    path: IdentifierPath,
    typeVariables: map<IdentifierPath, LanguageType>,
    variables: map<IdentifierPath, V>)

  function EmptyScope<V>(): Scope<V> {
    Scope(IdentifierPath([]), map[], map[])
  }

  /** The declaration key of `name` declared directly inside `prefix`. */
  function Key(prefix: seq<string>, name: string): IdentifierPath {
    IdentifierPath(prefix + [name])
  }

  predicate BoundAt<T>(bindings: map<IdentifierPath, T>, prefix: seq<string>, k: nat, name: string)
    requires k <= |prefix|
  {
    Key(prefix[..k], name) in bindings
  }

  /** Reference lookup: the binding of `name` at the longest prefix of
      `prefix` (the prefix itself first, the empty path last). */
  function Innermost<T>(bindings: map<IdentifierPath, T>, prefix: seq<string>, name: string): Option<T>
    decreases |prefix|
  {
    if Key(prefix, name) in bindings then Some(bindings[Key(prefix, name)])
    else if prefix == [] then None
    else Innermost(bindings, prefix[..|prefix| - 1], name)
  }

  /** `Innermost` finds a binding iff some enclosing prefix binds the name,
      and the one it finds is at the longest such prefix. */
  lemma {:induction false} InnermostIsLongestPrefix<T>(bindings: map<IdentifierPath, T>, prefix: seq<string>, name: string)
    ensures Innermost(bindings, prefix, name).None?
        <==> forall k | 0 <= k <= |prefix| :: !BoundAt(bindings, prefix, k, name)
    ensures Innermost(bindings, prefix, name).Some? ==>
      exists k | 0 <= k <= |prefix| ::
        && BoundAt(bindings, prefix, k, name)
        && Innermost(bindings, prefix, name).value == bindings[Key(prefix[..k], name)]
        && forall j | k < j <= |prefix| :: !BoundAt(bindings, prefix, j, name)
    decreases |prefix|
  {
    assert prefix[..|prefix|] == prefix;
    if Key(prefix, name) in bindings {
      assert BoundAt(bindings, prefix, |prefix|, name);
    } else if prefix == [] {
      assert !BoundAt(bindings, prefix, 0, name);
    } else {
      var shorter := prefix[..|prefix| - 1];
      InnermostIsLongestPrefix(bindings, shorter, name);
      forall k | 0 <= k <= |shorter|
        ensures BoundAt(bindings, shorter, k, name) == BoundAt(bindings, prefix, k, name)
      {
        assert shorter[..k] == prefix[..k];
      }
      assert !BoundAt(bindings, prefix, |prefix|, name);
      if Innermost(bindings, prefix, name).None? {
        forall k | 0 <= k <= |prefix|
          ensures !BoundAt(bindings, prefix, k, name)
        {
          if k < |prefix| {
            assert !BoundAt(bindings, shorter, k, name);
          }
        }
      } else {
        var k :| 0 <= k <= |shorter| && BoundAt(bindings, shorter, k, name)
              && Innermost(bindings, shorter, name).value == bindings[Key(shorter[..k], name)]
              && forall j | k < j <= |shorter| :: !BoundAt(bindings, shorter, j, name);
        assert shorter[..k] == prefix[..k];
        assert BoundAt(bindings, prefix, k, name);
      }
    }
  }

  /** The lookup loop shared by `FindVariable` and `FindType(string)`: start
      from the current path with a placeholder segment, pop, try `path.name`. */
  method FindInnermost<T>(bindings: map<IdentifierPath, T>, scopePath: IdentifierPath, name: string, placeholder: string)
    returns (r: Option<T>)
    ensures r == Innermost(bindings, scopePath.segments, name)
  {
    var full := scopePath.segments + [placeholder];
    var path := scopePath.Append(placeholder);
    assert scopePath.segments[..|scopePath.segments|] == scopePath.segments;
    while path.segments != []
      invariant |path.segments| <= |full| && path.segments == full[..|path.segments|]
      invariant Innermost(bindings, scopePath.segments, name)
             == if path.segments == [] then None
                else Innermost(bindings, scopePath.segments[..|path.segments| - 1], name)
      decreases |path.segments|
    {
      ghost var m := |path.segments|;
      path := path.Pop().value;
      assert path.segments == scopePath.segments[..m - 1];
      if m > 1 {
        assert scopePath.segments[..m - 1][..m - 2] == scopePath.segments[..m - 2];
      }
      var key := path.Append(name);
      if key in bindings {
        return Some(bindings[key]);
      }
    }
    return None;
  }

  method FindVariable<V>(scope: Scope<V>, name: string) returns (r: Option<V>)
    ensures r == Innermost(scope.variables, scope.path.segments, name)
  {
    r := FindInnermost(scope.variables, scope.path, name, "blank");
  }

  method FindType<V>(scope: Scope<V>, name: string) returns (r: Option<LanguageType>)
    ensures r == Innermost(scope.typeVariables, scope.path.segments, name)
  {
    r := FindInnermost(scope.typeVariables, scope.path, name, "");
  }

  /** `FindType(IdentifierPath)`: a leading `%var` segment looks up the rest
      and wraps the result in `VariableType`; otherwise an exact lookup. An
      empty path (also reached after a lone `%var`) throws. */
  function FindTypeByPath<V>(scope: Scope<V>, path: IdentifierPath): Result<Option<LanguageType>, PathError>
    decreases |path.segments|
  {
    if path.segments == [] then Failure(EmptyPath)
    else if path.segments[0] == "%var" then
      var inner :- FindTypeByPath(scope, IdentifierPath(path.segments[1..]));
      Success(if inner.Some? then Some(VariableType(inner.value)) else None)
    else if path in scope.typeVariables then Success(Some(scope.typeVariables[path]))
    else Success(None)
  }

  function VarPrefix(n: nat): seq<string> {
    if n == 0 then [] else ["%var"] + VarPrefix(n - 1)
  }

  function WrapVariable(n: nat, t: LanguageType): LanguageType {
    if n == 0 then t else VariableType(WrapVariable(n - 1, t))
  }

  /** `n` leading `%var` segments wrap the exact lookup of the rest `n` times;
      with nothing after them the lookup throws. */
  lemma {:induction false} FindTypeByVarPath<V>(scope: Scope<V>, n: nat, rest: seq<string>)
    requires rest == [] || rest[0] != "%var"
    ensures var r := FindTypeByPath(scope, IdentifierPath(VarPrefix(n) + rest));
      && (rest == [] <==> r.Failure?)
      && (rest != [] && IdentifierPath(rest) in scope.typeVariables ==>
            r == Success(Some(WrapVariable(n, scope.typeVariables[IdentifierPath(rest)]))))
      && (rest != [] && IdentifierPath(rest) !in scope.typeVariables ==> r == Success(None))
  {
    if n > 0 {
      assert (VarPrefix(n) + rest)[1..] == VarPrefix(n - 1) + rest;
      FindTypeByVarPath(scope, n - 1, rest);
    } else {
      assert VarPrefix(n) + rest == rest;
    }
  }

  /** Declares `name` in the current path. Adding a name already declared at
      that path throws unless the information is equal. */
  function AppendVariable<V(==)>(scope: Scope<V>, name: string, info: V): Result<Scope<V>, ImmutableMap.AddError> {
    var variables :- ImmutableMap.Add(scope.variables, scope.path.Append(name), info);
    Success(Scope(scope.path, scope.typeVariables, variables))
  }

  function AppendTypeVariable<V>(scope: Scope<V>, name: string, t: LanguageType): Result<Scope<V>, ImmutableMap.AddError> {
    var types :- ImmutableMap.Add(scope.typeVariables, scope.path.Append(name), t);
    Success(Scope(scope.path, types, scope.variables))
  }

  /** A declaration fails exactly when the name is already declared at the
      current path with different information; after a successful one, the
      name looked up from the current path finds the new information and
      nothing else changes. */
  lemma AppendVariableThenFind<V>(scope: Scope<V>, name: string, info: V)
    ensures var key := scope.path.Append(name);
      AppendVariable(scope, name, info).Failure? <==> key in scope.variables && scope.variables[key] != info
    ensures var r := AppendVariable(scope, name, info);
      r.Success? ==>
        && Innermost(r.value.variables, scope.path.segments, name) == Some(info)
        && r.value.path == scope.path && r.value.typeVariables == scope.typeVariables
        && r.value.variables.Keys == scope.variables.Keys + {scope.path.Append(name)}
  {
    assert Key(scope.path.segments, name) == scope.path.Append(name);
  }

  lemma AppendTypeVariableThenFind<V>(scope: Scope<V>, name: string, t: LanguageType)
    ensures var key := scope.path.Append(name);
      AppendTypeVariable(scope, name, t).Failure? <==> key in scope.typeVariables && scope.typeVariables[key] != t
    ensures var r := AppendTypeVariable(scope, name, t);
      r.Success? ==>
        && Innermost(r.value.typeVariables, scope.path.segments, name) == Some(t)
        && r.value.path == scope.path && r.value.variables == scope.variables
  {
    assert Key(scope.path.segments, name) == scope.path.Append(name);
  }
}
