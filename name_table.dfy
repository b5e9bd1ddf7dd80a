// The parser's table of declared names (trophyc-new/Parser.cs, class
// NameTable). Every declaration is recorded under its full path, the
// segments of which are joined with '$'; a name used inside a scope is
// looked up in that scope and then in each enclosing one.

module TrophyNames {
  import opened Wrappers

  /** The separator between the segments of a full path. */
  const Separator: char := '$'

  datatype NameTarget = Struct | Union | Function | Variable

  /** A path that a lookup found, and what it names. */
  datatype Found = Found(path: string, target: NameTarget)

  /** `s.Split(sep)`: the pieces of `s` between the separators. There is
      always at least one piece, and "" splits into [""]. */
  function Split(s: string, sep: char): (parts: seq<string>)
    ensures |parts| >= 1
    ensures forall k :: 0 <= k < |parts| ==> sep !in parts[k]
    ensures |parts| == 1 <==> sep !in s
  {
    if |s| == 0 then [""]
    else
      var rest := Split(s[1..], sep);
      if s[0] == sep then [""] + rest
      else [[s[0]] + rest[0]] + rest[1..]
  }

  /** `string.Join(sep, parts)`; the join of no parts is "". */
  function Join(sep: char, parts: seq<string>): (s: string)
    ensures |parts| == 1 ==> s == parts[0]
    ensures (forall k :: 0 <= k < |parts| ==> sep !in parts[k]) ==>
              (|parts| <= 1 <==> sep !in s)
  {
    if |parts| == 0 then ""
    else if |parts| == 1 then parts[0]
    else parts[0] + [sep] + Join(sep, parts[1..])
  }

  lemma {:induction false} JoinSplit(s: string, sep: char)
    ensures Join(sep, Split(s, sep)) == s
  {
    if |s| != 0 {
      var rest := Split(s[1..], sep);
      JoinSplit(s[1..], sep);
      if s[0] == sep {
        JoinCons(sep, "", rest);
      } else {
        JoinHead(sep, s[0], rest);
      }
      assert s == [s[0]] + s[1..];
    }
  }

  /** Joining a first part in front of at least one more. */
  lemma JoinCons(sep: char, p: string, parts: seq<string>)
    requires |parts| >= 1
    ensures Join(sep, [p] + parts) == p + [sep] + Join(sep, parts)
  {
    assert ([p] + parts)[1..] == parts;
  }

  /** Joining after a character is prepended to the first part. */
  lemma JoinHead(sep: char, c: char, parts: seq<string>)
    requires |parts| >= 1
    ensures Join(sep, [[c] + parts[0]] + parts[1..]) == [c] + Join(sep, parts)
  {
    if |parts| > 1 {
      JoinCons(sep, [c] + parts[0], parts[1..]);
      JoinCons(sep, parts[0], parts[1..]);
      assert [parts[0]] + parts[1..] == parts;
    }
  }

  lemma {:induction false} SplitJoin(parts: seq<string>, sep: char)
    requires |parts| >= 1
    requires forall k :: 0 <= k < |parts| ==> sep !in parts[k]
    ensures Split(Join(sep, parts), sep) == parts
  {
    if |parts| == 1 {
      SplitNoSeparator(parts[0], sep);
    } else {
      SplitJoin(parts[1..], sep);
      SplitPrefix(parts[0], Join(sep, parts[1..]), sep);
      assert [parts[0]] + parts[1..] == parts;
    }
  }

  lemma {:induction false} SplitNoSeparator(s: string, sep: char)
    requires sep !in s
    ensures Split(s, sep) == [s]
  {
    if |s| != 0 {
      SplitNoSeparator(s[1..], sep);
      assert [s[0]] + s[1..] == s;
    }
  }

  /** Splitting a piece, a separator and a tail. */
  lemma {:induction false} SplitPrefix(p: string, t: string, sep: char)
    requires sep !in p
    ensures Split(p + [sep] + t, sep) == [p] + Split(t, sep)
  {
    var s := p + [sep] + t;
    if |p| == 0 {
      assert s[0] == sep && s[1..] == t;
    } else {
      SplitPrefix(p[1..], t, sep);
      assert s[0] == p[0];
      assert s[1..] == p[1..] + [sep] + t;
      assert [p[0]] + p[1..] == p;
    }
  }

  /** The path that a lookup of `name` tries with the first `i` segments of
      the scope: those segments and the name, joined with '$'. */
  function Candidate(segments: seq<string>, name: string, i: nat): string
    requires i <= |segments|
  {
    Join(Separator, segments[..i] + [name])
  }

  /** The last segment of a declaration's path: the declared name. */
  function DeclaredName(segments: seq<string>): string
    requires |segments| >= 1
  {
    segments[|segments| - 1]
  }

  /** The scope searched for a name that a declaration might shadow: the
      path without its last two segments, joined and split again. */
  function EnclosingScope(segments: seq<string>): seq<string>
    requires |segments| >= 2
  {
    Split(Join(Separator, segments[..|segments| - 2]), Separator)
  }

  class NameTable {
    /** The keys of FunctionSignatures, StructSignatures and
        UnionSignatures, and the set Variables. */
    var functions: set<string>
    var structs: set<string>
    var unions: set<string>
    var variables: set<string>

    constructor ()
      ensures functions == {} && structs == {} && unions == {} && variables == {}
    {
      functions, structs, unions, variables := {}, {}, {}, {};
    }

    /** `FunctionSignatures.Add(path, sig)`: Dictionary.Add throws on a
        key already present, which is reported here as `false`. */
    method AddFunction(path: string) returns (ok: bool)
      modifies this
      ensures ok <==> path !in old(functions)
      ensures functions == old(functions) + {path}
      ensures structs == old(structs) && unions == old(unions) && variables == old(variables)
    {
      ok := path !in functions;
      functions := functions + {path};
    }

    method AddStruct(path: string) returns (ok: bool)
      modifies this
      ensures ok <==> path !in old(structs)
      ensures structs == old(structs) + {path}
      ensures functions == old(functions) && unions == old(unions) && variables == old(variables)
    {
      ok := path !in structs;
      structs := structs + {path};
    }

    method AddUnion(path: string) returns (ok: bool)
      modifies this
      ensures ok <==> path !in old(unions)
      ensures unions == old(unions) + {path}
      ensures functions == old(functions) && structs == old(structs) && variables == old(variables)
    {
      ok := path !in unions;
      unions := unions + {path};
    }

    /** `Variables.Add(path)`: a HashSet reports whether the path was new. */
    method AddVariable(path: string) returns (added: bool)
      modifies this
      ensures added <==> path !in old(variables)
      ensures variables == old(variables) + {path}
      ensures functions == old(functions) && structs == old(structs) && unions == old(unions)
    {
      added := path !in variables;
      variables := variables + {path};
    }

    /** What `path` names. A path declared in several tables resolves to a
        function first, then a struct, then a union, then a variable. */
    function TryGetPath(path: string): (r: Option<NameTarget>)
      reads this
      ensures r.None? <==> path !in functions + structs + unions + variables
      ensures r == Some(Function) <==> path in functions
      ensures r == Some(Struct) <==> path in structs - functions
      ensures r == Some(Union) <==> path in unions - functions - structs
      ensures r == Some(Variable) <==> path in variables - functions - structs - unions
    {
      if path in functions then Some(Function)
      else if path in structs then Some(Struct)
      else if path in unions then Some(Union)
      else if path in variables then Some(Variable)
      else None
    }

    /** Looks `name` up in `scope` and its enclosing scopes, from the whole
        scope down to the empty prefix; the first declared path wins. */
    method TryFindPath(scope: string, name: string) returns (r: Option<Found>)
      ensures var segments := Split(scope, Separator);
        r.None? <==> forall j :: 0 <= j <= |segments| ==> TryGetPath(Candidate(segments, name, j)).None?
      ensures var segments := Split(scope, Separator);
        r.Some? ==> exists i :: (0 <= i <= |segments| && r.value.path == Candidate(segments, name, i)
          && TryGetPath(r.value.path) == Some(r.value.target)
          && forall j :: i < j <= |segments| ==> TryGetPath(Candidate(segments, name, j)).None?)
    {
      var segments := Split(scope, Separator);
      var i: int := |segments|;
      while i >= 0
        invariant -1 <= i <= |segments|
        invariant forall j :: i < j <= |segments| ==> TryGetPath(Candidate(segments, name, j)).None?
        decreases i + 1
      {
        var path := Join(Separator, segments[..i] + [name]);
        assert path == Candidate(segments, name, i);
        var target := TryGetPath(path);
        if target.Some? {
          r := Some(Found(path, target.value));
          assert 0 <= i <= |segments| && r.value.path == Candidate(segments, name, i);
          assert segments == Split(scope, Separator);
          assert !forall j :: 0 <= j <= |Split(scope, Separator)| ==> TryGetPath(Candidate(Split(scope, Separator), name, j)).None?;
          return;
        }
        i := i - 1;
      }
      return None;
    }

    /** Whether a declaration at `path` hides a name of an enclosing scope.
        The last segment is the declared name; the segment before it is the
        declaration's own scope, which is dropped, and the name is looked up
        from what remains. */
    method DoesPathShadow(path: string) returns (shadows: bool)
      ensures var segments := Split(path, Separator);
        |segments| <= 1 ==> !shadows
      ensures var segments := Split(path, Separator);
        |segments| > 1 ==>
          var scope := EnclosingScope(segments);
          (shadows <==> exists j :: (0 <= j <= |scope|
             && TryGetPath(Candidate(scope, DeclaredName(segments), j)).Some?))
    {
      var segments := Split(path, Separator);
      if |segments| <= 1 {
        return false;
      }
      var name := DeclaredName(segments);
      var scope := Join(Separator, segments[..|segments| - 2]);
      assert Split(scope, Separator) == EnclosingScope(segments);
      var r := TryFindPath(scope, name);
      shadows := r.Some?;
    }
  }

  /** A declaration with three or more segments is checked against exactly
      the paths `e1$...$ej$name` for every prefix of its enclosing scopes
      (its own scope, the second-to-last segment, excluded). */
  lemma ShadowCandidates(path: string)
    requires |Split(path, Separator)| > 2
    ensures var segments := Split(path, Separator);
      var n := |segments|;
      var scope := EnclosingScope(segments);
      |scope| == n - 2 &&
      forall j :: 0 <= j <= n - 2 ==>
        Candidate(scope, DeclaredName(segments), j) == Join(Separator, segments[..j] + [DeclaredName(segments)])
  {
    var segments := Split(path, Separator);
    var n := |segments|;
    var name := DeclaredName(segments);
    SplitJoin(segments[..n - 2], Separator);
    var scope := EnclosingScope(segments);
    assert scope == segments[..n - 2];
    forall j | 0 <= j <= n - 2
      ensures Candidate(scope, name, j) == Join(Separator, segments[..j] + [name])
    {
      assert scope[..j] == segments[..j];
    }
  }

  /** A declaration with two segments is checked against "$name" and "name":
      its scope is "", which splits into one empty segment. */
  lemma ShadowTopLevel(path: string)
    requires |Split(path, Separator)| == 2
    ensures var segments := Split(path, Separator);
      var scope := EnclosingScope(segments);
      scope == [""] &&
      Candidate(scope, segments[1], 1) == [Separator] + segments[1] &&
      Candidate(scope, segments[1], 0) == segments[1]
  {
    var segments := Split(path, Separator);
    var scope := Split(Join(Separator, segments[..0]), Separator);
    assert Join(Separator, segments[..0]) == "";
    assert scope == [""];
    assert scope[..1] + [segments[1]] == ["", segments[1]];
    assert Join(Separator, ["", segments[1]]) == "" + [Separator] + Join(Separator, [segments[1]]);
    assert scope[..0] + [segments[1]] == [segments[1]];
  }
}
