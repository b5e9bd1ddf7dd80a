/** The statement writer of src/helix/Generation/CStatementWriter.cs: it
    appends C statements to a body, keeps blank lines from doubling up,
    memoises the C expression of each lifetime (asking its parent writer
    first), and folds a set of lifetimes into one region temporary with
    `_region_min`, memoised by the set. C syntax is represented by the text
    it prints as. */
module CStatementWriters {
  import opened Wrappers
  import Decimal
  import CWriters
  import DataFlow

  type Lifetime = DataFlow.Lifetime

  /** The statements the writer emits; only a blank line is empty. */
  datatype CStatement =
    | CComment(text: string)
    | CEmptyLine
    | CVariableDeclaration(typeName: string, name: string, assignment: Option<string>)
    | CAssignment(left: string, right: string)
    | CSyntaxStatement(value: string)

  predicate IsEmpty(stat: CStatement) {
    stat.CEmptyLine?
  }

  /** Blank lines at `i` and `i + 1`. */
  predicate BlankPair(stats: seq<CStatement>, i: int) {
    0 <= i && i + 1 < |stats| && IsEmpty(stats[i]) && IsEmpty(stats[i + 1])
  }

  /** A body that neither starts with a blank line nor has two in a row. */
  predicate WellSpaced(stats: seq<CStatement>) {
    && (|stats| > 0 ==> !IsEmpty(stats[0]))
    && (forall i :: 0 <= i < |stats| ==> !BlankPair(stats, i))
  }

  /** The body after WriteEmptyLine. */
  function WithEmptyLine(stats: seq<CStatement>): seq<CStatement> {
    if |stats| > 0 && !IsEmpty(stats[|stats| - 1]) then stats + [CEmptyLine] else stats
  }

  /** The expression a lifetime resolves to: the parent's cached one, else
      this writer's cached one, else a newly generated one. */
  function Resolve(parentCache: map<Lifetime, string>, cache: map<Lifetime, string>,
                   generate: Lifetime -> string, l: Lifetime): string
  {
    if l in parentCache then parentCache[l] else if l in cache then cache[l] else generate(l)
  }

  /** This writer's cache after resolving `l`. */
  function CacheAfter(parentCache: map<Lifetime, string>, cache: map<Lifetime, string>,
                      generate: Lifetime -> string, l: Lifetime): map<Lifetime, string>
  {
    if l in parentCache || l in cache then cache else cache[l := generate(l)]
  }

  /** The result of resolving each lifetime of `ls` in turn. */
  function ResolveAll(parentCache: map<Lifetime, string>, cache: map<Lifetime, string>,
                      generate: Lifetime -> string, ls: seq<Lifetime>): seq<string>
  {
    seq(|ls|, i requires 0 <= i < |ls| => Resolve(parentCache, cache, generate, ls[i]))
  }

  /** The lifetimes of a list as a set (ToValueSet). */
  function LifetimeSet(ls: seq<Lifetime>): set<Lifetime> {
    set l | l in ls
  }

  const ReturnRegion: string := "_return_region"
  const RegionType: string := "_Region*"

  function RegionComment(line: nat): CStatement {
    CComment("Line " + Decimal.NatToString(line) + ": Region calculation")
  }

  /** `temp = _region_min(temp, item)` for each further item. */
  function Folds(temp: string, items: seq<string>): seq<CStatement> {
    seq(|items|, i requires 0 <= i < |items| =>
      CAssignment(temp, "_region_min(" + temp + ", " + items[i] + ")"))
  }

  /** The code that computes the smallest of `values` into `temp`. */
  function RegionCode(line: nat, temp: string, values: seq<string>): seq<CStatement>
    requires |values| > 0
  {
    [RegionComment(line), CVariableDeclaration(RegionType, temp, Some(values[0]))]
      + Folds(temp, values[1..]) + [CEmptyLine]
  }

  class CStatementWriter {
    /** The enclosing statement writer, if the previous writer is one. */
    const parent: CStatementWriter?
    /** The top-level writer that hands out names. */
    const names: CWriters.CWriter
    var stats: seq<CStatement>
    var lifetimes: map<Lifetime, string>
    var lifetimeCombinations: map<set<Lifetime>, string>

    ghost predicate Valid()
      reads this, names
    {
      parent != this && names.Valid()
    }

    /** The parent's lifetime cache, empty without a parent. */
    function ParentCache(): map<Lifetime, string>
      reads parent
    {
      if parent != null then parent.lifetimes else map[]
    }

    /** A nested writer starts with the parent's set cache. */
    constructor (prev: CStatementWriter?, names: CWriters.CWriter, stats: seq<CStatement>)
      requires names.Valid()
      ensures Valid()
      ensures parent == prev && this.names == names && this.stats == stats && lifetimes == map[]
      ensures lifetimeCombinations == if prev != null then prev.lifetimeCombinations else map[]
    {
      parent, this.names, this.stats, lifetimes := prev, names, stats, map[];
      lifetimeCombinations := if prev != null then prev.lifetimeCombinations else map[];
    }

    method WriteStatement(stat: CStatement)
      modifies this`stats
      ensures stats == old(stats) + [stat]
    {
      stats := stats + [stat];
    }

    method WriteEmptyLine()
      modifies this`stats
      ensures stats == WithEmptyLine(old(stats))
    {
      if |stats| > 0 && !IsEmpty(stats[|stats| - 1]) {
        WriteStatement(CEmptyLine);
      }
    }

    /** GetLifetime: memoised, and the answer for every lifetime stays what
        it was. */
    method GetLifetime(l: Lifetime, generate: Lifetime -> string) returns (r: string)
      requires Valid()
      modifies this`lifetimes
      ensures r == Resolve(ParentCache(), old(lifetimes), generate, l)
      ensures lifetimes == CacheAfter(ParentCache(), old(lifetimes), generate, l)
      ensures l in ParentCache() || l in lifetimes
      ensures forall k :: Resolve(ParentCache(), lifetimes, generate, k) == Resolve(ParentCache(), old(lifetimes), generate, k)
    {
      if parent != null {
        if l in parent.lifetimes {
          return parent.lifetimes[l];
        }
      }
      if l !in lifetimes {
        lifetimes := lifetimes[l := generate(l)];
      }
      return lifetimes[l];
    }

    /** CalculateSmallestLifetime. */
    method CalculateSmallestLifetime(line: nat, ls: seq<Lifetime>, generate: Lifetime -> string) returns (r: string)
      requires Valid()
      modifies this, names
      ensures Valid()
      ensures lifetimeCombinations.Keys >= old(lifetimeCombinations.Keys)
      ensures ls == [] ==> r == ReturnRegion && unchanged(this) && unchanged(names)
      ensures |LifetimeSet(ls)| == 1 ==>
        && r == Resolve(ParentCache(), old(lifetimes), generate, ls[0])
        && lifetimes == CacheAfter(ParentCache(), old(lifetimes), generate, ls[0])
        && stats == old(stats) && lifetimeCombinations == old(lifetimeCombinations) && unchanged(names)
      ensures |LifetimeSet(ls)| >= 2 && LifetimeSet(ls) in old(lifetimeCombinations) ==>
        r == old(lifetimeCombinations[LifetimeSet(ls)]) && unchanged(this) && unchanged(names)
      ensures |LifetimeSet(ls)| >= 2 && LifetimeSet(ls) !in old(lifetimeCombinations) ==>
        && r == CWriters.TempName(old(names.Issued()))
        && names.Issued() == old(names.Issued()) + 1
        && stats == WithEmptyLine(old(stats)) + RegionCode(line, r, ResolveAll(ParentCache(), old(lifetimes), generate, ls))
        && lifetimeCombinations == old(lifetimeCombinations)[LifetimeSet(ls) := r]
      ensures forall k :: Resolve(ParentCache(), lifetimes, generate, k) == Resolve(ParentCache(), old(lifetimes), generate, k)
      ensures names.pathNames == old(names.pathNames)
    {
      var lifetimeSet := LifetimeSet(ls);
      if |ls| > 0 {
        assert ls[0] in lifetimeSet;
      }
      if |lifetimeSet| == 0 {
        return ReturnRegion;
      } else if |lifetimeSet| == 1 {
        OnlyElement(ls, lifetimeSet);
        r := GetLifetime(ls[0], generate);
        return;
      } else if lifetimeSet in lifetimeCombinations {
        return lifetimeCombinations[lifetimeSet];
      }
      var some :| some in lifetimeSet;
      assert some in ls;
      r := WriteRegion(line, ls, generate);
    }

    /** The uncached case: resolve every lifetime, declare a fresh region
        temporary holding the first, fold the rest in with `_region_min`,
        and cache the temporary under the set. */
    method WriteRegion(line: nat, ls: seq<Lifetime>, generate: Lifetime -> string) returns (r: string)
      requires Valid() && |ls| > 0
      modifies this, names
      ensures Valid()
      ensures r == CWriters.TempName(old(names.Issued()))
      ensures names.Issued() == old(names.Issued()) + 1
      ensures stats == WithEmptyLine(old(stats)) + RegionCode(line, r, ResolveAll(ParentCache(), old(lifetimes), generate, ls))
      ensures lifetimeCombinations == old(lifetimeCombinations)[LifetimeSet(ls) := r]
      ensures forall k :: Resolve(ParentCache(), lifetimes, generate, k) == Resolve(ParentCache(), old(lifetimes), generate, k)
      ensures names.pathNames == old(names.pathNames)
    {
      var values := GetLifetimes(ls, generate);
      var tempName := names.GetTempName();
      WriteRegionCode(line, tempName, values);
      lifetimeCombinations := lifetimeCombinations[LifetimeSet(ls) := tempName];
      return tempName;
    }

    /** The region statements for `values`, set off by blank lines. */
    method WriteRegionCode(line: nat, tempName: string, values: seq<string>)
      requires |values| > 0
      modifies this`stats
      ensures stats == WithEmptyLine(old(stats)) + RegionCode(line, tempName, values)
    {
      var decl := CVariableDeclaration(RegionType, tempName, Some(values[0]));
      WriteEmptyLine();
      ghost var spaced := stats;
      WriteStatement(RegionComment(line));
      WriteStatement(decl);
      WriteFolds(tempName, values);
      WriteEmptyLine();
      assert stats == spaced + RegionCode(line, tempName, values);
    }

    /** The lifetimes of `ls` resolved in order, duplicates included. */
    method GetLifetimes(ls: seq<Lifetime>, generate: Lifetime -> string) returns (values: seq<string>)
      requires Valid()
      modifies this`lifetimes
      ensures values == ResolveAll(ParentCache(), old(lifetimes), generate, ls)
      ensures forall k :: Resolve(ParentCache(), lifetimes, generate, k) == Resolve(ParentCache(), old(lifetimes), generate, k)
    {
      ghost var expected := ResolveAll(ParentCache(), lifetimes, generate, ls);
      values := [];
      for i := 0 to |ls|
        invariant values == expected[..i]
        invariant forall k :: Resolve(ParentCache(), lifetimes, generate, k) == Resolve(ParentCache(), old(lifetimes), generate, k)
      {
        var value := GetLifetime(ls[i], generate);
        assert value == expected[i];
        values := values + [value];
      }
      assert values == expected;
    }

    /** One `_region_min` assignment into `temp` per value after the first. */
    method WriteFolds(temp: string, values: seq<string>)
      requires |values| > 0
      modifies this`stats
      ensures stats == old(stats) + Folds(temp, values[1..])
    {
      for i := 1 to |values|
        invariant stats == old(stats) + Folds(temp, values[1..i])
      {
        WriteStatement(CAssignment(temp, "_region_min(" + temp + ", " + values[i] + ")"));
        assert Folds(temp, values[1..i + 1]) == Folds(temp, values[1..i]) + [CAssignment(temp, "_region_min(" + temp + ", " + values[i] + ")")];
      }
      assert values[1..] == values[1..|values|];
    }
  }

  /** A sequence whose elements form a singleton set repeats one element. */
  lemma OnlyElement(ls: seq<Lifetime>, s: set<Lifetime>)
    requires s == LifetimeSet(ls) && |s| == 1
    ensures |ls| > 0 && s == {ls[0]}
  {
    var x :| x in s;
    assert x in ls;
    assert ls[0] in s;
    assert |s - {ls[0]}| == 0;
    assert s - {ls[0]} == {};
  }

  /** WriteEmptyLine neither starts a body with a blank line nor doubles one,
      and a second call adds nothing. */
  lemma EmptyLineKeepsSpacing(stats: seq<CStatement>)
    requires WellSpaced(stats)
    ensures WellSpaced(WithEmptyLine(stats))
    ensures WithEmptyLine(WithEmptyLine(stats)) == WithEmptyLine(stats)
  {
    var r := WithEmptyLine(stats);
    forall i | 0 <= i < |r|
      ensures !BlankPair(r, i)
    {
      if i + 1 < |stats| {
        assert r[i] == stats[i] && r[i + 1] == stats[i + 1];
        assert !BlankPair(stats, i);
      }
    }
  }

  /** Writing a statement that is not a blank line keeps the spacing. */
  lemma StatementKeepsSpacing(stats: seq<CStatement>, stat: CStatement)
    requires WellSpaced(stats) && !IsEmpty(stat)
    ensures WellSpaced(stats + [stat])
  {
    var r := stats + [stat];
    forall i | 0 <= i < |r|
      ensures !BlankPair(r, i)
    {
      if i + 1 < |stats| {
        assert !BlankPair(stats, i);
      }
    }
  }

  /** The folds are assignments only. */
  lemma FoldsHaveNoBlank(temp: string, items: seq<string>)
    ensures forall i :: 0 <= i < |items| ==> Folds(temp, items)[i].CAssignment?
  {
  }

  /** A region calculation keeps the body well spaced and leaves it ending
      in one blank line. */
  lemma RegionKeepsSpacing(stats: seq<CStatement>, line: nat, temp: string, values: seq<string>)
    requires WellSpaced(stats) && |values| > 0
    ensures WellSpaced(WithEmptyLine(stats) + RegionCode(line, temp, values))
  {
    EmptyLineKeepsSpacing(stats);
    var before := WithEmptyLine(stats);
    var code := RegionCode(line, temp, values);
    var r := before + code;
    FoldsHaveNoBlank(temp, values[1..]);
    assert forall j :: 0 <= j < |code| - 1 ==> !IsEmpty(code[j]) by {
      forall j | 0 <= j < |code| - 1
        ensures !IsEmpty(code[j])
      {
        if j >= 2 {
          assert code[j] == Folds(temp, values[1..])[j - 2];
        }
      }
    }
    forall i | 0 <= i < |r|
      ensures !BlankPair(r, i)
    {
      if i + 1 < |before| {
        assert r[i] == before[i] && r[i + 1] == before[i + 1];
        assert !BlankPair(before, i);
      } else if i + 1 < |r| {
        assert r[i + 1] == code[i + 1 - |before|];
        if i >= |before| {
          assert r[i] == code[i - |before|];
        }
      }
    }
  }

  /** How many statements of a body are `_region_min` folds into `temp`. */
  function FoldCount(stats: seq<CStatement>, temp: string): nat {
    if stats == [] then 0 else
      var last := stats[|stats| - 1];
      FoldCount(stats[..|stats| - 1], temp) + (if last.CAssignment? && last.left == temp then 1 else 0)
  }

  /** How many statements of a body declare `temp`. */
  function DeclarationCount(stats: seq<CStatement>, temp: string): nat {
    if stats == [] then 0 else
      var last := stats[|stats| - 1];
      DeclarationCount(stats[..|stats| - 1], temp) + (if last.CVariableDeclaration? && last.name == temp then 1 else 0)
  }

  lemma {:induction false} CountsAppend(a: seq<CStatement>, b: seq<CStatement>, temp: string)
    ensures FoldCount(a + b, temp) == FoldCount(a, temp) + FoldCount(b, temp)
    ensures DeclarationCount(a + b, temp) == DeclarationCount(a, temp) + DeclarationCount(b, temp)
    decreases |b|
  {
    if b != [] {
      var b' := b[..|b| - 1];
      assert (a + b)[..|a + b| - 1] == a + b';
      CountsAppend(a, b', temp);
    } else {
      assert a + b == a;
    }
  }

  lemma {:induction false} FoldsCount(temp: string, items: seq<string>)
    ensures FoldCount(Folds(temp, items), temp) == |items|
    ensures DeclarationCount(Folds(temp, items), temp) == 0
    decreases |items|
  {
    if items != [] {
      var f := Folds(temp, items);
      assert f[..|f| - 1] == Folds(temp, items[..|items| - 1]);
      FoldsCount(temp, items[..|items| - 1]);
    }
  }

  /** For n values the region code declares the temporary once and folds
      into it n - 1 times, one fold per later value, duplicates included. */
  lemma RegionCodeCounts(line: nat, temp: string, values: seq<string>)
    requires |values| > 0
    ensures DeclarationCount(RegionCode(line, temp, values), temp) == 1
    ensures FoldCount(RegionCode(line, temp, values), temp) == |values| - 1
  {
    var head := [RegionComment(line), CVariableDeclaration(RegionType, temp, Some(values[0]))];
    var folds := Folds(temp, values[1..]);
    FoldsCount(temp, values[1..]);
    CountsAppend(head, folds, temp);
    CountsAppend(head + folds, [CEmptyLine], temp);
    assert [RegionComment(line)] == head[..1];
    assert [CEmptyLine][..0] == [];
  }

  /** Asking again for the same set of lifetimes, in another order and with
      duplicates, returns the cached temporary and writes nothing. */
  method RepeatedSetReuses(a: Lifetime, b: Lifetime, generate: Lifetime -> string)
    returns (first: string, second: string, written: nat, rewritten: nat)
    requires a != b
    ensures first == second == "$A"
    ensures written == rewritten == 5
  {
    var names := new CWriters.CWriter();
    var writer := new CStatementWriter(null, names, []);
    assert LifetimeSet([a, a, b]) == {a, b} == LifetimeSet([b, a]);
    assert |{a, b}| == 2;
    first := writer.CalculateSmallestLifetime(3, [a, a, b], generate);
    assert first == CWriters.TempName(0) == "$A";
    written := |writer.stats|;
    assert written == |RegionCode(3, first, ResolveAll(map[], map[], generate, [a, a, b]))| == 5;
    second := writer.CalculateSmallestLifetime(4, [b, a], generate);
    rewritten := |writer.stats|;
  }
}
