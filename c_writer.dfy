/** The naming half of the C writer of src/helix/Generation/CWriter.cs:
    fresh temporaries `$A`, `$B`, ..., `$Z`, `$A_1`, ..., and C names for
    identifier paths, where a path of one segment keeps that segment and a
    longer path is named after its last segment, with a counter suffix that
    keeps different paths ending in the same segment apart. */
module CWriters {
  import opened Wrappers
  import Decimal

  type Path = seq<string>

  /** `Segments.Last()` on an empty path throws. */
  datatype NameError = EmptyPath

  const LetterCount: nat := 26

  /** The `k`-th temporary handed out since the last reset. */
  function TempName(k: nat): string {
    TempNameAt(k / LetterCount, k % LetterCount)
  }

  /** The temporary with the given letter, numbered after the letters have
      wrapped around `number` times. */
  function TempNameAt(number: nat, letter: nat): string
    requires letter < LetterCount
  {
    var c := ('A' as int + letter) as char;
    if number > 0 then "$" + [c] + "_" + Decimal.NatToString(number) else "$" + [c]
  }

  /** The name of the `k`-th distinct longer path ending in `segment`. */
  function Suffixed(segment: string, k: nat): string {
    if k > 0 then segment + "_" + Decimal.NatToString(k) else segment
  }

  function Last(path: Path): string
    requires |path| > 0
  {
    path[|path| - 1]
  }

  /** How many paths of `paths` end in `segment`. */
  function CountLast(paths: seq<Path>, segment: string): (n: nat)
    ensures n <= |paths|
  {
    if paths == [] then 0
    else CountLast(paths[..|paths| - 1], segment) + (if |paths[|paths| - 1]| > 0 && Last(paths[|paths| - 1]) == segment then 1 else 0)
  }

  predicate Distinct<T(==)>(s: seq<T>) {
    forall i, j :: 0 <= i < j < |s| ==> s[i] != s[j]
  }

  function CounterOf(counters: map<string, int>, segment: string): int {
    if segment in counters then counters[segment] else 0
  }

  /** The names memoised for longer paths: `named` lists them in the order
      they were first named, each counter of a segment counts the named
      paths ending in it, and the k-th of those got the k-th suffix. */
  ghost predicate Naming(names: map<Path, string>, counters: map<string, int>, named: seq<Path>) {
    && Distinct(named)
    && (forall p :: p in names <==> p in named)
    && (forall i :: 0 <= i < |named| ==> |named[i]| >= 2)
    && (forall s :: CounterOf(counters, s) == CountLast(named, s))
    && (forall i :: 0 <= i < |named| ==> NamedAt(names, named, i))
  }

  /** The `i`-th named path got the suffix counting the earlier paths that
      end in the same segment. */
  ghost predicate NamedAt(names: map<Path, string>, named: seq<Path>, i: int)
    requires 0 <= i < |named| && |named[i]| > 0
  {
    named[i] in names && names[named[i]] == Suffixed(Last(named[i]), CountLast(named[..i], Last(named[i])))
  }

  class CWriter {
    var tempLetterCounter: char
    var tempNumberCounter: int
    var pathNames: map<Path, string>
    var nameCounters: map<string, int>
    /** The longer paths named so far, in the order they were first named. */
    ghost var named: seq<Path>

    /** The counter of a segment, zero before its first use. */
    function Counter(segment: string): int
      reads this`nameCounters
    {
      CounterOf(nameCounters, segment)
    }

    /** The number of temporaries handed out since the last reset. */
    function Issued(): int
      reads this`tempLetterCounter, this`tempNumberCounter
    {
      tempNumberCounter * LetterCount + (tempLetterCounter as int - 'A' as int)
    }

    /** The letter counter runs from 'A' to one past 'Z'. */
    predicate TempValid()
      reads this`tempLetterCounter, this`tempNumberCounter
    {
      'A' <= tempLetterCounter <= ('Z' as int + 1) as char && tempNumberCounter >= 0
    }

    ghost predicate NamesValid()
      reads this`pathNames, this`nameCounters, this`named
    {
      Naming(pathNames, nameCounters, named)
    }

    ghost predicate Valid()
      reads this
    {
      TempValid() && NamesValid()
    }

    constructor ()
      ensures Valid() && Issued() == 0
      ensures pathNames == map[] && nameCounters == map[] && named == []
    {
      tempLetterCounter, tempNumberCounter := 'A', 0;
      pathNames, nameCounters := map[], map[];
      named := [];
    }

    /** GetVariableName(): the next temporary; the letter wraps from 'Z'
        back to 'A' by bumping the number. */
    method GetTempName() returns (name: string)
      requires Valid()
      modifies this
      ensures Valid()
      ensures name == TempName(old(Issued()))
      ensures Issued() == old(Issued()) + 1
      ensures pathNames == old(pathNames) && nameCounters == old(nameCounters) && named == old(named)
    {
      ghost var k := Issued();
      if tempLetterCounter > 'Z' {
        tempLetterCounter := 'A';
        tempNumberCounter := tempNumberCounter + 1;
        assert Issued() == (tempNumberCounter - 1) * LetterCount + LetterCount;
      }
      assert Issued() == k;
      ghost var letter := tempLetterCounter as int - 'A' as int;
      TempPosition(tempNumberCounter, letter);
      assert TempName(k) == TempNameAt(tempNumberCounter, letter);
      if tempNumberCounter > 0 {
        name := "$" + [tempLetterCounter] + "_" + Decimal.NatToString(tempNumberCounter);
      } else {
        name := "$" + [tempLetterCounter];
      }
      assert name == TempName(k);
      tempLetterCounter := (tempLetterCounter as int + 1) as char;
      assert Issued() == tempNumberCounter * LetterCount + (letter + 1);
    }

    /** ResetTempNames: the next temporary is `$A` again. */
    method ResetTempNames()
      requires Valid()
      modifies this
      ensures Valid() && Issued() == 0 && TempName(Issued()) == "$A"
      ensures pathNames == old(pathNames) && nameCounters == old(nameCounters) && named == old(named)
    {
      tempLetterCounter, tempNumberCounter := 'A', 0;
    }

    /** GetVariableName(path). */
    method GetPathName(path: Path) returns (r: Result<string, NameError>)
      requires Valid()
      modifies this
      ensures Valid()
      ensures tempLetterCounter == old(tempLetterCounter) && tempNumberCounter == old(tempNumberCounter)
      ensures |path| == 0 ==> r == Failure(EmptyPath) && unchanged(this)
      ensures |path| == 1 ==> r == Success(path[0]) && unchanged(this)
      ensures |path| >= 2 && path in old(pathNames) ==>
        r == Success(old(pathNames[path])) && pathNames == old(pathNames) && named == old(named)
      ensures |path| >= 2 && path !in old(pathNames) ==>
        && r == Success(Suffixed(Last(path), old(Counter(Last(path)))))
        && pathNames == old(pathNames)[path := r.value]
        && named == old(named) + [path]
      ensures forall s :: Counter(s) == old(Counter(s)) + (if |path| >= 2 && path !in old(pathNames) && s == Last(path) then 1 else 0)
    {
      if |path| == 1 {
        return Success(path[0]);
      }
      if |path| == 0 {
        return Failure(EmptyPath);
      }
      var name := path[|path| - 1];
      var counter: int;
      if name in nameCounters {
        counter := nameCounters[name];
      } else {
        counter := 0;
        NamingFirstUse(pathNames, nameCounters, named, name);
        nameCounters := nameCounters[name := 0];
      }
      var value: string;
      if path in pathNames {
        value := pathNames[path];
        assert forall s :: Counter(s) == old(Counter(s));
      } else {
        value := name;
        if counter > 0 {
          value := value + "_" + Decimal.NatToString(counter);
        }
        NamingStep(pathNames, nameCounters, named, path);
        pathNames := pathNames[path := value];
        nameCounters := nameCounters[name := nameCounters[name] + 1];
        named := named + [path];
        assert forall s :: Counter(s) == old(Counter(s)) + (if s == name then 1 else 0);
      }
      return Success(value);
    }
  }

  /** Position `number * 26 + letter` has that letter and that number. */
  lemma TempPosition(number: nat, letter: nat)
    requires letter < LetterCount
    ensures (number * LetterCount + letter) / LetterCount == number
    ensures (number * LetterCount + letter) % LetterCount == letter
  {
  }

  /** Appending a new path to the named ones: the counts of every earlier
      prefix stay, and only its own segment's count goes up. */
  lemma NameNext(named: seq<Path>, path: Path)
    requires |path| >= 2
    ensures forall s :: CountLast(named + [path], s) == CountLast(named, s) + (if s == Last(path) then 1 else 0)
    ensures forall i :: 0 <= i <= |named| ==> (named + [path])[..i] == named[..i]
  {
    assert (named + [path])[..|named|] == named;
  }

  /** Starting a segment's counter at zero changes no counter. */
  lemma NamingFirstUse(names: map<Path, string>, counters: map<string, int>, named: seq<Path>, segment: string)
    requires Naming(names, counters, named) && segment !in counters
    ensures Naming(names, counters[segment := 0], named)
  {
    assert forall s :: CounterOf(counters[segment := 0], s) == CounterOf(counters, s);
  }

  /** Naming a new longer path after its segment's counter and bumping the
      counter keeps the memoised names in step with the counters. */
  lemma NamingStep(names: map<Path, string>, counters: map<string, int>, named: seq<Path>, path: Path)
    requires Naming(names, counters, named) && |path| >= 2 && path !in names
    ensures var k := CounterOf(counters, Last(path));
      Naming(names[path := Suffixed(Last(path), k)], counters[Last(path) := k + 1], named + [path])
  {
    var k := CounterOf(counters, Last(path));
    var names', counters', named' := names[path := Suffixed(Last(path), k)], counters[Last(path) := k + 1], named + [path];
    NameNext(named, path);
    assert forall s :: CounterOf(counters', s) == CountLast(named', s);
    forall i | 0 <= i < |named'|
      ensures NamedAt(names', named', i)
    {
      if i < |named| {
        assert named'[i] == named[i] != path;
        assert named'[..i] == named[..i];
        assert NamedAt(names, named, i);
      } else {
        assert named'[..i] == named;
        assert CountLast(named, Last(path)) == k;
      }
    }
  }

  /** The suffixed name determines the count. */
  lemma SuffixedInjective(segment: string, j: nat, k: nat)
    ensures Suffixed(segment, j) == Suffixed(segment, k) ==> j == k
  {
    var a, b := Suffixed(segment, j), Suffixed(segment, k);
    if a == b {
      if j > 0 && k > 0 {
        assert a[|segment| + 1..] == Decimal.NatToString(j);
        assert b[|segment| + 1..] == Decimal.NatToString(k);
        Decimal.NatToStringInjective(j, k);
      } else {
        assert |a| == |b|;
      }
    }
  }

  /** The count of a segment grows by one past each path that ends in it. */
  lemma {:induction false} CountLastGrows(paths: seq<Path>, i: int, j: int, segment: string)
    requires 0 <= i < j <= |paths| && |paths[i]| > 0 && Last(paths[i]) == segment
    ensures CountLast(paths[..j], segment) >= CountLast(paths[..i], segment) + 1
    decreases j
  {
    var prefix := paths[..j];
    assert prefix[..j - 1] == paths[..j - 1];
    if j - 1 > i {
      CountLastGrows(paths, i, j - 1, segment);
    } else {
      assert prefix[j - 1] == paths[i];
    }
  }

  /** Two different longer paths ending in the same segment get different
      names. */
  lemma MemoisedNamesDistinct(w: CWriter, p: Path, q: Path)
    requires w.Valid() && p in w.pathNames && q in w.pathNames && p != q
    requires Last(p) == Last(q)
    ensures w.pathNames[p] != w.pathNames[q]
  {
    var i :| 0 <= i < |w.named| && w.named[i] == p;
    var j :| 0 <= j < |w.named| && w.named[j] == q;
    assert i != j;
    assert NamedAt(w.pathNames, w.named, i) && NamedAt(w.pathNames, w.named, j);
    if i < j {
      CountLastGrows(w.named, i, j, Last(p));
    } else {
      CountLastGrows(w.named, j, i, Last(p));
    }
    SuffixedInjective(Last(p), CountLast(w.named[..i], Last(p)), CountLast(w.named[..j], Last(p)));
  }

  /** The temporary determines its position since the last reset. */
  lemma TempNameInjective(j: nat, k: nat)
    ensures TempName(j) == TempName(k) ==> j == k
  {
    var a, b := TempName(j), TempName(k);
    if a == b {
      assert a[1] == b[1];
      assert j % LetterCount == k % LetterCount;
      if j / LetterCount > 0 && k / LetterCount > 0 {
        assert a[3..] == Decimal.NatToString(j / LetterCount);
        assert b[3..] == Decimal.NatToString(k / LetterCount);
        Decimal.NatToStringInjective(j / LetterCount, k / LetterCount);
      } else {
        assert |a| == |b|;
      }
      assert j / LetterCount == k / LetterCount;
    }
  }

  /** The first temporaries of a fresh writer are `$A`, ..., `$Z`, and then
      the letters start over with a number: `$A_1`. */
  lemma TempNameSequence()
    ensures TempName(0) == "$A" && TempName(25) == "$Z"
    ensures TempName(26) == "$A_1" && TempName(27) == "$B_1" && TempName(52) == "$A_2"
  {
  }

  /** A one-segment path is named by its segment without consulting the
      counters, so it can share its name with a longer path ending in the
      same segment. */
  method OneSegmentShares() returns (longer: Result<string, NameError>, single: Result<string, NameError>)
    ensures longer == single == Success("x")
  {
    var w := new CWriter();
    longer := w.GetPathName(["f", "x"]);
    single := w.GetPathName(["x"]);
  }

  /** The suffix is only unique per last segment: a path ending in `a_1`
      gets the name the second path ending in `a` already has. */
  method SuffixShares(a: string, f: string, g: string, h: string) returns (second: Result<string, NameError>, other: Result<string, NameError>)
    requires f != g
    ensures second == other == Success(a + "_1")
  {
    var w := new CWriter();
    var first := w.GetPathName([f, a]);
    assert w.Counter(a) == 1;
    assert [g, a][0] != [f, a][0];
    assert [g, a] !in w.pathNames;
    second := w.GetPathName([g, a]);
    assert Decimal.NatToString(1) == "1";
    assert Suffixed(a, 1) == a + "_1";
    assert w.Counter(a + "_1") == 0;
    var third := [h, a + "_1"];
    assert |Last(third)| != |a|;
    other := w.GetPathName(third);
    assert Suffixed(a + "_1", 0) == a + "_1";
  }
}
