// The members of a type that the aliasing tracker walks
// (src/helix.middle/Interpreting/AliasingTracker.cs, GetMembers,
// GetMembersHelper and MemberFactory): the value itself, then each struct
// member, depth first, each named by its chain of member names.

module AliasMembers {
  import opened AliasRoots

  /** A Helix type as the tracker sees it: whether its values alias
      l-values (DoesAliasLValues), and its struct members when it is a
      struct (none otherwise). */
  datatype HelixType = HelixType(aliasesLValues: bool, members: seq<Member>)
  datatype Member = Member(name: string, memberType: HelixType)

  /** Struct member names are distinct at every level. */
  predicate WellFormed(t: HelixType)
    decreases t
  {
    (forall i, j :: 0 <= i < j < |t.members| ==> t.members[i].name != t.members[j].name) &&
    forall i :: 0 <= i < |t.members| ==> WellFormed(t.members[i].memberType)
  }

  /** The location of a member chain below a parent: one member access per
      name, the first name outermost from the parent. */
  function ChainLocation(chain: seq<string>, parent: Location): Location
  {
    if chain == [] then parent
    else MemberAccess(ChainLocation(chain[..|chain| - 1], parent), chain[|chain| - 1])
  }

  datatype MemberFactory = MemberFactory(memberType: HelixType, chain: seq<string>) {
    /** Wraps the parent in one member access per name of the chain. */
    method CreateLocation(parent: Location) returns (loc: Location)
      ensures loc == ChainLocation(chain, parent)
    {
      loc := parent;
      var i := 0;
      while i < |chain|
        invariant 0 <= i <= |chain|
        invariant loc == ChainLocation(chain[..i], parent)
      {
        assert chain[..i + 1][..i] == chain[..i];
        loc := MemberAccess(loc, chain[i]);
        i := i + 1;
      }
      assert chain[..i] == chain;
    }
  }

  /** The number of member accesses above the base. */
  function Depth(l: Location): nat {
    match l
    case MemberAccess(parent, _) => Depth(parent) + 1
    case _ => 0
  }

  lemma {:induction false} ChainDepth(chain: seq<string>, parent: Location)
    ensures Depth(ChainLocation(chain, parent)) == Depth(parent) + |chain|
    ensures IsUnknown(ChainLocation(chain, parent)) == IsUnknown(parent)
    decreases |chain|
  {
    if chain != [] {
      ChainDepth(chain[..|chain| - 1], parent);
    }
  }

  /** Below named variables, distinct variables or distinct chains give
      distinct locations. */
  lemma {:induction false} ChainLocationInjective(c1: seq<string>, n1: string, c2: seq<string>, n2: string)
    requires ChainLocation(c1, Named(n1)) == ChainLocation(c2, Named(n2))
    ensures c1 == c2 && n1 == n2
    decreases |c1|
  {
    ChainDepth(c1, Named(n1));
    ChainDepth(c2, Named(n2));
    if c1 != [] {
      ChainLocationInjective(c1[..|c1| - 1], n1, c2[..|c2| - 1], n2);
      assert c1 == c1[..|c1| - 1] + [c1[|c1| - 1]];
      assert c2 == c2[..|c2| - 1] + [c2[|c2| - 1]];
    }
  }

  /** GetMembersHelper(previous, type): the value first, then the members
      of each struct member in declaration order. */
  function Members(previous: seq<string>, t: HelixType): seq<MemberFactory>
    decreases t, 1
  {
    [MemberFactory(t, previous)] + MembersOf(previous, t.members, t)
  }

  function MembersOf(previous: seq<string>, ms: seq<Member>, ghost owner: HelixType): seq<MemberFactory>
    requires forall i :: 0 <= i < |ms| ==> ms[i] in owner.members
    decreases owner, 0, |ms|
  {
    if ms == [] then []
    else
      assert ms[0] in owner.members;
      Members(previous + [ms[0].name], ms[0].memberType) + MembersOf(previous, ms[1..], owner)
  }

  /** GetMembers(type): the walk from the empty chain. */
  function GetMembers(t: HelixType): seq<MemberFactory> {
    Members([], t)
  }

  predicate DistinctChains(fs: seq<MemberFactory>) {
    forall i, j :: 0 <= i < j < |fs| ==> fs[i].chain != fs[j].chain
  }

  /** The value itself comes first, with the chain walked so far; every
      chain extends it. */
  lemma {:induction false} MembersShape(previous: seq<string>, t: HelixType)
    ensures |Members(previous, t)| >= 1
    ensures Members(previous, t)[0] == MemberFactory(t, previous)
    ensures forall f :: f in Members(previous, t) ==> previous <= f.chain
    decreases t, 1
  {
    MembersOfShape(previous, t.members, t);
  }

  /** Every chain below a struct's members continues with one of their
      names. */
  lemma {:induction false} MembersOfShape(previous: seq<string>, ms: seq<Member>, owner: HelixType)
    requires forall i :: 0 <= i < |ms| ==> ms[i] in owner.members
    ensures forall f :: f in MembersOf(previous, ms, owner) ==>
      |f.chain| > |previous| && previous <= f.chain &&
      exists i :: 0 <= i < |ms| && f.chain[|previous|] == ms[i].name
    decreases owner, 0, |ms|
  {
    if ms != [] {
      var head := Members(previous + [ms[0].name], ms[0].memberType);
      var tail := MembersOf(previous, ms[1..], owner);
      MembersShape(previous + [ms[0].name], ms[0].memberType);
      MembersOfShape(previous, ms[1..], owner);
      forall f | f in head
        ensures |f.chain| > |previous| && previous <= f.chain && f.chain[|previous|] == ms[0].name
      {
        assert (previous + [ms[0].name])[|previous|] == ms[0].name;
      }
      forall f | f in tail
        ensures exists i :: 0 <= i < |ms| && f.chain[|previous|] == ms[i].name
      {
        var i :| 0 <= i < |ms[1..]| && f.chain[|previous|] == ms[1..][i].name;
        assert ms[1..][i] == ms[i + 1];
      }
    }
  }

  lemma DistinctConcat(a: seq<MemberFactory>, b: seq<MemberFactory>)
    requires DistinctChains(a) && DistinctChains(b)
    requires forall x, y :: x in a && y in b ==> x.chain != y.chain
    ensures DistinctChains(a + b)
  {
    forall i, j | 0 <= i < j < |a + b|
      ensures (a + b)[i].chain != (a + b)[j].chain
    {
      if j < |a| {
      } else if i >= |a| {
        assert (a + b)[i] == b[i - |a|] && (a + b)[j] == b[j - |a|];
      } else {
        assert (a + b)[i] in a && (a + b)[j] in b;
      }
    }
  }

  /** In a well-formed type, the walk never repeats a chain, so the member
      locations below one variable are pairwise distinct. */
  lemma {:induction false} MembersDistinct(previous: seq<string>, t: HelixType)
    requires WellFormed(t)
    ensures DistinctChains(Members(previous, t))
    decreases t, 1
  {
    MembersOfShape(previous, t.members, t);
    MembersOfDistinct(previous, t.members, t);
    DistinctConcat([MemberFactory(t, previous)], MembersOf(previous, t.members, t));
  }

  lemma {:induction false} MembersOfDistinct(previous: seq<string>, ms: seq<Member>, owner: HelixType)
    requires forall i :: 0 <= i < |ms| ==> ms[i] in owner.members
    requires forall i, j :: 0 <= i < j < |ms| ==> ms[i].name != ms[j].name
    requires forall i :: 0 <= i < |ms| ==> WellFormed(ms[i].memberType)
    ensures DistinctChains(MembersOf(previous, ms, owner))
    decreases owner, 0, |ms|
  {
    if ms != [] {
      var head := Members(previous + [ms[0].name], ms[0].memberType);
      var tail := MembersOf(previous, ms[1..], owner);
      MembersDistinct(previous + [ms[0].name], ms[0].memberType);
      MembersOfDistinct(previous, ms[1..], owner);
      MembersShape(previous + [ms[0].name], ms[0].memberType);
      MembersOfShape(previous, ms[1..], owner);
      forall x, y | x in head && y in tail
        ensures x.chain != y.chain
      {
        assert (previous + [ms[0].name])[|previous|] == ms[0].name;
        assert x.chain[|previous|] == ms[0].name;
        var i :| 0 <= i < |ms[1..]| && y.chain[|previous|] == ms[1..][i].name;
        assert ms[1..][i] == ms[i + 1];
      }
      DistinctConcat(head, tail);
    }
  }
}
