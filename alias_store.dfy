// The alias store of the middle end's interpreter
// (src/helix.middle/Interpreting/AliasStore.cs): two dictionaries of root
// sets that Set* replace in place, a copy for a nested scope, and the join
// and comparison used where control flow meets.

module AliasStores {
  import opened Wrappers
  import opened AliasRoots

  class AliasStore {
    var referencedRoots: RootMap
    var boxedRoots: RootMap

    constructor ()
      ensures referencedRoots == map[] && boxedRoots == map[]
    {
      referencedRoots := map[];
      boxedRoots := map[];
    }

    constructor Copy(referenced: RootMap, boxed: RootMap)
      ensures referencedRoots == referenced && boxedRoots == boxed
    {
      referencedRoots := referenced;
      boxedRoots := boxed;
    }

    /** A new store with the same contents; the two are separate objects,
        so a Set* on one leaves the other as it was. */
    method CreateScope() returns (s: AliasStore)
      ensures fresh(s) && s != this
      ensures s.referencedRoots == referencedRoots && s.boxedRoots == boxedRoots
    {
      s := new AliasStore.Copy(referencedRoots, boxedRoots);
    }

    method MergeWith(other: AliasStore) returns (s: AliasStore)
      ensures fresh(s)
      ensures s.referencedRoots == Merge(referencedRoots, other.referencedRoots)
      ensures s.boxedRoots == Merge(boxedRoots, other.boxedRoots)
    {
      var referenced := MergeRoots(referencedRoots, other.referencedRoots);
      var boxed := MergeRoots(boxedRoots, other.boxedRoots);
      s := new AliasStore.Copy(referenced, boxed);
    }

    method WasModifiedBy(other: AliasStore) returns (modified: bool)
      ensures modified <==> Modified(referencedRoots, other.referencedRoots) || Modified(boxedRoots, other.boxedRoots)
    {
      modified := ModifiedRoots(referencedRoots, other.referencedRoots);
      if !modified {
        modified := ModifiedRoots(boxedRoots, other.boxedRoots);
      }
    }

    method SetReferencedRoots(referenceName: Location, lvalues: set<Location>)
      modifies this
      ensures referencedRoots == SetReferenced(old(referencedRoots), referenceName, lvalues)
      ensures boxedRoots == old(boxedRoots)
    {
      if IsUnknown(referenceName) {
        return;
      }
      referencedRoots := referencedRoots[referenceName := Normalize(lvalues)];
    }

    function GetReferencedRoots(rvalue: Location): Result<set<Location>, AliasError>
      reads this
    {
      GetReferenced(referencedRoots, rvalue)
    }

    /** `aliases` is DoesAliasLValues() of the value's type. */
    method SetBoxedRoots(rValueName: Location, aliases: bool, lvalues: set<Location>)
      modifies this
      ensures boxedRoots == SetBoxed(old(boxedRoots), rValueName, aliases, lvalues)
      ensures referencedRoots == old(referencedRoots)
    {
      if IsUnknown(rValueName) {
        return;
      }
      if aliases {
        boxedRoots := boxedRoots[rValueName := Normalize(lvalues)];
      } else {
        boxedRoots := boxedRoots[rValueName := {}];
      }
    }

    function GetBoxedRoots(rValueName: Location, aliases: bool): Result<set<Location>, AliasError>
      reads this
    {
      GetBoxed(boxedRoots, rValueName, aliases)
    }
  }

  /** A store compared with a scope copied from it reports no change, and
      the scope merged back into it keeps its contents. */
  method ScopeRoundTrip(store: AliasStore) returns (modified: bool, merged: AliasStore)
    ensures !modified
    ensures merged.referencedRoots == store.referencedRoots && merged.boxedRoots == store.boxedRoots
  {
    var scope := store.CreateScope();
    modified := store.WasModifiedBy(scope);
    MergeProperties(store.referencedRoots, store.referencedRoots);
    MergeProperties(store.boxedRoots, store.boxedRoots);
    merged := store.MergeWith(scope);
  }

  /** A Set* on a scope leaves the store it was copied from unchanged. */
  method ScopeIsSeparate(store: AliasStore, name: Location, lvalues: set<Location>) returns (scope: AliasStore)
    ensures store.referencedRoots == old(store.referencedRoots) && store.boxedRoots == old(store.boxedRoots)
    ensures scope.referencedRoots == SetReferenced(old(store.referencedRoots), name, lvalues)
    ensures scope.boxedRoots == SetBoxed(old(store.boxedRoots), name, true, lvalues)
  {
    scope := store.CreateScope();
    scope.SetReferencedRoots(name, lvalues);
    scope.SetBoxedRoots(name, true, lvalues);
  }
}
