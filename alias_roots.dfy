// The map-of-sets algebra shared by the alias store
// (src/helix.middle/Interpreting/AliasStore.cs) and the aliasing tracker
// (src/helix.middle/Interpreting/AliasingTracker.cs). Both keep two
// dictionaries from a value location to a set of roots: the roots a
// reference names (referenced roots) and the roots a value points to
// (boxed roots).

module AliasRoots {
  import opened Wrappers

  /** A value location: the unknown location, a named variable, or a
      member of another location. */
  datatype Location = Unknown | Named(name: string) | MemberAccess(parent: Location, member: string)

  /** A location is unknown when it is, or is a member of, the unknown
      location. */
  predicate IsUnknown(l: Location) {
    match l
    case Unknown => true
    case Named(_) => false
    case MemberAccess(parent, _) => IsUnknown(parent)
  }

  /** Every unknown location is stored as the one unknown location. */
  function Canonical(l: Location): (c: Location)
    ensures IsUnknown(l) <==> IsUnknown(c)
    ensures !IsUnknown(l) ==> c == l
  {
    if IsUnknown(l) then Unknown else l
  }

  /** The set stored for a sequence of locations (ToValueSet after the
      unknown ones are replaced). */
  function Normalize(lvalues: set<Location>): (s: set<Location>)
    ensures forall x :: x in s ==> x == Unknown || !IsUnknown(x)
    ensures forall x :: x in lvalues && !IsUnknown(x) ==> x in s
    ensures Unknown in s <==> exists x :: x in lvalues && IsUnknown(x)
    ensures forall x :: x in s ==> x == Unknown || x in lvalues
  {
    set x | x in lvalues :: Canonical(x)
  }

  type RootMap = map<Location, set<Location>>

  /** The failures of Assert.IsTrue: a location with no entry, or another
      asserted condition. */
  datatype AliasError = MissingLocation(at: Location) | AssertionFailed

  /** SetReferencedRoots: the unknown location is never a key. */
  function SetReferenced(m: RootMap, name: Location, lvalues: set<Location>): (r: RootMap)
    ensures IsUnknown(name) ==> r == m
    ensures !IsUnknown(name) ==> r == m[name := Normalize(lvalues)]
  {
    if IsUnknown(name) then m else m[name := Normalize(lvalues)]
  }

  /** GetReferencedRoots: an unknown location references only the unknown
      root; a known one must have an entry. */
  function GetReferenced(m: RootMap, rvalue: Location): (r: Result<set<Location>, AliasError>)
    ensures IsUnknown(rvalue) ==> r == Success({Unknown})
    ensures !IsUnknown(rvalue) ==> (r.Success? <==> rvalue in m)
    ensures !IsUnknown(rvalue) && rvalue in m ==> r.value == m[rvalue]
  {
    if IsUnknown(rvalue) then Success({Unknown})
    else if rvalue in m then Success(m[rvalue])
    else Failure(MissingLocation(rvalue))
  }

  /** SetBoxedRoots: a value whose type does not alias l-values boxes
      nothing. */
  function SetBoxed(m: RootMap, name: Location, aliases: bool, lvalues: set<Location>): (r: RootMap)
    ensures IsUnknown(name) ==> r == m
    ensures !IsUnknown(name) && aliases ==> r == m[name := Normalize(lvalues)]
    ensures !IsUnknown(name) && !aliases ==> r == m[name := {}]
  {
    if IsUnknown(name) then m
    else if aliases then m[name := Normalize(lvalues)]
    else m[name := {}]
  }

  /** GetBoxedRoots: the type is consulted before the location. */
  function GetBoxed(m: RootMap, name: Location, aliases: bool): (r: Result<set<Location>, AliasError>)
    ensures !aliases ==> r == Success({})
    ensures aliases && IsUnknown(name) ==> r == Success({Unknown})
    ensures aliases && !IsUnknown(name) ==> (r.Success? <==> name in m)
    ensures aliases && !IsUnknown(name) && name in m ==> r.value == m[name]
  {
    if !aliases then Success({})
    else if IsUnknown(name) then Success({Unknown})
    else if name in m then Success(m[name])
    else Failure(MissingLocation(name))
  }

  /** Every stored set names known roots and at most the one unknown
      location. */
  predicate CanonicalRoots(m: RootMap) {
    forall k :: k in m ==> !IsUnknown(k) && forall x :: x in m[k] ==> x == Unknown || !IsUnknown(x)
  }

  lemma SetKeepsCanonical(m: RootMap, name: Location, aliases: bool, lvalues: set<Location>)
    requires CanonicalRoots(m)
    ensures CanonicalRoots(SetReferenced(m, name, lvalues))
    ensures CanonicalRoots(SetBoxed(m, name, aliases, lvalues))
  {
  }

  /** What a read returns after a write to the same location. */
  lemma GetAfterSet(m: RootMap, name: Location, aliases: bool, lvalues: set<Location>)
    ensures GetReferenced(SetReferenced(m, name, lvalues), name) ==
      if IsUnknown(name) then Success({Unknown}) else Success(Normalize(lvalues))
    ensures GetBoxed(SetBoxed(m, name, aliases, lvalues), name, aliases) ==
      if !aliases then Success({})
      else if IsUnknown(name) then Success({Unknown})
      else Success(Normalize(lvalues))
  {
  }

  /** MergeWith: the keys present in both maps, each with the union of its
      two sets. */
  function Merge(a: RootMap, b: RootMap): (r: RootMap)
    ensures r.Keys == a.Keys * b.Keys
  {
    map k | k in a.Keys * b.Keys :: a[k] + b[k]
  }

  /** WasModifiedBy, for one of the two maps: a key of both maps whose sets
      differ. */
  predicate Modified(a: RootMap, b: RootMap) {
    exists k :: k in a && k in b && a[k] != b[k]
  }

  lemma MergeProperties(a: RootMap, b: RootMap)
    ensures Merge(a, b) == Merge(b, a)
    ensures Merge(a, a) == a
    ensures forall k :: k in Merge(a, b) ==> a[k] <= Merge(a, b)[k] && b[k] <= Merge(a, b)[k]
    ensures !Modified(a, a)
    ensures Modified(a, b) <==> Modified(b, a)
  {
    assert forall k :: k in a.Keys * b.Keys ==> a[k] + b[k] == b[k] + a[k];
    assert forall k :: k in a ==> Merge(a, a)[k] == a[k] + a[k] == a[k];
  }

  /** Merging with a map that agrees on every shared key changes no shared
      set: a merge only adds roots where the two branches differ. */
  lemma MergeOfUnmodified(a: RootMap, b: RootMap)
    requires !Modified(a, b)
    ensures forall k :: k in Merge(a, b) ==> Merge(a, b)[k] == a[k]
  {
  }

  /** The two loops of MergeWith (one per map). */
  method MergeRoots(a: RootMap, b: RootMap) returns (r: RootMap)
    ensures r == Merge(a, b)
  {
    var keys := a.Keys * b.Keys;
    r := map[];
    var remaining := keys;
    while remaining != {}
      invariant remaining <= keys
      invariant r.Keys == keys - remaining
      invariant forall k :: k in r ==> r[k] == a[k] + b[k]
      decreases |remaining|
    {
      var key :| key in remaining;
      r := r[key := a[key] + b[key]];
      remaining := remaining - {key};
    }
  }

  /** One loop of WasModifiedBy: stops at the first shared key whose sets
      differ. */
  method ModifiedRoots(a: RootMap, b: RootMap) returns (modified: bool)
    ensures modified <==> Modified(a, b)
  {
    var remaining := a.Keys * b.Keys;
    while remaining != {}
      invariant remaining <= a.Keys * b.Keys
      invariant forall k :: k in a && k in b && k !in remaining ==> a[k] == b[k]
      decreases |remaining|
    {
      var key :| key in remaining;
      if a[key] != b[key] {
        return true;
      }
      remaining := remaining - {key};
    }
    return false;
  }

  /** A loop that replaces the entry of every key of `keys`, each by the
      outcome computed for it from the map as it was before the loop;
      the first failed outcome aborts the loop. */
  method UpdateEach<K, V>(box: map<K, V>, keys: set<K>, outcome: K -> Result<V, AliasError>)
    returns (r: Result<map<K, V>, AliasError>)
    ensures r.Failure? ==> exists k :: k in keys && outcome(k) == Failure(r.error)
    ensures r.Success? ==> forall k :: k in r.value <==> k in box || k in keys
    ensures r.Success? ==> forall k :: k in keys ==> outcome(k) == Success(r.value[k])
    ensures r.Success? ==> forall k :: k in box && k !in keys ==> r.value[k] == box[k]
  {
    var current := box;
    var remaining := keys;
    ghost var done: set<K> := {};
    while remaining != {}
      invariant remaining <= keys && done == keys - remaining
      invariant forall k :: k in current <==> k in box || k in done
      invariant forall k :: k in done ==> outcome(k) == Success(current[k])
      invariant forall k :: k in box && k !in done ==> current[k] == box[k]
      decreases |remaining|
    {
      var key :| key in remaining;
      var o := outcome(key);
      if o.Failure? {
        return Failure(o.error);
      }
      current := current[key := o.value];
      remaining := remaining - {key};
      done := done + {key};
    }
    assert done == keys;
    r := Success(current);
  }
}
