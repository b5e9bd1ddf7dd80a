/*
 * Runtime values of the Attempt14 interpreter: symbols, integers and
 * mutable dictionaries. A list is a dictionary whose keys are the integers
 * 1..n. Symbols and integers compare by value; a dictionary compares by the
 * identity of the dictionary object it wraps, which is why `Dictionary` is
 * a class here.
 */
module IndexedData {
  import opened Wrappers

  class Dictionary {
    var entries: map<Data, Data>

    constructor (initial: map<Data, Data>)
      ensures entries == initial
    {
      entries := initial;
    }
  }

  datatype Data = Symbol(name: string) | Integer(value: int) | Dict(dict: Dictionary)

  /** The casts of Data.cs (`AsDictionary`) and a missing list key throw these. */
  datatype Error = InvalidCast | KeyNotFound

  predicate Atomic(d: Data) {
    d.Symbol? || d.Integer?
  }

  // ---------------------------------------------------------------------
  // Truthiness and equality
  // ---------------------------------------------------------------------

  /** A symbol is always truthy, an integer when non-zero, a dictionary when non-empty. */
  function IsTruthy(d: Data): (r: bool)
    reads if d.Dict? then {d.dict} else {}
    ensures d.Symbol? ==> r
    ensures d.Integer? ==> (r <==> d.value != 0)
    ensures d.Dict? ==> (r <==> |d.dict.entries| > 0)
  {
    match d
    case Symbol(_) => true
    case Integer(v) => v != 0
    case Dict(dict) => |dict.entries| > 0
  }

  /** Data.Equals: symbols and integers by value, dictionaries by reference. */
  function Equals(a: Data, b: Data): (r: bool)
    ensures r <==> a == b
  {
    match a
    case Symbol(n) => b.Symbol? && b.name == n
    case Integer(v) => b.Integer? && b.value == v
    case Dict(dict) => b.Dict? && b.dict == dict
  }

  /** Two dictionary objects are never Equal, even with the same entries. */
  lemma SameEntriesNotEqual(d1: Dictionary, d2: Dictionary)
    requires d1 != d2
    ensures !Equals(Dict(d1), Dict(d2))
  {
  }

  // ---------------------------------------------------------------------
  // Lists as dictionaries keyed 1..n
  // ---------------------------------------------------------------------

  predicate IsIndex(k: Data, n: int) {
    k.Integer? && 1 <= k.value <= n
  }

  function IndexKeys(n: nat): (s: set<Data>)
    ensures forall k :: k in s ==> IsIndex(k, n)
    ensures forall i :: 1 <= i <= n ==> Integer(i) in s
  {
    set i | 1 <= i <= n :: Integer(i)
  }

  /** The entries of the dictionary that encodes `list`: key i+1 holds list[i]. */
  function ListEntries(list: seq<Data>): (m: map<Data, Data>)
    ensures m.Keys == IndexKeys(|list|)
    ensures forall i {:trigger m[Integer(i)]} :: 1 <= i <= |list| ==> m[Integer(i)] == list[i - 1]
    ensures |m| == |list|
  {
    if list == [] then
      assert IndexKeys(0) == {};
      map[]
    else
      var n := |list| - 1;
      var prefix := ListEntries(list[..n]);
      IndexKeysStep(n);
      assert Integer(n + 1) !in prefix;
      SnocEntries(list[..n], list[n], prefix, prefix[Integer(n + 1) := list[n]]);
      SnocSplit(list);
      prefix[Integer(n + 1) := list[n]]
  }

  lemma SnocSplit<T>(list: seq<T>)
    requires list != []
    ensures list[..|list| - 1] + [list[|list| - 1]] == list
  {
  }

  /** Binding key n+1 to a last element extends the encoding of the first n. */
  lemma SnocEntries(init: seq<Data>, x: Data, prefix: map<Data, Data>, m: map<Data, Data>)
    requires prefix.Keys == IndexKeys(|init|) && m == prefix[Integer(|init| + 1) := x]
    requires forall i {:trigger prefix[Integer(i)]} :: 1 <= i <= |init| ==> prefix[Integer(i)] == init[i - 1]
    ensures forall i {:trigger m[Integer(i)]} :: 1 <= i <= |init| + 1 ==> m[Integer(i)] == (init + [x])[i - 1]
  {
    forall i | 1 <= i <= |init| + 1
      ensures m[Integer(i)] == (init + [x])[i - 1]
    {
      if i <= |init| {
        assert prefix[Integer(i)] == init[i - 1];
      }
    }
  }

  lemma IndexKeysStep(n: nat)
    ensures IndexKeys(n + 1) == IndexKeys(n) + {Integer(n + 1)}
  {
  }

  lemma ListEntriesStep(list: seq<Data>, i: nat)
    requires i < |list|
    ensures ListEntries(list[..i + 1]) == ListEntries(list[..i])[Integer(i + 1) := list[i]]
  {
    assert list[..i + 1][..i] == list[..i];
  }

  /** Every key 1..Count is present: what IsList tests. */
  predicate HasIndexKeys(m: map<Data, Data>) {
    forall i :: 1 <= i <= |m| ==> Integer(i) in m
  }

  /** AsList on a dictionary's entries: the values at keys 1..Count, in order. */
  function EntriesAsList(m: map<Data, Data>): (r: Result<seq<Data>, Error>)
    ensures r.Success? <==> HasIndexKeys(m)
    ensures r.Success? ==> |r.value| == |m|
    ensures r.Success? ==> forall i {:trigger m[Integer(i)]} :: 1 <= i <= |m| ==> r.value[i - 1] == m[Integer(i)]
  {
    if HasIndexKeys(m) then Success(seq(|m|, i requires 0 <= i < |m| => m[Integer(i + 1)]))
    else Failure(KeyNotFound)
  }

  /** Data.FromList: a fresh dictionary with key i+1 bound to list[i]. */
  method FromList(list: seq<Data>) returns (r: Data)
    ensures r.Dict? && fresh(r.dict)
    ensures r.dict.entries == ListEntries(list)
  {
    if |list| == 0 {
      var empty := new Dictionary(map[]);
      return Dict(empty);
    }
    var dict := new Dictionary(map[]);
    for i := 0 to |list|
      invariant dict.entries == ListEntries(list[..i])
    {
      ListEntriesStep(list, i);
      dict.entries := dict.entries[Integer(i + 1) := list[i]];
    }
    assert list[..|list|] == list;
    return Dict(dict);
  }

  /** Data.AsList: reads keys 1..Count; a missing key or a non-dictionary throws. */
  method AsList(d: Data) returns (r: Result<seq<Data>, Error>)
    ensures !d.Dict? ==> r == Failure(InvalidCast)
    ensures d.Dict? ==> r == EntriesAsList(d.dict.entries)
  {
    if !d.Dict? {
      return Failure(InvalidCast);
    }
    var entries := d.dict.entries;
    var list: seq<Data> := [];
    for i := 1 to |entries| + 1
      invariant |list| == i - 1
      invariant forall j :: 1 <= j < i ==> Integer(j) in entries
      invariant forall j :: 0 <= j < |list| ==> list[j] == entries[Integer(j + 1)]
    {
      if Integer(i) !in entries {
        return Failure(KeyNotFound);
      }
      list := list + [entries[Integer(i)]];
    }
    assert HasIndexKeys(entries);
    assert EntriesAsList(entries) == Success(list) by {
      var v := EntriesAsList(entries).value;
      forall j | 0 <= j < |list|
        ensures v[j] == list[j]
      {
        assert entries[Integer(j + 1)] == list[j];
      }
      assert v == list;
    }
    return Success(list);
  }

  /** Data.IsList: a dictionary holding every key 1..Count. */
  method IsList(d: Data) returns (r: bool)
    ensures r <==> d.Dict? && HasIndexKeys(d.dict.entries)
  {
    if !d.Dict? {
      return false;
    }
    var entries := d.dict.entries;
    for i := 1 to |entries| + 1
      invariant forall j :: 1 <= j < i ==> Integer(j) in entries
    {
      if Integer(i) !in entries {
        return false;
      }
    }
    return true;
  }

  // ---------------------------------------------------------------------
  // List properties
  // ---------------------------------------------------------------------

  lemma {:induction false} IndexKeysSize(n: nat)
    ensures |IndexKeys(n)| == n
  {
    if n > 0 {
      IndexKeysSize(n - 1);
      assert IndexKeys(n) == IndexKeys(n - 1) + {Integer(n)};
    }
  }

  /** A dictionary passes IsList exactly when its keys are 1..Count and nothing else. */
  lemma IsListExact(m: map<Data, Data>)
    ensures HasIndexKeys(m) <==> m.Keys == IndexKeys(|m|)
  {
    if HasIndexKeys(m) {
      IndexKeysSize(|m|);
      assert IndexKeys(|m|) <= m.Keys;
      SubsetOfSameSize(IndexKeys(|m|), m.Keys);
    }
  }

  lemma SubsetOfSameSize<T>(a: set<T>, b: set<T>)
    requires a <= b && |a| == |b|
    ensures a == b
  {
    assert b == a + (b - a);
    assert a * (b - a) == {};
    assert |b - a| == 0;
  }

  /** A list survives the trip through its dictionary encoding, which passes IsList. */
  lemma ListRoundTrip(list: seq<Data>)
    ensures HasIndexKeys(ListEntries(list))
    ensures EntriesAsList(ListEntries(list)) == Success(list)
  {
    var m := ListEntries(list);
    assert HasIndexKeys(m);
    var r := EntriesAsList(m).value;
    forall i | 0 <= i < |list|
      ensures r[i] == list[i]
    {
      assert m[Integer(i + 1)] == list[i];
    }
    assert r == list;
    assert EntriesAsList(m) == Success(r);
  }

  /** A dictionary that passes IsList is the encoding of what AsList reads from it. */
  lemma EntriesRoundTrip(m: map<Data, Data>)
    requires HasIndexKeys(m)
    ensures ListEntries(EntriesAsList(m).value) == m
  {
    var list := EntriesAsList(m).value;
    EncodingAgrees(m, list, ListEntries(list));
  }

  lemma EncodingAgrees(m: map<Data, Data>, list: seq<Data>, l: map<Data, Data>)
    requires HasIndexKeys(m) && EntriesAsList(m) == Success(list) && l == ListEntries(list)
    ensures l == m
  {
    IsListExact(m);
    forall k | k in l
      ensures l[k] == m[k]
    {
      EncodingValue(m, list, l, k);
    }
    MapsEqual(l, m);
  }

  lemma EncodingValue(m: map<Data, Data>, list: seq<Data>, l: map<Data, Data>, k: Data)
    requires HasIndexKeys(m) && EntriesAsList(m) == Success(list) && l == ListEntries(list) && k in l
    ensures k in m && l[k] == m[k]
  {
    assert k in IndexKeys(|list|);
    var i := k.value;
    assert 1 <= i <= |list| && k == Integer(i);
    assert l[Integer(i)] == list[i - 1];
    assert list[i - 1] == m[Integer(i)];
  }

  lemma MapsEqual<K, V>(a: map<K, V>, b: map<K, V>)
    requires a.Keys == b.Keys && forall k :: k in a ==> a[k] == b[k]
    ensures a == b
  {
  }

  /** An encoded list is truthy exactly when it is non-empty. */
  lemma ListTruthy(list: seq<Data>, dict: Dictionary)
    requires dict.entries == ListEntries(list)
    ensures IsTruthy(Dict(dict)) <==> list != []
  {
  }

  // ---------------------------------------------------------------------
  // Clone
  // ---------------------------------------------------------------------

  /**
   * The nesting bound under which a clone completes: an atom always, a
   * dictionary when every key and value clones one level further down.
   */
  ghost predicate ClonesWithin(d: Data, fuel: nat)
    reads *
    decreases fuel
  {
    Atomic(d) ||
    (fuel > 0 && forall k :: k in d.dict.entries ==>
      ClonesWithin(k, fuel - 1) && ClonesWithin(d.dict.entries[k], fuel - 1))
  }

  /**
   * Data.Clone: atoms are returned as they are; a dictionary is copied into
   * a fresh one, cloning each key and value. `fuel` bounds the nesting depth
   * followed; beyond it the model answers None.
   */
  method Clone(d: Data, fuel: nat) returns (r: Option<Data>)
    ensures r.Some? <==> old(ClonesWithin(d, fuel))
    ensures Atomic(d) ==> r == Some(d)
    ensures d.Dict? && r.Some? ==> r.value.Dict? && fresh(r.value.dict) && !Equals(r.value, d)
    ensures d.Dict? && r.Some? ==> (IsTruthy(r.value) <==> IsTruthy(d))
    ensures d.Dict? && r.Some? ==> forall k :: k in d.dict.entries && Atomic(k) && Atomic(d.dict.entries[k]) ==>
      k in r.value.dict.entries && r.value.dict.entries[k] == d.dict.entries[k]
    ensures d.Dict? && r.Some? ==> forall k :: k in r.value.dict.entries && Atomic(k) ==> k in d.dict.entries
    ensures d.Dict? && fuel >= 1 && (forall k :: k in d.dict.entries ==> Atomic(k) && Atomic(d.dict.entries[k])) ==>
      r.Some? && r.value.dict.entries == d.dict.entries
    decreases fuel, 1
  {
    if Atomic(d) {
      return Some(d);
    }
    if fuel == 0 {
      return None;
    }
    var copy := CloneEntries(d.dict.entries, fuel - 1);
    if copy.None? {
      return None;
    }
    return Some(Dict(copy.value));
  }

  /** The loop of DictionaryData.Clone: each key and value of `source` is
      cloned, with `fuel` left, into a fresh dictionary. */
  method CloneEntries(source: map<Data, Data>, fuel: nat) returns (r: Option<Dictionary>)
    ensures r.Some? <==> old(forall k :: k in source ==> ClonesWithin(k, fuel) && ClonesWithin(source[k], fuel))
    ensures r.Some? ==> fresh(r.value) && (r.value.entries == map[] <==> source == map[])
    ensures r.Some? ==> forall k :: k in source && Atomic(k) && Atomic(source[k]) ==>
      k in r.value.entries && r.value.entries[k] == source[k]
    ensures r.Some? ==> forall k :: k in r.value.entries && Atomic(k) ==> k in source
    ensures (forall k :: k in source ==> Atomic(k) && Atomic(source[k])) ==> r.Some? && r.value.entries == source
    decreases fuel + 1, 0
  {
    var copy := new Dictionary(map[]);
    var todo := source.Keys;
    ghost var atoms := forall k :: k in source ==> Atomic(k) && Atomic(source[k]);
    while todo != {}
      invariant todo <= source.Keys
      invariant fresh(copy)
      invariant forall k :: k in source && k !in todo ==>
        old(ClonesWithin(k, fuel)) && old(ClonesWithin(source[k], fuel))
      invariant Copied(source, todo, copy.entries, atoms)
      decreases todo
    {
      var key :| key in todo;
      var newKey := Clone(key, fuel);
      var newValue := Clone(source[key], fuel);
      if newKey.None? || newValue.None? {
        return None;
      }
      CopiedStep(source, todo, copy.entries, atoms, key, newKey.value, newValue.value);
      copy.entries := copy.entries[newKey.value := newValue.value];
      todo := todo - {key};
    }
    CopiedDone(source, copy.entries, atoms);
    return Some(copy);
  }

  /** What the loop of CloneEntries has built once the keys outside `todo`
      are done: every atomic entry done is copied, every atomic key comes
      from a done key, and only atoms appear when `source` holds only atoms. */
  ghost predicate Copied(source: map<Data, Data>, todo: set<Data>, m: map<Data, Data>, atoms: bool) {
    (m == map[] <==> todo == source.Keys) &&
    (forall k :: k in source && k !in todo && Atomic(k) && Atomic(source[k]) ==> k in m && m[k] == source[k]) &&
    (forall k :: k in m && Atomic(k) ==> k in source && k !in todo) &&
    (atoms ==> forall k :: k in m ==> Atomic(k))
  }

  lemma CopiedStep(source: map<Data, Data>, todo: set<Data>, m: map<Data, Data>, atoms: bool,
                   key: Data, newKey: Data, newValue: Data)
    requires Copied(source, todo, m, atoms) && todo <= source.Keys && key in todo
    requires atoms ==> forall k :: k in source ==> Atomic(k) && Atomic(source[k])
    requires Atomic(key) <==> Atomic(newKey)
    requires Atomic(key) ==> newKey == key
    requires Atomic(source[key]) ==> newValue == source[key]
    ensures Copied(source, todo - {key}, m[newKey := newValue], atoms)
  {
    var m' := m[newKey := newValue];
    assert key in source.Keys - (todo - {key});
    assert newKey in m';
  }

  lemma CopiedDone(source: map<Data, Data>, m: map<Data, Data>, atoms: bool)
    requires Copied(source, {}, m, atoms)
    requires atoms <==> forall k :: k in source ==> Atomic(k) && Atomic(source[k])
    ensures forall k :: k in source && Atomic(k) && Atomic(source[k]) ==> k in m && m[k] == source[k]
    ensures forall k :: k in m && Atomic(k) ==> k in source
    ensures (m == map[] <==> source == map[])
    ensures atoms ==> m == source
  {
    if atoms {
      assert m.Keys == source.Keys;
    }
  }

}
