/** The immutable list with value equality of
    src/helix.common/Collections/ValueList.cs: its hash is computed once,
    when the list is built, as the fold `982451653 + 13 * hash(x)` over the
    elements in unchecked 32-bit arithmetic, and two lists are equal when
    their hashes agree and their elements are pairwise equal. Every
    operation builds a new list, so the receiver never changes. The
    elements' own `GetHashCode` is not part of this model and is passed in
    as `elementHash`. */
module ValueLists {
  import opened Wrappers
  import Int32

  const Seed: int := 982451653
  const Factor: int := 13

  function Hashes<T>(items: seq<T>, elementHash: T -> int): (hs: seq<int>)
    ensures |hs| == |items| && forall i :: 0 <= i < |items| ==> hs[i] == elementHash(items[i])
  {
    seq(|items|, i requires 0 <= i < |items| => elementHash(items[i]))
  }

  /** The hash the public constructors compute. */
  function HashOf<T>(items: seq<T>, elementHash: T -> int): int {
    Int32.HashFold(Seed, Factor, Hashes(items, elementHash))
  }

  /** The index check of the immutable list behind a ValueList. */
  datatype ListError = IndexOutOfRange

  /** The two private fields: the items and the hash computed from them. */
  datatype ValueList<T> = ValueList(items: seq<T>, hashCode: int)

  /** Every list built through a public constructor carries the hash of
      its items. */
  predicate Valid<T>(l: ValueList<T>, elementHash: T -> int) {
    l.hashCode == HashOf(l.items, elementHash)
  }

  /** `new ValueList<T>(values)`. */
  function Create<T>(values: seq<T>, elementHash: T -> int): (l: ValueList<T>)
    ensures l.items == values && Valid(l, elementHash)
  {
    ValueList(values, HashOf(values, elementHash))
  }

  function Count<T>(l: ValueList<T>): nat {
    |l.items|
  }

  /** The indexer: an index outside [0, Count) throws. */
  function Get<T>(l: ValueList<T>, index: int): (r: Result<T, ListError>)
    ensures r.Success? <==> 0 <= index < Count(l)
    ensures r.Success? ==> r.value == l.items[index]
  {
    if 0 <= index < |l.items| then Success(l.items[index]) else Failure(IndexOutOfRange)
  }

  /** Equals(ValueList): the stored hashes first, then the elements. */
  function Equals<T(==)>(l: ValueList<T>, other: ValueList<T>): (b: bool)
    ensures b ==> l.items == other.items
  {
    if l.hashCode != other.hashCode then false else l.items == other.items
  }

  /** What Equals(object) can be handed: another ValueList, some other
      sequence of the element type, or anything else (null included). */
  datatype Other<T> = OtherList(list: ValueList<T>) | OtherSequence(values: seq<T>) | OtherObject

  function EqualsObject<T(==)>(l: ValueList<T>, obj: Other<T>): (b: bool)
    ensures obj.OtherObject? ==> !b
    ensures obj.OtherSequence? ==> (b <==> l.items == obj.values)
    ensures obj.OtherList? ==> b == Equals(l, obj.list)
  {
    match obj
    case OtherList(other) => Equals(l, other)
    case OtherSequence(values) => l.items == values
    case OtherObject => false
  }

  function Add<T>(l: ValueList<T>, value: T, elementHash: T -> int): (r: ValueList<T>)
    ensures Valid(r, elementHash) && Count(r) == Count(l) + 1
    ensures r.items[..Count(l)] == l.items && r.items[Count(l)] == value
  {
    Create(l.items + [value], elementHash)
  }

  function AddRange<T>(l: ValueList<T>, values: seq<T>, elementHash: T -> int): (r: ValueList<T>)
    ensures Valid(r, elementHash) && Count(r) == Count(l) + |values|
    ensures r.items[..Count(l)] == l.items && r.items[Count(l)..] == values
  {
    Create(l.items + values, elementHash)
  }

  /** Clear returns a fresh empty list. */
  function Clear<T>(l: ValueList<T>, elementHash: T -> int): (r: ValueList<T>)
    ensures Valid(r, elementHash) && Count(r) == 0
  {
    Create([], elementHash)
  }

  /** Insert: an index outside [0, Count] throws; otherwise the element
      lands at `index` and the later ones move up by one. */
  function Insert<T>(l: ValueList<T>, index: int, value: T, elementHash: T -> int): (r: Result<ValueList<T>, ListError>)
    ensures r.Success? <==> 0 <= index <= Count(l)
    ensures r.Success? ==> Valid(r.value, elementHash) && Count(r.value) == Count(l) + 1
    ensures r.Success? ==>
      r.value.items[..index] == l.items[..index] && r.value.items[index] == value &&
      r.value.items[index + 1..] == l.items[index..]
  {
    if 0 <= index <= |l.items| then
      var items := l.items[..index] + [value] + l.items[index..];
      assert items[index + 1..] == l.items[index..];
      Success(Create(items, elementHash))
    else Failure(IndexOutOfRange)
  }

  function InsertRange<T>(l: ValueList<T>, index: int, values: seq<T>, elementHash: T -> int): (r: Result<ValueList<T>, ListError>)
    ensures r.Success? <==> 0 <= index <= Count(l)
    ensures r.Success? ==> Valid(r.value, elementHash) && Count(r.value) == Count(l) + |values|
    ensures r.Success? ==>
      r.value.items[..index] == l.items[..index] &&
      r.value.items[index..index + |values|] == values &&
      r.value.items[index + |values|..] == l.items[index..]
  {
    if 0 <= index <= |l.items| then
      var items := l.items[..index] + values + l.items[index..];
      assert items[index..index + |values|] == values;
      assert items[index + |values|..] == l.items[index..];
      Success(Create(items, elementHash))
    else Failure(IndexOutOfRange)
  }

  /** SetItem: an index outside [0, Count) throws; otherwise only that
      position changes. */
  function SetItem<T>(l: ValueList<T>, index: int, value: T, elementHash: T -> int): (r: Result<ValueList<T>, ListError>)
    ensures r.Success? <==> 0 <= index < Count(l)
    ensures r.Success? ==> Valid(r.value, elementHash) && Count(r.value) == Count(l)
    ensures r.Success? ==>
      r.value.items[index] == value &&
      forall i :: 0 <= i < Count(l) && i != index ==> r.value.items[i] == l.items[i]
  {
    if 0 <= index < |l.items| then Success(Create(l.items[index := value], elementHash))
    else Failure(IndexOutOfRange)
  }

  /** RemoveAt: an index outside [0, Count) throws; otherwise the later
      elements move down by one. */
  function RemoveAt<T>(l: ValueList<T>, index: int, elementHash: T -> int): (r: Result<ValueList<T>, ListError>)
    ensures r.Success? <==> 0 <= index < Count(l)
    ensures r.Success? ==> Valid(r.value, elementHash) && Count(r.value) == Count(l) - 1
    ensures r.Success? ==> r.value.items[..index] == l.items[..index] && r.value.items[index..] == l.items[index + 1..]
  {
    if 0 <= index < |l.items| then
      var items := l.items[..index] + l.items[index + 1..];
      assert items[index..] == l.items[index + 1..];
      Success(Create(items, elementHash))
    else Failure(IndexOutOfRange)
  }

  /** The position of the first element the comparer `eq` finds equal
      to `value`, if any. */
  function FirstIndex<T>(items: seq<T>, value: T, eq: (T, T) -> bool): (r: Option<nat>)
    ensures r.None? <==> forall i :: 0 <= i < |items| ==> !eq(value, items[i])
    ensures r.Some? ==>
      r.value < |items| && eq(value, items[r.value]) && (forall i :: 0 <= i < r.value ==> !eq(value, items[i]))
  {
    if items == [] then None
    else if eq(value, items[0]) then Some(0)
    else
      match FirstIndex(items[1..], value, eq)
      case None => None
      case Some(i) => Some(i + 1)
  }

  /** Remove(value, equalityComparer): the first element the comparer
      finds equal goes; a list without one is returned as it is. */
  function Remove<T>(l: ValueList<T>, value: T, eq: (T, T) -> bool, elementHash: T -> int): (r: ValueList<T>)
    ensures Valid(r, elementHash)
    ensures (forall i :: 0 <= i < Count(l) ==> !eq(value, l.items[i])) ==> r.items == l.items
    ensures (exists i :: 0 <= i < Count(l) && eq(value, l.items[i])) ==>
      Count(r) == Count(l) - 1 &&
      (exists i :: 0 <= i < Count(l) && eq(value, l.items[i]) &&
        (forall j :: 0 <= j < i ==> !eq(value, l.items[j])) &&
        r.items == l.items[..i] + l.items[i + 1..])
  {
    match FirstIndex(l.items, value, eq)
    case None => Create(l.items, elementHash)
    case Some(i) => Create(l.items[..i] + l.items[i + 1..], elementHash)
  }

  /** With the default comparer, the element removed is the first
      occurrence of the value itself. */
  lemma RemoveDefault<T>(l: ValueList<T>, value: T, elementHash: T -> int)
    ensures value !in l.items ==> Remove(l, value, (x, y) => x == y, elementHash).items == l.items
    ensures value in l.items ==>
      (exists i :: 0 <= i < Count(l) && l.items[i] == value && value !in l.items[..i] &&
        Remove(l, value, (x, y) => x == y, elementHash).items == l.items[..i] + l.items[i + 1..])
  {
    var r := Remove(l, value, (x, y) => x == y, elementHash);
    if value in l.items {
      var k :| 0 <= k < Count(l) && l.items[k] == value;
      var i :| 0 <= i < Count(l) && l.items[i] == value &&
        (forall j :: 0 <= j < i ==> l.items[j] != value) &&
        r.items == l.items[..i] + l.items[i + 1..];
      assert value !in l.items[..i];
    }
  }

  /** RemoveAll(match): the elements that do not match, in order. */
  function Filter<T>(items: seq<T>, keep: T -> bool): (r: seq<T>)
    ensures |r| <= |items|
    ensures forall i :: 0 <= i < |r| ==> r[i] in items && keep(r[i])
    ensures forall i :: 0 <= i < |items| ==>
      multiset(r)[items[i]] == if keep(items[i]) then multiset(items)[items[i]] else 0
  {
    if items == [] then []
    else
      var rest := Filter(items[1..], keep);
      assert items == [items[0]] + items[1..];
      if keep(items[0]) then [items[0]] + rest else rest
  }

  /** Filtering a concatenation filters each part and keeps them in
      order: with Filter of one element, this fixes the result. */
  lemma {:induction false} FilterAppend<T>(a: seq<T>, b: seq<T>, keep: T -> bool)
    ensures Filter(a + b, keep) == Filter(a, keep) + Filter(b, keep)
    decreases |a|
  {
    if a == [] {
      assert a + b == b;
    } else {
      assert (a + b)[1..] == a[1..] + b;
      FilterAppend(a[1..], b, keep);
    }
  }

  /** One element is kept exactly when the predicate keeps it. */
  lemma FilterOne<T>(x: T, keep: T -> bool)
    ensures Filter([x], keep) == if keep(x) then [x] else []
  {
    assert [x][1..] == [];
  }

  function RemoveAll<T>(l: ValueList<T>, match_: T -> bool, elementHash: T -> int): (r: ValueList<T>)
    ensures Valid(r, elementHash) && Count(r) <= Count(l)
    ensures forall i :: 0 <= i < Count(r) ==> r.items[i] in l.items && !match_(r.items[i])
    ensures forall i :: 0 <= i < Count(l) ==>
      multiset(r.items)[l.items[i]] == if match_(l.items[i]) then 0 else multiset(l.items)[l.items[i]]
    ensures r.items == Filter(l.items, x => !match_(x))
  {
    Create(Filter(l.items, x => !match_(x)), elementHash)
  }

  /** RemoveAll distributes over a concatenation: every non-matching
      element survives, in its order. */
  lemma RemoveAllAppend<T>(a: seq<T>, b: seq<T>, match_: T -> bool, elementHash: T -> int)
    ensures RemoveAll(Create(a + b, elementHash), match_, elementHash).items ==
      RemoveAll(Create(a, elementHash), match_, elementHash).items + RemoveAll(Create(b, elementHash), match_, elementHash).items
  {
    FilterAppend(a, b, x => !match_(x));
  }

  /** The hash is a sum: reordering the elements leaves it unchanged. */
  lemma {:induction false} HashOfPermutation<T>(a: seq<T>, b: seq<T>, elementHash: T -> int)
    requires multiset(a) == multiset(b)
    ensures HashOf(a, elementHash) == HashOf(b, elementHash)
  {
    Int32.HashFoldClosedForm(Seed, Factor, Hashes(a, elementHash));
    Int32.HashFoldClosedForm(Seed, Factor, Hashes(b, elementHash));
    SumPermutation(a, b, elementHash);
  }

  lemma {:induction false} SumPermutation<T>(a: seq<T>, b: seq<T>, elementHash: T -> int)
    requires multiset(a) == multiset(b)
    ensures Int32.Sum(Hashes(a, elementHash)) == Int32.Sum(Hashes(b, elementHash))
    decreases |a|
  {
    if a == [] {
      assert |b| == |multiset(b)| == 0;
    } else {
      var x := a[0];
      assert x in multiset(b);
      var j :| 0 <= j < |b| && b[j] == x;
      var rest := b[..j] + b[j + 1..];
      MultisetWithout(a, b, j);
      SumPermutation(a[1..], rest, elementHash);
      SumWithout(b, j, elementHash);
      assert Hashes(a, elementHash)[1..] == Hashes(a[1..], elementHash);
    }
  }

  /** Taking the first element from one and the same element from a
      permutation leaves permutations. */
  lemma MultisetWithout<T>(a: seq<T>, b: seq<T>, j: int)
    requires multiset(a) == multiset(b) && |a| > 0 && 0 <= j < |b| && b[j] == a[0]
    ensures multiset(a[1..]) == multiset(b[..j] + b[j + 1..])
  {
    var x, front, back := a[0], b[..j], b[j + 1..];
    assert b == front + [x] + back;
    assert a == [x] + a[1..];
    calc {
      multiset(a[1..]);
      multiset(a) - multiset{x};
      multiset(b) - multiset{x};
      (multiset(front) + multiset(back) + multiset{x}) - multiset{x};
      multiset(front) + multiset(back);
      multiset(front + back);
    }
  }

  /** The sum of the hashes is one element's hash plus the sum of the rest. */
  lemma SumWithout<T>(b: seq<T>, j: int, elementHash: T -> int)
    requires 0 <= j < |b|
    ensures Int32.Sum(Hashes(b, elementHash)) == elementHash(b[j]) + Int32.Sum(Hashes(b[..j] + b[j + 1..], elementHash))
  {
    var x, front, back := b[j], b[..j], b[j + 1..];
    assert b == front + ([x] + back);
    HashesAppend(front, [x] + back, elementHash);
    HashesAppend([x], back, elementHash);
    HashesAppend(front, back, elementHash);
    Int32.SumAppend(Hashes(front, elementHash), Hashes([x] + back, elementHash));
    Int32.SumAppend(Hashes([x], elementHash), Hashes(back, elementHash));
    Int32.SumAppend(Hashes(front, elementHash), Hashes(back, elementHash));
    assert Int32.Sum(Hashes([x], elementHash)) == elementHash(x) by {
      assert Hashes([x], elementHash)[1..] == [];
    }
  }

  lemma HashesAppend<T>(a: seq<T>, b: seq<T>, elementHash: T -> int)
    ensures Hashes(a + b, elementHash) == Hashes(a, elementHash) + Hashes(b, elementHash)
  {
  }

  /** For lists built by the constructors, Equals is element-wise equality:
      equal lists have equal hashes, so the hash test only short-cuts
      unequal ones. */
  lemma EqualsIsElementwise<T>(l: ValueList<T>, other: ValueList<T>, elementHash: T -> int)
    requires Valid(l, elementHash) && Valid(other, elementHash)
    ensures Equals(l, other) <==> l.items == other.items
    ensures l.hashCode != other.hashCode ==> !Equals(l, other)
    ensures Equals(l, other) ==> l.hashCode == other.hashCode
  {
  }

  /** Two distinct elements in either order: the hashes collide, the lists
      are unequal. */
  lemma SwappedCollide<T>(a: T, b: T, elementHash: T -> int)
    requires a != b
    ensures Create([a, b], elementHash).hashCode == Create([b, a], elementHash).hashCode
    ensures !Equals(Create([a, b], elementHash), Create([b, a], elementHash))
  {
    assert multiset([a, b]) == multiset([b, a]);
    HashOfPermutation([a, b], [b, a], elementHash);
    assert [a, b][0] != [b, a][0];
  }

  /** Add then RemoveAt of the last position gives back an equal list, and
      Insert at Count is Add. */
  lemma AddRoundTrip<T>(l: ValueList<T>, value: T, elementHash: T -> int)
    requires Valid(l, elementHash)
    ensures RemoveAt(Add(l, value, elementHash), Count(l), elementHash) == Success(l)
    ensures Insert(l, Count(l), value, elementHash) == Success(Add(l, value, elementHash))
  {
    assert (l.items + [value])[..|l.items|] + (l.items + [value])[|l.items| + 1..] == l.items;
    assert l.items[..|l.items|] + [value] + l.items[|l.items|..] == l.items + [value];
  }

  /** RemoveAt undoes Insert at the same position. */
  lemma InsertRoundTrip<T>(l: ValueList<T>, index: int, value: T, elementHash: T -> int)
    requires Valid(l, elementHash) && 0 <= index <= Count(l)
    ensures Insert(l, index, value, elementHash).Success?
    ensures RemoveAt(Insert(l, index, value, elementHash).value, index, elementHash) == Success(l)
  {
    var items := l.items[..index] + [value] + l.items[index..];
    assert items[..index] + items[index + 1..] == l.items;
  }

  /** Setting an element to what it already holds gives back an equal list;
      reading a set position gives the new value. */
  lemma SetItemRoundTrip<T>(l: ValueList<T>, index: int, value: T, elementHash: T -> int)
    requires Valid(l, elementHash) && 0 <= index < Count(l)
    ensures SetItem(l, index, l.items[index], elementHash) == Success(l)
    ensures Get(SetItem(l, index, value, elementHash).value, index) == Success(value)
  {
    assert l.items[index := l.items[index]] == l.items;
  }

  /** Clear gives a list equal to the empty one, whatever it started from. */
  lemma ClearIsEmpty<T>(l: ValueList<T>, elementHash: T -> int)
    ensures Equals(Clear(l, elementHash), Create([], elementHash))
    ensures Count(Clear(l, elementHash)) == 0
  {
  }
}
