/*
 * The C emitted for a small Trophy program: array values are slices
 * `{size, data}` whose `data` points into a region allocation, every
 * element access and every slice is guarded by a bounds check that panics
 * the region, and all integers are unsigned 64-bit (`trophy_int`).
 *
 * A slice is modelled by the array it points into, its first cell and its
 * size; a panic ends the operation and is reported to the caller.
 */
module CPlayground {
  import opened Wrappers

  /** 2^64: `trophy_int` arithmetic wraps modulo this. */
  const U64: int := 0x1_0000_0000_0000_0000

  /** `0U - 1U`, the value binary search returns when nothing is found. */
  const NotFound: int := U64 - 1

  /** The fixed size of the scratch array in `$merge`. */
  const ScratchSize: nat := 10

  /** The scratch array as `$merge` declares it, before the copy loop. */
  const Zeros: seq<int> := [0, 0, 0, 0, 0, 0, 0, 0, 0, 0]

  /** Unsigned subtraction. */
  function Sub(a: nat, b: nat): (r: nat)
    requires a < U64 && b < U64
    ensures r < U64
    ensures b <= a ==> r == a - b
    ensures a < b ==> r == a - b + U64
  {
    (a - b) % U64
  }

  datatype Slice = Slice(data: array<int>, start: nat, size: nat)

  datatype Panic = IndexOutOfBounds | SliceOutOfBounds

  predicate Valid(s: Slice) {
    s.start + s.size <= s.data.Length && s.size < U64
  }

  /** The cells a slice covers. */
  function Elems(s: Slice): (r: seq<int>)
    requires Valid(s)
    reads s.data
    ensures |r| == s.size
  {
    s.data[s.start..s.start + s.size]
  }

  predicate Sorted(xs: seq<int>) {
    forall i, j :: 0 <= i < j < |xs| ==> xs[i] <= xs[j]
  }

  // ---------------------------------------------------------------------
  // Bounds checks
  // ---------------------------------------------------------------------

  /** The access check `(i < 0U) | (i >= size)`; an unsigned `i < 0U` is always false. */
  function Index(s: Slice, i: nat): (r: Result<int, Panic>)
    requires Valid(s)
    reads s.data
    ensures r.Success? <==> i < s.size
    ensures r.Success? ==> r.value == Elems(s)[i]
  {
    if i >= s.size then Failure(IndexOutOfBounds) else Success(s.data[s.start + i])
  }

  /**
   * The slice `s[lo..hi]`: checked by `(lo < 0U) | (hi < lo) | (hi > size)`,
   * then `data = data + lo` and `size = hi - lo`.
   */
  function SliceOf(s: Slice, lo: nat, hi: nat): (r: Result<Slice, Panic>)
    requires Valid(s)
    reads s.data
    ensures r.Success? <==> lo <= hi <= s.size
    ensures r.Success? ==> r.value == Slice(s.data, s.start + lo, hi - lo)
    ensures r.Success? ==> Valid(r.value) && Elems(r.value) == Elems(s)[lo..hi]
  {
    if hi < lo || hi > s.size then Failure(SliceOutOfBounds)
    else
      SubRange(s.data[..], s.start, s.start + s.size, lo, hi);
      Success(Slice(s.data, s.start + lo, hi - lo))
  }

  /** A range of a range is a range of the whole. */
  lemma SubRange(xs: seq<int>, a: nat, b: nat, c: nat, d: nat)
    requires a <= b <= |xs| && c <= d <= b - a
    ensures xs[a..b][c..d] == xs[a + c..a + d]
  {
    forall k | 0 <= k < d - c
      ensures xs[a..b][c..d][k] == xs[a + c..a + d][k]
    {
    }
  }

  /**
   * The two forms the compiler emits: `[0, hi)` is checked by
   * `(0U < 0U) | (hi < 0U) | (hi > size)` and `[lo, size)` by
   * `(lo < 0U) | (size < lo) | (size > size)`; both are the general check.
   */
  lemma EmittedSliceChecks(s: Slice, lo: nat, hi: nat)
    requires Valid(s)
    ensures SliceOf(s, 0, hi).Failure? <==> (0 < 0 || hi < 0 || hi > s.size)
    ensures SliceOf(s, lo, s.size).Failure? <==> (lo < 0 || s.size < lo || s.size > s.size)
  {
  }

  /** Slicing a slice is slicing the original at the added offsets. */
  lemma SliceOfSlice(s: Slice, lo: nat, hi: nat, lo2: nat, hi2: nat)
    requires Valid(s) && lo <= hi <= s.size && lo2 <= hi2 <= hi - lo
    ensures SliceOf(SliceOf(s, lo, hi).value, lo2, hi2) == SliceOf(s, lo + lo2, lo + hi2)
  {
  }

  // ---------------------------------------------------------------------
  // $selection_sort
  // ---------------------------------------------------------------------

  /** Cells of `a` outside `[lo, hi)` are as in `b`. */
  ghost predicate SameOutside(a: seq<int>, b: seq<int>, lo: nat, hi: nat) {
    |a| == |b| && lo <= hi <= |a| && a[..lo] == b[..lo] && a[hi..] == b[hi..]
  }

  /** Cells `[lo, hi)` of `after` are those of `before`, sorted, and no other cell changed. */
  ghost predicate SortedInPlace(before: seq<int>, after: seq<int>, lo: nat, hi: nat) {
    SameOutside(after, before, lo, hi) &&
    Sorted(after[lo..hi]) && multiset(after[lo..hi]) == multiset(before[lo..hi])
  }

  /** The first `i` cells of `xs` are sorted and no larger than any later cell. */
  ghost predicate SortedPrefix(xs: seq<int>, i: nat) {
    i <= |xs| &&
    (forall p, q :: 0 <= p < q < i ==> xs[p] <= xs[q]) &&
    (forall p, q :: 0 <= p < i <= q < |xs| ==> xs[p] <= xs[q])
  }

  /** Swapping the least remaining cell into place `i` extends the sorted prefix. */
  lemma SwapStep(xs: seq<int>, i: nat, m: nat)
    requires SortedPrefix(xs, i) && i <= m < |xs|
    requires forall t :: i <= t < |xs| ==> xs[m] <= xs[t]
    ensures SortedPrefix(xs[i := xs[m]][m := xs[i]], i + 1)
    ensures multiset(xs[i := xs[m]][m := xs[i]]) == multiset(xs)
  {
  }

  /**
   * The inner loop of a pass: the first position in `[i, n)` of the slice
   * at `lo` holding its least value.
   */
  method IndexOfSmallest(a: array<int>, lo: nat, n: nat, i: nat) returns (m: nat)
    requires lo + n <= a.Length && i < n < U64
    ensures i <= m < n
    ensures forall t :: lo + i <= t < lo + n ==> a[lo + m] <= a[t]
    ensures forall t :: lo + i <= t < lo + m ==> a[lo + m] < a[t]
  {
    var smallest := a[lo + i];
    m := i;
    var next := i + 1;
    while next <= Sub(n, 1)
      invariant i < next <= n
      invariant i <= m < next && smallest == a[lo + m]
      invariant forall t :: lo + i <= t < lo + next ==> smallest <= a[t]
      invariant forall t :: lo + i <= t < lo + m ==> smallest < a[t]
    {
      var j := next;
      if a[lo + j] < smallest {
        m := j;
        smallest := a[lo + j];
      }
      next := next + 1;
    }
  }

  /** Exchanges two cells, as the three statements closing each outer pass do. */
  method Swap(a: array<int>, x: nat, y: nat)
    requires x < a.Length && y < a.Length
    modifies a
    ensures a[..] == old(a[..])[x := old(a[..])[y]][y := old(a[..])[x]]
  {
    var swap := a[x];
    a[x] := a[y];
    a[y] := swap;
  }

  /** A swap inside `[lo, lo + n)` is a swap of the slice and leaves the rest alone. */
  lemma SwapInSlice(full: seq<int>, after: seq<int>, lo: nat, n: nat, i: nat, m: nat)
    requires lo + n <= |full| && i < n && m < n
    requires after == full[lo + i := full[lo + m]][lo + m := full[lo + i]]
    ensures after[lo..lo + n] == full[lo..lo + n][i := full[lo + m]][m := full[lo + i]]
    ensures after[..lo] == full[..lo] && after[lo + n..] == full[lo + n..]
    ensures multiset(after) == multiset(full)
  {
  }

  /** Cells permuted only inside `[lo, hi)` are a permutation of that range. */
  lemma SliceMultiset(xs: seq<int>, ys: seq<int>, lo: nat, hi: nat)
    requires SameOutside(xs, ys, lo, hi) && multiset(xs) == multiset(ys)
    ensures multiset(xs[lo..hi]) == multiset(ys[lo..hi])
  {
    assert xs == xs[..lo] + xs[lo..hi] + xs[hi..];
    assert ys == ys[..lo] + ys[lo..hi] + ys[hi..];
    assert multiset(xs) == multiset(xs[..lo]) + multiset(xs[lo..hi]) + multiset(xs[hi..]);
    assert multiset(ys) == multiset(ys[..lo]) + multiset(ys[lo..hi]) + multiset(ys[hi..]);
    assert multiset(xs[lo..hi]) == multiset(xs) - multiset(xs[..lo]) - multiset(xs[hi..]);
    assert multiset(ys[lo..hi]) == multiset(ys) - multiset(ys[..lo]) - multiset(ys[hi..]);
  }

  /**
   * One pass of the outer loop: the least of cells `i..n-1` of the slice at
   * `lo` is swapped into cell `i`.
   */
  method PlaceSmallest(a: array<int>, lo: nat, n: nat, i: nat)
    requires lo + n <= a.Length && i < n < U64
    requires SortedPrefix(a[..][lo..lo + n], i)
    modifies a
    ensures SortedPrefix(a[..][lo..lo + n], i + 1)
    ensures multiset(a[..]) == multiset(old(a[..]))
    ensures SameOutside(a[..], old(a[..]), lo, lo + n)
  {
    var smallestIndex := IndexOfSmallest(a, lo, n, i);
    ghost var cur := a[..];
    ghost var before := cur[lo..lo + n];
    assert forall t :: i <= t < n ==> before[t] == a[lo + t];
    SwapStep(before, i, smallestIndex);
    Swap(a, lo + i, lo + smallestIndex);
    SwapInSlice(cur, a[..], lo, n, i, smallestIndex);
  }

  /**
   * Sorts the slice in place. The bound `size - 1U` wraps for an empty
   * slice, so the first access check panics.
   */
  method SelectionSort(s: Slice) returns (panicked: bool)
    requires Valid(s)
    modifies s.data
    ensures panicked <==> s.size == 0
    ensures panicked ==> s.data[..] == old(s.data[..])
    ensures !panicked ==> SortedInPlace(old(s.data[..]), s.data[..], s.start, s.start + s.size)
  {
    var a, lo, n := s.data, s.start, s.size;
    ghost var init := a[..];
    var counter := 0;
    while counter <= Sub(n, 1)
      invariant counter <= n || n == 0
      invariant n == 0 ==> counter == 0 && a[..] == init
      invariant SortedPrefix(a[..][lo..lo + n], counter)
      invariant multiset(a[..]) == multiset(init)
      invariant SameOutside(a[..], init, lo, lo + n)
      decreases n - counter
    {
      var i := counter;
      if i >= n {
        return true;
      }
      PlaceSmallest(a, lo, n, i);
      counter := counter + 1;
    }
    SliceMultiset(a[..], init, lo, lo + n);
    return false;
  }

  // ---------------------------------------------------------------------
  // $binary_search
  // ---------------------------------------------------------------------

  /**
   * Searches the slice for `toFind`, halving the window each pass. The
   * upper half is taken from `mid + 1`, so every pass shrinks the window.
   */
  method BinarySearch(s: Slice, toFind: int) returns (r: nat)
    requires Valid(s)
    ensures r == NotFound || (r < s.size && Elems(s)[r] == toFind)
    ensures Sorted(Elems(s)) ==> (r == NotFound <==> toFind !in Elems(s))
  {
    ghost var xs := Elems(s);
    // where `toFind` sits, when the slice is sorted and holds it
    ghost var present, pos := Whereabouts(xs, toFind);
    var start: nat := 0;
    var slice := s;
    while slice.size > 0
      invariant slice == Slice(s.data, s.start + start, slice.size)
      invariant start + slice.size <= s.size
      invariant present ==> start <= pos < start + slice.size
      decreases slice.size
    {
      var mid := slice.size / 2;
      var midValue := Index(slice, mid).value;
      WindowIndex(s, slice, start, mid);
      if toFind == midValue {
        return start + mid;
      }
      NarrowWindow(s, xs, slice, start, mid, start + mid + 1, toFind, present, pos);
      if toFind < midValue {
        slice := SliceOf(slice, 0, mid).value;
      } else {
        slice := SliceOf(slice, mid + 1, slice.size).value;
        start := start + mid + 1;
      }
    }
    return NotFound;
  }

  /** Whether `t` is in the sorted `xs`, and a place where it sits. */
  lemma Whereabouts(xs: seq<int>, t: int) returns (present: bool, pos: nat)
    ensures present <==> Sorted(xs) && t in xs
    ensures present ==> pos < |xs| && xs[pos] == t
  {
    present, pos := Sorted(xs) && t in xs, 0;
    if present {
      pos :| 0 <= pos < |xs| && xs[pos] == t;
    }
  }

  /** Cell `mid` of a window `[start, start + size)` of `s` is cell `start + mid` of `s`. */
  lemma WindowIndex(s: Slice, window: Slice, start: nat, mid: nat)
    requires Valid(s) && window == Slice(s.data, s.start + start, window.size)
    requires start + window.size <= s.size && mid < window.size
    ensures Index(window, mid) == Success(Elems(s)[start + mid])
  {
  }

  /**
   * After a miss at cell `mid` of the window, the half the search keeps is a
   * window of `s` again and still holds `toFind` when the sorted slice does.
   */
  lemma NarrowWindow(s: Slice, xs: seq<int>, window: Slice, start: nat, mid: nat, next: nat, toFind: int, present: bool, pos: nat)
    requires Valid(s) && xs == Elems(s) && window == Slice(s.data, s.start + start, window.size)
    requires start + window.size <= s.size && mid == window.size / 2 < window.size && next == start + mid + 1
    requires toFind != xs[start + mid]
    requires present ==> Sorted(xs) && start <= pos < start + window.size && xs[pos] == toFind
    ensures toFind < xs[start + mid] ==>
      SliceOf(window, 0, mid) == Success(Slice(s.data, s.start + start, mid)) &&
      (present ==> pos < start + mid)
    ensures xs[start + mid] < toFind ==>
      SliceOf(window, mid + 1, window.size) == Success(Slice(s.data, s.start + next, window.size - (mid + 1))) &&
      next + (window.size - (mid + 1)) == start + window.size &&
      (present ==> next <= pos)
  {
    if present {
      if toFind < xs[start + mid] {
        SortedBeforeLarger(xs, pos, start + mid);
      } else {
        SortedBeforeLarger(xs, start + mid, pos);
      }
    }
  }

  /** In a sorted sequence a cell holding less than another lies before it. */
  lemma SortedBeforeLarger(xs: seq<int>, p: nat, q: nat)
    requires Sorted(xs) && p < |xs| && q < |xs| && xs[p] < xs[q]
    ensures p < q
  {
  }

  /** What one pass of the search loop does to the window `[start, start + size)`. */
  datatype SearchStep = Found(index: nat) | Narrowed(start: nat, size: nat) | Exhausted

  /**
   * One pass of the loop as written: the upper half is the slice from
   * `mid`, which keeps the cell just compared.
   */
  function SearchStepAsWritten(xs: seq<int>, toFind: int, start: nat, size: nat): (r: SearchStep)
    requires start + size <= |xs|
    ensures r.Exhausted? <==> size == 0
    ensures r.Found? ==> start <= r.index < start + size && xs[r.index] == toFind
    ensures r.Narrowed? ==> start <= r.start && r.start + r.size <= start + size
  {
    if size == 0 then Exhausted
    else
      var mid := size / 2;
      if toFind == xs[start + mid] then Found(start + mid)
      else if toFind < xs[start + mid] then Narrowed(start, mid)
      else Narrowed(start + mid, size - mid)
  }

  /**
   * The pass as written leaves the window unchanged exactly when it holds
   * one cell smaller than `toFind`; the loop then never ends.
   */
  lemma SearchAsWrittenStalls(xs: seq<int>, toFind: int, start: nat, size: nat)
    requires start + size <= |xs|
    ensures SearchStepAsWritten(xs, toFind, start, size) == Narrowed(start, size)
      <==> size == 1 && xs[start] < toFind
  {
  }

  /** Searching `[5]` for 7 as written loops forever. */
  lemma SearchAsWrittenStallsOnSingleton()
    ensures SearchStepAsWritten([5], 7, 0, 1) == Narrowed(0, 1)
  {
  }

  /** As written, a pass over a sorted window keeps `toFind` in the window. */
  lemma SearchAsWrittenKeepsTarget(xs: seq<int>, toFind: int, start: nat, size: nat)
    requires start + size <= |xs| && Sorted(xs) && toFind in xs[start..start + size]
    ensures var r := SearchStepAsWritten(xs, toFind, start, size);
      r.Found? || (r.Narrowed? && toFind in xs[r.start..r.start + r.size])
  {
    var mid := size / 2;
    var k :| start <= k < start + size && xs[k] == toFind;
    if toFind < xs[start + mid] {
      assert k < start + mid;
      assert xs[k] == xs[start..start + mid][k - start];
    } else if toFind > xs[start + mid] {
      assert k > start + mid;
      assert xs[k] == xs[start + mid..start + size][k - start - mid];
    }
  }

  // ---------------------------------------------------------------------
  // $merge
  // ---------------------------------------------------------------------

  /** The sorted merge of two sorted runs; on a tie the right run goes first. */
  function MergeSeq(xs: seq<int>, ys: seq<int>): (r: seq<int>)
    ensures |r| == |xs| + |ys|
    decreases |xs| + |ys|
  {
    if xs == [] then ys
    else if ys == [] then xs
    else if xs[0] < ys[0] then [xs[0]] + MergeSeq(xs[1..], ys)
    else [ys[0]] + MergeSeq(xs, ys[1..])
  }

  /** When the left run's head is smaller, it is the merge's head. */
  lemma MergeSeqLeftFirst(xs: seq<int>, ys: seq<int>)
    requires xs != [] && ys != [] && xs[0] < ys[0]
    ensures MergeSeq(xs, ys) == [xs[0]] + MergeSeq(xs[1..], ys)
  {
  }

  /** Otherwise the right run's head is the merge's head. */
  lemma MergeSeqRightFirst(xs: seq<int>, ys: seq<int>)
    requires xs != [] && ys != [] && !(xs[0] < ys[0])
    ensures MergeSeq(xs, ys) == [ys[0]] + MergeSeq(xs, ys[1..])
  {
  }

  /** The merge holds exactly the cells of both runs. */
  lemma HeadMultiset(s: seq<int>)
    requires s != []
    ensures multiset(s) == multiset{s[0]} + multiset(s[1..])
  {
    assert s == [s[0]] + s[1..];
  }
  lemma {:induction false} MergeSeqPermutes(xs: seq<int>, ys: seq<int>)
    ensures multiset(MergeSeq(xs, ys)) == multiset(xs) + multiset(ys)
    decreases |xs| + |ys|
  {
    if xs != [] && ys != [] {
      if xs[0] < ys[0] {
        MergeSeqPermutes(xs[1..], ys);
        MergeSeqLeftFirst(xs, ys);
        HeadMultiset(xs);
        HeadMultiset(MergeSeq(xs, ys));
      } else {
        MergeSeqPermutes(xs, ys[1..]);
        MergeSeqRightFirst(xs, ys);
        HeadMultiset(ys);
        HeadMultiset(MergeSeq(xs, ys));
      }
    }
  }

  lemma {:induction false} MergeSeqSorted(xs: seq<int>, ys: seq<int>)
    requires Sorted(xs) && Sorted(ys)
    ensures Sorted(MergeSeq(xs, ys))
    decreases |xs| + |ys|
  {
    if xs != [] && ys != [] {
      SortedTail(xs);
      SortedTail(ys);
      if xs[0] < ys[0] {
        MergeSeqLeftFirst(xs, ys);
        MergeSeqSorted(xs[1..], ys);
        LowerBound(xs[1..], ys, xs[0]);
        ConsSorted(xs[0], MergeSeq(xs[1..], ys));
      } else {
        MergeSeqRightFirst(xs, ys);
        MergeSeqSorted(xs, ys[1..]);
        LowerBound(xs, ys[1..], ys[0]);
        ConsSorted(ys[0], MergeSeq(xs, ys[1..]));
      }
    }
  }

  /** The tail of a sorted run is sorted, and its head is its least cell. */
  lemma SortedTail(xs: seq<int>)
    requires Sorted(xs) && xs != []
    ensures Sorted(xs[1..])
    ensures forall e :: e in xs ==> xs[0] <= e
  {
  }

  /** A cell no larger than any of a sorted run stays sorted in front of it. */
  lemma ConsSorted(x: int, t: seq<int>)
    requires Sorted(t) && forall e :: e in t ==> x <= e
    ensures Sorted([x] + t)
  {
    var r := [x] + t;
    forall i, j | 0 <= i < j < |r|
      ensures r[i] <= r[j]
    {
      if i == 0 {
        assert r[j] == t[j - 1] && t[j - 1] in t;
      } else {
        assert r[i] == t[i - 1] && r[j] == t[j - 1];
      }
    }
  }

  /** A bound below both runs is below their merge. */
  lemma LowerBound(xs: seq<int>, ys: seq<int>, b: int)
    requires forall e :: e in xs ==> b <= e
    requires forall e :: e in ys ==> b <= e
    ensures forall e :: e in MergeSeq(xs, ys) ==> b <= e
  {
    MergeSeqPermutes(xs, ys);
    forall e | e in MergeSeq(xs, ys)
      ensures b <= e
    {
      assert e in multiset(MergeSeq(xs, ys));
      if e in multiset(xs) {
        assert e in xs;
      } else {
        assert e in multiset(ys);
        assert e in ys;
      }
    }
  }

  /** `mem` with `xs` written from `pos` on. */
  function Splice(mem: seq<int>, pos: nat, xs: seq<int>): (r: seq<int>)
    requires pos + |xs| <= |mem|
    ensures |r| == |mem|
  {
    mem[..pos] + xs + mem[pos + |xs|..]
  }

  lemma SpliceCons(mem: seq<int>, next: seq<int>, pos: nat, x: int, rest: seq<int>)
    requires pos + 1 + |rest| <= |mem| && next == mem[pos := x]
    ensures Splice(next, pos + 1, rest) == Splice(mem, pos, [x] + rest)
  {
    assert next[..pos + 1] == mem[..pos] + [x];
  }

  /**
   * The first loop: cells `0..mid-1` of the slice at `start` are copied
   * into the scratch array. For `mid == 0` the bound `mid - 1U` wraps, so
   * the loop runs on until an access check panics.
   */
  function CopyLoop(mem: seq<int>, start: nat, size: nat, mid: nat, copy: seq<int>, i: nat): (r: Result<seq<int>, Panic>)
    requires start + size <= |mem| && mid < U64 && |copy| == ScratchSize && i <= ScratchSize && i <= size
    ensures mid == 0 || i <= mid ==> (r.Success? <==> 1 <= mid <= ScratchSize && mid <= size)
    ensures r.Success? ==> |r.value| == ScratchSize
    decreases ScratchSize - i
  {
    if !(i <= Sub(mid, 1)) then Success(copy)
    else if i >= ScratchSize then Failure(IndexOutOfBounds)
    else if i >= size then Failure(IndexOutOfBounds)
    else CopyLoop(mem, start, size, mid, copy[i := mem[start + i]], i + 1)
  }

  /** The first loop, run from `i`, fills scratch cells `i..mid-1` from the slice and leaves the rest. */
  lemma {:induction false} CopyLoopCopies(mem: seq<int>, start: nat, size: nat, mid: nat, copy: seq<int>, i: nat)
    requires start + size <= |mem| && mid < U64 && |copy| == ScratchSize && i <= ScratchSize && i <= size && i <= mid
    ensures CopyLoop(mem, start, size, mid, copy, i).Success? ==>
      CopyLoop(mem, start, size, mid, copy, i).value[..mid] == copy[..i] + mem[start + i..start + mid] &&
      CopyLoop(mem, start, size, mid, copy, i).value[mid..] == copy[mid..]
    decreases ScratchSize - i
  {
    if 1 <= mid <= ScratchSize && i < mid && i < size {
      var next := copy[i := mem[start + i]];
      CopyLoopCopies(mem, start, size, mid, next, i + 1);
      assert next[..i + 1] == copy[..i] + [mem[start + i]];
      assert next[mid..] == copy[mid..];
    }
  }

  /** The last loop: what is left of the scratch array goes to cells `k` on. */
  function TailLoop(mem: seq<int>, start: nat, size: nat, copy: seq<int>, bound: nat, i: nat, k: nat): (r: Result<seq<int>, Panic>)
    requires start + size <= |mem| && |copy| == ScratchSize && i <= bound <= ScratchSize && k <= size
    ensures r.Success? ==> |r.value| == |mem|
    ensures r.Success? <==> k + (bound - i) <= size
    decreases bound - i
  {
    if !(i < bound) then Success(mem)
    else if k >= size then Failure(IndexOutOfBounds)
    else TailLoop(mem[start + k := copy[i]], start, size, copy, bound, i + 1, k + 1)
  }

  /**
   * The merging loop, then the last loop: while `i < bound` and `j < size`,
   * the smaller of `copy[i]` and cell `j` goes to cell `k`, and a tie takes
   * cell `j`; once either run is used up, the last loop takes over. The
   * checks on `i` and `j` cannot fire under the loop guard; the one on `k`
   * can.
   */
  function MergeTail(mem: seq<int>, start: nat, size: nat, copy: seq<int>, bound: nat, i: nat, j: nat, k: nat): (r: Result<seq<int>, Panic>)
    requires start + size <= |mem| && |copy| == ScratchSize && bound <= ScratchSize && i <= bound && j <= size && k <= size
    ensures r.Success? ==> |r.value| == |mem|
    decreases bound - i + size - j
  {
    if !(i < bound && j < size) then TailLoop(mem, start, size, copy, bound, i, k)
    else if k >= size then Failure(IndexOutOfBounds)
    else if copy[i] < mem[start + j] then MergeTail(mem[start + k := copy[i]], start, size, copy, bound, i + 1, j, k + 1)
    else MergeTail(mem[start + k := mem[start + j]], start, size, copy, bound, i, j + 1, k + 1)
  }

  /**
   * The whole of `$merge` on the memory `mem` holding the slice at `start`:
   * the new memory, or the panic. As written the merging and last loops run
   * to the scratch array's size, 10; the corrected merge runs them to `mid`.
   */
  function MergeRun(corrected: bool, mem: seq<int>, start: nat, size: nat, mid: nat): (r: Result<seq<int>, Panic>)
    requires start + size <= |mem| && mid < U64
    ensures mid == 0 || mid > ScratchSize || mid > size ==> r.Failure?
    ensures r.Success? ==> |r.value| == |mem|
  {
    match CopyLoop(mem, start, size, mid, Zeros, 0)
    case Failure(e) => Failure(e)
    case Success(copy) =>
      MergeTail(mem, start, size, copy, if corrected then mid else ScratchSize, 0, mid, 0)
  }

  /** A pass of the merging loop that does not panic and moves `copy[i]` to cell `k`. */
  lemma MergeStepLeft(mem: seq<int>, start: nat, size: nat, copy: seq<int>, bound: nat, i: nat, j: nat, k: nat)
    requires start + size <= |mem| && |copy| == ScratchSize && bound <= ScratchSize && i < bound && j < size && k < size
    requires copy[i] < mem[start + j]
    ensures MergeTail(mem, start, size, copy, bound, i, j, k) == MergeTail(mem[start + k := copy[i]], start, size, copy, bound, i + 1, j, k + 1)
  {
  }

  /** A pass of the merging loop that does not panic and moves cell `j` to cell `k`. */
  lemma MergeStepRight(mem: seq<int>, start: nat, size: nat, copy: seq<int>, bound: nat, i: nat, j: nat, k: nat)
    requires start + size <= |mem| && |copy| == ScratchSize && bound <= ScratchSize && i < bound && j < size && k < size
    requires !(copy[i] < mem[start + j])
    ensures MergeTail(mem, start, size, copy, bound, i, j, k) == MergeTail(mem[start + k := mem[start + j]], start, size, copy, bound, i, j + 1, k + 1)
  {
  }

  /** One pass of the copying loop that does not panic. */
  lemma CopyLoopStep(mem: seq<int>, start: nat, size: nat, mid: nat, copy: seq<int>, i: nat)
    requires start + size <= |mem| && mid < U64 && |copy| == ScratchSize && i < ScratchSize && i < size
    requires i <= Sub(mid, 1)
    ensures CopyLoop(mem, start, size, mid, copy, i) == CopyLoop(mem, start, size, mid, copy[i := mem[start + i]], i + 1)
  {
  }

  /** One pass of the last loop that does not panic. */
  lemma TailLoopStep(mem: seq<int>, start: nat, size: nat, copy: seq<int>, bound: nat, i: nat, k: nat)
    requires start + size <= |mem| && |copy| == ScratchSize && i < bound <= ScratchSize && k < size
    ensures TailLoop(mem, start, size, copy, bound, i, k) == TailLoop(mem[start + k := copy[i]], start, size, copy, bound, i + 1, k + 1)
  {
  }

  /**
   * `$merge`: the run in cells `0..mid-1` of the slice goes to a 10-cell
   * scratch array and is merged back with the run in cells `mid..size-1`.
   * `corrected` selects the bound of the merging and last loops: the
   * scratch array's size, as written, or `mid`.
   */
  method Merge(corrected: bool, s: Slice, mid: nat) returns (panicked: bool)
    requires Valid(s) && mid < U64
    modifies s.data
    ensures panicked <==> MergeRun(corrected, old(s.data[..]), s.start, s.size, mid).Failure?
    ensures !panicked ==> MergeRun(corrected, old(s.data[..]), s.start, s.size, mid) == Success(s.data[..])
  {
    var arr, lo, n := s.data, s.start, s.size;
    ghost var mem := arr[..];
    var copy := new int[ScratchSize](_ => 0);
    ghost var zeros := copy[..];
    assert zeros == Zeros;
    var counter := 0;
    while counter <= Sub(mid, 1)
      invariant counter <= ScratchSize && counter <= n
      invariant arr[..] == mem
      invariant CopyLoop(mem, lo, n, mid, copy[..], counter) == CopyLoop(mem, lo, n, mid, zeros, 0)
      decreases ScratchSize - counter
    {
      var i := counter;
      if i >= copy.Length {
        return true;
      }
      if i >= n {
        return true;
      }
      ghost var filled := copy[..];
      CopyLoopStep(mem, lo, n, mid, filled, i);
      copy[i] := arr[lo + i];
      assert copy[..] == filled[i := mem[lo + i]];
      counter := counter + 1;
    }
    var bound := if corrected then mid else copy.Length;
    panicked := MergeBack(arr, lo, n, copy, bound, mid);
  }

  /** The merging loop and the last loop of `$merge`, writing back into the slice at `lo`. */
  method MergeBack(arr: array<int>, lo: nat, n: nat, copy: array<int>, bound: nat, mid: nat) returns (panicked: bool)
    requires arr != copy && lo + n <= arr.Length && copy.Length == ScratchSize
    requires bound <= ScratchSize && mid <= n
    modifies arr
    ensures panicked <==> MergeTail(old(arr[..]), lo, n, copy[..], bound, 0, mid, 0).Failure?
    ensures !panicked ==> arr[..] == MergeTail(old(arr[..]), lo, n, copy[..], bound, 0, mid, 0).value
  {
    ghost var mem := arr[..];
    ghost var scratch := copy[..];
    var i: nat, j: nat, k: nat := 0, mid, 0;
    while i < bound && j < n
      invariant i <= bound && j <= n && k <= n
      invariant MergeTail(arr[..], lo, n, scratch, bound, i, j, k) == MergeTail(mem, lo, n, scratch, bound, 0, mid, 0)
      decreases bound - i + n - j
    {
      ghost var before := arr[..];
      assert copy[i] == scratch[i] && arr[lo + j] == before[lo + j];
      if copy[i] < arr[lo + j] {
        if k >= n {
          return true;
        }
        MergeStepLeft(before, lo, n, scratch, bound, i, j, k);
        arr[lo + k] := copy[i];
        assert arr[..] == before[lo + k := scratch[i]];
        i := i + 1;
      } else {
        if k >= n {
          return true;
        }
        MergeStepRight(before, lo, n, scratch, bound, i, j, k);
        arr[lo + k] := arr[lo + j];
        assert arr[..] == before[lo + k := before[lo + j]];
        j := j + 1;
      }
      k := k + 1;
    }
    assert MergeTail(arr[..], lo, n, scratch, bound, i, j, k) == TailLoop(arr[..], lo, n, scratch, bound, i, k);
    while i < bound
      invariant i <= bound && k <= n
      invariant TailLoop(arr[..], lo, n, scratch, bound, i, k) == MergeTail(mem, lo, n, scratch, bound, 0, mid, 0)
      decreases bound - i
    {
      if k >= n {
        return true;
      }
      ghost var before := arr[..];
      TailLoopStep(before, lo, n, scratch, bound, i, k);
      arr[lo + k] := copy[i];
      assert arr[..] == before[lo + k := scratch[i]];
      i := i + 1;
      k := k + 1;
    }
    return false;
  }

  /** The last loop writes what is left of the scratch array from cell `k` on. */
  lemma {:induction false} TailSplices(mem: seq<int>, start: nat, size: nat, copy: seq<int>, bound: nat, i: nat, k: nat)
    requires start + size <= |mem| && |copy| == ScratchSize && i <= bound <= ScratchSize && k + (bound - i) <= size
    ensures TailLoop(mem, start, size, copy, bound, i, k) == Success(Splice(mem, start + k, copy[i..bound]))
    decreases bound - i
  {
    if i < bound {
      var next := mem[start + k := copy[i]];
      TailSplices(next, start, size, copy, bound, i + 1, k + 1);
      SpliceCons(mem, next, start + k, copy[i], copy[i + 1..bound]);
      assert [copy[i]] + copy[i + 1..bound] == copy[i..bound];
    } else {
      assert mem[..start + k] + [] + mem[start + k..] == mem;
    }
  }

  /**
   * What the merge writes from a point of the merging loop: the cells from
   * `k` on receive the merge of what is left of the scratch run (`i` up to
   * `mid`) and of the right run (cell `j` on).
   */
  function MergedTail(mem: seq<int>, start: nat, size: nat, copy: seq<int>, mid: nat, i: nat, j: nat, k: nat): (r: seq<int>)
    requires start + size <= |mem| && mid <= |copy| && i <= mid <= j <= size && k == i + j - mid
    ensures |r| == |mem|
  {
    Splice(mem, start + k, MergeSeq(copy[i..mid], mem[start + j..start + size]))
  }

  /** At the start of the merging loop, with the left run copied, that is the whole merge. */
  lemma MergedTailStart(mem: seq<int>, start: nat, size: nat, copy: seq<int>, mid: nat)
    requires start + size <= |mem| && mid <= |copy| && mid <= size
    requires copy[..mid] == mem[start..start + mid]
    ensures MergedTail(mem, start, size, copy, mid, 0, mid, 0) == Merged(mem, start, mid, size)
  {
    assert copy[0..mid] == copy[..mid];
  }

  /**
   * From any point of the corrected merging loop, the merging and last
   * loops together write the merge of what is left of both runs from cell
   * `k` on. Cell `k` stays below cell `j`, so the right run is read before
   * it is overwritten.
   */
  lemma {:induction false} MergeFinishes(mem: seq<int>, start: nat, size: nat, copy: seq<int>, mid: nat, i: nat, j: nat, k: nat)
    requires start + size <= |mem| && |copy| == ScratchSize && mid <= ScratchSize
    requires i <= mid <= j <= size && k == i + j - mid
    ensures MergeTail(mem, start, size, copy, mid, i, j, k) ==
      Success(MergedTail(mem, start, size, copy, mid, i, j, k))
    decreases mid - i + size - j, 2
  {
    var left, right := copy[i..mid], mem[start + j..start + size];
    if !(i < mid && j < size) {
      assert MergeTail(mem, start, size, copy, mid, i, j, k) == TailLoop(mem, start, size, copy, mid, i, k);
      if i == mid {
        assert left == [];
        assert mem[..start + k] + right + mem[start + size..] == mem;
      } else {
        assert right == [];
        TailSplices(mem, start, size, copy, mid, i, k);
      }
    } else if copy[i] < mem[start + j] {
      MergeTakesLeft(mem, start, size, copy, mid, i, j, k);
    } else {
      MergeTakesRight(mem, start, size, copy, mid, i, j, k);
    }
  }

  /** A pass of the merging loop that moves `copy[i]` to cell `k`. */
  lemma {:induction false} MergeTakesLeft(mem: seq<int>, start: nat, size: nat, copy: seq<int>, mid: nat, i: nat, j: nat, k: nat)
    requires start + size <= |mem| && |copy| == ScratchSize && mid <= ScratchSize
    requires i < mid <= j < size && k == i + j - mid && copy[i] < mem[start + j]
    ensures MergeTail(mem, start, size, copy, mid, i, j, k) ==
      Success(MergedTail(mem, start, size, copy, mid, i, j, k))
    decreases mid - i + size - j, 1
  {
    MergeStepLeft(mem, start, size, copy, mid, i, j, k);
    MergeLeftRest(mem, mem[start + k := copy[i]], start, size, copy, mid, i, j, k, i + 1, k + 1);
  }

  /** The rest of the merge after `copy[i]` went to cell `k`. */
  lemma {:induction false} MergeLeftRest(mem: seq<int>, next: seq<int>, start: nat, size: nat, copy: seq<int>, mid: nat, i: nat, j: nat, k: nat, i1: nat, k1: nat)
    requires start + size <= |mem| && |copy| == ScratchSize && mid <= ScratchSize
    requires i < mid <= j < size && k == i + j - mid && copy[i] < mem[start + j]
    requires next == mem[start + k := copy[i]] && i1 == i + 1 && k1 == k + 1
    ensures MergeTail(next, start, size, copy, mid, i1, j, k1) ==
      Success(MergedTail(mem, start, size, copy, mid, i, j, k))
    decreases mid - i + size - j, 0
  {
    MergeFinishes(next, start, size, copy, mid, i1, j, k1);
    TakeLeftSplice(mem, next, start, size, copy, mid, i, j, k, i1, k1);
  }

  /** Writing `copy[i]` to cell `k` and the merge of the rest after it writes the whole merge. */
  lemma TakeLeftSplice(mem: seq<int>, next: seq<int>, start: nat, size: nat, copy: seq<int>, mid: nat, i: nat, j: nat, k: nat, i1: nat, k1: nat)
    requires start + size <= |mem| && |copy| == ScratchSize && mid <= ScratchSize
    requires i < mid <= j < size && k == i + j - mid && copy[i] < mem[start + j]
    requires next == mem[start + k := copy[i]] && i1 == i + 1 && k1 == k + 1
    ensures MergedTail(next, start, size, copy, mid, i1, j, k1) == MergedTail(mem, start, size, copy, mid, i, j, k)
  {
    var left, right := copy[i..mid], mem[start + j..start + size];
    assert next[start + j..start + size] == right;
    assert left[1..] == copy[i1..mid];
    MergeSeqLeftFirst(left, right);
    SpliceCons(mem, next, start + k, copy[i], MergeSeq(left[1..], right));
  }

  /** A pass of the merging loop that moves cell `j` to cell `k`. */
  lemma {:induction false} MergeTakesRight(mem: seq<int>, start: nat, size: nat, copy: seq<int>, mid: nat, i: nat, j: nat, k: nat)
    requires start + size <= |mem| && |copy| == ScratchSize && mid <= ScratchSize
    requires i < mid <= j < size && k == i + j - mid && !(copy[i] < mem[start + j])
    ensures MergeTail(mem, start, size, copy, mid, i, j, k) ==
      Success(MergedTail(mem, start, size, copy, mid, i, j, k))
    decreases mid - i + size - j, 1
  {
    MergeStepRight(mem, start, size, copy, mid, i, j, k);
    MergeRightRest(mem, mem[start + k := mem[start + j]], start, size, copy, mid, i, j, k, j + 1, k + 1);
  }

  /** The rest of the merge after cell `j` went to cell `k`. */
  lemma {:induction false} MergeRightRest(mem: seq<int>, next: seq<int>, start: nat, size: nat, copy: seq<int>, mid: nat, i: nat, j: nat, k: nat, j1: nat, k1: nat)
    requires start + size <= |mem| && |copy| == ScratchSize && mid <= ScratchSize
    requires i < mid <= j < size && k == i + j - mid && !(copy[i] < mem[start + j])
    requires next == mem[start + k := mem[start + j]] && j1 == j + 1 && k1 == k + 1
    ensures MergeTail(next, start, size, copy, mid, i, j1, k1) ==
      Success(MergedTail(mem, start, size, copy, mid, i, j, k))
    decreases mid - i + size - j, 0
  {
    MergeFinishes(next, start, size, copy, mid, i, j1, k1);
    TakeRightSplice(mem, next, start, size, copy, mid, i, j, k, j1, k1);
  }

  /** Writing cell `j` to cell `k` and the merge of the rest after it writes the whole merge. */
  lemma TakeRightSplice(mem: seq<int>, next: seq<int>, start: nat, size: nat, copy: seq<int>, mid: nat, i: nat, j: nat, k: nat, j1: nat, k1: nat)
    requires start + size <= |mem| && |copy| == ScratchSize && mid <= ScratchSize
    requires i < mid <= j < size && k == i + j - mid && !(copy[i] < mem[start + j])
    requires next == mem[start + k := mem[start + j]] && j1 == j + 1 && k1 == k + 1
    ensures MergedTail(next, start, size, copy, mid, i, j1, k1) == MergedTail(mem, start, size, copy, mid, i, j, k)
  {
    var left, right := copy[i..mid], mem[start + j..start + size];
    assert next[start + j1..start + size] == right[1..];
    MergeSeqRightFirst(left, right);
    SpliceCons(mem, next, start + k, mem[start + j], MergeSeq(left, right[1..]));
  }

  /**
   * The corrected merge of a slice whose first `mid` cells and the rest are
   * the two runs writes their merge over the slice, for `1 <= mid <= 10`
   * and `mid <= size`, and panics otherwise.
   */
  lemma MergeCorrect(mem: seq<int>, start: nat, size: nat, mid: nat)
    requires start + size <= |mem| && mid < U64
    ensures MergeRun(true, mem, start, size, mid).Success? <==> 1 <= mid <= ScratchSize && mid <= size
    ensures MergeRun(true, mem, start, size, mid).Success? ==>
      MergeRun(true, mem, start, size, mid).value == Merged(mem, start, mid, size)
  {
    if 1 <= mid <= ScratchSize && mid <= size {
      var copy := CopyLoop(mem, start, size, mid, Zeros, 0).value;
      CopyLoopCopies(mem, start, size, mid, Zeros, 0);
      assert copy[..mid] == mem[start..start + mid];
      MergeFinishes(mem, start, size, copy, mid, 0, mid, 0);
      MergedTailStart(mem, start, size, copy, mid);
    }
  }

  /** The slice `[1, 2, …, n]`. */
  function Ascending(n: nat): (r: seq<int>)
    ensures |r| == n && Sorted(r)
    ensures forall i :: 0 <= i < n ==> r[i] == i + 1
  {
    seq(n, i => i + 1)
  }

  /**
   * `n` passes of the merging loop that each take the scratch cell: while
   * cells `i` to `i + n - 1` of the scratch array are all smaller than cell
   * `j`, they are written from cell `k` on. The writes stay below cell `j`
   * until the last one, so cell `j` is the same at every comparison.
   */
  lemma {:induction false} TakeLeftRun(mem: seq<int>, start: nat, size: nat, copy: seq<int>, bound: nat, i: nat, j: nat, k: nat, n: nat)
    requires start + size <= |mem| && |copy| == ScratchSize && bound <= ScratchSize
    requires i + n <= bound && j < size && k + n <= j + 1
    requires forall t :: i <= t < i + n ==> copy[t] < mem[start + j]
    ensures MergeTail(mem, start, size, copy, bound, i, j, k) ==
      MergeTail(Splice(mem, start + k, copy[i..i + n]), start, size, copy, bound, i + n, j, k + n)
    decreases n
  {
    if n == 0 {
      assert mem[..start + k] + copy[i..i] + mem[start + k..] == mem;
    } else {
      var next := mem[start + k := copy[i]];
      MergeStepLeft(mem, start, size, copy, bound, i, j, k);
      if n > 1 {
        assert next[start + j] == mem[start + j];
      }
      TakeLeftRun(next, start, size, copy, bound, i + 1, j, k + 1, n - 1);
      SpliceCons(mem, next, start + k, copy[i], copy[i + 1..i + n]);
      assert [copy[i]] + copy[i + 1..i + n] == copy[i..i + n];
    }
  }

  /**
   * Once a scratch zero meets a zero in cell `j` just before cell `k`, every
   * pass copies cell `j` to cell `k`, a zero, until the write to cell `k`
   * falls outside the slice.
   */
  lemma {:induction false} ZeroCascade(mem: seq<int>, start: nat, size: nat, copy: seq<int>, bound: nat, i: nat, j: nat, k: nat)
    requires start + size <= |mem| && |copy| == ScratchSize && bound <= ScratchSize
    requires i < bound && copy[i] == 0 && k == j + 1 <= size && mem[start + j] == 0
    ensures MergeTail(mem, start, size, copy, bound, i, j, k) == Failure(IndexOutOfBounds)
    decreases size - k
  {
    if k < size {
      MergeStepRight(mem, start, size, copy, bound, i, j, k);
      ZeroCascade(mem[start + k := mem[start + j]], start, size, copy, bound, i, j + 1, k + 1);
    }
  }

  /**
   * As written, merging two runs whose left cells are all smaller than the
   * first right cell, itself positive: the `mid` left cells go back in
   * place, then the scratch zero after them is smaller than cell `mid` and
   * overwrites it. With a scratch cell still left (`mid < 9`), the next
   * scratch zero meets that zero, is not smaller, and the zero is copied
   * rightwards until a write falls outside the slice; at `mid == 9` the
   * loop ends there and cell `mid` has become a zero.
   */
  lemma MergeAsWrittenZeroAtCut(mem: seq<int>, start: nat, size: nat, mid: nat)
    requires start + size <= |mem| && 1 <= mid < ScratchSize && mid < size
    requires forall t :: start <= t < start + mid ==> mem[t] < mem[start + mid]
    requires 0 < mem[start + mid]
    ensures mid < ScratchSize - 1 ==> MergeRun(false, mem, start, size, mid) == Failure(IndexOutOfBounds)
    ensures mid == ScratchSize - 1 ==> MergeRun(false, mem, start, size, mid) == Success(mem[start + mid := 0])
  {
    CopiedRun(mem, start, size, mid);
    var copy := CopyLoop(mem, start, size, mid, Zeros, 0).value;
    assert MergeRun(false, mem, start, size, mid) == MergeTail(mem, start, size, copy, ScratchSize, 0, mid, 0);
    forall t | 0 <= t < mid + 1
      ensures copy[t] < mem[start + mid]
    {
      if t < mid {
        assert copy[t] == mem[start + t];
      }
    }
    TakeLeftRun(mem, start, size, copy, ScratchSize, 0, mid, 0, mid + 1);
    var next := Splice(mem, start, copy[0..mid + 1]);
    CutZeroed(mem, copy, start, mid);
    if mid < ScratchSize - 1 {
      ZeroCascade(next, start, size, copy, ScratchSize, mid + 1, mid, mid + 1);
    } else {
      assert MergeTail(next, start, size, copy, ScratchSize, mid + 1, mid, mid + 1) == Success(next);
    }
  }

  /** The first loop copies the `mid` left cells; the scratch cells after them stay zero. */
  lemma CopiedRun(mem: seq<int>, start: nat, size: nat, mid: nat)
    requires start + size <= |mem| && 1 <= mid <= ScratchSize && mid <= size
    ensures CopyLoop(mem, start, size, mid, Zeros, 0).Success?
    ensures forall t :: 0 <= t < mid ==> CopyLoop(mem, start, size, mid, Zeros, 0).value[t] == mem[start + t]
    ensures forall t :: mid <= t < ScratchSize ==> CopyLoop(mem, start, size, mid, Zeros, 0).value[t] == 0
  {
    var copy := CopyLoop(mem, start, size, mid, Zeros, 0).value;
    CopyLoopCopies(mem, start, size, mid, Zeros, 0);
    assert copy[..mid] == mem[start..start + mid] && copy[mid..] == Zeros[mid..];
    CopiedCells(copy, mem, start, mid);
  }

  /** Cells of `copy` that agree with the slice at `start` before `mid`, and with Zeros from `mid` on. */
  lemma CopiedCells(copy: seq<int>, mem: seq<int>, start: nat, mid: nat)
    requires mid <= |copy| == ScratchSize && start + mid <= |mem|
    requires copy[..mid] == mem[start..start + mid] && copy[mid..] == Zeros[mid..]
    ensures forall t :: 0 <= t < mid ==> copy[t] == mem[start + t]
    ensures forall t :: mid <= t < ScratchSize ==> copy[t] == 0
  {
    forall t | 0 <= t < mid
      ensures copy[t] == mem[start + t]
    {
      assert copy[t] == copy[..mid][t] == mem[start..start + mid][t];
    }
    forall t | mid <= t < ScratchSize
      ensures copy[t] == 0
    {
      assert copy[t] == copy[mid..][t - mid];
    }
  }

  /** Writing back the `mid` copied cells and one scratch zero leaves the slice with a zero at the cut. */
  lemma CutZeroed(mem: seq<int>, copy: seq<int>, start: nat, mid: nat)
    requires start + mid < |mem| && mid < |copy| && copy[mid] == 0
    requires forall t :: 0 <= t < mid ==> copy[t] == mem[start + t]
    ensures Splice(mem, start, copy[0..mid + 1]) == mem[start + mid := 0]
  {
    var next := Splice(mem, start, copy[0..mid + 1]);
    forall t | 0 <= t < |mem|
      ensures next[t] == mem[start + mid := 0][t]
    {
      if start <= t <= start + mid {
        assert next[t] == copy[0..mid + 1][t - start] == copy[t - start];
      }
    }
  }

  // ---------------------------------------------------------------------
  // $parallel_mergesort_helper
  // ---------------------------------------------------------------------

  /**
   * `after` holds, in `[lo, cut)` and in `[cut, hi)`, a sorted permutation
   * of what `before` held there, and agrees with it elsewhere.
   */
  ghost predicate HalvesSorted(before: seq<int>, after: seq<int>, lo: nat, cut: nat, hi: nat) {
    lo <= cut <= hi && SameOutside(after, before, lo, hi) &&
    Sorted(after[lo..cut]) && Sorted(after[cut..hi]) &&
    multiset(after[lo..cut]) == multiset(before[lo..cut]) &&
    multiset(after[cut..hi]) == multiset(before[cut..hi])
  }

  /** Sorting the left half in place and then the right half sorts both halves. */
  lemma JoinHalves(m0: seq<int>, m1: seq<int>, m2: seq<int>, lo: nat, lo': nat, cut: nat, hi: nat)
    requires lo' == lo && SortedInPlace(m0, m1, lo', cut) && SortedInPlace(m1, m2, cut, hi)
    ensures HalvesSorted(m0, m2, lo, cut, hi)
  {
    SameBefore(m2, m1, cut, hi, lo, cut);
    SameAfter(m1, m0, lo, cut, cut, hi);
    SameOutsideWiden(m1, m0, lo, cut, lo, hi);
    SameOutsideWiden(m2, m1, cut, hi, lo, hi);
    SameOutsideTrans(m2, m1, m0, lo, hi);
  }

  /** A slice cut in two holds the cells of both parts. */
  lemma SliceSplit(m: seq<int>, a: nat, b: nat, c: nat)
    requires a <= b <= c <= |m|
    ensures multiset(m[a..c]) == multiset(m[a..b]) + multiset(m[b..c])
  {
    assert m[a..c] == m[a..b] + m[b..c];
  }

  /** Cells equal outside `[lo, hi)` agree on any range before it... */
  lemma SameBefore(a: seq<int>, b: seq<int>, lo: nat, hi: nat, x: nat, y: nat)
    requires SameOutside(a, b, lo, hi) && x <= y <= lo
    ensures a[x..y] == b[x..y]
  {
    assert a[x..y] == a[..lo][x..y] && b[x..y] == b[..lo][x..y];
  }

  /** ...and on any range after it. */
  lemma SameAfter(a: seq<int>, b: seq<int>, lo: nat, hi: nat, x: nat, y: nat)
    requires SameOutside(a, b, lo, hi) && hi <= x <= y <= |a|
    ensures a[x..y] == b[x..y]
  {
    forall k | 0 <= k < y - x
      ensures a[x..y][k] == b[x..y][k]
    {
      assert a[x + k] == a[hi..][x + k - hi] && b[x + k] == b[hi..][x + k - hi];
    }
  }

  /** Cells equal outside a range are equal outside any range around it. */
  lemma SameOutsideWiden(a: seq<int>, b: seq<int>, lo: nat, hi: nat, lo2: nat, hi2: nat)
    requires SameOutside(a, b, lo, hi) && lo2 <= lo && hi <= hi2 <= |a|
    ensures SameOutside(a, b, lo2, hi2)
  {
    assert a[..lo2] == a[..lo][..lo2] && b[..lo2] == b[..lo][..lo2];
    assert a[hi2..] == a[hi..][hi2 - hi..] && b[hi2..] == b[hi..][hi2 - hi..];
  }

  lemma SameOutsideTrans(a: seq<int>, b: seq<int>, c: seq<int>, lo: nat, hi: nat)
    requires SameOutside(a, b, lo, hi) && SameOutside(b, c, lo, hi)
    ensures SameOutside(a, c, lo, hi)
  {
  }

  /**
   * `mem` with the slice of `size` cells at `start` replaced by the merge of
   * its first `mid` cells and the rest.
   */
  function Merged(mem: seq<int>, start: nat, mid: nat, size: nat): (r: seq<int>)
    requires mid <= size && start + size <= |mem|
    ensures |r| == |mem|
  {
    Splice(mem, start, MergeSeq(mem[start..start + mid], mem[start + mid..start + size]))
  }

  /** The spliced range holds what was spliced in; the rest is untouched. */
  lemma SplicedRange(mem: seq<int>, after: seq<int>, lo: nat, xs: seq<int>, hi: nat)
    requires lo + |xs| <= |mem| && hi == lo + |xs| && after == Splice(mem, lo, xs)
    ensures after[lo..hi] == xs && SameOutside(after, mem, lo, hi)
  {
  }

  /**
   * Merging two halves each sorted in place leaves the whole slice sorted
   * and a permutation of what it held before the halves were sorted.
   */
  lemma MergeSortStep(m0: seq<int>, m2: seq<int>, m3: seq<int>, lo: nat, mid: nat, n: nat, cut: nat, hi: nat)
    requires cut == lo + mid && hi == lo + n && HalvesSorted(m0, m2, lo, cut, hi)
    requires m3 == Merged(m2, lo, mid, n)
    ensures SortedInPlace(m0, m3, lo, hi)
  {
    var left, right := m2[lo..cut], m2[cut..hi];
    var merged := MergeSeq(left, right);
    SplicedRange(m2, m3, lo, merged, hi);
    MergeSeqSorted(left, right);
    MergedPermutes(m0, merged, left, right, lo, cut, hi);
    SameOutsideTrans(m3, m2, m0, lo, hi);
  }

  /** The merge of the two sorted halves holds the cells the slice held before. */
  lemma MergedPermutes(m0: seq<int>, merged: seq<int>, left: seq<int>, right: seq<int>, lo: nat, cut: nat, hi: nat)
    requires lo <= cut <= hi <= |m0| && merged == MergeSeq(left, right)
    requires multiset(left) == multiset(m0[lo..cut]) && multiset(right) == multiset(m0[cut..hi])
    ensures multiset(merged) == multiset(m0[lo..hi])
  {
    MergeSeqPermutes(left, right);
    SliceSplit(m0, lo, cut, hi);
  }

  // ---------------------------------------------------------------------
  // The reference sort
  // ---------------------------------------------------------------------

  /** `x` put into the run `xs` before its first cell that is not smaller. */
  function Insert(x: int, xs: seq<int>): (r: seq<int>)
    ensures |r| == |xs| + 1
    ensures multiset(r) == multiset{x} + multiset(xs)
  {
    if xs == [] || x <= xs[0] then [x] + xs
    else
      assert xs == [xs[0]] + xs[1..];
      [xs[0]] + Insert(x, xs[1..])
  }

  /** Insertion sort: the sorted permutation of `xs`. */
  function SortSeq(xs: seq<int>): (r: seq<int>)
    ensures |r| == |xs|
    ensures multiset(r) == multiset(xs)
  {
    if xs == [] then []
    else
      assert xs == [xs[0]] + xs[1..];
      Insert(xs[0], SortSeq(xs[1..]))
  }

  lemma {:induction false} InsertSorted(x: int, xs: seq<int>)
    requires Sorted(xs)
    ensures Sorted(Insert(x, xs))
  {
    if xs != [] && !(x <= xs[0]) {
      SortedTail(xs);
      InsertSorted(x, xs[1..]);
      var r := Insert(x, xs[1..]);
      forall e | e in r
        ensures xs[0] <= e
      {
        assert e in multiset(r);
        if e != x {
          assert e in multiset(xs[1..]);
          assert e in xs[1..];
        }
      }
      ConsSorted(xs[0], r);
    } else {
      if xs != [] {
        SortedTail(xs);
      }
      ConsSorted(x, xs);
    }
  }

  lemma {:induction false} SortSeqSorted(xs: seq<int>)
    ensures Sorted(SortSeq(xs))
  {
    if xs != [] {
      SortSeqSorted(xs[1..]);
      InsertSorted(xs[0], SortSeq(xs[1..]));
    }
  }

  /** The head of a sorted run is no larger than any of its cells. */
  lemma HeadLeast(xs: seq<int>, x: int)
    requires Sorted(xs) && x in multiset(xs)
    ensures xs[0] <= x
  {
    assert x in xs;
    var i :| 0 <= i < |xs| && xs[i] == x;
    assert i == 0 || xs[0] <= xs[i];
  }

  /** Two sorted runs with the same cells are equal: sorting has one result. */
  lemma {:induction false} SortedUnique(a: seq<int>, b: seq<int>)
    requires Sorted(a) && Sorted(b) && multiset(a) == multiset(b)
    ensures a == b
  {
    if a == [] {
      assert |b| == |multiset(b)| == 0;
    } else {
      SameHeads(a, b);
      SortedUnique(a[1..], b[1..]);
      assert a == [a[0]] + a[1..] && b == [b[0]] + b[1..];
    }
  }

  /** Two sorted runs with the same cells start with the same cell and go on with the same cells. */
  lemma SameHeads(a: seq<int>, b: seq<int>)
    requires Sorted(a) && Sorted(b) && multiset(a) == multiset(b) && a != []
    ensures b != [] && a[0] == b[0]
    ensures Sorted(a[1..]) && Sorted(b[1..]) && multiset(a[1..]) == multiset(b[1..])
  {
    assert |b| == |multiset(b)| == |multiset(a)| == |a|;
    HeadMultiset(a);
    HeadMultiset(b);
    HeadLeast(a, b[0]);
    HeadLeast(b, a[0]);
    assert multiset(a[1..]) == multiset(a) - multiset{a[0]};
    assert multiset(b[1..]) == multiset(b) - multiset{b[0]};
    SortedTail(a);
    SortedTail(b);
  }

  /** `mem` with cells `[lo, hi)` replaced by their sorted permutation. */
  function SortRange(mem: seq<int>, lo: nat, hi: nat): (r: seq<int>)
    requires lo <= hi <= |mem|
    ensures |r| == |mem|
  {
    Splice(mem, lo, SortSeq(mem[lo..hi]))
  }

  /** SortRange sorts the range in place. */
  lemma SortRangeSorts(mem: seq<int>, lo: nat, hi: nat)
    requires lo <= hi <= |mem|
    ensures SortedInPlace(mem, SortRange(mem, lo, hi), lo, hi)
  {
    var sorted := SortSeq(mem[lo..hi]);
    SortSeqSorted(mem[lo..hi]);
    SplicedRange(mem, Splice(mem, lo, sorted), lo, sorted, hi);
  }

  /** Sorting a range in place has exactly one outcome, SortRange's. */
  lemma InPlaceUnique(before: seq<int>, after: seq<int>, lo: nat, hi: nat)
    requires SortedInPlace(before, after, lo, hi)
    ensures after == SortRange(before, lo, hi)
  {
    var sorted := SortSeq(before[lo..hi]);
    SortSeqSorted(before[lo..hi]);
    SortedUnique(after[lo..hi], sorted);
    assert after == after[..lo] + after[lo..hi] + after[hi..];
  }

  /** A range that is already sorted is left as it is. */
  lemma SortedRangeStays(mem: seq<int>, lo: nat, hi: nat)
    requires lo <= hi <= |mem| && Sorted(mem[lo..hi])
    ensures SortRange(mem, lo, hi) == mem
  {
    InPlaceUnique(mem, mem, lo, hi);
  }

  // ---------------------------------------------------------------------
  // The sort as a whole
  // ---------------------------------------------------------------------

  /**
   * What the sequential branch of `$parallel_mergesort_helper` leaves in
   * memory for the slice of `size` cells at `start`, or its panic: up to 15
   * cells are selection-sorted (an empty slice panics); a longer slice is
   * cut at `size / 2U`, both halves are sorted the same way, and `$merge`
   * joins them, as written or corrected.
   */
  function SortRun(corrected: bool, mem: seq<int>, start: nat, size: nat): (r: Result<seq<int>, Panic>)
    requires start + size <= |mem| && size < U64
    ensures r.Success? ==> |r.value| == |mem|
    decreases size, 2
  {
    if size <= 15 then
      if size == 0 then Failure(IndexOutOfBounds) else Success(SortRange(mem, start, start + size))
    else
      JoinRun(corrected, mem, start, size)
  }

  /** A slice longer than 15 cells: both halves are sorted, then `$merge` joins them at `size / 2U`. */
  function JoinRun(corrected: bool, mem: seq<int>, start: nat, size: nat): (r: Result<seq<int>, Panic>)
    requires start + size <= |mem| && 15 < size < U64
    ensures r.Success? ==> |r.value| == |mem|
    decreases size, 1
  {
    match HalvesRun(corrected, mem, start, size, size / 2)
    case Failure(e) => Failure(e)
    case Success(halves) => MergeRun(corrected, halves, start, size, size / 2)
  }

  /** The two recursive calls: cells `[0, mid)` of the slice are sorted, then cells `[mid, size)`. */
  function HalvesRun(corrected: bool, mem: seq<int>, start: nat, size: nat, mid: nat): (r: Result<seq<int>, Panic>)
    requires start + size <= |mem| && 0 < mid < size < U64
    ensures r.Success? ==> |r.value| == |mem|
    decreases size, 0
  {
    match SortRun(corrected, mem, start, mid)
    case Failure(e) => Failure(e)
    case Success(left) => SortRun(corrected, left, start + mid, size - mid)
  }

  /**
   * With the corrected `$merge` the sort succeeds exactly for 1 to 21
   * cells (a longer slice has a left half that does not fit the scratch
   * array, or a half that is itself too long), and then its result is
   * SortRange's: the slice sorted in place (SortRangeSorts), the only such
   * result (InPlaceUnique).
   */
  lemma {:induction false} SortRunCorrect(mem: seq<int>, start: nat, size: nat)
    requires start + size <= |mem| && size < U64
    ensures SortRun(true, mem, start, size).Success? <==> 1 <= size <= 21
    ensures SortRun(true, mem, start, size).Success? ==>
      SortRun(true, mem, start, size).value == SortRange(mem, start, start + size)
    decreases size
  {
    if size <= 15 {
      SortRunSmall(true, mem, start, size);
    } else {
      var mid := size / 2;
      SortRunLarge(true, mem, start, size, mid);
      HalvesRunSplit(true, mem, start, size, mid);
      SortRunCorrect(mem, start, mid);
      if mid <= 21 {
        SortRunCorrect(SortRange(mem, start, start + mid), start + mid, size - mid);
        if size <= 21 {
          MergeJoinsHalves(mem, start, size, mid);
        }
      }
    }
  }

  /** The corrected merge of the two halves, each sorted in place in turn, is SortRange's result for the whole slice. */
  lemma MergeJoinsHalves(mem: seq<int>, start: nat, size: nat, mid: nat)
    requires start + size <= |mem| && 16 <= size <= 21 && mid == size / 2
    ensures MergeRun(true, SortRange(SortRange(mem, start, start + mid), start + mid, start + size), start, size, mid)
      == Success(SortRange(mem, start, start + size))
  {
    MergeCorrect(SortRange(SortRange(mem, start, start + mid), start + mid, start + size), start, size, mid);
    MergedHalvesSort(mem, start, size, mid);
  }

  /** Merging the two halves, each sorted in place in turn, sorts the slice as SortRange does. */
  lemma MergedHalvesSort(mem: seq<int>, start: nat, size: nat, mid: nat)
    requires start + size <= |mem| && mid <= size
    ensures Merged(SortRange(SortRange(mem, start, start + mid), start + mid, start + size), start, mid, size)
      == SortRange(mem, start, start + size)
  {
    SortBothHalves(mem, start, start + mid, start + size);
    MergedSortRange(mem, SortRange(SortRange(mem, start, start + mid), start + mid, start + size), start, mid, size);
  }

  /** Sorting the left half in place and then the right half sorts both halves. */
  lemma SortBothHalves(mem: seq<int>, lo: nat, cut: nat, hi: nat)
    requires lo <= cut <= hi <= |mem|
    ensures HalvesSorted(mem, SortRange(SortRange(mem, lo, cut), cut, hi), lo, cut, hi)
  {
    var left := SortRange(mem, lo, cut);
    SortRangeSorts(mem, lo, cut);
    SortRangeSorts(left, cut, hi);
    JoinHalves(mem, left, SortRange(left, cut, hi), lo, lo, cut, hi);
  }

  /** The merge of two sorted halves is the slice sorted as SortRange does. */
  lemma MergedSortRange(mem: seq<int>, halves: seq<int>, start: nat, mid: nat, size: nat)
    requires mid <= size && start + size <= |halves| && HalvesSorted(mem, halves, start, start + mid, start + size)
    ensures Merged(halves, start, mid, size) == SortRange(mem, start, start + size)
  {
    MergeSortStep(mem, halves, Merged(halves, start, mid, size), start, mid, size, start + mid, start + size);
    InPlaceUnique(mem, Merged(halves, start, mid, size), start, start + size);
  }

  /**
   * As written the sort agrees with the corrected one up to 15 cells and
   * for 20 and 21 cells (their left half fills the scratch array), and
   * panics beyond 21; from 16 to 21 cells it is the as-written `$merge` of
   * the two sorted halves, which can panic or merge in a scratch zero.
   */
  lemma SortRunAsWritten(mem: seq<int>, start: nat, size: nat)
    requires start + size <= |mem| && size < U64
    ensures size <= 15 || size == 20 || size == 21 ==> SortRun(false, mem, start, size) == SortRun(true, mem, start, size)
    ensures size > 21 ==> SortRun(false, mem, start, size).Failure?
    ensures 16 <= size <= 21 ==>
      SortRun(false, mem, start, size) ==
        MergeRun(false, SortRange(SortRange(mem, start, start + size / 2), start + size / 2, start + size), start, size, size / 2)
  {
    if size <= 15 {
      SortRunSmall(false, mem, start, size);
      SortRunSmall(true, mem, start, size);
    } else if size <= 21 {
      SortRunMerged(false, mem, start, size);
      if size >= 20 {
        assert size / 2 == ScratchSize;
        SortRunMerged(true, mem, start, size);
      }
    } else {
      SortRunLong(mem, start, size);
    }
  }

  /** From 16 to 21 cells both halves are selection-sorted, so the sort is the merge of the sorted halves. */
  lemma SortRunMerged(corrected: bool, mem: seq<int>, start: nat, size: nat)
    requires start + size <= |mem| && 16 <= size <= 21
    ensures SortRun(corrected, mem, start, size) ==
      MergeRun(corrected, SortRange(SortRange(mem, start, start + size / 2), start + size / 2, start + size), start, size, size / 2)
  {
    HalvesSmall(corrected, mem, start, size, size / 2);
    SortRunLarge(corrected, mem, start, size, size / 2);
  }

  /** When both halves have at most 15 cells, each is sorted by SortRange in turn. */
  lemma HalvesSmall(corrected: bool, mem: seq<int>, start: nat, size: nat, mid: nat)
    requires start + size <= |mem| && 0 < mid <= 15 && mid < size <= mid + 15
    ensures HalvesRun(corrected, mem, start, size, mid) == Success(SortRange(SortRange(mem, start, start + mid), start + mid, start + size))
  {
    var left := SortRange(mem, start, start + mid);
    assert SortRun(corrected, mem, start, mid) == Success(left) by {
      SortRunSmall(corrected, mem, start, mid);
    }
    assert HalvesRun(corrected, mem, start, size, mid) == SortRun(corrected, left, start + mid, size - mid) by {
      HalvesRunSplit(corrected, mem, start, size, mid);
    }
    SortRunSmall(corrected, left, start + mid, size - mid);
  }

  /** As written, beyond 21 cells a half panics or the merge's left half overflows the scratch array. */
  lemma {:induction false} SortRunLong(mem: seq<int>, start: nat, size: nat)
    requires start + size <= |mem| && 21 < size < U64
    ensures SortRun(false, mem, start, size).Failure?
    decreases size
  {
    var mid := size / 2;
    SortRunLarge(false, mem, start, size, mid);
    HalvesRunSplit(false, mem, start, size, mid);
    if mid > 21 {
      SortRunLong(mem, start, mid);
    } else if SortRun(false, mem, start, mid).Success? && size - mid > 21 {
      SortRunLong(SortRun(false, mem, start, mid).value, start + mid, size - mid);
    }
  }

  /** A range inside a sorted range is sorted. */
  lemma SortedWithin(mem: seq<int>, lo: nat, hi: nat, lo2: nat, hi2: nat)
    requires lo <= lo2 <= hi2 <= hi <= |mem| && Sorted(mem[lo..hi])
    ensures Sorted(mem[lo2..hi2])
  {
    forall p, q | 0 <= p < q < hi2 - lo2
      ensures mem[lo2..hi2][p] <= mem[lo2..hi2][q]
    {
      assert mem[lo2..hi2][p] == mem[lo..hi][lo2 - lo + p] && mem[lo2..hi2][q] == mem[lo..hi][lo2 - lo + q];
    }
  }

  /**
   * Sorting an already sorted slice of 16 to 19 cells whose cut cell is
   * positive and larger than the cell before it: both halves stay as they
   * are, so as written the merge at the cut panics for 16 and 17 cells and
   * replaces the cut cell by a scratch zero for 18 and 19; the corrected
   * sort returns the slice unchanged.
   */
  lemma SortAsWrittenOnSorted(mem: seq<int>, start: nat, size: nat)
    requires start + size <= |mem| && 16 <= size <= 19 && Sorted(mem[start..start + size])
    requires mem[start + size / 2 - 1] < mem[start + size / 2] && 0 < mem[start + size / 2]
    ensures size <= 17 ==> SortRun(false, mem, start, size) == Failure(IndexOutOfBounds)
    ensures size >= 18 ==> SortRun(false, mem, start, size) == Success(mem[start + size / 2 := 0])
    ensures SortRun(true, mem, start, size) == Success(mem)
  {
    var mid := size / 2;
    assert SortRun(false, mem, start, size) == MergeRun(false, mem, start, size, mid) by {
      SortedHalvesMerge(mem, start, size);
    }
    assert (mid < ScratchSize - 1 ==> MergeRun(false, mem, start, size, mid) == Failure(IndexOutOfBounds)) &&
      (mid == ScratchSize - 1 ==> MergeRun(false, mem, start, size, mid) == Success(mem[start + mid := 0])) by {
      SortedBelowCut(mem, start, size, mid);
      MergeAsWrittenZeroAtCut(mem, start, size, mid);
    }
    SortedSortStays(mem, start, size);
  }

  /** In a sorted slice whose cut cell is larger than the cell before it, every left cell is smaller than the cut cell. */
  lemma SortedBelowCut(mem: seq<int>, start: nat, size: nat, mid: nat)
    requires start + size <= |mem| && 1 <= mid < size && Sorted(mem[start..start + size])
    requires mem[start + mid - 1] < mem[start + mid]
    ensures forall t :: start <= t < start + mid ==> mem[t] < mem[start + mid]
  {
    forall t | start <= t < start + mid
      ensures mem[t] < mem[start + mid]
    {
      assert mem[t] == mem[start..start + size][t - start];
      assert mem[start + mid - 1] == mem[start..start + size][mid - 1];
    }
  }

  /** The corrected sort leaves an already sorted slice of 1 to 21 cells as it was. */
  lemma SortedSortStays(mem: seq<int>, start: nat, size: nat)
    requires start + size <= |mem| && 1 <= size <= 21 && Sorted(mem[start..start + size])
    ensures SortRun(true, mem, start, size) == Success(mem)
  {
    assert SortRange(mem, start, start + size) == mem by {
      SortedRangeStays(mem, start, start + size);
    }
    SortRunRange(mem, start, size);
  }

  /** The corrected sort of 1 to 21 cells is SortRange's result. */
  lemma SortRunRange(mem: seq<int>, start: nat, size: nat)
    requires start + size <= |mem| && 1 <= size <= 21
    ensures SortRun(true, mem, start, size) == Success(SortRange(mem, start, start + size))
  {
    SortRunCorrect(mem, start, size);
  }

  /** As written, sorting an already sorted slice of 16 to 21 cells is the as-written `$merge` of its halves in place. */
  lemma SortedHalvesMerge(mem: seq<int>, start: nat, size: nat)
    requires start + size <= |mem| && 16 <= size <= 21 && Sorted(mem[start..start + size])
    ensures SortRun(false, mem, start, size) == MergeRun(false, mem, start, size, size / 2)
  {
    SortRunAsWritten(mem, start, size);
    HalvesStay(mem, start, size / 2, size);
  }

  /** Sorting each half of an already sorted slice leaves memory as it was. */
  lemma HalvesStay(mem: seq<int>, start: nat, mid: nat, size: nat)
    requires mid <= size && start + size <= |mem| && Sorted(mem[start..start + size])
    ensures SortRange(SortRange(mem, start, start + mid), start + mid, start + size) == mem
  {
    SortedPartStays(mem, start, start + size, start, start + mid);
    SortedPartStays(mem, start, start + size, start + mid, start + size);
  }

  /** Sorting part of an already sorted range leaves memory as it was. */
  lemma SortedPartStays(mem: seq<int>, lo: nat, hi: nat, lo2: nat, hi2: nat)
    requires lo <= lo2 <= hi2 <= hi <= |mem| && Sorted(mem[lo..hi])
    ensures SortRange(mem, lo2, hi2) == mem
  {
    SortedWithin(mem, lo, hi, lo2, hi2);
    SortedRangeStays(mem, lo2, hi2);
  }

  /**
   * The smallest input that shows the as-written `$merge` inside the sort:
   * as written, sorting `[1, …, 16]` panics; the corrected sort returns it
   * unchanged.
   */
  lemma SortAsWrittenPanicsOn16(mem: seq<int>)
    requires mem == Ascending(16)
    ensures SortRun(false, mem, 0, 16) == Failure(IndexOutOfBounds)
    ensures SortRun(true, mem, 0, 16) == Success(mem)
  {
    assert mem[0..16] == mem;
    SortAsWrittenOnSorted(mem, 0, 16);
  }

  /**
   * As written, sorting `[1, …, 18]` does not panic but returns the slice
   * with its 10 replaced by a zero from the scratch array.
   */
  lemma SortAsWrittenZeroesOn18(mem: seq<int>)
    requires mem == Ascending(18)
    ensures SortRun(false, mem, 0, 18) == Success(mem[9 := 0])
    ensures SortRun(true, mem, 0, 18) == Success(mem)
  {
    assert mem[0..18] == mem;
    SortAsWrittenOnSorted(mem, 0, 18);
  }

  /** Up to 15 cells, the sort is the selection sort: it panics on an empty slice and otherwise sorts the range. */
  lemma SortRunSmall(corrected: bool, mem: seq<int>, start: nat, size: nat)
    requires start + size <= |mem| && size <= 15
    ensures size == 0 ==> SortRun(corrected, mem, start, size) == Failure(IndexOutOfBounds)
    ensures size > 0 ==> SortRun(corrected, mem, start, size) == Success(SortRange(mem, start, start + size))
  {
  }

  /** Beyond 15 cells, the sort panics if a half does and is otherwise the merge of the sorted halves. */
  lemma SortRunLarge(corrected: bool, mem: seq<int>, start: nat, size: nat, mid: nat)
    requires start + size <= |mem| && 15 < size < U64 && mid == size / 2
    ensures HalvesRun(corrected, mem, start, size, mid).Failure? ==> SortRun(corrected, mem, start, size).Failure?
    ensures HalvesRun(corrected, mem, start, size, mid).Success? ==>
      SortRun(corrected, mem, start, size) == MergeRun(corrected, HalvesRun(corrected, mem, start, size, mid).value, start, size, mid)
  {
  }

  /** The halves panic if the left one does, and otherwise the right one is sorted in what the left one left. */
  lemma HalvesRunSplit(corrected: bool, mem: seq<int>, start: nat, size: nat, mid: nat)
    requires start + size <= |mem| && 0 < mid < size < U64
    ensures SortRun(corrected, mem, start, mid).Failure? ==> HalvesRun(corrected, mem, start, size, mid).Failure?
    ensures SortRun(corrected, mem, start, mid).Success? ==>
      HalvesRun(corrected, mem, start, size, mid) == SortRun(corrected, SortRun(corrected, mem, start, mid).value, start + mid, size - mid)
  {
  }

  /** What SelectionSort promises is what SortRun says of a slice of at most 15 cells. */
  lemma SelectionSortRun(corrected: bool, m0: seq<int>, m1: seq<int>, start: nat, size: nat, panicked: bool)
    requires start + size <= |m0| && size <= 15
    requires panicked <==> size == 0
    requires !panicked ==> SortedInPlace(m0, m1, start, start + size)
    ensures panicked <==> SortRun(corrected, m0, start, size).Failure?
    ensures !panicked ==> SortRun(corrected, m0, start, size) == Success(m1)
  {
    if !panicked {
      InPlaceUnique(m0, m1, start, start + size);
    }
    SortRunSmall(corrected, m0, start, size);
  }


  /**
   * `$parallel_mergesort_helper` on the branch it takes (`if (1)`), with
   * `$merge` as written or corrected: it panics exactly when SortRun does
   * and otherwise leaves memory as SortRun says. SortRunCorrect and
   * SortRunAsWritten state what that is.
   */
  method MergeSort(corrected: bool, s: Slice) returns (panicked: bool)
    requires Valid(s)
    modifies s.data
    ensures panicked <==> SortRun(corrected, old(s.data[..]), s.start, s.size).Failure?
    ensures !panicked ==> SortRun(corrected, old(s.data[..]), s.start, s.size) == Success(s.data[..])
    decreases s.size, 2
  {
    ghost var m0 := s.data[..];
    if s.size <= 15 {
      panicked := SelectionSort(s);
      SelectionSortRun(corrected, m0, s.data[..], s.start, s.size, panicked);
    } else {
      var mid := s.size / 2;
      panicked := SortHalves(corrected, s, mid);
      SortRunLarge(corrected, m0, s.start, s.size, mid);
      if !panicked {
        panicked := Merge(corrected, s, mid);
      }
    }
  }

  /** The two recursive calls, on `s[0..mid]` and then on `s[mid..size]`. */
  method SortHalves(corrected: bool, s: Slice, mid: nat) returns (panicked: bool)
    requires Valid(s) && 0 < mid < s.size
    modifies s.data
    ensures panicked <==> HalvesRun(corrected, old(s.data[..]), s.start, s.size, mid).Failure?
    ensures !panicked ==> HalvesRun(corrected, old(s.data[..]), s.start, s.size, mid) == Success(s.data[..])
    decreases s.size, 1
  {
    ghost var m0 := s.data[..];
    panicked := SortPart(corrected, s, 0, mid);
    ghost var m1 := s.data[..];
    ghost var leftPanicked := panicked;
    if !panicked {
      panicked := SortPart(corrected, s, mid, s.size);
    }
    HalvesOutcome(corrected, m0, m1, s.data[..], s.start, s.size, mid, leftPanicked, panicked);
  }

  /** What the two recursive calls leave, or their panic, is what HalvesRun says. */
  lemma HalvesOutcome(corrected: bool, m0: seq<int>, m1: seq<int>, m2: seq<int>, start: nat, size: nat, mid: nat, leftPanicked: bool, panicked: bool)
    requires start + size <= |m0| == |m1| && 0 < mid < size < U64
    requires leftPanicked <==> SortRun(corrected, m0, start + 0, mid - 0).Failure?
    requires !leftPanicked ==> SortRun(corrected, m0, start + 0, mid - 0) == Success(m1)
    requires leftPanicked ==> panicked
    requires !leftPanicked ==> (panicked <==> SortRun(corrected, m1, start + mid, size - mid).Failure?)
    requires !leftPanicked && !panicked ==> SortRun(corrected, m1, start + mid, size - mid) == Success(m2)
    ensures panicked <==> HalvesRun(corrected, m0, start, size, mid).Failure?
    ensures !panicked ==> HalvesRun(corrected, m0, start, size, mid) == Success(m2)
  {
    HalvesRunSplit(corrected, m0, start, size, mid);
  }

  /** The recursive call on the part `s[lo..hi]`, stated on the cells of `s`. */
  method SortPart(corrected: bool, s: Slice, lo: nat, hi: nat) returns (panicked: bool)
    requires Valid(s) && lo <= hi <= s.size
    modifies s.data
    ensures panicked <==> SortRun(corrected, old(s.data[..]), s.start + lo, hi - lo).Failure?
    ensures !panicked ==> SortRun(corrected, old(s.data[..]), s.start + lo, hi - lo) == Success(s.data[..])
    decreases hi - lo, 3
  {
    var part := SliceOf(s, lo, hi).value;
    assert part.data == s.data && part.start == s.start + lo && part.size == hi - lo;
    panicked := MergeSort(corrected, part);
  }
}
