/**
 The sort that puts a node set into document order: three-way quicksort on large
 ranges, recursing into the smaller side, and insertion sort on small ones.
 */
module Sorting {

  import opened Common

  /** A strict total order on T, with == as its equivalence. */
  ghost predicate StrictTotalOrder<T(!new)>(less: (T, T) -> bool) {
    && (forall x, y :: less(x, y) ==> !less(y, x) && x != y)
    && (forall x, y, z :: less(x, y) && less(y, z) ==> less(x, z))
    && (forall x, y :: x != y ==> less(x, y) || less(y, x))
  }

  ghost predicate Sorted<T(!new)>(less: (T, T) -> bool, a: array<T>, lo: nat, hi: nat)
    requires lo <= hi <= a.Length
    reads a
  {
    forall i, j :: lo <= i < j < hi ==> !less(a[j], a[i])
  }

  /** Compared with the contents `was`, nothing outside [lo, hi) differs, and the array holds the same elements. */
  ghost predicate Permuted<T>(was: seq<T>, a: array<T>, lo: nat, hi: nat)
    requires lo <= hi <= a.Length == |was|
    reads a
  {
    && (forall i {:trigger a[i]} :: 0 <= i < lo || hi <= i < a.Length ==> a[i] == was[i])
    && multiset(a[..]) == multiset(was)
  }

  /** Two elements that differ are ordered one way or the other, so "not less" is transitive. */
  lemma NotLessTransitive<T(!new)>(less: (T, T) -> bool, x: T, y: T, z: T)
    requires StrictTotalOrder(less) && !less(y, x) && !less(z, y)
    ensures !less(z, x)
  {
    if x == y || y == z {
    } else {
      assert less(x, y) && less(y, z);
    }
  }

  /** Rotating one element to the front of a range, one exchange at a time. */
  lemma {:induction false} Rotated<T>(s: seq<T>, s': seq<T>, k: nat, it: nat)
    requires k <= it < |s| == |s'|
    requires s'[k] == s[it]
    requires forall i {:trigger s'[i]} :: k < i <= it ==> s'[i] == s[i - 1]
    requires forall i {:trigger s'[i]} :: 0 <= i < k || it < i < |s| ==> s'[i] == s[i]
    ensures multiset(s') == multiset(s)
    decreases it - k
  {
    if k == it {
      assert s' == s;
    } else {
      Rotated(s[it - 1 := s[it]][it := s[it - 1]], s', k, it - 1);
    }
  }

  /** One turn of the insertion sort: move the hole back until a[it] fits. */
  method Insert<T(!new)>(a: array<T>, begin: nat, it: nat, less: (T, T) -> bool)
    requires begin < it < a.Length && StrictTotalOrder(less) && Sorted(less, a, begin, it)
    modifies a
    ensures Sorted(less, a, begin, it + 1) && Permuted(old(a[..]), a, begin, it + 1)
  {
    var val := a[it];
    var hole := it;
    ghost var was := a[..];
    assert forall i, j :: begin <= i < j < it ==> !less(was[j], was[i]);
    hide StrictTotalOrder, Sorted;
    while hole > begin && less(val, a[hole - 1])
      invariant begin <= hole <= it
      invariant forall i {:trigger a[i]} :: 0 <= i < hole || it < i < a.Length ==> a[i] == was[i]
      invariant forall i {:trigger a[i]} :: hole < i <= it ==> a[i] == was[i - 1] && less(val, a[i])
    {
      a[hole] := a[hole - 1];
      hole := hole - 1;
    }
    a[hole] := val;
    Rotated(was, a[..], hole, it);
    Inserted(less, was, a, begin, hole, it);
  }

  lemma Inserted<T(!new)>(less: (T, T) -> bool, was: seq<T>, a: array<T>, begin: nat, hole: nat, it: nat)
    requires begin <= hole <= it < a.Length == |was| && StrictTotalOrder(less)
    requires forall i, j :: begin <= i < j < it ==> !less(was[j], was[i])
    requires forall i {:trigger a[i]} :: begin <= i < hole ==> a[i] == was[i]
    requires forall i {:trigger a[i]} :: hole < i <= it ==> a[i] == was[i - 1] && less(a[hole], a[i])
    requires hole == begin || !less(a[hole], a[hole - 1])
    ensures Sorted(less, a, begin, it + 1)
  {
    forall i, j | begin <= i < j < it + 1
      ensures !less(a[j], a[i])
    {
      if j == hole && i < hole - 1 {
        NotLessTransitive(less, a[i], a[hole - 1], a[hole]);
      }
    }
  }

  method InsertionSort<T(!new)>(a: array<T>, begin: nat, end: nat, less: (T, T) -> bool)
    requires begin <= end <= a.Length && StrictTotalOrder(less)
    modifies a
    ensures Sorted(less, a, begin, end) && Permuted(old(a[..]), a, begin, end)
  {
    if begin == end {
      return;
    }
    var it := begin + 1;
    while it != end
      invariant begin < it <= end
      invariant Sorted(less, a, begin, it) && Permuted(old(a[..]), a, begin, end)
    {
      Insert(a, begin, it, less);
      it := it + 1;
    }
  }

  method Swap<T>(a: array<T>, i: nat, j: nat)
    requires i < a.Length && j < a.Length
    modifies a
    ensures a[i] == old(a[j]) && a[j] == old(a[i])
    ensures forall k {:trigger a[k]} :: 0 <= k < a.Length && k != i && k != j ==> a[k] == old(a[k])
    ensures multiset(a[..]) == old(multiset(a[..]))
  {
    a[i], a[j] := a[j], a[i];
  }

  /** median3: order three positions by their elements, and give the middle one. */
  method Median3<T(!new)>(a: array<T>, first0: nat, middle0: nat, last0: nat, less: (T, T) -> bool)
    returns (middle: nat, ghost first: nat, ghost last: nat)
    requires first0 < a.Length && middle0 < a.Length && last0 < a.Length && StrictTotalOrder(less)
    ensures multiset{first, middle, last} == multiset{first0, middle0, last0}
    ensures middle in {first0, middle0, last0} && first < a.Length && last < a.Length
    ensures !less(a[middle], a[first]) && !less(a[last], a[middle])
  {
    var f, l := first0, last0;
    middle := middle0;
    if less(a[middle], a[f]) {
      middle, f := f, middle;
    }
    if less(a[l], a[middle]) {
      l, middle := middle, l;
    }
    if less(a[middle], a[f]) {
      middle, f := f, middle;
    }
    first, last := f, l;
  }

  ghost predicate AllLess<T>(less: (T, T) -> bool, a: array<T>, lo: nat, hi: nat, pivot: T)
    requires hi <= a.Length
    reads a
  {
    forall k {:trigger a[k]} :: lo <= k < hi ==> less(a[k], pivot)
  }

  ghost predicate AllGreater<T>(less: (T, T) -> bool, a: array<T>, lo: nat, hi: nat, pivot: T)
    requires hi <= a.Length
    reads a
  {
    forall k {:trigger a[k]} :: lo <= k < hi ==> less(pivot, a[k])
  }

  ghost predicate AllEqual<T>(a: array<T>, lo: nat, hi: nat, pivot: T)
    requires hi <= a.Length
    reads a
  {
    forall k {:trigger a[k]} :: lo <= k < hi ==> a[k] == pivot
  }

  /** partition3: split a range into less than, equal to and greater than the pivot. */
  method Partition3<T(==,!new)>(a: array<T>, begin: nat, end: nat, pivot: T, ghost at: nat,
                                   less: (T, T) -> bool)
    returns (eqbeg: nat, eqend: nat)
    requires begin <= at < end <= a.Length && StrictTotalOrder(less) && pivot == a[at]
    modifies a
    ensures begin <= eqbeg < eqend <= end && Permuted(old(a[..]), a, begin, end)
    ensures AllLess(less, a, begin, eqbeg, pivot) && AllEqual(a, eqbeg, eqend, pivot)
    ensures AllGreater(less, a, eqend, end, pivot)
  {
    // equal to the pivot, then less, then unseen, then greater
    var eq, lt, gt := begin, begin, end;
    ghost var p := at;
    while lt < gt
      invariant begin <= p < end && a[p] == pivot
      invariant begin <= eq <= lt <= gt <= end && Permuted(old(a[..]), a, begin, end)
      invariant AllEqual(a, begin, eq, pivot) && AllLess(less, a, eq, lt, pivot) && AllGreater(less, a, gt, end, pivot)
    {
      if less(a[lt], pivot) {
        lt := lt + 1;
      } else if a[lt] == pivot {
        p := if p == eq then lt else if p == lt then eq else p;
        Swap(a, eq, lt);
        eq, lt := eq + 1, lt + 1;
      } else {
        gt := gt - 1;
        p := if p == gt then lt else p;
        Swap(a, lt, gt);
      }
    }
    eqbeg := SwapBack(a, begin, eq, gt, end, pivot, less);
    eqend := gt;
  }

  /**
   Move the equal elements from the front to the middle by swapping from both sides.  When they outnumber the lesser
   ones the two sides cross, and the swaps past that point exchange equal elements.
   */
  method SwapBack<T(!new)>(a: array<T>, begin: nat, eq: nat, gt: nat, ghost end: nat, ghost pivot: T,
                           ghost less: (T, T) -> bool)
    returns (eqbeg: nat)
    requires begin <= eq <= gt <= end <= a.Length
    requires AllEqual(a, begin, eq, pivot) && AllLess(less, a, eq, gt, pivot) && AllGreater(less, a, gt, end, pivot)
    modifies a
    ensures eqbeg == gt - (eq - begin) && Permuted(old(a[..]), a, begin, gt)
    ensures AllLess(less, a, begin, eqbeg, pivot) && AllEqual(a, eqbeg, gt, pivot)
    ensures AllGreater(less, a, gt, end, pivot)
  {
    ghost var lesser := gt - eq;
    eqbeg := gt;
    var it := begin;
    while it != eq
      invariant begin <= it <= eq && eqbeg == gt - (it - begin) && Permuted(old(a[..]), a, begin, gt)
      invariant AllEqual(a, eqbeg, gt, pivot) && AllGreater(less, a, gt, end, pivot)
      invariant AllLess(less, a, begin, if it - begin <= lesser then it else begin + lesser, pivot)
      invariant forall k {:trigger a[k]} :: eq <= k < eqbeg ==> less(a[k], pivot)
      invariant forall k {:trigger a[k]} ::
        (if it - begin <= lesser then it else begin + lesser) <= k < eq ==> a[k] == pivot
    {
      eqbeg := eqbeg - 1;
      Swap(a, it, eqbeg);
      it := it + 1;
    }
  }

  lemma SameRange<T>(s: seq<T>, s': seq<T>, lo: nat, hi: nat)
    requires lo <= hi <= |s| == |s'| && multiset(s) == multiset(s')
    requires s[..lo] == s'[..lo] && s[hi..] == s'[hi..]
    ensures multiset(s[lo..hi]) == multiset(s'[lo..hi])
  {
    var head, tail := s[..lo], s[hi..];
    assert s == head + (s[lo..hi] + tail);
    assert s' == head + (s'[lo..hi] + tail);
    assert multiset(s) == multiset(head) + (multiset(s[lo..hi]) + multiset(tail));
    assert multiset(s') == multiset(head) + (multiset(s'[lo..hi]) + multiset(tail));
    Cancel(multiset(head), multiset(s[lo..hi]), multiset(s'[lo..hi]), multiset(tail));
  }

  lemma Cancel<T>(x: multiset<T>, y: multiset<T>, y': multiset<T>, z: multiset<T>)
    requires x + (y + z) == x + (y' + z)
    ensures y == y'
  {
    forall e
      ensures y[e] == y'[e]
    {
      assert (x + (y + z))[e] == (x + (y' + z))[e];
    }
  }

  /** After a permutation of a range, each of its elements was already in it. */
  lemma FromRange<T>(was: seq<T>, a: array<T>, lo: nat, hi: nat)
    requires lo <= hi <= a.Length == |was| && Permuted(was, a, lo, hi)
    ensures forall j :: lo <= j < hi ==> exists j' :: lo <= j' < hi && a[j] == was[j']
  {
    SameRange(was, a[..], lo, hi);
    forall j | lo <= j < hi
      ensures exists j' :: lo <= j' < hi && a[j] == was[j']
    {
      assert a[lo..hi][j - lo] in multiset(a[..][lo..hi]);
      assert a[j] in was[lo..hi];
    }
  }

  /** Sorted in [lo, hi) but for pairs within [begin, end). */
  ghost predicate SortedAround<T(!new)>(less: (T, T) -> bool, s: seq<T>, lo: nat, hi: nat, begin: nat, end: nat)
    requires hi <= |s|
  {
    forall i, j :: lo <= i < j < hi && !(begin <= i && j < end) ==> !less(s[j], s[i])
  }

  lemma StillSortedAround<T(!new)>(less: (T, T) -> bool, was: seq<T>, a: array<T>, lo: nat, hi: nat, begin: nat,
                            end: nat)
    requires lo <= begin <= end <= hi <= a.Length == |was| && Permuted(was, a, begin, end)
    requires SortedAround(less, was, lo, hi, begin, end)
    ensures SortedAround(less, a[..], lo, hi, begin, end)
  {
    FromRange(was, a, begin, end);
    forall i, j | lo <= i < j < hi && !(begin <= i && j < end)
      ensures !less(a[j], a[i])
    {
      var i', j' := i, j;
      if begin <= i < end {
        i' :| begin <= i' < end && a[i] == was[i'];
      }
      if begin <= j < end {
        j' :| begin <= j' < end && a[j] == was[j'];
      }
      assert !less(was[j'], was[i']);
    }
  }

  /** A range that is split around its pivot, with one side sorted, leaves only the other side to sort. */
  lemma Narrow<T(!new)>(less: (T, T) -> bool, a: array<T>, lo: nat, hi: nat, begin: nat, end: nat, pivot: T,
                        eqbeg: nat, eqend: nat, left: bool)
    requires lo <= begin <= eqbeg <= eqend <= end <= hi <= a.Length && StrictTotalOrder(less)
    requires SortedAround(less, a[..], lo, hi, begin, end)
    requires AllLess(less, a, begin, eqbeg, pivot) && AllEqual(a, eqbeg, eqend, pivot)
    requires AllGreater(less, a, eqend, end, pivot)
    requires if left then Sorted(less, a, begin, eqbeg) else Sorted(less, a, eqend, end)
    ensures SortedAround(less, a[..], lo, hi, if left then eqend else begin, if left then end else eqbeg)
  {
  }

  /**
   sort.  It recurses into the smaller side and loops on the larger one, so no run nests deeper than the logarithm of
   the number of elements; `depth` is the depth this call reached.
   */
  method Sort<T(==,!new)>(a: array<T>, begin0: nat, end0: nat, less: (T, T) -> bool) returns (ghost depth: nat)
    requires begin0 <= end0 <= a.Length && StrictTotalOrder(less)
    modifies a
    ensures Sorted(less, a, begin0, end0) && Permuted(old(a[..]), a, begin0, end0)
    ensures depth == 0 || Pow2(depth) <= end0 - begin0
    decreases end0 - begin0, 1
  {
    var begin, end := begin0, end0;
    depth := 0;
    assert SortedAround(less, a[..], begin0, end0, begin, end);
    hide StrictTotalOrder, SortedAround, Sorted, Pow2;
    while end - begin > 16
      invariant begin0 <= begin <= end <= end0 && Permuted(old(a[..]), a, begin0, end0)
      invariant SortedAround(less, a[..], begin0, end0, begin, end)
      invariant depth == 0 || Pow2(depth) <= end0 - begin0
      decreases end - begin
    {
      ghost var d;
      begin, end, d := SortSmaller(a, begin, end, less, begin0, end0);
      depth := if d > depth then d else depth;
    }
    ghost var was := a[..];
    InsertionSort(a, begin, end, less);
    StillSortedAround(less, was, a, begin0, end0, begin, end);
    AllSorted(less, a, begin0, end0, begin, end);
  }

  /** One turn of sort's loop: partition around the median, sort the smaller side, and leave the larger one. */
  method SortSmaller<T(==,!new)>(a: array<T>, begin: nat, end: nat, less: (T, T) -> bool, ghost lo: nat, ghost hi: nat)
    returns (begin': nat, end': nat, ghost depth: nat)
    requires lo <= begin <= end <= hi <= a.Length && end - begin > 16 && StrictTotalOrder(less)
    requires SortedAround(less, a[..], lo, hi, begin, end)
    modifies a
    ensures begin <= begin' <= end' <= end && end' - begin' < end - begin && Permuted(old(a[..]), a, lo, hi)
    ensures SortedAround(less, a[..], lo, hi, begin', end') && Pow2(depth) <= end - begin
    decreases end - begin, 0
  {
    hide StrictTotalOrder, SortedAround, Split, Sorted, AllLess, AllEqual, AllGreater, Pow2;
    ghost var was := a[..];
    var eqbeg, eqend, pivot := PartitionAroundMedian(a, begin, end, less);
    StillSortedAround(less, was, a, lo, hi, begin, end);
    ghost var d, split := 0, a[..];
    if eqbeg - begin > end - eqend {
      d := Sort(a, eqend, end, less);
      AfterRecursion(less, split, a, lo, hi, begin, end, pivot, eqbeg, eqend, false);
      Deeper(d, end - eqend, end - begin);
      begin', end' := begin, eqbeg;
    } else {
      d := Sort(a, begin, eqbeg, less);
      AfterRecursion(less, split, a, lo, hi, begin, end, pivot, eqbeg, eqend, true);
      Deeper(d, eqbeg - begin, end - begin);
      begin', end' := eqend, end;
    }
    depth := d + 1;
  }

  lemma Deeper(d: nat, side: nat, size: nat)
    requires (d == 0 || Pow2(d) <= side) && 2 * side <= size && 2 <= size
    ensures Pow2(d + 1) <= size
  {
  }

  lemma AllSorted<T(!new)>(less: (T, T) -> bool, a: array<T>, lo: nat, hi: nat, begin: nat, end: nat)
    requires lo <= begin <= end <= hi <= a.Length
    requires SortedAround(less, a[..], lo, hi, begin, end) && Sorted(less, a, begin, end)
    ensures Sorted(less, a, lo, hi)
  {
  }

  ghost predicate Split<T>(less: (T, T) -> bool, s: seq<T>, begin: nat, eqbeg: nat, eqend: nat, end: nat, pivot: T)
    requires end <= |s|
  {
    && (forall k {:trigger s[k]} :: begin <= k < eqbeg && k < end ==> less(s[k], pivot))
    && (forall k {:trigger s[k]} :: eqbeg <= k < eqend && k < end ==> s[k] == pivot)
    && (forall k {:trigger s[k]} :: eqend <= k < end ==> less(pivot, s[k]))
  }

  /** The part of sort's loop that picks the median of three as the pivot and partitions around it. */
  method PartitionAroundMedian<T(==,!new)>(a: array<T>, begin: nat, end: nat, less: (T, T) -> bool)
    returns (eqbeg: nat, eqend: nat, ghost pivot: T)
    requires begin < end <= a.Length && StrictTotalOrder(less)
    modifies a
    ensures begin <= eqbeg < eqend <= end && Permuted(old(a[..]), a, begin, end)
    ensures Split(less, a[..], begin, eqbeg, eqend, end, pivot)
  {
    var middle := begin + (end - begin) / 2;
    var median, _, _ := Median3(a, begin, middle, end - 1, less);
    pivot := a[median];
    eqbeg, eqend := Partition3(a, begin, end, a[median], median, less);
    IsSplit(less, a, begin, eqbeg, eqend, end, pivot);
  }

  lemma IsSplit<T(!new)>(less: (T, T) -> bool, a: array<T>, begin: nat, eqbeg: nat, eqend: nat, end: nat, pivot: T)
    requires eqbeg <= eqend <= end <= a.Length
    requires AllLess(less, a, begin, eqbeg, pivot) && AllEqual(a, eqbeg, eqend, pivot)
    requires AllGreater(less, a, eqend, end, pivot)
    ensures Split(less, a[..], begin, eqbeg, eqend, end, pivot)
  {
  }

  lemma AfterRecursion<T(!new)>(less: (T, T) -> bool, split: seq<T>, a: array<T>, lo: nat, hi: nat, begin: nat,
                         end: nat,                                 pivot: T, eqbeg: nat, eqend: nat, left: bool)
    requires lo <= begin <= eqbeg <= eqend <= end <= hi <= a.Length == |split| && StrictTotalOrder(less)
    requires SortedAround(less, split, lo, hi, begin, end)
    requires Split(less, split, begin, eqbeg, eqend, end, pivot)
    requires Permuted(split, a, if left then begin else eqend, if left then eqbeg else end)
    requires Sorted(less, a, if left then begin else eqend, if left then eqbeg else end)
    ensures SortedAround(less, a[..], lo, hi, if left then eqend else begin, if left then end else eqbeg)
  {
    FromRange(split, a, if left then begin else eqend, if left then eqbeg else end);
    assert Permuted(split, a, begin, end);
    StillSortedAround(less, split, a, lo, hi, begin, end);
    Narrow(less, a, lo, hi, begin, end, pivot, eqbeg, eqend, left);
  }
}
