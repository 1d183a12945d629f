/**
 The in-place quicksort of the ring (list.c 204-249): partitioning and recursion move data between
 nodes and never touch a link. The pure functions say what it does to the data for any comparator;
 the methods are proved to do exactly that on the heap, and the lemmas say when the result is sorted.
 */
module QuickSort {
  import opened Ring
  import opened Wrappers

  type Compare<!T> = (T, T) -> int

  /** The test the partition makes: a does not sort after b. */
  predicate AtMost<T>(compare: Compare<T>, a: T, b: T) {
    compare(a, b) < 1
  }

  function Swap<T>(d: seq<T>, i: int, j: int): (e: seq<T>)
    requires 0 <= i < |d| && 0 <= j < |d|
    ensures |e| == |d|
  {
    d[i := d[j]][j := d[i]]
  }

  /** The partition loop from j on: i is the last position known to be at most the pivot at hi. */
  function Partition<T>(d: seq<T>, i: int, j: int, hi: int, compare: Compare<T>): (r: (seq<T>, int))
    requires -1 <= i < j <= hi < |d|
    ensures |r.0| == |d| && i < r.1 <= hi
    decreases hi - j
  {
    if j == hi then (Swap(d, i + 1, hi), i + 1)
    else if AtMost(compare, d[j], d[hi]) then Partition(Swap(d, i + 1, j), i + 1, j + 1, hi, compare)
    else Partition(d, i, j + 1, hi, compare)
  }

  /** The data after sorting positions lo to hi. */
  function Sorting<T>(d: seq<T>, lo: int, hi: int, compare: Compare<T>): (e: seq<T>)
    requires 0 <= lo && hi < |d|
    ensures |e| == |d|
    decreases hi - lo
  {
    if lo >= hi then d
    else
      var (e, p) := Partition(d, lo - 1, lo, hi, compare);
      Sorting(Sorting(e, lo, p - 1, compare), p + 1, hi, compare)
  }

  // ----- what partitioning and sorting do, for every comparator -----

  /** e is d with the elements of positions lo to hi rearranged. */
  ghost predicate Rearranged<T>(d: seq<T>, e: seq<T>, lo: int, hi: int) {
    0 <= lo <= hi + 1 <= |d| == |e| &&
    (forall x :: 0 <= x < lo || hi < x < |d| ==> e[x] == d[x]) &&
    multiset(d) == multiset(e)
  }

  /** Everything from lo to p is at most the pivot at p, and nothing from p + 1 to hi is. */
  ghost predicate Split<T>(d: seq<T>, lo: int, p: int, hi: int, compare: Compare<T>) {
    0 <= lo <= p <= hi < |d| &&
    (forall x :: lo <= x < p ==> AtMost(compare, d[x], d[p])) &&
    (forall x :: p < x <= hi ==> !AtMost(compare, d[x], d[p]))
  }

  /** The state of the partition loop: up to i at most the pivot at hi, then up to j - 1 not. */
  ghost predicate Scanned<T>(d: seq<T>, lo: int, i: int, j: int, hi: int, compare: Compare<T>) {
    0 <= lo <= i + 1 <= j <= hi < |d| &&
    (forall x :: lo <= x <= i ==> AtMost(compare, d[x], d[hi])) &&
    (forall x :: i < x < j ==> !AtMost(compare, d[x], d[hi]))
  }

  lemma ScannedStep<T>(d: seq<T>, lo: int, i: int, j: int, hi: int, compare: Compare<T>)
    requires Scanned(d, lo, i, j, hi, compare) && j < hi
    ensures if AtMost(compare, d[j], d[hi]) then Scanned(Swap(d, i + 1, j), lo, i + 1, j + 1, hi, compare)
            else Scanned(d, lo, i, j + 1, hi, compare)
  {
  }

  /** e is d rearranged between lo and hi and split at p around the element that was at hi. */
  ghost predicate Partitioned<T>(d: seq<T>, e: seq<T>, lo: int, p: int, hi: int, compare: Compare<T>) {
    Rearranged(d, e, lo, hi) && Split(e, lo, p, hi, compare) && e[p] == d[hi]
  }

  lemma ScannedRange<T>(d: seq<T>, lo: int, i: int, j: int, hi: int, compare: Compare<T>)
    requires Scanned(d, lo, i, j, hi, compare)
    ensures 0 <= lo <= i + 1 <= j <= hi < |d|
  {
  }

  lemma FinalSwap<T>(d: seq<T>, lo: int, i: int, hi: int, compare: Compare<T>)
    requires Scanned(d, lo, i, hi, hi, compare)
    ensures Partitioned(d, Swap(d, i + 1, hi), lo, i + 1, hi, compare)
  {
  }

  lemma PartitionedAfterSwap<T>(d: seq<T>, k: int, j: int, e: seq<T>, lo: int, p: int, hi: int, compare: Compare<T>)
    requires 0 <= lo <= k <= j < hi < |d| && Partitioned(Swap(d, k, j), e, lo, p, hi, compare)
    ensures Partitioned(d, e, lo, p, hi, compare)
  {
  }

  /** Partitioning rearranges and splits around the element that was at hi. */
  lemma {:induction false} PartitionSplits<T>(d: seq<T>, lo: int, i: int, j: int, hi: int, compare: Compare<T>)
    returns (e: seq<T>, p: int)
    requires Scanned(d, lo, i, j, hi, compare)
    ensures (e, p) == Partition(d, i, j, hi, compare)
    ensures Partitioned(d, e, lo, p, hi, compare)
    decreases hi - j
  {
    hide Partitioned, Scanned, AtMost;
    ScannedRange(d, lo, i, j, hi, compare);
    if j == hi {
      FinalSwap(d, lo, i, hi, compare);
      return Swap(d, i + 1, hi), i + 1;
    }
    ScannedStep(d, lo, i, j, hi, compare);
    if AtMost(compare, d[j], d[hi]) {
      e, p := PartitionSplits(Swap(d, i + 1, j), lo, i + 1, j + 1, hi, compare);
      PartitionedAfterSwap(d, i + 1, j, e, lo, p, hi, compare);
    } else {
      e, p := PartitionSplits(d, lo, i, j + 1, hi, compare);
    }
  }

  /** One level of the sort: partition, sort the left side, then sort the right side. */
  lemma SortingStages<T>(d: seq<T>, lo: int, hi: int, compare: Compare<T>) returns (e: seq<T>, p: int, left: seq<T>)
    requires 0 <= lo < hi < |d|
    ensures |e| == |d| == |left| && lo <= p <= hi
    ensures Rearranged(d, e, lo, hi) && Split(e, lo, p, hi, compare)
    ensures left == Sorting(e, lo, p - 1, compare)
    ensures Sorting(d, lo, hi, compare) == Sorting(left, p + 1, hi, compare)
  {
    e, p := PartitionSplits(d, lo, lo - 1, lo, hi, compare);
    left := Sorting(e, lo, p - 1, compare);
  }

  /** Whatever the comparator, sorting only rearranges the positions it is given. */
  lemma {:induction false} SortingRearranges<T>(d: seq<T>, lo: int, hi: int, compare: Compare<T>)
    requires 0 <= lo <= hi + 1 <= |d|
    ensures Rearranged(d, Sorting(d, lo, hi, compare), lo, hi)
    decreases hi - lo
  {
    if lo < hi {
      var e, p, left := SortingStages(d, lo, hi, compare);
      SortingRearranges(e, lo, p - 1, compare);
      SortingRearranges(left, p + 1, hi, compare);
    }
  }

  /** The shape every sort leaves, sorted or not: a split, and the same on either side of its pivot. */
  ghost predicate SplitTree<T>(d: seq<T>, lo: int, hi: int, compare: Compare<T>)
    decreases hi - lo
  {
    lo >= hi ||
    exists p :: Split(d, lo, p, hi, compare) && SplitTree(d, lo, p - 1, compare) && SplitTree(d, p + 1, hi, compare)
  }

  /** The shape depends on the range alone. */
  lemma {:induction false} SplitTreeLocal<T>(d: seq<T>, e: seq<T>, lo: int, hi: int, compare: Compare<T>)
    requires SplitTree(d, lo, hi, compare) && |d| == |e|
    requires forall x :: lo <= x <= hi && 0 <= x < |d| ==> d[x] == e[x]
    ensures SplitTree(e, lo, hi, compare)
    decreases hi - lo
  {
    if lo < hi {
      var p :| Split(d, lo, p, hi, compare) && SplitTree(d, lo, p - 1, compare) && SplitTree(d, p + 1, hi, compare);
      SplitTreeLocal(d, e, lo, p - 1, compare);
      SplitTreeLocal(d, e, p + 1, hi, compare);
      assert Split(e, lo, p, hi, compare);
    }
  }

  /** A rearranged stretch holds the same elements. */
  lemma RearrangedElements<T>(d: seq<T>, e: seq<T>, lo: int, hi: int, x: int)
    requires Rearranged(d, e, lo, hi) && lo <= x <= hi
    ensures exists y :: lo <= y <= hi && d[y] == e[x]
  {
    assert d == d[..lo] + d[lo..hi + 1] + d[hi + 1..];
    assert e == e[..lo] + e[lo..hi + 1] + e[hi + 1..];
    assert d[..lo] == e[..lo] && d[hi + 1..] == e[hi + 1..];
    var a, c := multiset(d[..lo]), multiset(d[hi + 1..]);
    var m, n := multiset(d[lo..hi + 1]), multiset(e[lo..hi + 1]);
    assert multiset(d) == a + m + c && multiset(e) == a + n + c;
    assert (a + m + c)[e[x]] == (a + n + c)[e[x]];
    assert e[lo..hi + 1][x - lo] in multiset(e[lo..hi + 1]);
    var k :| 0 <= k < |d[lo..hi + 1]| && d[lo..hi + 1][k] == e[x];
    assert d[lo + k] == e[x];
  }

  /** A rearranged stretch stays on its side of a pivot outside it. */
  lemma SplitKept<T>(d: seq<T>, e: seq<T>, lo: int, p: int, hi: int, compare: Compare<T>)
    requires Split(d, lo, p, hi, compare)
    requires Rearranged(d, e, lo, p - 1) || Rearranged(d, e, p + 1, hi)
    ensures Split(e, lo, p, hi, compare)
  {
    if Rearranged(d, e, lo, p - 1) {
      forall x | lo <= x < p ensures AtMost(compare, e[x], d[p]) {
        RearrangedElements(d, e, lo, p - 1, x);
      }
    } else {
      forall x | p < x <= hi ensures !AtMost(compare, e[x], d[p]) {
        RearrangedElements(d, e, p + 1, hi, x);
      }
    }
  }

  /** For every comparator, the sort leaves that shape. */
  lemma {:induction false} SortingSplits<T>(d: seq<T>, lo: int, hi: int, compare: Compare<T>)
    requires 0 <= lo <= hi + 1 <= |d|
    ensures SplitTree(Sorting(d, lo, hi, compare), lo, hi, compare)
    decreases hi - lo
  {
    hide Split, Rearranged, Partition;
    if lo < hi {
      var e, p, left := SortingStages(d, lo, hi, compare);
      SortingSplits(e, lo, p - 1, compare);
      SortingRearranges(e, lo, p - 1, compare);
      SplitKept(e, left, lo, p, hi, compare);
      SortingSplits(left, p + 1, hi, compare);
      SortingRearranges(left, p + 1, hi, compare);
      var r := Sorting(left, p + 1, hi, compare);
      SplitKept(left, r, lo, p, hi, compare);
      SplitTreeLocal(left, r, lo, p - 1, compare);
    }
  }

  // ----- when the result is sorted -----

  ghost predicate SortedRange<T>(d: seq<T>, lo: int, hi: int, compare: Compare<T>)
    requires 0 <= lo && hi < |d|
  {
    forall i, j :: lo <= i < j <= hi ==> AtMost(compare, d[i], d[j])
  }

  ghost predicate SortedBy<T>(d: seq<T>, compare: Compare<T>) {
    SortedRange(d, 0, |d| - 1, compare)
  }

  /**
   The comparator separates the elements of s: each is at most itself, and whatever is at most a
   pivot is at most everything the pivot rejects. Total preorders do this; so do some comparators
   that are not transitive.
   */
  ghost predicate Separates<T>(compare: Compare<T>, s: seq<T>) {
    (forall x :: x in s ==> AtMost(compare, x, x)) &&
    (forall x, y, z :: x in s && y in s && z in s && AtMost(compare, x, y) && !AtMost(compare, z, y) ==>
       AtMost(compare, x, z))
  }

  ghost predicate TotalPreorder<T>(compare: Compare<T>, s: seq<T>) {
    (forall x, y :: x in s && y in s ==> compare(x, y) <= 0 || compare(y, x) <= 0) &&
    (forall x, y, z :: x in s && y in s && z in s && compare(x, y) <= 0 && compare(y, z) <= 0 ==> compare(x, z) <= 0)
  }

  lemma TotalPreorderSeparates<T>(compare: Compare<T>, s: seq<T>)
    requires TotalPreorder(compare, s)
    ensures Separates(compare, s)
  {
  }

  /** That shape, on data the comparator separates, is sorted. */
  lemma {:induction false} SplitTreeSorted<T>(d: seq<T>, lo: int, hi: int, compare: Compare<T>)
    requires 0 <= lo && hi < |d| && Separates(compare, d) && SplitTree(d, lo, hi, compare)
    ensures SortedRange(d, lo, hi, compare)
    decreases hi - lo
  {
    hide Separates, AtMost;
    if lo < hi {
      var p :| Split(d, lo, p, hi, compare) && SplitTree(d, lo, p - 1, compare) && SplitTree(d, p + 1, hi, compare);
      SplitTreeSorted(d, lo, p - 1, compare);
      SplitTreeSorted(d, p + 1, hi, compare);
      SplitSorted(d, lo, p, hi, compare);
    }
  }

  lemma SplitSorted<T>(d: seq<T>, lo: int, p: int, hi: int, compare: Compare<T>)
    requires Split(d, lo, p, hi, compare) && Separates(compare, d)
    requires SortedRange(d, lo, p - 1, compare) && SortedRange(d, p + 1, hi, compare)
    ensures SortedRange(d, lo, hi, compare)
  {
  }

  /** Sorted data: no earlier element compares above a later one. */
  lemma SortedMeans<T>(d: seq<T>, compare: Compare<T>)
    ensures SortedBy(d, compare) <==> forall i, j :: 0 <= i < j < |d| ==> compare(d[i], d[j]) <= 0
  {
    assert forall i, j :: 0 <= i < j < |d| ==> (AtMost(compare, d[i], d[j]) <==> compare(d[i], d[j]) <= 0);
  }

  /** The data after listQSort. */
  function Sorted<T>(d: seq<T>, compare: Compare<T>): (e: seq<T>)
    ensures |e| == |d|
  {
    Sorting(d, 0, |d| - 1, compare)
  }

  /** For every comparator the sort is a permutation. */
  lemma SortedPermutes<T>(d: seq<T>, compare: Compare<T>)
    ensures multiset(Sorted(d, compare)) == multiset(d)
  {
    SortingRearranges(d, 0, |d| - 1, compare);
  }

  /** If the comparator separates the elements the data is drawn from, the data comes out sorted. */
  lemma SeparatedSorts<T>(d: seq<T>, s: seq<T>, compare: Compare<T>)
    requires Separates(compare, s) && forall x :: x in d ==> x in s
    ensures SortedBy(Sorted(d, compare), compare)
  {
    var e := Sorted(d, compare);
    SortedPermutes(d, compare);
    assert forall x :: x in e ==> x in multiset(e);
    SortingSplits(d, 0, |d| - 1, compare);
    SplitTreeSorted(e, 0, |d| - 1, compare);
  }

  /** Three elements show what goes wrong without separation: x passes the pivot y, z does not. */
  lemma SortedTriple<T>(x: T, y: T, z: T, compare: Compare<T>)
    requires AtMost(compare, x, y) && !AtMost(compare, z, y)
    ensures Sorted([x, z, y], compare) == [x, y, z]
  {
    var d := [x, z, y];
    var e := [x, y, z];
    assert Swap(d, 0, 0) == d && Swap(d, 1, 2) == e;
    assert Partition(d, 0, 2, 2, compare) == (e, 1);
    assert Partition(d, 0, 1, 2, compare) == (e, 1);
    assert Partition(d, -1, 0, 2, compare) == (e, 1);
  }

  /** Two equal elements come out as they were. */
  lemma SortedPair<T>(x: T, compare: Compare<T>)
    ensures Sorted([x, x], compare) == [x, x]
  {
    SortedPermutes([x, x], compare);
    var e := Sorted([x, x], compare);
    assert e[0] in multiset(e) && e[1] in multiset(e);
  }

  /** Exactly when listQSort sorts: every list over s comes out sorted if and only if the comparator separates s. */
  lemma SortsIff<T(!new)>(compare: Compare<T>, s: seq<T>)
    ensures (forall d: seq<T> :: (forall x :: x in d ==> x in s) ==> SortedBy(Sorted(d, compare), compare))
            <==> Separates(compare, s)
  {
    if Separates(compare, s) {
      forall d: seq<T> | forall x :: x in d ==> x in s ensures SortedBy(Sorted(d, compare), compare) {
        SeparatedSorts(d, s, compare);
      }
    } else if x :| x in s && !AtMost(compare, x, x) {
      SortedPair(x, compare);
      var d := [x, x];
      assert !AtMost(compare, d[0], d[1]);
      assert !SortedBy(Sorted(d, compare), compare);
    } else {
      var x, y, z :| x in s && y in s && z in s &&
        AtMost(compare, x, y) && !AtMost(compare, z, y) && !AtMost(compare, x, z);
      SortedTriple(x, y, z, compare);
      var e := Sorted([x, z, y], compare);
      assert !AtMost(compare, e[0], e[2]);
      assert !SortedBy(Sorted([x, z, y], compare), compare);
    }
  }

  // ----- the ring -----

  /** Positions one past either end of a ring are the other end. */
  function Wrap(i: int, n: nat): nat
    requires -1 <= i <= n && 0 < n
  {
    if i == -1 then n - 1 else if i == n then 0 else i
  }

  lemma Neighbours<T>(nodes: seq<Node<T>>, i: nat)
    requires IsRing(nodes) && i < |nodes|
    ensures nodes[i].prev == nodes[Wrap(i - 1, |nodes|)] && nodes[i].next == nodes[Wrap(i + 1, |nodes|)]
  {
  }

  lemma SamePosition<T>(nodes: seq<Node<T>>, i: nat, j: nat)
    requires IsRing(nodes) && i < |nodes| && j < |nodes|
    ensures nodes[i] == nodes[j] ==> i == j
  {
  }

  /** The end test: for a range that is not the whole ring, the two ends meet exactly when it is empty. */
  lemma EmptyWhenWrapped<T>(nodes: seq<Node<T>>, lo: nat, hi: int)
    requires IsRing(nodes) && |nodes| > 1
    requires lo <= hi + 1 <= |nodes| && hi + 1 - lo < |nodes|
    ensures nodes[Wrap(lo, |nodes|)] == nodes[Wrap(hi, |nodes|)].next <==> hi + 1 == lo
  {
  }

  lemma DataAt<T>(nodes: seq<Node<T>>, d: seq<T>, i: nat)
    requires Holds(nodes, d) && i < |nodes|
    ensures |d| == |nodes| && nodes[i].data == d[i]
  {
  }

  /** Two nodes exchange their data. */
  method SwapData<T>(a: Node<T>, b: Node<T>, ghost nodes: seq<Node<T>>, ghost i: nat, ghost j: nat, ghost d: seq<T>)
    requires IsRing(nodes) && Holds(nodes, d) && i < |nodes| && j < |nodes| && a == nodes[i] && b == nodes[j]
    modifies {a, b}`data
    ensures |d| == |nodes| && Holds(nodes, Swap(d, i, j))
  {
    a.data, b.data := b.data, a.data;
  }

  /** One turn of the partition loop leaves the last element in place. */
  lemma PartitionStep<T>(d: seq<T>, i: int, j: int, hi: int, compare: Compare<T>)
    requires -1 <= i < j < hi < |d|
    ensures Partition(d, i, j, hi, compare) ==
            if compare(d[j], d[hi]) < 1 then Partition(Swap(d, i + 1, j), i + 1, j + 1, hi, compare)
            else Partition(d, i, j + 1, hi, compare)
    ensures Swap(d, i + 1, j)[hi] == d[hi]
  {
  }

  /** listQSortPivot: partitions the data between the two nodes, whatever ring they are on. */
  method Pivot<T>(low: Node<T>, high: Node<T>, compare: Compare<T>,
                  ghost nodes: seq<Node<T>>, ghost lo: nat, ghost hi: nat, ghost d: seq<T>)
    returns (pivot: Node<T>, ghost e: seq<T>, ghost p: nat)
    requires IsRing(nodes) && Holds(nodes, d)
    requires lo <= hi < |nodes| && low == nodes[lo] && high == nodes[hi]
    modifies nodes`data
    ensures (e, p) == Partition(d, lo - 1, lo, hi, compare)
    ensures Holds(nodes, e) && pivot == nodes[p]
  {
    hide IsRing, Holds, AtMost, Swap;
    DataAt(nodes, d, hi);
    Neighbours(nodes, lo);
    var chosen := high.data;
    var i := low.prev;
    var j := low;
    ghost var at, to := lo - 1, lo;
    e := d;
    while j != high
      invariant lo - 1 <= at < to <= hi && j == nodes[to] && i == nodes[Wrap(at, |nodes|)]
      invariant Holds(nodes, e) && |e| == |nodes| && chosen == e[hi]
      invariant Partition(e, at, to, hi, compare) == Partition(d, lo - 1, lo, hi, compare)
      decreases hi - to
    {
      DataAt(nodes, e, to);
      SamePosition(nodes, to, hi);
      Neighbours(nodes, to);
      Neighbours(nodes, Wrap(at, |nodes|));
      PartitionStep(e, at, to, hi, compare);
      if compare(j.data, chosen) < 1 {
        i := if i == null then low else i.next;
        SwapData(i, j, nodes, at + 1, to, e);
        e, at := Swap(e, at + 1, to), at + 1;
      }
      j := j.next;
      to := to + 1;
    }
    SamePosition(nodes, to, hi);
    Neighbours(nodes, Wrap(at, |nodes|));
    i := if i == null then low else i.next;
    SwapData(i, j, nodes, at + 1, hi, e);
    pivot := i;
    e, p := Swap(e, at + 1, hi), at + 1;
  }

  /**
   mboxQSortHelper. `count` is 0 for the whole ring and 1 for a range that is less than the whole
   ring, which is how the end test can tell the two apart.
   */
  method SortBetween<T>(low: Node<T>, high: Node<T>, count: int, compare: Compare<T>,
                        ghost nodes: seq<Node<T>>, ghost lo: nat, ghost hi: int, ghost d: seq<T>)
    returns (ghost e: seq<T>)
    requires IsRing(nodes) && Holds(nodes, d) && |nodes| > 1
    requires lo <= hi + 1 <= |nodes|
    requires low == nodes[Wrap(lo, |nodes|)] && high == nodes[Wrap(hi, |nodes|)]
    requires count == (if hi + 1 - lo == |nodes| then 0 else 1)
    modifies nodes`data
    ensures Holds(nodes, e) && e == Sorting(d, lo, hi, compare)
    decreases hi + 1 - lo
  {
    hide IsRing, Holds, Partition;
    e := d;
    SamePosition(nodes, Wrap(lo, |nodes|), Wrap(hi, |nodes|));
    Neighbours(nodes, Wrap(hi, |nodes|));
    if count == 1 {
      EmptyWhenWrapped(nodes, lo, hi);
    }
    if low == high || (count == 1 && low == high.next) {
      return;
    }
    ghost var p: int;
    var pivot;
    pivot, e, p := Pivot(low, high, compare, nodes, lo, hi, d);
    Neighbours(nodes, p);
    e := SortBetween(low, pivot.prev, 1, compare, nodes, lo, p - 1, e);
    Neighbours(nodes, p);
    e := SortBetween(pivot.next, high, 1, compare, nodes, p + 1, hi, e);
  }

  /** listQSort: only data moves; the result is a permutation, and sorted if the comparator separates the data. */
  method QSort<T>(l: List<T>, compare: Option<Compare<T>>)
    requires l.Valid()
    modifies l`contents, l.nodes`data
    ensures l.Valid()
    ensures l.contents == if compare == None then old(l.contents) else Sorted(old(l.contents), compare.value)
    ensures multiset(l.contents) == multiset(old(l.contents))
    ensures compare.Some? && Separates(compare.value, old(l.contents)) ==> SortedBy(l.contents, compare.value)
    ensures compare.Some? && Separates(compare.value, old(l.contents)) ==>
              forall i, j :: 0 <= i < j < |l.contents| ==> compare.value(l.contents[i], l.contents[j]) <= 0
  {
    ghost var d := l.contents;
    if l.len <= 1 || compare == None {
      return;
    }
    Neighbours(l.nodes, 0);
    SortedFacts(d, compare.value);
    hide IsRing, Holds, Sorting, Sorted, Separates, SortedBy;
    ghost var e := SortBetween(l.root, l.root.prev, 0, compare.value, l.nodes, 0, |d| - 1, d);
    l.contents := e;
  }

  lemma SortedFacts<T>(d: seq<T>, compare: Compare<T>)
    ensures Sorted(d, compare) == Sorting(d, 0, |d| - 1, compare)
    ensures multiset(Sorted(d, compare)) == multiset(d)
    ensures Separates(compare, d) ==> SortedBy(Sorted(d, compare), compare)
    ensures var e := Sorted(d, compare);
            Separates(compare, d) ==> forall i, j :: 0 <= i < j < |e| ==> compare(e[i], e[j]) <= 0
  {
    SortedMeans(Sorted(d, compare), compare);
    SortedPermutes(d, compare);
    if Separates(compare, d) {
      SeparatedSorts(d, d, compare);
    }
  }

  // ----- the comparator of byte strings -----

  /** memcmp over the shorter of the two lengths (aoStrCmp): a proper prefix equals its extensions. */
  function PrefixCompare(a: seq<int>, b: seq<int>): int {
    if a == [] || b == [] then 0
    else if a[0] != b[0] then a[0] - b[0]
    else PrefixCompare(a[1..], b[1..])
  }

  /**
   What it computes: 0 if the two agree as far as both go, and otherwise the difference at the first
   position at which they do not.
   */
  lemma {:induction false} PrefixCompareMeans(a: seq<int>, b: seq<int>)
    ensures (forall k :: 0 <= k < |a| && k < |b| ==> a[k] == b[k]) ==> PrefixCompare(a, b) == 0
    ensures forall k :: 0 <= k < |a| && k < |b| && a[k] != b[k] && (forall j :: 0 <= j < k ==> a[j] == b[j]) ==>
              PrefixCompare(a, b) == a[k] - b[k]
    decreases |a|
  {
    if a != [] && b != [] && a[0] == b[0] {
      PrefixCompareMeans(a[1..], b[1..]);
      if forall k :: 0 <= k < |a| && k < |b| ==> a[k] == b[k] {
        assert forall k :: 0 <= k < |a[1..]| && k < |b[1..]| ==> a[1..][k] == b[1..][k];
      }
      forall k | 0 <= k < |a| && k < |b| && a[k] != b[k] && (forall j :: 0 <= j < k ==> a[j] == b[j])
        ensures PrefixCompare(a, b) == a[k] - b[k]
      {
        assert a[1..][k - 1] != b[1..][k - 1];
        assert forall j :: 0 <= j < k - 1 ==> a[1..][j] == b[1..][j];
      }
    }
  }

  /** Truncated comparison still separates: what passes a pivot is at most whatever the pivot rejects. */
  lemma {:induction false} PrefixCompareSeparates(x: seq<int>, y: seq<int>, z: seq<int>)
    requires PrefixCompare(x, y) < 1 && PrefixCompare(z, y) >= 1
    ensures PrefixCompare(x, z) < 1
    decreases |x|
  {
    if x != [] && y != [] && z != [] && x[0] == y[0] == z[0] {
      PrefixCompareSeparates(x[1..], y[1..], z[1..]);
    }
  }

  lemma {:induction false} PrefixCompareSelf(x: seq<int>)
    ensures PrefixCompare(x, x) == 0
  {
    if x != [] {
      PrefixCompareSelf(x[1..]);
    }
  }

  /** It is not transitive: "b" is at most "", "" is at most "a", but "b" is not at most "a". */
  lemma PrefixCompareNotTransitive()
    ensures PrefixCompare([2], []) < 1 && PrefixCompare([], [1]) < 1 && PrefixCompare([2], [1]) >= 1
  {
  }

  /** So sorting with it leaves every pair in order, although it is not a preorder. */
  lemma PrefixCompareSorts(d: seq<seq<int>>)
    ensures SortedBy(Sorted(d, PrefixCompare), PrefixCompare)
  {
    forall x | x in d ensures AtMost(PrefixCompare, x, x) {
      PrefixCompareSelf(x);
    }
    forall x, y, z | AtMost(PrefixCompare, x, y) && !AtMost(PrefixCompare, z, y)
      ensures AtMost(PrefixCompare, x, z)
    {
      PrefixCompareSeparates(x, y, z);
    }
    SeparatedSorts(d, d, PrefixCompare);
  }
}
