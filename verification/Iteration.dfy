/**
 The hash map's iterator (hmap.c 296-341). Its guard tests the bucket index before the chain, so it
 leaves as soon as the last bucket's head has been returned: the rest of that chain is never reached.
 */
module Iteration {
  import opened Bits
  import opened Chains
  import opened ChainedMap
  import opened Sequences

  /** What a whole iteration returns: every bucket but the last, then the head of the last. */
  function Order<T>(chains: seq<seq<T>>): seq<T> {
    if chains == [] then []
    else Flatten(chains[..|chains| - 1]) + Capped(chains[|chains| - 1])
  }

  function Capped<T>(chain: seq<T>): seq<T> {
    if chain == [] then [] else chain[..1]
  }

  /** The iterator stands on entry j of bucket b, having returned everything up to it. */
  ghost predicate Standing<T>(chains: seq<seq<T>>, idx: nat, b: nat, j: nat, seen: seq<T>) {
    b < idx <= |chains| && j < |chains[b]| &&
    seen == Flatten(chains[..b]) + chains[b][..j + 1] &&
    (b + 1 == |chains| ==> j == 0) &&
    (b + 1 < idx ==> j + 1 == |chains[b]| && forall i :: b < i < idx ==> chains[i] == [])
  }

  /** The iterator has returned nothing yet. */
  ghost predicate Starting<T>(chains: seq<seq<T>>, idx: nat, seen: seq<T>) {
    idx <= |chains| && seen == [] && forall i :: 0 <= i < idx ==> chains[i] == []
  }

  /** Where the iterator is: before the first entry, or on one. */
  ghost predicate At<T>(chains: seq<seq<T>>, idx: nat, started: bool, b: nat, j: nat, seen: seq<T>) {
    if started then Standing(chains, idx, b, j, seen) else Starting(chains, idx, seen)
  }

  // ----- the path -----

  lemma FlattenNext<T>(chains: seq<seq<T>>, b: nat)
    requires b < |chains|
    ensures Flatten(chains[..b + 1]) == Flatten(chains[..b]) + chains[b]
  {
    assert chains[..b + 1][..b] == chains[..b];
  }

  /** Empty buckets add nothing. */
  lemma {:induction false} FlattenEmpty<T>(chains: seq<seq<T>>, b: nat, n: nat)
    requires b <= n <= |chains| && forall i :: b <= i < n ==> chains[i] == []
    ensures Flatten(chains[..n]) == Flatten(chains[..b])
    decreases n
  {
    if b < n {
      FlattenNext(chains, n - 1);
      FlattenEmpty(chains, b, n - 1);
    }
  }

  lemma {:induction false} FlattenPrefix<T>(chains: seq<seq<T>>, b: nat, n: nat)
    requires b <= n <= |chains|
    ensures Flatten(chains[..b]) <= Flatten(chains[..n])
    decreases n
  {
    if b < n {
      FlattenNext(chains, n - 1);
      FlattenPrefix(chains, b, n - 1);
    }
  }

  /** Starting: an empty bucket is skipped, a non-empty one is entered at its head. */
  lemma StartStep<T>(chains: seq<seq<T>>, idx: nat, seen: seq<T>)
    requires Starting(chains, idx, seen) && idx < |chains|
    ensures if chains[idx] == [] then Starting(chains, idx + 1, seen)
            else Standing(chains, idx + 1, idx, 0, seen + [chains[idx][0]])
  {
    if chains[idx] != [] {
      FlattenEmpty(chains, 0, idx);
      assert chains[idx][..1] == [chains[idx][0]];
    }
  }

  /** At the end of a chain: an empty bucket is skipped, a non-empty one is entered at its head. */
  lemma BucketStep<T>(chains: seq<seq<T>>, idx: nat, b: nat, j: nat, seen: seq<T>)
    requires Standing(chains, idx, b, j, seen) && idx < |chains| && j + 1 == |chains[b]|
    ensures if chains[idx] == [] then Standing(chains, idx + 1, b, j, seen)
            else Standing(chains, idx + 1, idx, 0, seen + [chains[idx][0]])
  {
    if chains[idx] != [] {
      FlattenNext(chains, b);
      FlattenEmpty(chains, b + 1, idx);
      assert chains[b][..j + 1] == chains[b];
      assert chains[idx][..1] == [chains[idx][0]];
    }
  }

  /** Not inside a chain: the next bucket is skipped if empty, entered at its head if not. */
  lemma EndStep<T>(chains: seq<seq<T>>, idx: nat, started: bool, b: nat, j: nat, seen: seq<T>)
    requires At(chains, idx, started, b, j, seen) && idx < |chains|
    requires started ==> b < |chains| && j + 1 == |chains[b]|
    ensures chains[idx] == [] ==> At(chains, idx + 1, started, b, j, seen)
    ensures chains[idx] != [] ==> At(chains, idx + 1, true, idx, 0, seen + [chains[idx][0]]) &&
                                  seen + [chains[idx][0]] <= Order(chains)
  {
    if started {
      BucketStep(chains, idx, b, j, seen);
    } else {
      StartStep(chains, idx, seen);
    }
    if chains[idx] != [] {
      SeenIsPrefix(chains, idx + 1, idx, 0, seen + [chains[idx][0]]);
    }
  }

  /** Inside a chain, with buckets still to come: the next entry of the chain. */
  lemma ChainStep<T>(chains: seq<seq<T>>, idx: nat, b: nat, j: nat, seen: seq<T>)
    requires At(chains, idx, true, b, j, seen) && idx < |chains| && b < |chains| && j + 1 < |chains[b]|
    ensures At(chains, idx, true, b, j + 1, seen + [chains[b][j + 1]])
    ensures seen + [chains[b][j + 1]] <= Order(chains)
  {
    assert chains[b][..j + 2] == chains[b][..j + 1] + [chains[b][j + 1]];
    SeenIsPrefix(chains, idx, b, j + 1, seen + [chains[b][j + 1]]);
  }

  /** Wherever the iterator stands, what it has returned is the beginning of the order. */
  lemma SeenIsPrefix<T>(chains: seq<seq<T>>, idx: nat, b: nat, j: nat, seen: seq<T>)
    requires Standing(chains, idx, b, j, seen)
    ensures seen <= Order(chains)
  {
    var n := |chains|;
    if b + 1 < n {
      FlattenNext(chains, b);
      FlattenPrefix(chains, b + 1, n - 1);
      assert seen <= Flatten(chains[..b + 1]);
    }
  }

  /** Out of buckets, the whole order has been returned. */
  lemma SeenIsAll<T>(chains: seq<seq<T>>, started: bool, b: nat, j: nat, seen: seq<T>)
    requires At(chains, |chains|, started, b, j, seen)
    ensures seen == Order(chains)
  {
    var n := |chains|;
    if !started {
      if n > 0 {
        FlattenEmpty(chains, 0, n - 1);
      }
    } else if b + 1 < n {
      FlattenNext(chains, b);
      FlattenEmpty(chains, b + 1, n - 1);
      assert chains[b][..j + 1] == chains[b];
    }
  }

  // ----- what a whole iteration covers -----

  lemma {:induction false} InFlatten<T>(chains: seq<seq<T>>, x: T)
    ensures x in Flatten(chains) <==> exists i :: 0 <= i < |chains| && x in chains[i]
  {
    if chains != [] {
      var n := |chains| - 1;
      InFlatten(chains[..n], x);
      if i :| 0 <= i < |chains| && x in chains[i] {
        assert i < n ==> x in chains[..n][i];
      }
      if i :| 0 <= i < n && x in chains[..n][i] {
        assert x in chains[i];
      }
    }
  }

  /** No entry is in two places: chains are distinct and disjoint. */
  ghost predicate Unrepeated<T>(chains: seq<seq<T>>) {
    (forall i :: 0 <= i < |chains| ==> Distinct(chains[i])) &&
    (forall i, k, x :: 0 <= i < k < |chains| && x in chains[i] ==> x !in chains[k])
  }

  /** What the earlier buckets hold is not in the last one. */
  lemma EarlierApart<T>(chains: seq<seq<T>>, x: T)
    requires chains != [] && Unrepeated(chains)
    ensures x in Flatten(chains[..|chains| - 1]) ==> x !in chains[|chains| - 1]
  {
    var n := |chains| - 1;
    var earlier := chains[..n];
    InFlatten(earlier, x);
    assert forall i :: 0 <= i < n ==> earlier[i] == chains[i];
  }

  lemma EarlierPart<T>(chains: seq<seq<T>>)
    requires chains != [] && Unrepeated(chains)
    ensures Unrepeated(chains[..|chains| - 1]) && Distinct(chains[|chains| - 1])
  {
  }

  lemma DistinctEmpty<T>()
    ensures Distinct<T>([])
  {
  }

  lemma DistinctConcat<T>(a: seq<T>, b: seq<T>)
    requires Distinct(a) && Distinct(b) && forall x :: x in a ==> x !in b
    ensures Distinct(a + b)
  {
    forall j, k | 0 <= j < k < |a + b| ensures (a + b)[j] != (a + b)[k] {
      if j < |a| <= k {
        assert a[j] in a && b[k - |a|] in b;
      }
    }
  }

  /** No entry is there twice. */
  lemma {:induction false} FlattenDistinct<T>(chains: seq<seq<T>>)
    requires Unrepeated(chains)
    ensures Distinct(Flatten(chains))
  {
    hide Distinct, Unrepeated;
    if chains == [] {
      DistinctEmpty<T>();
    } else {
      var n := |chains| - 1;
      forall x | x in Flatten(chains[..n]) ensures x !in chains[n] {
        EarlierApart(chains, x);
      }
      EarlierPart(chains);
      FlattenDistinct(chains[..n]);
      DistinctConcat(Flatten(chains[..n]), chains[n]);
    }
  }

  /** What is returned is the beginning of all there is. */
  lemma OrderWithin<T>(chains: seq<seq<T>>)
    ensures Order(chains) <= Flatten(chains)
    ensures forall x :: x in Order(chains) ==> x in Flatten(chains)
  {
  }

  /** Nothing is returned twice. */
  lemma OrderDistinct<T>(chains: seq<seq<T>>)
    requires Unrepeated(chains)
    ensures Distinct(Order(chains))
  {
    FlattenDistinct(chains);
    OrderWithin(chains);
  }

  /** A whole iteration covers every entry exactly when the last bucket holds at most one. */
  lemma CoversAllIff<T>(chains: seq<seq<T>>)
    requires chains != [] && Unrepeated(chains)
    ensures (forall x :: x in Flatten(chains) ==> x in Order(chains)) <==> |chains[|chains| - 1]| <= 1
  {
    var n := |chains| - 1;
    var earlier, last := Flatten(chains[..n]), chains[n];
    assert Flatten(chains) == earlier + last && Order(chains) == earlier + Capped(last);
    if |last| <= 1 {
      assert Capped(last) == last;
    } else {
      LastTail(chains);
      assert last[1] in last;
      assert last[1] in Flatten(chains) && last[1] !in Order(chains);
    }
  }

  /** The second entry of the last bucket is nowhere else. */
  lemma LastTail<T>(chains: seq<seq<T>>)
    requires chains != [] && Unrepeated(chains) && |chains[|chains| - 1]| > 1
    ensures var last := chains[|chains| - 1];
            last[1] !in Flatten(chains[..|chains| - 1]) && last[1] !in Capped(last)
  {
    var last := chains[|chains| - 1];
    assert last[1] in last && Distinct(last);
    EarlierApart(chains, last[1]);
  }

  // ----- a map's own chains -----

  /** In a map no entry is in two places. */
  lemma MapUnrepeated<K, V>(hm: HashMap<K, V>)
    requires hm.Valid()
    ensures hm.table.chains != [] && Unrepeated(hm.table.chains)
  {
  }

  /** The entries of the keys are what the chains hold. */
  lemma KeysInFlatten<K, V>(t: Table<K, V>)
    ensures forall k :: k in t.loc ==> t.loc[k] in Flatten(t.chains)
    ensures forall e :: e in Flatten(t.chains) ==> e in t.owned && e.key in t.loc && t.loc[e.key] == e
  {
    forall k | k in t.loc ensures t.loc[k] in Flatten(t.chains) {
      InFlatten(t.chains, t.loc[k]);
    }
    forall e | e in Flatten(t.chains) ensures e in t.owned && e.key in t.loc && t.loc[e.key] == e {
      InFlatten(t.chains, e);
      var i :| 0 <= i < |t.chains| && e in t.chains[i];
      var j :| 0 <= j < |t.chains[i]| && t.chains[i][j] == e;
    }
  }

  /**
   A whole iteration of a map returns entries of the map, none of them twice, and it returns them all
   exactly when the last bucket holds at most one.
   */
  lemma IterationCovers<K, V>(hm: HashMap<K, V>)
    requires hm.Valid()
    ensures hm.table.chains != [] && Distinct(Order(hm.table.chains))
    ensures forall e :: e in Order(hm.table.chains) ==> e.key in hm.table.loc && hm.table.loc[e.key] == e
    ensures (forall k :: k in hm.table.loc ==> hm.table.loc[k] in Order(hm.table.chains))
            <==> |hm.table.chains[|hm.table.chains| - 1]| <= 1
  {
    hide HashMap.Valid, Buckets.Indexed, Unrepeated, Distinct;
    var chains := hm.table.chains;
    MapUnrepeated(hm);
    OrderDistinct(chains);
    KeysInFlatten(hm.table);
    OrderWithin(chains);
    CoversAllIff(chains);
    if !(|chains[|chains| - 1]| <= 1) {
      var e :| e in Flatten(chains) && e !in Order(chains);
      assert hm.table.loc[e.key] == e;
    }
  }

  /** A hash with all bits set selects the last bucket, at any capacity. */
  lemma AllOnesIsLast(capacity: nat)
    requires IsPowerOfTwo(capacity) && capacity <= MAX_CAPACITY
    ensures BitAnd(0xFFFF_FFFF, capacity - 1) == capacity - 1
  {
    LargestPower();
    DoublePower(0x8000_0000);
    AllOnes(0xFFFF_FFFF, capacity);
  }

  /** Two keys in a new map, both hashing to all ones. */
  method TwoKeys() returns (hm: HashMap<int, int>)
    ensures fresh(hm) && hm.Valid() && hm.Contents() == map[1 := 10, 2 := 20]
    ensures hm.hashFn(1) == hm.hashFn(2) == 0xFFFF_FFFF
  {
    hide HashMap.Valid, HashMap.Sized, HashMap.Contents, Buckets.Contents, Heads, Buckets.Indexed;
    hide IsPowerOfTwo, BitAnd, TotalLength;
    hm := new HashMap<int, int>((k: int) => 0xFFFF_FFFF);
    hm.Load();
    var _ := hm.Add(1, 10);
    hm.Load();
    var _ := hm.Add(2, 20);
  }

  /** Two additions are enough to lose an entry: both keys are in the last bucket, and one of them is not returned. */
  method LoseAnEntry() returns (hm: HashMap<int, int>, ghost lost: int)
    ensures fresh(hm) && hm.Valid() && hm.Contents() == map[1 := 10, 2 := 20]
    ensures lost in hm.table.loc && hm.table.loc[lost] !in Order(hm.table.chains)
  {
    hide HashMap.Valid, Buckets.Indexed, Order;
    hm := TwoKeys();
    TwoInLast(hm);
    lost := SomeEntryLost(hm);
  }

  lemma SomeEntryLost<K, V>(hm: HashMap<K, V>) returns (lost: K)
    requires hm.Valid() && hm.table.chains != [] && |hm.table.chains[|hm.table.chains| - 1]| >= 2
    ensures lost in hm.table.loc && hm.table.loc[lost] !in Order(hm.table.chains)
  {
    hide HashMap.Valid, Buckets.Indexed, Order;
    IterationCovers(hm);
    lost :| lost in hm.table.loc && hm.table.loc[lost] !in Order(hm.table.chains);
  }

  /** Two keys with one place share its bucket. */
  lemma SharedBucket<K, V>(t: Table<K, V>, a: K, b: K)
    requires a in t.loc && b in t.loc && a != b && t.Place(a) == t.Place(b)
    ensures t.Place(a) < |t.chains| && |t.chains[t.Place(a)]| >= 2
  {
    hide BitAnd;
    var chain := t.chains[t.Place(a)];
    assert t.loc[a] in chain && t.loc[b] in chain;
    assert t.loc[a].key == a && t.loc[b].key == b;
  }

  /** Two keys whose hashes have all bits set are in the last bucket. */
  lemma TwoInLast(hm: HashMap<int, int>)
    requires hm.Valid() && 1 in hm.Contents() && 2 in hm.Contents()
    requires hm.hashFn(1) == hm.hashFn(2) == 0xFFFF_FFFF
    ensures hm.table.chains != [] && |hm.table.chains[|hm.table.chains| - 1]| >= 2
  {
    hide Heads, BitAnd, IsPowerOfTwo, Buckets.Indexed;
    AllOnesIsLast(hm.capacity);
    SharedBucket(hm.table, 1, 2);
    EveryBucket(hm.table);
  }

  lemma EveryBucket<K, V>(t: Table<K, V>)
    ensures |t.chains| == t.mask + 1
  {
  }

  class HashMapIterator<K(==), V> {
    const hm: HashMap<K, V>
    var idx: nat
    var cur: Entry?<K, V>
    ghost var seen: seq<Entry<K, V>>
    ghost var b: nat
    ghost var j: nat

    /** The map is as it was when the iteration began, and the iterator is on its path through it. */
    ghost predicate Valid()
      reads this, hm, hm.entries, hm.table.owned`next
    {
      hm.Valid() && At(hm.table.chains, idx, cur != null, b, j, seen) &&
      (cur != null ==> b < |hm.table.chains| && j < |hm.table.chains[b]| && cur == hm.table.chains[b][j])
    }

    /** hmapIteratorCreate */
    constructor (hm: HashMap<K, V>)
      requires hm.Valid()
      ensures Valid() && this.hm == hm && seen == []
    {
      this.hm := hm;
      idx, cur, seen := 0, null, [];
    }

    /** The iterator's view of the array: the next bucket's head and the next entry of its chain. */
    lemma View()
      requires Valid()
      ensures |hm.table.chains| == hm.capacity <= hm.entries.Length && idx <= hm.capacity
      ensures idx < hm.capacity ==> hm.entries[idx] == HeadOf(hm.table.chains[idx])
      ensures cur != null ==> cur.next == if j + 1 < |hm.table.chains[b]| then hm.table.chains[b][j + 1] else null
    {
    }

    /** hmapIteratorGetNext: returns the next entry of `Order`, and HM_ERR exactly when there is none. */
    method GetNext() returns (status: int)
      requires Valid()
      modifies this
      ensures Valid() && status in {HM_OK, HM_ERR}
      ensures status == HM_OK ==> cur != null && seen == old(seen) + [cur] && seen <= Order(hm.table.chains)
      ensures status == HM_ERR ==> seen == old(seen) == Order(hm.table.chains)
    {
      hide At, Standing, Starting, Flatten, Capped, Order, Distinct;
      hide HashMap.Valid, HashMap.Sized, HashMap.Contents, Heads, Linked, Buckets.Indexed;
      ghost var chains := hm.table.chains;
      View();
      while idx < hm.capacity
        invariant Valid() && seen == old(seen)
        decreases hm.capacity - idx
      {
        View();
        if cur == null || cur.next == null {
          var i := idx;
          EndStep(chains, idx, cur != null, b, j, seen);
          idx := idx + 1;
          if hm.entries[i] != null {
            cur := hm.entries[i];
            b, j, seen := i, 0, seen + [cur];
            return HM_OK;
          }
        } else {
          ChainStep(chains, idx, b, j, seen);
          cur := cur.next;
          j, seen := j + 1, seen + [cur];
          return HM_OK;
        }
      }
      View();
      SeenIsAll(chains, cur != null, b, j, seen);
      return HM_ERR;
    }
  }
}
