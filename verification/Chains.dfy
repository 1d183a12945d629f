/**
 What the hash map's buckets hold, as values: one sequence of entries per bucket. Entries never
 change their key, value or hash, so everything here except the links is independent of the heap.
 */
module Chains {
  import opened Bytes
  import opened Bits
  import opened Sequences

  class Entry<K, V> {
    const key: K
    const value: V
    const hash: uint32
    var next: Entry?<K, V>

    constructor (key: K, value: V, hash: uint32, next: Entry?<K, V>)
      ensures this.key == key && this.value == value && this.hash == hash && this.next == next
    {
      this.key, this.value, this.hash, this.next := key, value, hash, next;
    }
  }

  // ----- links -----

  ghost function HeadOf<K, V>(chain: seq<Entry<K, V>>): Entry?<K, V> {
    if chain == [] then null else chain[0]
  }

  /** Distinct entries, each linked to the next, the last to nothing. */
  ghost predicate Linked<K, V>(chain: seq<Entry<K, V>>)
    reads chain`next
  {
    Distinct(chain) &&
    (forall j {:trigger chain[j].next} :: 0 <= j < |chain| ==>
       chain[j].next == if j + 1 < |chain| then chain[j + 1] else null)
  }

  lemma LinkedTail<K, V>(chain: seq<Entry<K, V>>)
    requires Linked(chain) && chain != []
    ensures Linked(chain[1..]) && HeadOf(chain[1..]) == chain[0].next && chain[0] !in chain[1..]
  {
  }

  /** The bucket array holds the heads of properly linked chains, all within `owned`. */
  ghost predicate Heads<K, V>(entries: seq<Entry?<K, V>>, chains: seq<seq<Entry<K, V>>>, owned: set<Entry<K, V>>)
    reads owned`next
  {
    |chains| <= |entries| &&
    (forall i, j :: 0 <= i < |chains| && 0 <= j < |chains[i]| ==> chains[i][j] in owned) &&
    (forall i :: 0 <= i < |chains| ==> entries[i] == HeadOf(chains[i]) && Linked(chains[i]))
  }

  // ----- contents -----

  function TotalLength<T>(chains: seq<seq<T>>): nat {
    if chains == [] then 0 else |chains[0]| + TotalLength(chains[1..])
  }

  /** Changing one chain changes the total by the difference in length. */
  lemma {:induction false} TotalLengthUpdate<T>(chains: seq<seq<T>>, b: nat, c: seq<T>)
    requires b < |chains|
    ensures TotalLength(chains[b := c]) == TotalLength(chains) - |chains[b]| + |c|
  {
    if b == 0 {
      assert chains[b := c][1..] == chains[1..];
    } else {
      TotalLengthUpdate(chains[1..], b - 1, c);
      assert chains[b := c][1..] == chains[1..][b - 1 := c];
    }
  }

  lemma {:induction false} TotalLengthEmpty<T>(chains: seq<seq<T>>)
    requires forall i :: 0 <= i < |chains| ==> chains[i] == []
    ensures TotalLength(chains) == 0
  {
    if chains != [] {
      TotalLengthEmpty(chains[1..]);
    }
  }

  /** The buckets of a map: their chains, the entries in them, and the entry of each key. */
  datatype Buckets<!K, V> =
    Buckets(chains: seq<seq<Entry<K, V>>>, owned: set<Entry<K, V>>, loc: map<K, Entry<K, V>>, hashFn: K -> uint32, mask: nat)
  {
    /** Every entry is in the one bucket its hash selects, each key has one entry, and nothing else is there. */
    ghost predicate Indexed() {
      |chains| == mask + 1 &&
      (forall i, j :: 0 <= i < |chains| && 0 <= j < |chains[i]| ==>
         chains[i][j] in owned && BitAnd(chains[i][j].hash, mask) == i) &&
      (forall e :: e in owned ==> e.key in loc && loc[e.key] == e) &&
      (forall k {:trigger loc[k]} :: k in loc ==>
         loc[k] in owned && loc[k].key == k && loc[k].hash == hashFn(k) && loc[k] in chains[BitAnd(hashFn(k), mask)]) &&
      |loc| == TotalLength(chains)
    }

    /** The bucket of a key. */
    function Place(k: K): (b: nat)
      ensures b <= mask
    {
      BitAnd(hashFn(k), mask)
    }

    /** The map the entries represent. */
    ghost function Contents(): map<K, V> {
      map k | k in loc :: loc[k].value
    }
  }

  /** Well-formed buckets. */
  type Table<!K, V> = t: Buckets<K, V> | t.Indexed()
    ghost witness EmptyTable((k: K) => 0, 0)

  function EmptyChains<T>(n: nat): (chains: seq<seq<T>>)
    ensures |chains| == n && forall i :: 0 <= i < n ==> chains[i] == []
  {
    seq(n, _ => [])
  }

  ghost function EmptyTable<K, V>(hashFn: K -> uint32, mask: nat): (t: Buckets<K, V>)
    ensures t.Indexed()
  {
    TotalLengthEmpty(EmptyChains<Entry<K, V>>(mask + 1));
    Buckets(EmptyChains(mask + 1), {}, map[], hashFn, mask)
  }

  /** An entry with a new key goes in front of its bucket: the map gains that key, and nothing else changes. */
  ghost function Prepended<K, V>(t: Table<K, V>, e: Entry<K, V>): (r: Table<K, V>)
    requires e.key !in t.loc && e.hash == t.hashFn(e.key)
    ensures r.Contents() == t.Contents()[e.key := e.value] && |r.loc| == |t.loc| + 1
    ensures r.loc == t.loc[e.key := e] && r.owned == t.owned + {e} && e !in t.owned
    ensures r.mask == t.mask && r.hashFn == t.hashFn && |t.chains| == t.mask + 1
    ensures forall i :: 0 <= i < |t.chains| ==> r.chains[i] == (if i == t.Place(e.key) then [e] else []) + t.chains[i]
  {
    PrependIndexed(t, e);
    PrependView(t, e);
    var b := BitAnd(e.hash, t.mask);
    Buckets(t.chains[b := [e] + t.chains[b]], t.owned + {e}, t.loc[e.key := e], t.hashFn, t.mask)
  }

  /** What prepending does to the map and to each chain. */
  lemma PrependView<K, V>(t: Buckets<K, V>, e: Entry<K, V>)
    requires |t.chains| == t.mask + 1 && e.key !in t.loc && e.hash == t.hashFn(e.key)
    ensures var b := BitAnd(e.hash, t.mask);
            var r := Buckets(t.chains[b := [e] + t.chains[b]], t.owned + {e}, t.loc[e.key := e], t.hashFn, t.mask);
            r.Contents() == t.Contents()[e.key := e.value] && |r.loc| == |t.loc| + 1 &&
            forall i :: 0 <= i < |t.chains| ==> r.chains[i] == (if i == t.Place(e.key) then [e] else []) + t.chains[i]
  {
    hide BitAnd;
  }

  lemma PrependedChains<K, V>(t: Table<K, V>, e: Entry<K, V>)
    requires e.key !in t.loc && e.hash == t.hashFn(e.key)
    ensures var b := BitAnd(e.hash, t.mask); b < |t.chains| && Prepended(t, e).chains == t.chains[b := [e] + t.chains[b]]
  {
  }

  lemma PrependIndexed<K, V>(t: Table<K, V>, e: Entry<K, V>)
    requires e.key !in t.loc && e.hash == t.hashFn(e.key)
    ensures var b := BitAnd(e.hash, t.mask);
            Buckets(t.chains[b := [e] + t.chains[b]], t.owned + {e}, t.loc[e.key := e], t.hashFn, t.mask).Indexed()
    ensures |t.chains| == t.mask + 1 && e !in t.owned
  {
    var b := BitAnd(e.hash, t.mask);
    TotalLengthUpdate(t.chains, b, [e] + t.chains[b]);
  }

  /** The entry at position j of bucket b is dropped. */
  ghost function Removed<K, V>(t: Table<K, V>, b: nat, j: nat): (r: Table<K, V>)
    requires b < |t.chains| && j < |t.chains[b]| && Distinct(t.chains[b])
  {
    RemoveIndexed(t, b, j);
    var c := t.chains[b];
    Buckets(t.chains[b := c[..j] + c[j + 1..]], t.owned - {c[j]}, t.loc - {c[j].key}, t.hashFn, t.mask)
  }

  /** Dropping one of distinct elements keeps exactly the others. */
  lemma DropMembers<T>(c: seq<T>, j: nat)
    requires j < |c| && Distinct(c)
    ensures var d := c[..j] + c[j + 1..];
            (forall e :: e in d <==> e in c && e != c[j]) && Distinct(d)
  {
  }

  lemma RemovedSize<K, V>(m: map<K, V>, k: K)
    requires k in m
    ensures |m - {k}| == |m| - 1
  {
  }

  /** Without x, every remaining entry is where it was. */
  lemma RemovedPlaces<K, V>(t: Table<K, V>, b: nat, d: seq<Entry<K, V>>, x: Entry<K, V>)
    requires b < |t.chains| && x in t.chains[b]
    requires forall e :: e in d <==> e in t.chains[b] && e != x
    ensures var chains := t.chains[b := d];
            forall i, y :: 0 <= i < |chains| && 0 <= y < |chains[i]| ==>
              chains[i][y] in t.owned && chains[i][y] != x && BitAnd(chains[i][y].hash, t.mask) == i
  {
    var chains := t.chains[b := d];
    var z :| 0 <= z < |t.chains[b]| && t.chains[b][z] == x;
    forall i, y | 0 <= i < |chains| && 0 <= y < |chains[i]|
      ensures chains[i][y] in t.owned && chains[i][y] != x && BitAnd(chains[i][y].hash, t.mask) == i
    {
      assert chains[i][y] in chains[i];
      var w :| 0 <= w < |t.chains[i]| && t.chains[i][w] == chains[i][y];
    }
  }

  /** Without x, every other key still finds its entry in its bucket. */
  lemma RemovedFound<K, V>(t: Table<K, V>, b: nat, d: seq<Entry<K, V>>, x: Entry<K, V>, k: K)
    requires b < |t.chains| && x in t.owned
    requires forall e :: e in d <==> e in t.chains[b] && e != x
    requires k in t.loc && k != x.key
    ensures t.loc[k] != x && t.loc[k] in t.chains[b := d][BitAnd(t.hashFn(k), t.mask)]
  {
  }

  lemma RemoveIndexed<K, V>(t: Table<K, V>, b: nat, j: nat)
    requires b < |t.chains| && j < |t.chains[b]| && Distinct(t.chains[b])
    ensures var c := t.chains[b];
            Buckets(t.chains[b := c[..j] + c[j + 1..]], t.owned - {c[j]}, t.loc - {c[j].key}, t.hashFn, t.mask).Indexed()
  {
    var c := t.chains[b];
    var d, x := c[..j] + c[j + 1..], c[j];
    TotalLengthUpdate(t.chains, b, d);
    DropMembers(c, j);
    RemovedPlaces(t, b, d, x);
    RemovedSize(t.loc, x.key);
    forall k | k in t.loc && k != x.key
      ensures t.loc[k] != x && t.loc[k] in t.chains[b := d][BitAnd(t.hashFn(k), t.mask)]
    {
      RemovedFound(t, b, d, x, k);
    }
  }
}
