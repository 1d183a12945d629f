/**
 The chained hash map with doubling rehash (hmap.c), proved to behave as the plain map
 `table.Contents()`. `adds` and `moves` count successful additions and entries moved by rehashes.
 */
module ChainedMap {
  import opened Bytes
  import opened Bits
  import opened Chains
  import opened Sequences

  const MIN_CAPACITY: nat := 0x1_0000
  const MAX_CAPACITY: nat := 0x8000_0000

  const HM_ERR := 0
  const HM_OK := 1
  const HM_FOUND := -2
  const HM_NOT_FOUND := -3

  /** HM_LOAD * capacity, rounded down. */
  function Threshold(capacity: nat): nat {
    67 * capacity / 100
  }

  /** The greatest load that is no more than 67 in 100. */
  lemma ThresholdMeans(capacity: nat)
    ensures 100 * Threshold(capacity) <= 67 * capacity < 100 * (Threshold(capacity) + 1)
  {
  }

  class HashMap<K(==), V> {
    const hashFn: K -> uint32
    const fixedSize: bool
    var size: nat
    var capacity: nat
    var mask: nat
    var rebuildThreshold: nat
    var entries: array<Entry?<K, V>>
    ghost var table: Table<K, V>
    ghost var adds: nat
    ghost var moves: nat

    ghost predicate Valid()
      reads this, entries, table.owned`next
    {
      Sized() && table.hashFn == hashFn && table.mask == mask && size == |table.loc| &&
      capacity <= entries.Length && (!fixedSize ==> capacity == entries.Length) &&
      Heads(entries[..], table.chains, table.owned)
    }

    /** The numbers: capacity, mask, threshold, load and accounting. */
    ghost predicate Sized()
      reads this
    {
      IsPowerOfTwo(capacity) && capacity <= MAX_CAPACITY &&
      mask == capacity - 1 && rebuildThreshold == Threshold(capacity) && size <= adds &&
      (!fixedSize ==> size <= rebuildThreshold && Amortised(capacity, adds, moves))
    }

    /** The map this object stands for. */
    ghost function Contents(): map<K, V>
      reads this
    {
      table.Contents()
    }

    /** The objects this map is made of. */
    ghost function Repr(): set<object>
      reads this
    {
      {this, entries} + table.owned
    }

    /** hmapCreate, hmapCreateWithType */
    constructor (hashFn: K -> uint32)
      ensures Valid() && fresh(entries) && table == EmptyTable(hashFn, MIN_CAPACITY - 1) && Contents() == map[]
      ensures this.hashFn == hashFn && !fixedSize && adds == moves == 0 && Repr() == {this, entries}
      ensures capacity == entries.Length == 65536
    {
      hide Linked, Heads, Buckets.Indexed, BitAnd, TotalLength, EmptyTable, OneBit, IsPowerOfTwo;
      this.hashFn := hashFn;
      fixedSize := false;
      size, capacity, mask, rebuildThreshold := 0, MIN_CAPACITY, MIN_CAPACITY - 1, Threshold(MIN_CAPACITY);
      entries := new Entry?<K, V>[MIN_CAPACITY](_ => null);
      table := EmptyTable(hashFn, MIN_CAPACITY - 1);
      adds, moves := 0, 0;
      PowersOfTwo();
      new;
      EmptyHeads<K, V>(entries[..], hashFn, MIN_CAPACITY - 1);
    }

    /** hmapCreateFixed: the capacity is rounded up to a power of two, the array always has the minimum length. */
    constructor Fixed(hashFn: K -> uint32, wanted: bv32)
      requires 0 < wanted <= 0x1_0000
      ensures Valid() && fresh(entries) && Contents() == map[]
      ensures this.hashFn == hashFn && fixedSize && wanted as nat <= capacity <= entries.Length == 65536
      ensures exists c: bv32 :: OneBit(c) && c as nat == capacity && c >= wanted && (c >> 1) < wanted
    {
      hide Linked, Heads, Buckets.Indexed, BitAnd, TotalLength, EmptyTable, OneBit, IsPowerOfTwo;
      var rounded := RoundUp32(wanted);
      RoundedCapacity(wanted, rounded);
      var n := rounded as nat;
      this.hashFn := hashFn;
      fixedSize := true;
      size, capacity, mask, rebuildThreshold := 0, n, n - 1, Threshold(n);
      entries := new Entry?<K, V>[MIN_CAPACITY](_ => null);
      table := EmptyTable(hashFn, n - 1);
      adds, moves := 0, 0;
      new;
      EmptyHeads<K, V>(entries[..], hashFn, n - 1);
    }

    /** _hmapShouldRebuild */
    predicate ShouldRebuild()
      reads this
    {
      size >= rebuildThreshold && !fixedSize
    }

    /** The 32-bit capacity can still be doubled when it has to be. */
    predicate CanGrow()
      reads this
    {
      ShouldRebuild() ==> capacity < MAX_CAPACITY
    }

    /** What every reachable map satisfies: its load, the cost of its rehashes, and how long it can grow. */
    lemma Load()
      requires Valid()
      ensures IsPowerOfTwo(capacity) && size == |Contents()| == TotalLength(table.chains)
      ensures !fixedSize ==> 100 * size <= 67 * capacity && moves <= 2 * adds
      ensures !fixedSize && adds < 719_407_022 ==> CanGrow()
    {
      assert Contents().Keys == table.loc.Keys;
      assert |Contents().Keys| == |table.loc.Keys|;
    }

    /** What callers need of `Load`. */
    lemma Room()
      requires Valid() && !fixedSize && adds < 719_407_022
      ensures CanGrow()
    {
      Load();
    }

    /** It grows when one more entry would be more than 67 in 100, and can as long as the capacity is below 2^31. */
    lemma GrowsWhen()
      requires Valid()
      ensures ShouldRebuild() <==> !fixedSize && 100 * (size + 1) > 67 * capacity
      ensures CanGrow() <==> !ShouldRebuild() || capacity < 0x8000_0000
    {
      ThresholdMeans(capacity);
    }

    /** Where every entry is: in the bucket of its key's hash modulo the capacity, and in no other. */
    lemma BucketOf(e: Entry<K, V>, b: nat)
      requires Valid() && b < capacity
      ensures |table.chains| == capacity && b < |table.chains|
      ensures e in table.chains[b] <==> e in table.owned && hashFn(e.key) % capacity == b
      ensures e in table.owned <==> e.key in table.loc && table.loc[e.key] == e
      ensures e in table.owned ==> e.hash == hashFn(e.key) && e.key in Contents() && Contents()[e.key] == e.value
    {
      hide Heads, Amortised;
      MaskIsRemainder(e.hash, capacity);
      if e.key in table.loc {
        MaskIsRemainder(hashFn(e.key), capacity);
      }
    }

    /** _hmapExpand: rebuckets every entry into an array twice the size. */
    method Expand()
      requires Valid() && ShouldRebuild() && capacity < MAX_CAPACITY
      modifies this`entries, this`mask, this`capacity, this`rebuildThreshold, this`table, this`moves, table.owned`next
      ensures Valid() && fresh(entries) && size < rebuildThreshold
      ensures capacity == 2 * old(capacity) && moves == old(moves) + size
      ensures table.loc == old(table.loc) && table.owned == old(table.owned)
    {
      hide Heads, Amortised, IsPowerOfTwo, Buckets.Indexed, BitAnd;
      AmortisedStep(capacity, size, adds, moves);
      DoubledCapacity(capacity);
      var newEntries, t' := Rebucket(entries, capacity, size, table);
      entries := newEntries;
      mask := 2 * capacity - 1;
      capacity := 2 * capacity;
      rebuildThreshold := Threshold(capacity);
      table, moves := t', moves + size;
    }

    /**
     _hmapGetIndex: grows first if it has to, then looks. The caller gets HM_FOUND, or the bucket
     where the key belongs in the possibly larger map.
     */
    method GetIndex(key: K, hash: uint32) returns (idx: int)
      requires Valid() && CanGrow() && hash == hashFn(key)
      modifies this`entries, this`mask, this`capacity, this`rebuildThreshold, this`table, this`moves, table.owned`next
      ensures Valid() && !ShouldRebuild()
      ensures table.loc == old(table.loc) && table.owned == old(table.owned)
      ensures key in table.loc ==> idx == HM_FOUND
      ensures key !in table.loc ==> 0 <= idx < capacity && idx == table.Place(key)
      ensures entries == old(entries) || fresh(entries)
      ensures if old(ShouldRebuild()) then capacity == 2 * old(capacity) && moves == old(moves) + size
              else capacity == old(capacity) && moves == old(moves)
    {
      hide Heads, Amortised, IsPowerOfTwo, Buckets.Indexed, BitAnd;
      if ShouldRebuild() {
        Expand();
      }
      idx := BitAnd(hash, mask);
      var he := Search(entries, idx, key, hash, table);
      if he != null {
        return HM_FOUND;
      }
    }

    /** hmapGetEntry */
    method GetEntry(key: K) returns (he: Entry?<K, V>)
      requires Valid()
      ensures key !in table.loc ==> he == null
      ensures key in table.loc ==> he == table.loc[key]
    {
      hide Heads, Amortised, IsPowerOfTwo, Buckets.Indexed, BitAnd;
      var hash := hashFn(key);
      he := Search(entries, BitAnd(hash, mask), key, hash, table);
    }

    /** hmapContains: may grow the array, never the map. */
    method Contains(key: K) returns (status: int)
      requires Valid() && CanGrow()
      modifies this`entries, this`mask, this`capacity, this`rebuildThreshold, this`table, this`moves, table.owned`next
      ensures Valid() && Contents() == old(Contents()) && table.owned == old(table.owned)
      ensures status == if key in old(Contents()) then HM_FOUND else HM_NOT_FOUND
      ensures entries == old(entries) || fresh(entries)
    {
      hide Heads, Amortised, IsPowerOfTwo, Buckets.Indexed, BitAnd;
      var idx := GetIndex(key, hashFn(key));
      status := if idx == HM_FOUND then HM_FOUND else HM_NOT_FOUND;
    }

    /** hmapAdd: an existing key keeps its value. */
    method Add(key: K, value: V) returns (status: int)
      requires Valid() && CanGrow()
      modifies this, entries, table.owned`next
      ensures Valid() && (entries == old(entries) || fresh(entries))
      ensures key in old(Contents()) ==> status == HM_FOUND && Contents() == old(Contents()) && adds == old(adds)
      ensures key !in old(Contents()) ==> status == HM_OK && Contents() == old(Contents())[key := value] && adds == old(adds) + 1
      ensures fresh(Repr() - old(Repr()))
    {
      hide Heads, Amortised, IsPowerOfTwo, Buckets.Indexed, BitAnd, Prepended;
      var hash := hashFn(key);
      var idx := GetIndex(key, hash);
      if idx == HM_FOUND {
        return HM_FOUND;
      }
      var newHe := new Entry(key, value, hash, null);
      PrependedChains(table, newHe);
      LinkFirst(entries, idx, newHe, table.chains, table.owned);
      Record(Prepended(table, newHe));
      status := HM_OK;
    }

    /** The last step of hmapAdd: one more entry. */
    method Record(ghost t: Table<K, V>)
      requires Sized() && !ShouldRebuild() && size == |table.loc|
      requires capacity <= entries.Length && (!fixedSize ==> capacity == entries.Length)
      requires t.hashFn == hashFn && t.mask == mask && |t.loc| == size + 1 && Heads(entries[..], t.chains, t.owned)
      modifies this`size, this`table, this`adds
      ensures Valid() && table == t && adds == old(adds) + 1
    {
      hide Heads, IsPowerOfTwo, Buckets.Indexed;
      size, adds, table := size + 1, adds + 1, t;
    }

    /** hmapDelete: the entry is unlinked and handed to the caller. */
    method Delete(key: K) returns (he: Entry?<K, V>)
      requires Valid()
      modifies this`size, this`table, entries, table.owned`next
      ensures Valid()
      ensures key !in old(Contents()) ==> he == null && Contents() == old(Contents())
      ensures key in old(Contents()) ==> he == old(table.loc)[key] && Contents() == old(Contents()) - {key}
      ensures table.owned == if he == null then old(table.owned) else old(table.owned) - {he}
    {
      hide Heads, Amortised, IsPowerOfTwo, Buckets.Indexed, BitAnd, Removed;
      ghost var j;
      he, j := Unlink(entries, BitAnd(hashFn(key), mask), key, hashFn(key), table);
      if he != null {
        RemovedFacts(table, table.Place(key), j, key);
        table := Removed(table, table.Place(key), j);
        size := size - 1;
      }
    }
  }

  /** A fixed map's capacity: the power of two the rounding finds. */
  lemma RoundedCapacity(wanted: bv32, rounded: bv32)
    requires 0 < wanted <= 0x1_0000 && OneBit(rounded) && rounded >= wanted && (rounded >> 1) < wanted
    ensures IsPowerOfTwo(rounded as nat) && wanted as nat <= rounded as nat <= MIN_CAPACITY
  {
    assert rounded <= 0x1_0000;
    OneBitPower(rounded);
  }

  lemma DoubledCapacity(capacity: nat)
    requires IsPowerOfTwo(capacity) && capacity < MAX_CAPACITY
    ensures IsPowerOfTwo(2 * capacity) && 2 * capacity <= MAX_CAPACITY
  {
    LargestPower();
    PowerGap(capacity, MAX_CAPACITY);
    DoublePower(capacity);
  }

  lemma EmptyHeads<K, V>(entries: seq<Entry?<K, V>>, hashFn: K -> uint32, mask: nat)
    requires mask < |entries| && forall i :: 0 <= i < |entries| ==> entries[i] == null
    ensures var t := EmptyTable<K, V>(hashFn, mask);
            Heads(entries, t.chains, t.owned) && t.loc == map[] && t.hashFn == hashFn && t.mask == mask
    ensures var t := EmptyTable<K, V>(hashFn, mask); t.Contents() == map[] && t.owned == {}
  {
  }

  // ----- chains -----

  /** hmapStrCmp on an entry: hashes are compared before keys. */
  predicate KeyMatches<K(==), V>(key: K, hash: uint32, he: Entry<K, V>) {
    hash == he.hash && key == he.key
  }

  /** A bucket of a well-linked array. */
  lemma BucketAt<K, V>(entries: seq<Entry?<K, V>>, t: Table<K, V>, key: K)
    requires Heads(entries, t.chains, t.owned)
    ensures var b := t.Place(key);
            b < |t.chains| <= |entries| && entries[b] == HeadOf(t.chains[b]) && Linked(t.chains[b]) && Distinct(t.chains[b])
    ensures forall e :: e in t.chains[t.Place(key)] ==> e in t.owned
  {
  }

  /** The search found the key at position j of its bucket, or nowhere in it. */
  lemma SearchResult<K, V>(t: Table<K, V>, key: K, j: nat)
    requires t.Place(key) < |t.chains| && j <= |t.chains[t.Place(key)]|
    requires forall x :: 0 <= x < j ==> t.chains[t.Place(key)][x].key != key
    ensures j == |t.chains[t.Place(key)]| ==> key !in t.loc
    ensures j < |t.chains[t.Place(key)]| && t.chains[t.Place(key)][j].key == key ==>
              key in t.loc && t.loc[key] == t.chains[t.Place(key)][j]
  {
  }

  lemma ChainsApart<K, V>(t: Table<K, V>, b: nat)
    requires b < |t.chains|
    ensures forall i, x :: 0 <= i < |t.chains| && i != b && 0 <= x < |t.chains[i]| ==> t.chains[i][x] !in t.chains[b]
  {
  }

  /** Comparing hashes first never changes the answer. */
  lemma MatchIsKeyEquality<K, V>(t: Table<K, V>, key: K, he: Entry<K, V>)
    requires he in t.owned
    ensures KeyMatches(key, t.hashFn(key), he) <==> he.key == key
  {
  }

  /** The search loop of _hmapGetIndex and hmapGetEntry. */
  method Search<K(==), V>(entries: array<Entry?<K, V>>, idx: nat, key: K, hash: uint32, ghost t: Table<K, V>)
    returns (he: Entry?<K, V>)
    requires Heads(entries[..], t.chains, t.owned) && hash == t.hashFn(key) && idx == t.Place(key) && idx < entries.Length
    ensures key !in t.loc ==> he == null
    ensures key in t.loc ==> he == t.loc[key]
  {
    hide Heads, Distinct, Buckets.Indexed, BitAnd, KeyMatches;
    BucketAt(entries[..], t, key);
    he := entries[idx];
    ghost var j, c := 0, t.chains[idx];
    while he != null
      invariant j <= |c| && he == if j < |c| then c[j] else null
      invariant forall x :: 0 <= x < j ==> c[x].key != key
      decreases |c| - j
    {
      assert he in c;
      MatchIsKeyEquality(t, key, he);
      if KeyMatches(key, hash, he) {
        break;
      }
      he := he.next;
      j := j + 1;
    }
    SearchResult(t, key, j);
  }

  /** The loop of hmapDelete: looks for the key, remembering the entry before it, and unlinks what it finds. */
  method Unlink<K(==), V>(entries: array<Entry?<K, V>>, idx: nat, key: K, hash: uint32, ghost t: Table<K, V>)
    returns (he: Entry?<K, V>, ghost j: nat)
    requires Heads(entries[..], t.chains, t.owned) && hash == t.hashFn(key) && idx == t.Place(key) && idx < entries.Length
    modifies entries, t.owned`next
    ensures he == null ==> key !in t.loc && Heads(entries[..], t.chains, t.owned)
    ensures he != null ==> key in t.loc && he == t.loc[key] && idx < |t.chains| && j < |t.chains[idx]|
    ensures he != null ==> he == t.chains[idx][j] && Distinct(t.chains[idx])
    ensures he != null ==> Heads(entries[..], t.chains[idx := t.chains[idx][..j] + t.chains[idx][j + 1..]], t.owned - {he})
  {
    hide Heads, Distinct, Buckets.Indexed, BitAnd, KeyMatches;
    BucketAt(entries[..], t, key);
    var heprev: Entry?<K, V> := null;
    he := entries[idx];
    j := 0;
    ghost var c := t.chains[idx];
    while he != null
      invariant j <= |c| && he == (if j < |c| then c[j] else null) && heprev == if j == 0 then null else c[j - 1]
      invariant forall x :: 0 <= x < j ==> c[x].key != key
      invariant Heads(entries[..], t.chains, t.owned) && Linked(c)
      decreases |c| - j
    {
      assert he in c;
      MatchIsKeyEquality(t, key, he);
      if KeyMatches(key, hash, he) {
        break;
      }
      heprev := he;
      he := he.next;
      j := j + 1;
    }
    SearchResult(t, key, j);
    if he != null {
      ChainsApart(t, idx);
      Cut(entries, idx, heprev, he, t.chains, t.owned, j);
    }
  }

  /** The two ways hmapDelete unlinks an entry. */
  method Cut<K, V>(entries: array<Entry?<K, V>>, idx: nat, heprev: Entry?<K, V>, he: Entry<K, V>,
                   ghost chains: seq<seq<Entry<K, V>>>, ghost owned: set<Entry<K, V>>, ghost j: nat)
    requires Heads(entries[..], chains, owned) && idx < |chains| && j < |chains[idx]| && he == chains[idx][j]
    requires heprev == if j == 0 then null else chains[idx][j - 1]
    requires forall i, x :: 0 <= i < |chains| && i != idx && 0 <= x < |chains[i]| ==> chains[i][x] !in chains[idx]
    modifies entries, owned`next
    ensures Heads(entries[..], chains[idx := chains[idx][..j] + chains[idx][j + 1..]], owned - {he})
  {
    ghost var chain, rest := chains[idx], chains[idx][..j] + chains[idx][j + 1..];
    assert he.next == if j + 1 < |chain| then chain[j + 1] else null;
    if heprev != null {
      heprev.next := he.next;
    } else {
      entries[idx] := he.next;
    }
    assert Linked(rest);
    assert forall i :: 0 <= i < |chains| && i != idx ==> Linked(chains[i]);
  }

  /** What removal does to the map. */
  lemma RemovedFacts<K, V>(t: Table<K, V>, b: nat, j: nat, key: K)
    requires b < |t.chains| && j < |t.chains[b]| && Distinct(t.chains[b]) && key in t.loc && t.loc[key] == t.chains[b][j]
    ensures var r := Removed(t, b, j);
            r.loc == t.loc - {key} && |r.loc| == |t.loc| - 1 && r.owned == t.owned - {t.loc[key]} &&
            r.mask == t.mask && r.hashFn == t.hashFn &&
            r.chains == t.chains[b := t.chains[b][..j] + t.chains[b][j + 1..]]
  {
  }

  // ----- the rehash -----

  /** The allocation and the loops of _hmapExpand. */
  method Rebucket<K, V>(entries: array<Entry?<K, V>>, capacity: nat, size: nat, ghost t: Table<K, V>)
    returns (newEntries: array<Entry?<K, V>>, ghost t': Table<K, V>)
    requires capacity > 0 && t.mask == capacity - 1 && size == |t.loc| && Heads(entries[..], t.chains, t.owned)
    modifies t.owned`next
    ensures fresh(newEntries) && newEntries.Length == 2 * capacity
    ensures Heads(newEntries[..], t'.chains, t'.owned)
    ensures t'.loc == t.loc && t'.owned == t.owned && t'.hashFn == t.hashFn && t'.mask == 2 * capacity - 1
  {
    hide Linked, Heads, Buckets.Indexed, BitAnd, TotalLength, EmptyTable;
    newEntries := new Entry?<K, V>[2 * capacity](_ => null);
    ghost var empty: Table<K, V> := EmptyTable(t.hashFn, 2 * capacity - 1);
    EmptyHeads<K, V>(newEntries[..], t.hashFn, 2 * capacity - 1);
    NothingMoved(entries[..], t, empty);
    t' := ScanBuckets(entries, newEntries, capacity, 2 * capacity - 1, size, t, empty);
  }

  /** The scan has moved exactly the keys of buckets below i, except those whose entries are still in `rest`. */
  ghost predicate Covers<K, V>(moved: Table<K, V>, t: Table<K, V>, i: nat, rest: seq<Entry<K, V>>) {
    moved.hashFn == t.hashFn &&
    (forall k {:trigger moved.loc[k]} {:trigger k in moved.loc} :: k in moved.loc ==> k in t.loc && moved.loc[k] == t.loc[k]) &&
    (forall k :: k in t.loc ==> (k in moved.loc <==> t.Place(k) < i && t.loc[k] !in rest))
  }

  /** Buckets from i on are still linked as they were. */
  ghost predicate Untouched<K, V>(entries: seq<Entry?<K, V>>, t: Table<K, V>, i: nat)
    reads t.owned`next
  {
    |t.chains| <= |entries| &&
    forall x :: i <= x < |t.chains| ==>
      (forall j :: 0 <= j < |t.chains[x]| ==> t.chains[x][j] in t.owned) &&
      entries[x] == HeadOf(t.chains[x]) && Linked(t.chains[x])
  }

  /** The scan of the old buckets, which stops as soon as `size` entries have moved, wherever it is. */
  method ScanBuckets<K, V>(entries: array<Entry?<K, V>>, newEntries: array<Entry?<K, V>>, capacity: nat, newMask: nat,
                           size: nat, ghost t: Table<K, V>, ghost empty: Table<K, V>)
    returns (ghost moved: Table<K, V>)
    requires entries != newEntries && t.mask == capacity - 1 && size == |t.loc|
    requires Untouched(entries[..], t, 0) && |t.chains| == t.mask + 1 <= entries.Length
    requires Covers(empty, t, 0, []) && Heads(newEntries[..], empty.chains, empty.owned)
    requires empty.loc == map[] && empty.mask == newMask
    modifies newEntries, t.owned`next
    ensures Heads(newEntries[..], moved.chains, moved.owned)
    ensures moved.loc == t.loc && moved.owned == t.owned && moved.hashFn == t.hashFn && moved.mask == newMask
  {
    hide *;
    var left := size;
    moved := empty;
    var i := 0;
    while i < capacity && left > 0
      invariant 0 <= i <= capacity
      invariant Heads(newEntries[..], moved.chains, moved.owned) && moved.mask == newMask
      invariant Covers(moved, t, i, []) && Untouched(entries[..], t, i)
      invariant left == size - |moved.loc|
      modifies newEntries, t.owned`next
    {
      left, moved := MoveChain(entries[i], newEntries, newMask, left, moved, t, i, entries[..]);
      i := i + 1;
    }
    AllCovered(moved, t, i);
  }

  /**
   The inner loop of _hmapExpand: moves the chain at `head`, all of bucket i and
   possibly nothing, into the new buckets.
   */
  method MoveChain<K, V>(head: Entry?<K, V>, newEntries: array<Entry?<K, V>>, newMask: nat, size: nat,
                         ghost before: Table<K, V>, ghost t: Table<K, V>, ghost i: nat, ghost was: seq<Entry?<K, V>>)
    returns (left: int, ghost moved: Table<K, V>)
    requires i < |t.chains| && i < |was| && head == was[i]
    requires Heads(newEntries[..], before.chains, before.owned) && before.mask == newMask
    requires Covers(before, t, i, []) && Untouched(was, t, i)
    modifies newEntries, t.owned`next
    ensures Heads(newEntries[..], moved.chains, moved.owned) && moved.mask == newMask
    ensures Covers(moved, t, i + 1, []) && Untouched(was, t, i + 1)
    ensures size - left == |moved.loc| - |before.loc|
  {
    hide Linked, Heads, Covers, Untouched, Buckets.Indexed, BitAnd, Distinct;
    CoversStart(before, t, i);
    UntouchedNext(was, t, i);
    left, moved := size, before;
    var he := head;
    ghost var rest := t.chains[i];
    while he != null
      invariant he == HeadOf(rest) && Linked(rest)
      invariant forall e :: e in rest ==> e in t.chains[i] && e in t.owned
      invariant Heads(newEntries[..], moved.chains, moved.owned) && moved.mask == newMask
      invariant Covers(moved, t, i + 1, rest) && Untouched(was, t, i + 1)
      invariant size - left == |moved.loc| - |before.loc|
      decreases |rest|
    {
      assert he in rest;
      he, moved := MoveFirst(he, newEntries, newMask, moved, t, i, was, rest);
      left := left - 1;
      rest := rest[1..];
    }
  }

  /** One turn of the inner loop: the first entry of the rest of bucket i moves. */
  method MoveFirst<K, V>(he: Entry<K, V>, newEntries: array<Entry?<K, V>>, newMask: nat,
                         ghost moved: Table<K, V>, ghost t: Table<K, V>, ghost i: nat, ghost was: seq<Entry?<K, V>>,
                         ghost rest: seq<Entry<K, V>>)
    returns (nextHe: Entry?<K, V>, ghost moved': Table<K, V>)
    requires i < |t.chains| && he == HeadOf(rest) && Linked(rest) && rest != []
    requires forall e :: e in rest ==> e in t.chains[i]
    requires Heads(newEntries[..], moved.chains, moved.owned) && moved.mask == newMask
    requires Covers(moved, t, i + 1, rest) && Untouched(was, t, i + 1)
    modifies newEntries, he`next
    ensures nextHe == HeadOf(rest[1..]) && Linked(rest[1..])
    ensures Heads(newEntries[..], moved'.chains, moved'.owned) && moved'.mask == newMask
    ensures Covers(moved', t, i + 1, rest[1..]) && Untouched(was, t, i + 1)
    ensures |moved'.loc| == |moved.loc| + 1
  {
    hide Linked, Heads, Covers, Buckets.Indexed, BitAnd;
    var idx := BitAnd(he.hash, newMask);
    nextHe := he.next;
    LinkedTail(rest);
    CoversStep(moved, t, i, rest);
    ElsewhereUntouched(was, t, i, rest);
    moved' := Prepended(moved, he);
    PrependedChains(moved, he);
    LinkFirst(newEntries, idx, he, moved.chains, moved.owned);
  }

  /** Links `he` in front of a bucket. */
  method LinkFirst<K, V>(entries: array<Entry?<K, V>>, idx: nat, he: Entry<K, V>,
                         ghost chains: seq<seq<Entry<K, V>>>, ghost owned: set<Entry<K, V>>)
    requires Heads(entries[..], chains, owned) && idx < |chains| && he !in owned
    modifies entries, he`next
    ensures Heads(entries[..], chains[idx := [he] + chains[idx]], owned + {he})
  {
    he.next := entries[idx];
    entries[idx] := he;
  }

  lemma NothingMoved<K, V>(entries: seq<Entry?<K, V>>, t: Table<K, V>, empty: Table<K, V>)
    requires Heads(entries, t.chains, t.owned) && empty.loc == map[] && empty.hashFn == t.hashFn
    ensures Covers(empty, t, 0, []) && Untouched(entries, t, 0) && |t.chains| == t.mask + 1 <= |entries|
  {
  }

  lemma UntouchedNext<K, V>(entries: seq<Entry?<K, V>>, t: Table<K, V>, i: nat)
    requires Untouched(entries, t, i) && i < |t.chains|
    ensures Untouched(entries, t, i + 1)
    ensures entries[i] == HeadOf(t.chains[i]) && Linked(t.chains[i])
    ensures forall e :: e in t.chains[i] ==> e in t.owned
  {
  }

  /** An entry of bucket i is in no later bucket. */
  lemma ElsewhereUntouched<K, V>(was: seq<Entry?<K, V>>, t: Table<K, V>, i: nat, rest: seq<Entry<K, V>>)
    requires i < |t.chains| && rest != [] && forall e :: e in rest ==> e in t.chains[i]
    ensures forall x, j :: i < x < |t.chains| && 0 <= j < |t.chains[x]| ==> t.chains[x][j] != rest[0]
  {
    assert rest[0] in rest;
  }

  /** Entering bucket i: nothing of it has moved yet. */
  lemma CoversStart<K, V>(moved: Table<K, V>, t: Table<K, V>, i: nat)
    requires i < |t.chains| && Covers(moved, t, i, [])
    ensures Covers(moved, t, i + 1, t.chains[i])
  {
  }

  /** Moving the first remaining entry of bucket i. */
  lemma CoversStep<K, V>(moved: Table<K, V>, t: Table<K, V>, i: nat, rest: seq<Entry<K, V>>)
    requires i < |t.chains| && Covers(moved, t, i + 1, rest)
    requires rest != [] && forall e :: e in rest ==> e in t.chains[i]
    requires rest[0] !in rest[1..]
    ensures rest[0] in t.owned && rest[0].key !in moved.loc && rest[0].hash == moved.hashFn(rest[0].key)
    ensures Covers(Prepended(moved, rest[0]), t, i + 1, rest[1..])
  {
    assert rest[0] in rest;
    assert forall e :: e in rest <==> e == rest[0] || e in rest[1..];
  }

  /** Once every bucket is scanned, or as many entries as there are have moved, everything has moved. */
  lemma AllCovered<K, V>(moved: Table<K, V>, t: Table<K, V>, i: nat)
    requires Covers(moved, t, i, [])
    requires i == |t.chains| || |moved.loc| >= |t.loc|
    ensures moved.loc == t.loc && moved.owned == t.owned && moved.hashFn == t.hashFn
  {
    assert moved.loc.Keys <= t.loc.Keys;
    if i != |t.chains| {
      SameSizeSubset(moved.loc.Keys, t.loc.Keys);
    }
    assert moved.loc.Keys == t.loc.Keys;
  }

  lemma SameSizeSubset<T>(a: set<T>, b: set<T>)
    requires a <= b && |a| >= |b|
    ensures a == b
  {
    assert |b - a| == |b| - |a|;
  }

  // ----- the accounting -----

  /**
   The capacity has doubled log2(capacity / 2^16) times, each doubling moving no more than its
   threshold, and the last one needed that many additions before it.
   */
  ghost predicate Amortised(capacity: nat, adds: nat, moves: nat) {
    capacity >= MIN_CAPACITY &&
    100 * moves <= 67 * (capacity - MIN_CAPACITY) &&
    (capacity > MIN_CAPACITY ==> 200 * adds + 198 >= 67 * capacity)
  }

  /** A doubling, which happens only when the threshold has been reached. */
  lemma AmortisedStep(capacity: nat, size: nat, adds: nat, moves: nat)
    requires Amortised(capacity, adds, moves) && Threshold(capacity) == size <= adds
    ensures Amortised(2 * capacity, adds, moves + size) && size < Threshold(2 * capacity)
  {
  }
}
