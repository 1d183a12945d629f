/**
 The circular doubly linked list (list.c). `nodes` is the ring read from `root` along `next`;
 a valid list is that sequence, and every operation is stated as what it does to it.
 */
module Ring {
  import opened Sequences
  import opened Wrappers

  class Node<T> {
    var data: T
    var next: Node?<T>
    var prev: Node?<T>

    /** lNodeNew */
    constructor (data: T)
      ensures this.data == data && next == null && prev == null
    {
      this.data := data;
      next, prev := null, null;
    }
  }

  /** Each node's `next` is the following node. */
  ghost predicate Forward<T>(nodes: seq<Node<T>>)
    reads nodes`next
  {
    forall i {:trigger nodes[i].next} :: 0 <= i < |nodes| - 1 ==> nodes[i].next == nodes[i + 1]
  }

  /** Each node's `prev` is the preceding node. */
  ghost predicate Backward<T>(nodes: seq<Node<T>>)
    reads nodes`prev
  {
    forall i {:trigger nodes[i].prev} :: 0 < i < |nodes| ==> nodes[i].prev == nodes[i - 1]
  }

  /** A run whose last node leads to its first and whose first leads back to its last. */
  ghost predicate IsRing<T>(nodes: seq<Node<T>>)
    reads nodes`next, nodes`prev
  {
    Distinct(nodes) && Forward(nodes) && Backward(nodes) &&
    (nodes != [] ==> nodes[|nodes| - 1].next == nodes[0] && nodes[0].prev == nodes[|nodes| - 1])
  }

  /** No node is in both. */
  ghost predicate Disjoint<T>(a: seq<Node<T>>, b: seq<Node<T>>) {
    forall i, j :: 0 <= i < |a| && 0 <= j < |b| ==> a[i] != b[j]
  }

  /** Two runs linked at both seams are one ring. */
  lemma JoinRings<T>(a: seq<Node<T>>, b: seq<Node<T>>)
    requires Distinct(a) && Distinct(b) && Disjoint(a, b) && a != [] && b != []
    requires Forward(a) && Forward(b) && a[|a| - 1].next == b[0] && b[|b| - 1].next == a[0]
    requires Backward(a) && Backward(b) && b[0].prev == a[|a| - 1] && a[0].prev == b[|b| - 1]
    ensures IsRing(a + b)
  {
  }

  /** d is the data held along the nodes. */
  ghost predicate Holds<T>(nodes: seq<Node<T>>, d: seq<T>)
    reads nodes`data
  {
    |d| == |nodes| && forall i :: 0 <= i < |nodes| ==> nodes[i].data == d[i]
  }

  lemma JoinHolds<T>(a: seq<Node<T>>, b: seq<Node<T>>, d: seq<T>, e: seq<T>)
    requires Holds(a, d) && Holds(b, e)
    ensures Holds(a + b, d + e)
  {
  }

  lemma HoldsOne<T>(n: Node<T>)
    ensures Holds([n], [n.data])
  {
  }

  /** The first node leads back to the last. */
  lemma Seam<T>(nodes: seq<Node<T>>)
    requires IsRing(nodes)
    ensures nodes != [] ==> nodes[0].prev == nodes[|nodes| - 1]
  {
  }

  /** A node linked to itself is a ring. */
  method Close<T>(n: Node<T>)
    modifies n`next, n`prev
    ensures IsRing([n])
  {
    n.next, n.prev := n, n;
  }

  /** The four link updates of both additions: whether n is the new head or the new tail is up to `root`. */
  method LinkBetween<T>(n: Node<T>, tail: Node<T>, head: Node<T>, ghost nodes: seq<Node<T>>)
    requires IsRing(nodes) && nodes != [] && head == nodes[0] && tail == nodes[|nodes| - 1]
    requires n !in nodes
    modifies {n, tail}`next, {n, head}`prev
    ensures IsRing([n] + nodes) && IsRing(nodes + [n])
  {
    n.next := head;
    n.prev := tail;
    tail.next := n;
    head.prev := n;
    JoinRings([n], nodes);
    JoinRings(nodes, [n]);
  }

  /** The four link updates that close ring `b` in between the tail and the head of ring `a`. */
  method Splice<T>(tail: Node<T>, head: Node<T>, auxHead: Node<T>, auxTail: Node<T>,
                   ghost a: seq<Node<T>>, ghost b: seq<Node<T>>)
    requires IsRing(a) && IsRing(b) && a != [] && b != [] && Disjoint(a, b)
    requires head == a[0] && tail == a[|a| - 1] && auxHead == b[0] && auxTail == b[|b| - 1]
    modifies {auxHead, head}`prev, {tail, auxTail}`next
    ensures IsRing(a + b)
  {
    auxHead.prev := tail;
    tail.next := auxHead;
    head.prev := auxTail;
    auxTail.next := head;
    JoinRings(a, b);
  }

  class List<T> {
    var len: nat
    var root: Node?<T>
    ghost var nodes: seq<Node<T>>
    ghost var contents: seq<T>

    ghost predicate Valid()
      reads this, nodes
    {
      len == |nodes| == |contents| && IsRing(nodes) && Holds(nodes, contents) && root == if nodes == [] then null else nodes[0]
    }

    /** listNew */
    constructor ()
      ensures Valid() && nodes == [] && contents == []
    {
      len, root, nodes, contents := 0, null, [], [];
    }

    /** listAddHead */
    method AddHead(data: T)
      requires Valid()
      modifies this, nodes`next, nodes`prev
      ensures Valid() && contents == [data] + old(contents)
      ensures fresh(nodes[0]) && nodes[1..] == old(nodes)
    {
      hide IsRing, Holds;
      var n := new Node(data);
      ghost var ring, held := [n] + nodes, [data] + contents;
      HoldsOne(n);
      JoinHolds([n], nodes, [data], contents);
      Seam(nodes);
      if root == null {
        root := n;
        Close(n);
        assert ring == [n];
      } else {
        LinkBetween(n, root.prev, root, nodes);
        root := n;
      }
      len := len + 1;
      nodes, contents := ring, held;
    }

    /** listAddTail */
    method AddTail(data: T)
      requires Valid()
      modifies this, nodes`next, nodes`prev
      ensures Valid() && contents == old(contents) + [data]
      ensures fresh(nodes[|nodes| - 1]) && nodes[..|nodes| - 1] == old(nodes)
    {
      hide IsRing, Holds;
      var n := new Node(data);
      ghost var ring, held := nodes + [n], contents + [data];
      HoldsOne(n);
      JoinHolds(nodes, [n], contents, [data]);
      Seam(nodes);
      if root == null {
        root := n;
        Close(n);
        assert ring == [n];
      } else {
        LinkBetween(n, root.prev, root, nodes);
      }
      len := len + 1;
      nodes, contents := ring, held;
    }

    /** listRemoveHead */
    method RemoveHead() returns (r: Option<T>)
      requires Valid()
      modifies this, nodes`next, nodes`prev
      ensures Valid()
      ensures old(nodes) == [] ==> r == None && nodes == []
      ensures old(nodes) != [] ==> r == Some(old(contents)[0]) && nodes == old(nodes)[1..]
      ensures old(nodes) != [] ==> contents == old(contents)[1..]
    {
      if len == 0 || root == null {
        return None;
      }
      var head := root;
      var val := head.data;
      if len == 1 {
        root := null;
      } else {
        var tail := root.prev;
        root := root.next;
        tail.next := root;
        root.prev := tail;
      }
      len := len - 1;
      nodes, contents := nodes[1..], contents[1..];
      r := Some(val);
    }

    /** listRemoveTail */
    method RemoveTail() returns (r: Option<T>)
      requires Valid()
      modifies this, nodes`next, nodes`prev
      ensures Valid()
      ensures old(nodes) == [] ==> r == None && nodes == []
      ensures old(nodes) != [] ==> r == Some(old(contents)[|old(nodes)| - 1])
      ensures old(nodes) != [] ==> nodes == old(nodes)[..|old(nodes)| - 1]
      ensures old(nodes) != [] ==> contents == old(contents)[..|old(nodes)| - 1]
    {
      if len == 0 {
        return None;
      }
      var tail := root.prev;
      var val := tail.data;
      if len == 1 {
        root := null;
      } else {
        var newTail := tail.prev;
        root.prev := newTail;
        newTail.next := root;
      }
      len := len - 1;
      nodes, contents := nodes[..|nodes| - 1], contents[..|nodes| - 1];
      r := Some(val);
    }

    /** listFind: the first datum the callback accepts, whatever the callback. */
    method Find<K>(needle: K, compare: (T, K) -> int) returns (r: Option<T>)
      requires Valid()
      ensures r == None ==> forall i :: 0 <= i < |nodes| ==> compare(contents[i], needle) == 0
      ensures r.Some? ==> exists i :: 0 <= i < |nodes| && r.value == contents[i] && compare(contents[i], needle) != 0 &&
                                      forall j :: 0 <= j < i ==> compare(contents[j], needle) == 0
    {
      if len == 0 {
        return None;
      }
      var current := root;
      var count := len;
      while true
        invariant 0 < count <= len && current == nodes[len - count]
        invariant forall j :: 0 <= j < len - count ==> compare(contents[j], needle) == 0
        decreases count
      {
        if compare(current.data, needle) != 0 {
          return Some(current.data);
        }
        current := current.next;
        count := count - 1;
        if count == 0 {
          break;
        }
      }
      return None;
    }

    /** The counts change hands once the links are in place. */
    method TakeOver(aux: List<T>, ghost ring: seq<Node<T>>, ghost data: seq<T>)
      requires this != aux && |ring| == len + aux.len > 0
      requires IsRing(ring) && Holds(ring, data) && root == ring[0]
      modifies this`len, this`nodes, this`contents, aux`len
      ensures Valid() && nodes == ring && contents == data && aux.len == 0
    {
      len := len + aux.len;
      aux.len := 0;
      nodes, contents := ring, data;
    }

    /** listAppendListTail: the other ring is spliced in whole, and its header is given up. */
    method AppendListTail(aux: List<T>)
      requires Valid() && aux.Valid() && this != aux
      requires Disjoint(nodes, aux.nodes)
      modifies this, nodes`next, nodes`prev, aux, aux.nodes`next, aux.nodes`prev
      ensures Valid()
      ensures nodes == old(nodes) + old(aux.nodes)
      ensures contents == old(contents) + old(aux.contents)
      ensures aux.len == 0
    {
      if aux.len == 0 {
        return;
      }
      ghost var a, b := nodes, aux.nodes;
      var auxHead := aux.root;
      assert len > 0 ==> root.prev == a[|a| - 1];
      assert auxHead.prev == b[|b| - 1];
      hide IsRing, Holds, Distinct, Forward, Backward;
      if len == 0 {
        root := auxHead;
        assert a + b == b;
      } else {
        var tail := root.prev;
        var head := root;
        Splice(tail, head, auxHead, auxHead.prev, a, b);
      }
      JoinHolds(a, b, contents, aux.contents);
      TakeOver(aux, a + b, contents + aux.contents);
    }

    /** listRelease: every datum is handed over for release once, from head to tail. */
    method Release() returns (released: seq<T>)
      requires Valid()
      modifies this, nodes`next, nodes`prev
      ensures Valid() && nodes == []
      ensures released == old(contents)
    {
      hide IsRing;
      released := [];
      ghost var k := 0;
      while len > 0
        invariant Valid()
        invariant k + len == |old(nodes)|
        invariant nodes == old(nodes)[k..] && contents == old(contents)[k..]
        invariant released == old(contents)[..k]
        decreases len
      {
        var r := RemoveHead();
        released := released + [r.value];
        k := k + 1;
      }
    }
  }

  /** The node reached from n by following `next` k times. */
  ghost function Walk<T>(nodes: seq<Node<T>>, n: Node<T>, k: nat): Node<T>
    requires IsRing(nodes) && n in nodes
    reads nodes`next, nodes`prev
    decreases k
  {
    if k == 0 then n else Walk(nodes, n.next, k - 1)
  }

  /** Following `next` from anywhere meets the nodes in ring order, and is back after exactly `len` steps. */
  lemma {:induction false} WalkPosition<T>(nodes: seq<Node<T>>, start: nat, k: nat)
    requires IsRing(nodes) && start < |nodes| && k <= |nodes|
    ensures Walk(nodes, nodes[start], k) == nodes[if start + k < |nodes| then start + k else start + k - |nodes|]
    ensures Walk(nodes, nodes[start], k) == nodes[start] <==> k == 0 || k == |nodes|
    decreases k
  {
    if k > 0 {
      WalkPosition(nodes, if start + 1 == |nodes| then 0 else start + 1, k - 1);
    }
  }
}
