/** The doubly linked list: head, tail and the prev/next links updated in place, kept equal to a
    sequence of nodes. */
module LinkedList {
  import opened Options

  class Node<T> {
    var data: T
    var prev: Node?<T>
    var next: Node?<T>

    constructor (data: T, prev: Node?<T>, next: Node?<T>)
      ensures this.data == data && this.prev == prev && this.next == next
    {
      this.data, this.prev, this.next := data, prev, next;
    }
  }

  // ----- sequences

  /** Position of the first element that satisfies p, or |q|. */
  function First<T>(q: seq<T>, p: T -> bool): (i: nat)
    ensures i <= |q|
    ensures forall j :: 0 <= j < i ==> !p(q[j])
    ensures i < |q| ==> p(q[i])
  {
    if q == [] || p(q[0]) then 0 else 1 + First(q[1..], p)
  }

  /** The first match is the only position with these two properties. */
  lemma FirstIs<T>(q: seq<T>, p: T -> bool, i: nat)
    requires i <= |q| && (i < |q| ==> p(q[i]))
    requires forall j :: 0 <= j < i ==> !p(q[j])
    ensures First(q, p) == i
  {}

  /** Position of the first x, or |q|. */
  function IndexOf<T(==)>(q: seq<T>, x: T): (i: nat)
    ensures i <= |q| && x !in q[..i]
    ensures i < |q| ==> q[i] == x
  {
    First(q, y => y == x)
  }

  lemma IndexIs<T>(q: seq<T>, x: T, i: nat)
    requires i <= |q| && (i < |q| ==> q[i] == x)
    requires forall j :: 0 <= j < i ==> q[j] != x
    ensures IndexOf(q, x) == i
  {
    FirstIs(q, y => y == x, i);
  }

  function Without<T>(q: seq<T>, i: nat): (r: seq<T>)
    requires i < |q|
    ensures |r| == |q| - 1
  {
    seq(|q| - 1, j requires 0 <= j < |q| - 1 => if j < i then q[j] else q[j + 1])
  }

  /** Removing by value undoes an insertion of a value not yet present, at either end. */
  lemma RemoveUndoesInsert<T>(q: seq<T>, x: T)
    requires x !in q
    ensures var i := IndexOf([x] + q, x); i < |[x] + q| && Without([x] + q, i) == q
    ensures var i := IndexOf(q + [x], x); i < |q + [x]| && Without(q + [x], i) == q
  {
    IndexIs([x] + q, x, 0);
    IndexIs(q + [x], x, |q|);
    assert Without([x] + q, 0) == q;
    assert Without(q + [x], |q|) == q;
  }

  /** A removal keeps the order of what stays: positions are shifted by one behind the hole. */
  lemma WithoutKeepsOrder<T>(q: seq<T>, i: nat, j: nat)
    requires i < |q| && j < |q| && j != i
    ensures Without(q, i)[if j < i then j else j - 1] == q[j]
    ensures multiset(Without(q, i)) == multiset(q) - multiset{q[i]}
  {
    assert Without(q, i) == q[..i] + q[i + 1..];
    assert q == q[..i] + [q[i]] + q[i + 1..];
  }

  class List<T(==)> {
    var head: Node?<T>
    var tail: Node?<T>
    ghost var nodes: seq<Node<T>>

    /** The node at position i of ns links to its two neighbours. */
    static ghost predicate Linked(ns: seq<Node<T>>, i: nat)
      requires i < |ns|
      reads ns[i]
    {
      && ns[i].prev == (if i == 0 then null else ns[i - 1])
      && ns[i].next == (if i == |ns| - 1 then null else ns[i + 1])
    }

    static ghost predicate Distinct(ns: seq<Node<T>>) {
      forall i, j :: 0 <= i < j < |ns| ==> ns[i] != ns[j]
    }

    /** head and tail are the ends of nodes, and prev and next are mutually inverse along it. */
    ghost predicate Valid()
      reads this, nodes
    {
      && Distinct(nodes)
      && head == (if nodes == [] then null else nodes[0])
      && tail == (if nodes == [] then null else nodes[|nodes| - 1])
      && forall i :: 0 <= i < |nodes| ==> Linked(nodes, i)
    }

    /** The list as the sequence of its data. */
    ghost function Model(): (q: seq<T>)
      reads this, nodes
      ensures |q| == |nodes| && forall i :: 0 <= i < |nodes| ==> q[i] == nodes[i].data
    {
      seq(|nodes|, i requires 0 <= i < |nodes| reads this, nodes => nodes[i].data)
    }

    /** What a walk from head relies on. */
    lemma Walk(i: nat)
      requires Valid() && i <= |nodes|
      ensures i == 0 ==> head == if i < |nodes| then nodes[i] else null
      ensures i < |nodes| ==>
                && nodes[i].data == Model()[i]
                && nodes[i].next == if i + 1 < |nodes| then nodes[i + 1] else null
    {
      if i < |nodes| {
        assert Linked(nodes, i);
      }
    }

    constructor ()
      ensures Valid() && Model() == [] && nodes == []
    {
      head, tail, nodes := null, null, [];
    }

    /** `memory` says whether the allocation succeeds. */
    method InsertHead(data: T, memory: bool) returns (r: Node?<T>)
      requires Valid()
      modifies this, nodes
      ensures Valid()
      ensures !memory ==> r == null && nodes == old(nodes) && Model() == old(Model())
      ensures memory ==> r != null && fresh(r) && nodes == [r] + old(nodes) && Model() == [data] + old(Model())
    {
      if !memory {
        return null;
      }
      var node := new Node(data, null, head);
      if head != null {
        head.prev := node;
      }
      head := node;
      if tail == null {
        tail := node;
      }
      nodes := [node] + nodes;
      forall i | 0 <= i < |nodes|
        ensures Linked(nodes, i)
      {
        assert i > 0 ==> nodes[i] == old(nodes)[i - 1] && old(Linked(nodes, i - 1));
      }
      return node;
    }

    method InsertTail(data: T, memory: bool) returns (r: Node?<T>)
      requires Valid()
      modifies this, nodes
      ensures Valid()
      ensures !memory ==> r == null && nodes == old(nodes) && Model() == old(Model())
      ensures memory ==> r != null && fresh(r) && nodes == old(nodes) + [r] && Model() == old(Model()) + [data]
    {
      if !memory {
        return null;
      }
      var node := new Node(data, tail, null);
      if tail != null {
        tail.next := node;
      }
      tail := node;
      if head == null {
        head := node;
      }
      nodes := nodes + [node];
      forall i | 0 <= i < |nodes|
        ensures Linked(nodes, i)
      {
        assert i < |old(nodes)| ==> nodes[i] == old(nodes)[i] && old(Linked(nodes, i));
      }
      return node;
    }

    /** The first node whose data satisfies p. */
    method SearchPredicate(p: T -> bool) returns (r: Node?<T>)
      requires Valid()
      ensures var i := First(Model(), p); r == if i < |nodes| then nodes[i] else null
    {
      r := head;
      ghost var i := 0;
      while r != null
        invariant 0 <= i <= |nodes|
        invariant r == if i < |nodes| then nodes[i] else null
        invariant forall j :: 0 <= j < i ==> !p(Model()[j])
        decreases |nodes| - i
      {
        if p(r.data) {
          FirstIs(Model(), p, i);
          return;
        }
        assert Linked(nodes, i) && Model()[i] == r.data;
        r := r.next;
        i := i + 1;
      }
      FirstIs(Model(), p, |nodes|);
    }

    method Search(data: T) returns (r: Node?<T>)
      requires Valid()
      ensures var i := IndexOf(Model(), data); r == if i < |nodes| then nodes[i] else null
    {
      r := SearchPredicate(x => x == data);
      ghost var i := First(Model(), x => x == data);
      IndexIs(Model(), data, i);
    }

    method SearchComparison(data: T, compare: (T, T) -> int) returns (r: Node?<T>)
      requires Valid()
      ensures var i := First(Model(), x => compare(data, x) == 1); r == if i < |nodes| then nodes[i] else null
    {
      r := SearchPredicate(x => compare(data, x) == 1);
    }

    /** Takes the node at position i out of the chain. */
    method Unlink(node: Node<T>, ghost i: nat)
      requires Valid() && i < |nodes| && node == nodes[i]
      modifies this, nodes
      ensures Valid()
      ensures nodes == Without(old(nodes), i) && Model() == Without(old(Model()), i)
    {
      assert Linked(nodes, i);
      if node.prev != null {
        node.prev.next := node.next;
      } else {
        head := node.next;
      }
      if node.next != null {
        node.next.prev := node.prev;
      } else {
        tail := node.prev;
      }
      nodes := Without(nodes, i);
      forall j | 0 <= j < |nodes|
        ensures Linked(nodes, j)
      {
        var k := if j < i then j else j + 1;
        assert nodes[j] == old(nodes)[k] && old(Linked(nodes, k));
      }
    }

    /** Unlinks the first node that holds the data. */
    method Remove(data: T) returns (r: Option<T>)
      requires Valid()
      modifies this, nodes
      ensures Valid()
      ensures var i := old(IndexOf(Model(), data));
              if i < |old(nodes)| then
                r == Some(data) && nodes == Without(old(nodes), i) && Model() == Without(old(Model()), i)
              else
                r == None && nodes == old(nodes) && Model() == old(Model())
    {
      hide First;
      var node := Search(data);
      if node == null {
        return None;
      }
      Unlink(node, IndexOf(Model(), data));
      return Some(data);
    }

    method RemoveHead() returns (r: Node?<T>)
      requires Valid()
      modifies this, nodes
      ensures Valid()
      ensures old(nodes) == [] ==> r == null && nodes == []
      ensures old(nodes) != [] ==>
                r == old(nodes)[0] && nodes == old(nodes)[1..] && Model() == old(Model())[1..] && r.data == old(Model())[0]
    {
      if head == null {
        return null;
      }
      r := head;
      assert Linked(nodes, 0);
      head := head.next;
      if head != null {
        head.prev := null;
      } else {
        tail := null;
      }
      nodes := nodes[1..];
      forall j | 0 <= j < |nodes|
        ensures Linked(nodes, j)
      {
        assert nodes[j] == old(nodes)[j + 1] && old(Linked(nodes, j + 1));
      }
    }

    method RemoveTail() returns (r: Node?<T>)
      requires Valid()
      modifies this, nodes
      ensures Valid()
      ensures old(nodes) == [] ==> r == null && nodes == []
      ensures old(nodes) != [] ==>
                var n := |old(nodes)| - 1;
                r == old(nodes)[n] && nodes == old(nodes)[..n] && Model() == old(Model())[..n] && r.data == old(Model())[n]
    {
      if tail == null {
        return null;
      }
      r := tail;
      ghost var n := |nodes| - 1;
      assert Linked(nodes, n);
      tail := tail.prev;
      if tail != null {
        tail.next := null;
      } else {
        head := null;
      }
      nodes := nodes[..n];
      forall j | 0 <= j < |nodes|
        ensures Linked(nodes, j)
      {
        assert nodes[j] == old(nodes)[j] && old(Linked(nodes, j));
      }
    }
  }
}
