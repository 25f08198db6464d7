/** The doubly linked list of the C++ library, proved to behave as a sequence. */
module LinkedList {
  import opened Sequences

  class Node<T> {
    var val: T
    var next: Node?<T>
    var prev: Node?<T>

    constructor (v: T)
      ensures val == v && next == null && prev == null
    {
      val, next, prev := v, null, null;
    }
  }

  /** The node at position `i`, null outside the list. */
  ghost function At<T>(nodes: seq<Node<T>>, i: int): Node?<T> {
    if 0 <= i < |nodes| then nodes[i] else null
  }

  /** The values of the nodes, in order. */
  ghost function Values<T>(nodes: seq<Node<T>>): (s: seq<T>)
    reads nodes
    ensures |s| == |nodes|
  {
    seq(|nodes|, i requires 0 <= i < |nodes| reads nodes => nodes[i].val)
  }

  lemma AtRemoved<T>(nodes: seq<Node<T>>, i: nat, k: int)
    requires i < |nodes|
    ensures At(RemoveAt(nodes, i), k) == if k < i then At(nodes, k) else At(nodes, k + 1)
  {
  }

  /** Position of the node that is `k`-th once position `i` is gone. */
  function Skip(i: int, k: int): int { if k < i then k else k + 1 }

  /** Once its neighbours skip position `i`, the remaining nodes are linked in order. */
  lemma ClosedNext<T>(was: seq<Node<T>>, i: nat, k: nat)
    requires i < |was| && k < |was| - 1
    requires was[Skip(i, k)].next == At(was, if Skip(i, k) == i - 1 then i + 1 else Skip(i, k) + 1)
    ensures RemoveAt(was, i)[k].next == At(RemoveAt(was, i), k + 1)
  {
  }

  lemma ClosedPrev<T>(was: seq<Node<T>>, i: nat, k: nat)
    requires i < |was| && k < |was| - 1
    requires was[Skip(i, k)].prev == At(was, if Skip(i, k) == i + 1 then i - 1 else Skip(i, k) - 1)
    ensures RemoveAt(was, i)[k].prev == At(RemoveAt(was, i), k - 1)
  {
  }

  class List<T(==)> {
    var head: Node?<T>
    var tail: Node?<T>
    var size: nat
    ghost var nodes: seq<Node<T>>

    ghost predicate Valid()
      reads this, nodes
    {
      && size == |nodes|
      && head == At(nodes, 0) && tail == At(nodes, |nodes| - 1)
      && Distinct(nodes)
      && (forall i {:trigger nodes[i].next} :: 0 <= i < |nodes| ==> nodes[i].next == At(nodes, i + 1))
      && (forall i {:trigger nodes[i].prev} :: 0 <= i < |nodes| ==> nodes[i].prev == At(nodes, i - 1))
    }

    /** The values from head to tail. */
    ghost function Contents(): (s: seq<T>)
      reads this, nodes
      ensures |s| == |nodes|
    {
      Values(nodes)
    }

    constructor ()
      ensures Valid() && Contents() == [] && nodes == []
    {
      head, tail, size, nodes := null, null, 0, [];
    }

    method Append(t: T)
      requires Valid()
      modifies this, nodes
      ensures Valid() && Contents() == old(Contents()) + [t]
      ensures |nodes| == |old(nodes)| + 1 && old(nodes) <= nodes && fresh(nodes[|old(nodes)|])
    {
      var node := new Node(t);
      size := size + 1;
      if tail == null {
        head, tail := node, node;
      } else {
        tail.next := node;
        node.prev := tail;
        tail := node;
      }
      nodes := nodes + [node];
    }

    /** The node that holds the first `t`, null when there is none. */
    method Find(t: T) returns (n: Node?<T>)
      requires Valid()
      ensures n == At(nodes, IndexOf(Contents(), t))
    {
      n := head;
      ghost var i := 0;
      while n != null && n.val != t
        invariant 0 <= i <= |nodes| && n == At(nodes, i)
        invariant forall k :: 0 <= k < i ==> Contents()[k] != t
        decreases |nodes| - i
      {
        assert Contents()[i] == n.val;
        n := n.next;
        i := i + 1;
      }
      assert n != null ==> Contents()[i] == n.val;
    }

    /** The neighbours of the node at position `i` become neighbours of each other. */
    method Relink(t: Node<T>, ghost i: nat)
      requires Valid() && i < |nodes| && nodes[i] == t
      modifies nodes
      ensures forall j {:trigger nodes[j].next} :: 0 <= j < |nodes| ==> nodes[j].next == At(nodes, if j == i - 1 then i + 1 else j + 1)
      ensures forall j {:trigger nodes[j].prev} :: 0 <= j < |nodes| ==> nodes[j].prev == At(nodes, if j == i + 1 then i - 1 else j - 1)
      ensures forall n :: n in nodes ==> n.val == old(n.val)
    {
      assert t.prev == At(nodes, i - 1) && t.next == At(nodes, i + 1);
      if t.prev != null {
        t.prev.next := t.next;
      }
      if t.next != null {
        t.next.prev := t.prev;
      }
    }

    /** Unlink the node at position `i`. */
    method RemoveNode(t: Node<T>, ghost i: nat)
      requires Valid() && i < |nodes| && nodes[i] == t
      modifies this, nodes
      ensures Valid() && nodes == RemoveAt(old(nodes), i)
      ensures forall n :: n in old(nodes) ==> n.val == old(n.val)
    {
      ghost var was := nodes;
      IsEnd(i);
      Relink(t, i);
      hide Distinct, RemoveAt;
      if t == head {
        head := t.next;
      }
      if t == tail {
        tail := t.prev;
      }
      size := size - 1;
      nodes := RemoveAt(was, i);
      RemoveAtDistinct(was, i);
      AtRemoved(was, i, 0);
      AtRemoved(was, i, |nodes| - 1);
      forall k {:trigger nodes[k].next} | 0 <= k < |nodes|
        ensures nodes[k].next == At(nodes, k + 1)
      {
        ClosedNext(was, i, k);
      }
      forall k {:trigger nodes[k].prev} | 0 <= k < |nodes|
        ensures nodes[k].prev == At(nodes, k - 1)
      {
        ClosedPrev(was, i, k);
      }
    }

    lemma IsEnd(i: nat)
      requires Valid() && i < |nodes|
      ensures (nodes[i] == head <==> i == 0) && (nodes[i] == tail <==> i == |nodes| - 1)
    {
    }

    method Remove(t: T) returns (removed: bool)
      requires Valid()
      modifies this, nodes
      ensures Valid() && removed == (t in old(Contents()))
      ensures Contents() == Sequences.Remove(old(Contents()), t)
      ensures nodes == if removed then RemoveAt(old(nodes), IndexOf(old(Contents()), t)) else old(nodes)
    {
      hide Distinct;
      var n := Find(t);
      if n == null {
        return false;
      }
      ghost var i, was := IndexOf(Contents(), t), Contents();
      RemoveNode(n, i);
      forall k | 0 <= k < |nodes|
        ensures Contents()[k] == RemoveAt(was, i)[k]
      {
        assert nodes[k] == old(nodes)[if k < i then k else k + 1];
      }
      assert Contents() == RemoveAt(was, i);
      removed := true;
    }

    /** The caller must know the list is not empty, as the assertion in the code says. */
    method PopFront() returns (t: T)
      requires Valid() && Contents() != []
      modifies this, nodes
      ensures Valid() && [t] + Contents() == old(Contents())
    {
      t := head.val;
      RemoveNode(head, 0);
    }
  }
}
