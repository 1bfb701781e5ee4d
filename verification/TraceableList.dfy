/** The doubly linked list whose elements can be turned back into iterators. */
module TraceableList {

  /** A data pointer and the node that owns it are one thing here. `deleted` records
      that the node was given back to the allocator; nothing may touch it after that. */
  class Node<T, E> {
    var data: T
    var prev: Node?<T, E>
    var next: Node?<T, E>
    var extra: E
    ghost var deleted: bool

    constructor (data: T, prev: Node?<T, E>, next: Node?<T, E>, extra: E)
      ensures this.data == data && this.prev == prev && this.next == next && this.extra == extra
      ensures !deleted
    {
      this.data, this.prev, this.next, this.extra := data, prev, next, extra;
      deleted := false;
    }

    /** `delete`: allowed once. */
    method Delete()
      requires !deleted
      modifies this`deleted
      ensures deleted
    {
      deleted := true;
    }
  }

  datatype Outcome = Pass | NothingToPop | MayNotPopEnd

  /** `ptr` is null at the end; `tail` is what lets `--end()` find the last node. */
  datatype Iterator<T, E> = Iterator(ptr: Node?<T, E>, tail: Node?<T, E>) {

    function Next(): Iterator<T, E>
      requires ptr != null && !ptr.deleted
      reads ptr
    {
      Iterator(ptr.next, tail)
    }

    function Prev(): Iterator<T, E>
      requires ptr == null ==> tail != null
      requires ptr != null ==> !ptr.deleted
      reads ptr
    {
      if ptr == null && tail != null then Iterator(tail, tail)
      else Iterator(ptr.prev, tail)
    }
  }

  class List<T, E> {
    var head: Node?<T, E>
    var tail: Node?<T, E>
    var size: nat
    /** The nodes from head to tail. */
    ghost var Nodes: seq<Node<T, E>>

    ghost predicate Valid()
      reads this, Nodes`prev, Nodes`next, Nodes`deleted
    {
      && size == |Nodes|
      && (forall i, j :: 0 <= i < j < |Nodes| ==> Apart(Nodes, i, j))
      && (forall i :: 0 <= i < |Nodes| ==> !Nodes[i].deleted)
      && head == NodeAt(Nodes, 0)
      && tail == NodeAt(Nodes, |Nodes| - 1)
      && (forall i :: 0 <= i < |Nodes| ==> Linked(Nodes, i))
    }

    /** No node stands at two places. Named, so that it is used only where it is called on. */
    static ghost predicate Apart(nodes: seq<Node<T, E>>, i: nat, j: nat)
      requires i < |nodes| && j < |nodes|
    {
      nodes[i] != nodes[j]
    }

    /** Node `i` points at its two neighbours. */
    static ghost predicate Linked(nodes: seq<Node<T, E>>, i: nat)
      requires i < |nodes|
      reads nodes`prev, nodes`next
    {
      && nodes[i].prev == (if i == 0 then null else nodes[i - 1])
      && nodes[i].next == (if i + 1 == |nodes| then null else nodes[i + 1])
    }

    /** The node at a position, null on either side of the list. */
    static ghost function NodeAt(nodes: seq<Node<T, E>>, i: int): Node?<T, E> {
      if 0 <= i < |nodes| then nodes[i] else null
    }

    /** Where an iterator points: the length of the list stands for the end. */
    ghost predicate At(ptr: Node?<T, E>, k: nat)
      reads this
    {
      k <= |Nodes| && ptr == NodeAt(Nodes, k)
    }

    lemma OnlyHere(k: nat)
      requires Valid() && k < |Nodes|
      ensures forall i :: 0 <= i < |Nodes| && i != k ==> Nodes[i] != Nodes[k]
    {
      forall i | 0 <= i < |Nodes| && i != k ensures Nodes[i] != Nodes[k] {
        assert Apart(Nodes, if i < k then i else k, if i < k then k else i);
      }
    }

    /** A node is none of the node `k` and its neighbours but the one at its own place. */
    static lemma DiffersAround(nodes: seq<Node<T, E>>, m: nat, k: nat)
      requires m < |nodes| && k < |nodes|
      requires forall i, j :: 0 <= i < j < |nodes| ==> Apart(nodes, i, j)
      ensures m != k ==> nodes[m] != nodes[k]
      ensures k > 0 && m != k - 1 ==> nodes[m] != nodes[k - 1]
      ensures k + 1 < |nodes| && m != k + 1 ==> nodes[m] != nodes[k + 1]
    {
      assert m < k ==> Apart(nodes, m, k);
      assert k < m ==> Apart(nodes, k, m);
      assert k > 0 && m < k - 1 ==> Apart(nodes, m, k - 1);
      assert k > 0 && k - 1 < m ==> Apart(nodes, k - 1, m);
      assert k + 1 < |nodes| && m < k + 1 ==> Apart(nodes, m, k + 1);
      assert k + 1 < m ==> Apart(nodes, k + 1, m);
    }

    static lemma RemovedApart(nodes: seq<Node<T, E>>, k: nat)
      requires k < |nodes|
      requires forall i, j :: 0 <= i < j < |nodes| ==> Apart(nodes, i, j)
      ensures var rest := nodes[..k] + nodes[k + 1..];
              (forall i, j :: 0 <= i < j < |rest| ==> Apart(rest, i, j)) && nodes[k] !in rest
    {
      var rest := nodes[..k] + nodes[k + 1..];
      forall i, j | 0 <= i < j < |rest| ensures Apart(rest, i, j) {
        assert Apart(nodes, if i < k then i else i + 1, if j < k then j else j + 1);
      }
      forall i | 0 <= i < |rest| ensures rest[i] != nodes[k] {
        assert if i < k then Apart(nodes, i, k) else Apart(nodes, k, i + 1);
      }
    }

    static lemma InsertedApart(nodes: seq<Node<T, E>>, k: nat, n: Node<T, E>)
      requires k <= |nodes| && n !in nodes
      requires forall i, j :: 0 <= i < j < |nodes| ==> Apart(nodes, i, j)
      ensures var all := nodes[..k] + [n] + nodes[k..];
              forall i, j :: 0 <= i < j < |all| ==> Apart(all, i, j)
    {
      var all := nodes[..k] + [n] + nodes[k..];
      forall i, j | 0 <= i < j < |all| ensures Apart(all, i, j) {
        assert i != k && j != k ==> Apart(nodes, if i < k then i else i - 1, if j < k then j else j - 1);
      }
    }

    constructor ()
      ensures Valid() && Nodes == []
    {
      head, tail, size, Nodes := null, null, 0, [];
    }

    function Begin(): Iterator<T, E>
      reads this
    {
      Iterator(head, tail)
    }

    function End(): Iterator<T, E>
      reads this
    {
      Iterator(null, tail)
    }

    /** In a list that has nodes the two steps of an iterator undo each other, the step
        back from the end included; a step back from the first node leads to the end. */
    lemma StepsUndo(it: Iterator<T, E>, k: nat)
      requires Valid() && k < |Nodes| && it.ptr == Nodes[k] && it.tail == tail
      ensures At(it.Next().ptr, k + 1) && it.Next().tail == tail
      ensures it.Next().Prev() == it
      ensures it.Prev().ptr == NodeAt(Nodes, k - 1) && it.Prev().tail == tail
      ensures k > 0 ==> it.Prev().Next() == it
      ensures k == 0 ==> it.Prev() == End()
      ensures k == |Nodes| - 1 ==> it.Next() == End() && End().Prev() == it
      ensures k == 0 ==> Begin() == it
    {
      assert Linked(Nodes, k);
      assert k > 0 ==> Linked(Nodes, k - 1);
      assert k + 1 < |Nodes| ==> Linked(Nodes, k + 1);
    }

    /** The new node goes behind the tail. */
    method LinkLast(newNode: Node<T, E>)
      requires Valid() && Nodes != []
      requires newNode !in Nodes && !newNode.deleted && newNode.prev == null && newNode.next == null
      modifies this, Nodes`prev, Nodes`next, newNode`prev, newNode`next
      ensures Valid()
      ensures Nodes == old(Nodes) + [newNode]
    {
      ghost var was := Nodes;
      size := size + 1;
      tail.next := newNode;
      newNode.prev := tail;
      tail := newNode;
      Nodes := was + [newNode];
      forall i, j | 0 <= i < j < |Nodes| ensures Apart(Nodes, i, j) {
        assert j < |was| ==> Apart(was, i, j);
      }
      forall i | 0 <= i < |Nodes| ensures Linked(Nodes, i) {
        if i < |was| {
          assert old(Linked(was, i)) && Nodes[i] == was[i];
          assert i < |was| - 1 ==> Apart(was, i, |was| - 1);
        }
      }
    }

    /** The new node, which already points at `right`, goes in before it. */
    method LinkBefore(newNode: Node<T, E>, right: Node<T, E>, ghost k: nat)
      requires Valid() && k < |Nodes| && right == Nodes[k]
      requires newNode !in Nodes && !newNode.deleted && newNode.next == right
      modifies this, Nodes`prev, Nodes`next, newNode`prev, newNode`next
      ensures Valid()
      ensures Nodes == old(Nodes)[..k] + [newNode] + old(Nodes)[k..]
    {
      ghost var was := Nodes;
      assert Linked(was, k);
      size := size + 1;
      var left := right.prev;
      newNode.prev := right.prev;
      if left != null {
        left.next := newNode;
      }
      right.prev := newNode;
      assert k > 0 ==> Apart(was, 0, k);
      if head == right {
        head := newNode;
      }
      Nodes := was[..k] + [newNode] + was[k..];
      InsertedApart(was, k, newNode);
      forall i | 0 <= i < |Nodes| ensures Linked(Nodes, i) {
        if i != k {
          var m := if i < k then i else i - 1;
          assert old(Linked(was, m)) && Nodes[i] == was[m];
          DiffersAround(was, m, k);
        }
      }
    }

    /** Inserts exactly before `where`; every other node keeps its identity, its data
        and its flag. */
    method PushOne(where: Iterator<T, E>, data: T, extra: E, ghost k: nat)
      requires Valid() && At(where.ptr, k)
      modifies this, Nodes`prev, Nodes`next
      ensures Valid()
      ensures |Nodes| == old(|Nodes|) + 1 && fresh(Nodes[k])
      ensures Nodes == old(Nodes)[..k] + [Nodes[k]] + old(Nodes)[k..]
      ensures Nodes[k].data == data && Nodes[k].extra == extra
    {
      var newNode := new Node<T, E>(data, null, where.ptr, extra);
      if head == null {
        size := size + 1;
        tail, head := newNode, newNode;
        Nodes := [newNode];
        return;
      }
      var ptr := where.ptr;
      if ptr == null {
        LinkLast(newNode);
        return;
      }
      LinkBefore(newNode, ptr, k);
    }

    method PushBack(data: T, extra: E)
      requires Valid()
      modifies this, Nodes`prev, Nodes`next
      ensures Valid()
      ensures |Nodes| == old(|Nodes|) + 1 && fresh(Nodes[old(|Nodes|)])
      ensures Nodes == old(Nodes) + [Nodes[old(|Nodes|)]]
      ensures Nodes[old(|Nodes|)].data == data && Nodes[old(|Nodes|)].extra == extra
    {
      PushOne(End(), data, extra, |Nodes|);
    }

    method PushFront(data: T, extra: E)
      requires Valid()
      modifies this, Nodes`prev, Nodes`next
      ensures Valid()
      ensures |Nodes| == old(|Nodes|) + 1 && fresh(Nodes[0])
      ensures Nodes == [Nodes[0]] + old(Nodes)
      ensures Nodes[0].data == data && Nodes[0].extra == extra
    {
      PushOne(Begin(), data, extra, 0);
    }

    /** The neighbours of a node are joined past it. */
    method Unlink(ptr: Node<T, E>, ghost k: nat)
      requires Valid() && k < |Nodes| && ptr == Nodes[k]
      modifies this, Nodes`prev, Nodes`next
      ensures Valid()
      ensures Nodes == old(Nodes)[..k] + old(Nodes)[k + 1..] && ptr !in Nodes && !ptr.deleted
    {
      ghost var was := Nodes;
      assert Linked(was, k);
      var left, right := ptr.prev, ptr.next;
      if left != null {
        left.next := right;
      }
      if right != null {
        right.prev := left;
      }
      assert k > 0 ==> Apart(was, 0, k);
      assert k < |was| - 1 ==> Apart(was, k, |was| - 1);
      if head == ptr {
        head := right;
      }
      if tail == ptr {
        tail := left;
      }
      size := size - 1;
      Nodes := was[..k] + was[k + 1..];
      RemovedApart(was, k);
      forall i | 0 <= i < |Nodes| ensures Linked(Nodes, i) {
        var m := if i < k then i else i + 1;
        assert old(Linked(was, m)) && Nodes[i] == was[m];
        DiffersAround(was, m, k);
      }
    }

    /** Removes exactly that node and deletes it; refuses an empty list or its end. */
    method PopOne(which: Iterator<T, E>, ghost k: nat) returns (r: Outcome)
      requires Valid() && At(which.ptr, k)
      modifies this, Nodes`prev, Nodes`next, (if which.ptr == null then {} else {which.ptr})`deleted
      ensures r == if old(Nodes) == [] then NothingToPop else if which.ptr == null then MayNotPopEnd else Pass
      ensures Valid()
      ensures Nodes == if r.Pass? then old(Nodes)[..k] + old(Nodes)[k + 1..] else old(Nodes)
      ensures r.Pass? ==> which.ptr.deleted && which.ptr !in Nodes
    {
      if head == null {
        return NothingToPop;
      }
      var ptr := which.ptr;
      if ptr == null {
        return MayNotPopEnd;
      }
      Unlink(ptr, k);
      ptr.Delete();
      return Pass;
    }

    method PopFront() returns (r: Outcome)
      requires Valid()
      modifies this, Nodes`prev, Nodes`next, Nodes`deleted
      ensures Valid()
      ensures r == if old(Nodes) == [] then NothingToPop else Pass
      ensures Nodes == if old(Nodes) == [] then [] else old(Nodes)[1..]
      ensures old(Nodes) != [] ==> old(Nodes)[0].deleted
    {
      r := PopOne(Begin(), 0);
    }

    /** Not for the empty list: stepping back from its end reads through null. */
    method PopBack() returns (r: Outcome)
      requires Valid() && Nodes != []
      modifies this, Nodes`prev, Nodes`next, Nodes`deleted
      ensures Valid() && r == Pass
      ensures Nodes == old(Nodes)[..|old(Nodes)| - 1]
      ensures old(Nodes)[|old(Nodes)| - 1].deleted
    {
      r := PopOne(End().Prev(), |Nodes| - 1);
    }

    /** One round of the loop below: the iterator steps off a node, then the node is
        removed. It ends up where the removed node was. */
    method PopAndAdvance(iter: Iterator<T, E>, ghost a: nat) returns (after: Iterator<T, E>)
      requires Valid() && a < |Nodes| && iter.ptr == Nodes[a]
      modifies this, Nodes`prev, Nodes`next, iter.ptr`deleted
      ensures Valid() && At(after.ptr, a)
      ensures Nodes == old(Nodes)[..a] + old(Nodes)[a + 1..]
      ensures iter.ptr.deleted
    {
      assert Linked(Nodes, a);
      var toPop := iter;
      after := iter.Next();
      var r := PopOne(toPop, a);
    }

    /** Removes exactly the half-open range. */
    method PopSome(from: Iterator<T, E>, to: Iterator<T, E>, ghost a: nat, ghost b: nat)
      requires Valid() && a <= b && At(from.ptr, a) && At(to.ptr, b)
      modifies this, Nodes`prev, Nodes`next, Nodes`deleted
      ensures Valid()
      ensures Nodes == old(Nodes)[..a] + old(Nodes)[b..]
      ensures forall i :: a <= i < b ==> old(Nodes)[i].deleted
    {
      var iter := from;
      ghost var was := Nodes;
      ghost var c := a;
      forall i | a <= i < b ensures NodeAt(was, i) != NodeAt(was, b) {
        assert b < |was| ==> Apart(was, i, b);
      }
      while iter.ptr != to.ptr
        invariant a <= c <= b
        invariant Valid() && At(iter.ptr, a) && iter.ptr == NodeAt(was, c)
        invariant Remaining(was, a, c, Nodes)
        invariant forall i :: a <= i < c ==> was[i].deleted
        decreases b - c
      {
        iter := PopAndAdvance(iter, a);
        c := c + 1;
      }
      assert Nodes == was[..a] + was[b..];
    }

    /** The destructor: deletes every node once, reading each one only before that. */
    method Destroy()
      requires Valid()
      modifies Nodes`deleted
      ensures forall n :: n in Nodes ==> n.deleted
    {
      var iter := Begin();
      ghost var c := 0;
      while iter.ptr != null
        invariant c <= |Nodes| && iter.ptr == NodeAt(Nodes, c)
        invariant forall i :: 0 <= i < c ==> Nodes[i].deleted
        invariant forall i :: c <= i < |Nodes| ==> !Nodes[i].deleted
        decreases |Nodes| - c
      {
        assert old(Linked(Nodes, c));
        forall i | c < i < |Nodes| ensures Nodes[i] != Nodes[c] {
          assert Apart(Nodes, c, i);
        }
        var toRelease := iter;
        iter := iter.Next();
        toRelease.ptr.Delete();
        c := c + 1;
      }
    }

    function Size(): nat
      reads this
    {
      size
    }
  }

  /** `rest` is `s` without the places from `a` up to `c`. */
  ghost predicate Remaining<T>(s: seq<T>, a: nat, c: nat, rest: seq<T>)
    requires a <= c <= |s|
  {
    && |rest| == |s| - (c - a)
    && rest[..a] == s[..a]
    && rest[a..] == s[c..]
  }

  // ----- the chains that the links spell

  /** The nodes met by `steps` moves along `next`, or along `prev`. */
  ghost function Walk<T, E>(p: Node?<T, E>, steps: nat, forward: bool, heap: set<Node<T, E>>): seq<Node<T, E>>
    reads heap
  {
    if steps == 0 || p == null || p !in heap then []
    else [p] + Walk(if forward then p.next else p.prev, steps - 1, forward, heap)
  }

  ghost function NodeSet<T, E>(nodes: seq<Node<T, E>>): set<Node<T, E>> {
    set n | n in nodes
  }

  ghost function Reverse<T>(s: seq<T>): (r: seq<T>)
    ensures |r| == |s|
    ensures forall i {:trigger r[i]} :: 0 <= i < |s| ==> r[i] == s[|s| - 1 - i]
  {
    if s == [] then [] else Reverse(s[1..]) + [s[0]]
  }

  lemma {:induction false} WalkForward<T, E>(l: List<T, E>, k: nat, more: nat)
    requires l.Valid() && k <= |l.Nodes|
    ensures Walk(List<T, E>.NodeAt(l.Nodes, k), |l.Nodes| - k + more, true, NodeSet(l.Nodes)) == l.Nodes[k..]
    decreases |l.Nodes| - k
  {
    if k < |l.Nodes| {
      WalkForward(l, k + 1, more);
      assert List<T, E>.Linked(l.Nodes, k);
    }
  }

  lemma {:induction false} WalkBackward<T, E>(l: List<T, E>, k: nat, more: nat)
    requires l.Valid() && k <= |l.Nodes|
    ensures Walk(List<T, E>.NodeAt(l.Nodes, k - 1), k + more, false, NodeSet(l.Nodes)) == Reverse(l.Nodes[..k])
    decreases k
  {
    if k > 0 {
      WalkBackward(l, k - 1, more);
      assert List<T, E>.Linked(l.Nodes, k - 1);
      assert l.Nodes[..k] == l.Nodes[..k - 1] + [l.Nodes[k - 1]];
      var r := Reverse(l.Nodes[..k]);
      assert r == [l.Nodes[k - 1]] + Reverse(l.Nodes[..k - 1]);
    }
  }

  lemma ForwardChain<T, E>(l: List<T, E>, more: nat)
    requires l.Valid()
    ensures Walk(l.head, l.size + more, true, NodeSet(l.Nodes)) == l.Nodes
  {
    WalkForward(l, 0, more);
    assert l.Nodes[0..] == l.Nodes;
  }

  lemma BackwardChain<T, E>(l: List<T, E>, more: nat)
    requires l.Valid()
    ensures Walk(l.tail, l.size + more, false, NodeSet(l.Nodes)) == Reverse(l.Nodes)
  {
    WalkBackward(l, |l.Nodes|, more);
    assert l.Nodes[..|l.Nodes|] == l.Nodes;
  }

  /** Walking from the head, and from the tail, meets the same `size` nodes in
      opposite orders, and any number of further moves meets nothing else. */
  lemma ChainsAgree<T, E>(l: List<T, E>, more: nat)
    requires l.Valid()
    ensures Walk(l.head, l.size + more, true, NodeSet(l.Nodes)) == l.Nodes
    ensures Walk(l.tail, l.size + more, false, NodeSet(l.Nodes)) == Reverse(l.Nodes)
    ensures |l.Nodes| == l.size
  {
    ForwardChain(l, more);
    BackwardChain(l, more);
  }
}
