/** The pool on the heap: a list of objects with a free flag each, and a free list of
    pointers into it. Every method computes its namesake of PoolSpec.dfy. */
module ObjectPool {
  import opened Counting
  import opened PoolSpec
  import opened TraceableList

  class Pool<T> {
    const maxSize: nat
    /** What the bound constructor arguments build. */
    const prototype: T
    const buffer: List<T, bool>
    var freeList: seq<Node<T, bool>>
    var newObjReady: bool
    /** The buffer position of each entry of the free list. */
    ghost var slots: seq<nat>

    ghost function Model(): PoolState
      reads this, buffer
    {
      PoolState(|buffer.Nodes|, slots, newObjReady)
    }

    /** The free list has no duplicates and points into the buffer, and a node's flag
        is up exactly when the node is in it. */
    ghost predicate Valid()
      reads this, buffer, buffer.Nodes
    {
      && buffer.Valid()
      && WellFormed(Model())
      && |freeList| == |slots|
      && (forall k :: 0 <= k < |slots| ==> freeList[k] == buffer.Nodes[slots[k]])
      && (forall i :: 0 <= i < |buffer.Nodes| ==> (buffer.Nodes[i].extra <==> i in slots))
    }

    constructor (maxSize: nat, prototype: T)
      ensures Valid() && fresh(buffer) && Model() == EMPTY
      ensures this.maxSize == maxSize && this.prototype == prototype
    {
      this.maxSize, this.prototype := maxSize, prototype;
      buffer := new List();
      freeList, newObjReady, slots := [], false, [];
    }

    /** Builds one object, marks it free and puts it at the back of the free list. */
    method AddFreeObject()
      requires Valid()
      modifies this, buffer, buffer.Nodes`prev, buffer.Nodes`next
      ensures Valid()
      ensures Model() == PoolState(old(Model()).size + 1, old(slots) + [old(|buffer.Nodes|)], old(newObjReady))
      ensures fresh(buffer.Nodes[old(|buffer.Nodes|)]) && buffer.Nodes[old(|buffer.Nodes|)].data == prototype
      ensures buffer.Nodes[..old(|buffer.Nodes|)] == old(buffer.Nodes)
    {
      ghost var k := |buffer.Nodes|;
      buffer.PushBack(prototype, true);
      var last := buffer.End().Prev();
      assert last.ptr == buffer.Nodes[k];
      freeList := freeList + [last.ptr];
      slots := slots + [k];
      assert k in slots;
      assert forall i :: i in slots <==> i == k || i in old(slots);
    }

    method TakeFirstFree() returns (result: Node<T, bool>)
      requires Valid() && |freeList| > 0
      modifies this, buffer.Nodes`extra
      ensures Valid()
      ensures TryBorrow(old(Model()), maxSize) == (Some(old(slots)[0]), Model())
      ensures buffer.Nodes == old(buffer.Nodes) && result == buffer.Nodes[old(slots)[0]]
      ensures forall n :: n in buffer.Nodes && n != result ==> n.extra == old(n.extra)
    {
      result := freeList[0];
      ghost var k := slots[0];
      buffer.OnlyHere(k);
      freeList := freeList[1..];
      result.extra := false;
      newObjReady := false;
      slots := slots[1..];
      assert forall i :: i in old(slots) <==> i == k || i in slots;
      assert k !in slots;
    }

    /** The rounds of `do_try_borrow_one` that find nothing free and build an object. */
    method GrowUntilFree()
      requires Valid()
      modifies this, buffer, buffer.Nodes`prev, buffer.Nodes`next
      ensures Valid() && (|freeList| > 0 || |buffer.Nodes| >= maxSize)
      ensures TryBorrow(Model(), maxSize) == TryBorrow(old(Model()), maxSize)
      ensures old(buffer.Nodes) <= buffer.Nodes
      ensures forall k :: old(|buffer.Nodes|) <= k < |buffer.Nodes| ==>
                fresh(buffer.Nodes[k]) && buffer.Nodes[k].data == prototype
    {
      while |freeList| == 0 && buffer.Size() < maxSize
        invariant Valid()
        invariant TryBorrow(Model(), maxSize) == TryBorrow(old(Model()), maxSize)
        invariant old(buffer.Nodes) <= buffer.Nodes
        invariant forall k :: old(|buffer.Nodes|) <= k < |buffer.Nodes| ==>
                  fresh(buffer.Nodes[k]) && buffer.Nodes[k].data == prototype
        decreases |freeList| == 0
      {
        ghost var was := buffer.Nodes;
        AddFreeObject();
        assert buffer.Nodes == was + [buffer.Nodes[|was|]];
      }
    }

    /** `do_try_borrow_one`. What it lends was free before or is built here; all other
        nodes keep identity, data and flag. */
    method DoTryBorrowOne() returns (result: Node?<T, bool>)
      requires Valid()
      modifies this, buffer, buffer.Nodes`prev, buffer.Nodes`next, buffer.Nodes`extra
      ensures Valid()
      ensures var (r, q) := TryBorrow(old(Model()), maxSize);
              Model() == q && (r.None? ==> result == null)
              && (r.Some? ==> r.value < |buffer.Nodes| && result == buffer.Nodes[r.value] && !result.extra)
      ensures old(buffer.Nodes) <= buffer.Nodes
      ensures forall k :: old(|buffer.Nodes|) <= k < |buffer.Nodes| ==>
                fresh(buffer.Nodes[k]) && buffer.Nodes[k].data == prototype
      ensures forall n :: n in old(buffer.Nodes) && n != result ==> n.extra == old(n.extra)
    {
      GrowUntilFree();
      if |freeList| > 0 {
        result := TakeFirstFree();
      } else {
        result := null;
      }
    }

    /** The locked part of `release_one`: `which` must be on loan. */
    method ReleaseOne(which: Node<T, bool>, ghost k: nat)
      requires Valid() && k in OnLoan(Model()) && which == buffer.Nodes[k]
      modifies this, which`extra
      ensures Valid() && Model() == Release(old(Model()), k)
      ensures buffer.Nodes == old(buffer.Nodes)
    {
      buffer.OnlyHere(k);
      freeList := [which] + freeList;
      which.extra := true;
      newObjReady := true;
      slots := [k] + slots;
      ReleaseMeaning(old(Model()), k);
      assert forall i :: i in slots <==> i == k || i in old(slots);
    }

    /** `fill_full`, which tests neither emptiness nor the bound. */
    method FillFull()
      requires Valid()
      modifies this, buffer, buffer.Nodes`prev, buffer.Nodes`next
      ensures Valid() && Model() == Fill(old(Model()), maxSize)
      ensures old(buffer.Nodes) <= buffer.Nodes
      ensures forall k :: old(|buffer.Nodes|) <= k < |buffer.Nodes| ==>
                fresh(buffer.Nodes[k]) && buffer.Nodes[k].data == prototype
    {
      var counter := 0;
      while counter < maxSize
        invariant counter <= maxSize
        invariant Valid()
        invariant Fill(Model(), maxSize - counter) == Fill(old(Model()), maxSize)
        invariant old(buffer.Nodes) <= buffer.Nodes
        invariant forall k :: old(|buffer.Nodes|) <= k < |buffer.Nodes| ==>
                  fresh(buffer.Nodes[k]) && buffer.Nodes[k].data == prototype
      {
        ghost var was := buffer.Nodes;
        AddFreeObject();
        assert buffer.Nodes == was + [buffer.Nodes[|was|]];
        counter := counter + 1;
      }
    }
  }
}
