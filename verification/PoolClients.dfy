/** The code between two yields, or inside one critical section, run on the heap pool:
    each method takes exactly one step of the protocol, and `Run` any run of it. */
module PoolClients {
  import opened Counting
  import opened PoolSpec
  import opened Loans
  import opened TraceableList
  import opened ObjectPool
  import Event
  import C = CoroutinePool
  import T = ThreadedPool

  /** The pool that construction leaves, filled in advance or not. */
  function StartPool(maxSize: nat, filled: bool): PoolState {
    if filled then Fill(EMPTY, maxSize) else EMPTY
  }

  lemma StartPoolIsInitial(maxSize: nat, filled: bool)
    requires maxSize >= 1
    ensures C.InitialPool(StartPool(maxSize, filled), maxSize)
    ensures |StartPool(maxSize, filled).free| == if filled then maxSize else 0
  {
    FillKeepsBoundIffEmpty(EMPTY, maxSize);
    FillMeaning(EMPTY, maxSize);
  }

  /** A client has the node of the object that the model says it holds, or null. */
  ghost predicate Has<D>(node: Node?<D, bool>, obj: Option<nat>, nodes: seq<Node<D, bool>>) {
    match obj
    case None => node == null
    case Some(k) => k < |nodes| && node == nodes[k]
  }

  ghost predicate AllHave<D>(borrowed: seq<Node?<D, bool>>, held: seq<Option<nat>>, nodes: seq<Node<D, bool>>) {
    |borrowed| == |held| && forall i :: 0 <= i < |held| ==> Has(borrowed[i], held[i], nodes)
  }

  /** One client's object changes, and the buffer may have grown. */
  lemma HandOver<D>(borrowed: seq<Node?<D, bool>>, held: seq<Option<nat>>, nodes: seq<Node<D, bool>>,
                    more: seq<Node<D, bool>>, i: nat, node: Node?<D, bool>, obj: Option<nat>)
    requires AllHave(borrowed, held, nodes) && nodes <= more
    requires i < |held| && Has(node, obj, more)
    ensures AllHave(borrowed[i := node], held[i := obj], more)
  {
  }

  /** `try_borrow_one` for client `i`, with what each client then has. */
  method BorrowFor<D>(pool: Pool<D>, borrowed: seq<Node?<D, bool>>, i: nat, ghost held: seq<Option<nat>>)
    returns (after: seq<Node?<D, bool>>, ghost r: Option<nat>)
    requires pool.Valid() && AllHave(borrowed, held, pool.buffer.Nodes) && i < |held|
    modifies pool, pool.buffer, pool.buffer.Nodes
    ensures pool.Valid() && (r, pool.Model()) == TryBorrow(old(pool.Model()), pool.maxSize)
    ensures AllHave(after, held[i := r], pool.buffer.Nodes)
    ensures old(pool.buffer.Nodes) <= pool.buffer.Nodes
    ensures forall k :: old(|pool.buffer.Nodes|) <= k < |pool.buffer.Nodes| ==> fresh(pool.buffer.Nodes[k])
  {
    var result := pool.DoTryBorrowOne();
    r := TryBorrow(old(pool.Model()), pool.maxSize).0;
    HandOver(borrowed, held, old(pool.buffer.Nodes), pool.buffer.Nodes, i, result, r);
    after := borrowed[i := result];
  }

  /** The locked part of `release_one` for client `i`. */
  method ReleaseFor<D>(pool: Pool<D>, borrowed: seq<Node?<D, bool>>, i: nat, ghost held: seq<Option<nat>>)
    returns (after: seq<Node?<D, bool>>)
    requires pool.Valid() && AllHave(borrowed, held, pool.buffer.Nodes)
    requires i < |held| && held[i].Some? && held[i].value in OnLoan(pool.Model())
    modifies pool, pool.buffer.Nodes
    ensures pool.Valid() && pool.Model() == Release(old(pool.Model()), held[i].value)
    ensures AllHave(after, held[i := None], pool.buffer.Nodes)
    ensures pool.buffer.Nodes == old(pool.buffer.Nodes)
  {
    assert Has(borrowed[i], held[i], pool.buffer.Nodes);
    pool.ReleaseOne(borrowed[i], held[i].value);
    HandOver(borrowed, held, pool.buffer.Nodes, pool.buffer.Nodes, i, null, None);
    after := borrowed[i := null];
  }

  /** `borrowed[i]` is the object that coroutine `i` has, null while it has none. */
  class Coroutines<D> {
    const pool: Pool<D>
    const event: Event.Event
    var borrowed: seq<Node?<D, bool>>
    ghost var clients: seq<C.Client>

    ghost function Model(): C.State
      reads this, pool, pool.buffer, event
    {
      C.State(pool.Model(), event.pending, clients)
    }

    ghost predicate Valid()
      reads this, pool, pool.buffer, pool.buffer.Nodes, event
    {
      && pool.Valid()
      && (forall k :: 0 <= k < |event.pending| ==> event.pending[k] < |clients|)
      && AllHave(borrowed, C.Held(clients), pool.buffer.Nodes)
    }

    /** `n` coroutines over a new pool, filled in advance or not. */
    constructor (n: nat, maxSize: nat, prototype: D, filled: bool)
      requires maxSize >= 1
      ensures Valid() && pool.maxSize == maxSize
      ensures fresh(pool) && fresh(pool.buffer) && fresh(pool.buffer.Nodes) && fresh(event)
      ensures Model() == C.Init(StartPool(maxSize, filled), n)
    {
      var p := new Pool<D>(maxSize, prototype);
      if filled {
        p.FillFull();
      }
      pool := p;
      event := new Event.Event();
      borrowed := seq(n, _ => null);
      clients := seq(n, _ => C.Start);
    }

    /** `borrow_one` up to its next yield, from its start or from a wakeup. */
    method BorrowUntilYield(i: nat)
      requires Valid() && i < |clients| && (clients[i].Start? || clients[i].Woken?)
      modifies this, pool, pool.buffer, pool.buffer.Nodes, event
      ensures Valid() && Model() == C.Turn(old(Model()), i, pool.maxSize)
      ensures borrowed[i] == null ==> clients[i].Waiting? && event.pending == old(event.pending) + [i]
      ensures borrowed[i] != null ==> clients[i].Holding? && event.pending == old(event.pending)
      ensures old(pool.buffer.Nodes) <= pool.buffer.Nodes
      ensures forall k :: old(|pool.buffer.Nodes|) <= k < |pool.buffer.Nodes| ==> fresh(pool.buffer.Nodes[k])
    {
      C.BorrowTurnIs(Model(), i, pool.maxSize);
      ghost var r := BorrowNow(i);
      assert Has(borrowed[i], r, pool.buffer.Nodes);
      if borrowed[i] == null {
        clients := clients[i := C.Waiting];
        event.AsyncWait(i);
      } else {
        clients := clients[i := C.Holding(r.value)];
      }
      assert C.Held(clients) == C.Held(old(clients))[i := r];
    }

    /** `try_borrow_one` for coroutine `i`: what the pool and the coroutine then have. */
    method BorrowNow(i: nat) returns (ghost r: Option<nat>)
      requires pool.Valid() && AllHave(borrowed, C.Held(clients), pool.buffer.Nodes) && i < |clients|
      modifies this`borrowed, pool, pool.buffer, pool.buffer.Nodes
      ensures pool.Valid() && (r, pool.Model()) == TryBorrow(old(pool.Model()), pool.maxSize)
      ensures AllHave(borrowed, C.Held(clients)[i := r], pool.buffer.Nodes)
      ensures old(pool.buffer.Nodes) <= pool.buffer.Nodes
      ensures forall k :: old(|pool.buffer.Nodes|) <= k < |pool.buffer.Nodes| ==> fresh(pool.buffer.Nodes[k])
    {
      borrowed, r := BorrowFor(pool, borrowed, i, C.Held(clients));
    }

    /** `release_one`, which never yields. */
    method Release(i: nat)
      requires Valid() && C.Reached(Model(), pool.maxSize) && i < |clients| && clients[i].Holding?
      modifies this, pool, pool.buffer.Nodes, event
      ensures Valid() && Model() == C.Turn(old(Model()), i, pool.maxSize)
      ensures pool.buffer.Nodes == old(pool.buffer.Nodes)
    {
      C.ReleaseTurnIs(Model(), i, pool.maxSize);
      C.ReadyToRun(Model(), i, pool.maxSize);
      borrowed := ReleaseFor(pool, borrowed, i, C.Held(clients));
      clients := clients[i := C.Done];
      assert C.Held(clients) == C.Held(old(clients))[i := None];
      var woken := event.NotifyOne();
      if woken.Some? {
        clients := clients[woken.value := C.Woken];
        assert C.Held(clients) == C.Held(old(clients))[i := None];
      }
    }

    /** No two coroutines have the same object. */
    lemma HoldersApart(i: nat, j: nat)
      requires Valid() && C.Reached(Model(), pool.maxSize)
      requires i < j < |clients| && borrowed[i] != null
      ensures borrowed[i] != borrowed[j]
    {
      C.HeldApart(Model(), i, j, pool.maxSize);
      pool.buffer.OnlyHere(clients[i].obj);
    }

    /** Whatever order the io_context resumes the coroutines in, the heap goes through
        the states of the protocol. */
    method Run(schedule: seq<nat>, ghost t: C.State)
      requires Valid() && C.Reached(Model(), pool.maxSize)
      requires C.Turns(Model(), schedule, t, pool.maxSize)
      modifies this, pool, pool.buffer, pool.buffer.Nodes, event
      ensures Valid() && Model() == t
    {
      var at := 0;
      while at < |schedule|
        invariant at <= |schedule|
        invariant Valid() && C.Reached(Model(), pool.maxSize)
        invariant C.Turns(Model(), schedule[at..], t, pool.maxSize)
        invariant old(pool.buffer.Nodes) <= pool.buffer.Nodes
        invariant forall k :: old(|pool.buffer.Nodes|) <= k < |pool.buffer.Nodes| ==> fresh(pool.buffer.Nodes[k])
      {
        var i := schedule[at];
        assert schedule[at..][0] == i && schedule[at..][1..] == schedule[at + 1..];
        Turn(i);
        at := at + 1;
      }
    }

    /** The coroutine that the io_context resumes. */
    method Turn(i: nat)
      requires Valid() && C.Reached(Model(), pool.maxSize) && i < |clients| && C.CanMove(clients[i])
      modifies this, pool, pool.buffer, pool.buffer.Nodes, event
      ensures Valid() && Model() == C.Turn(old(Model()), i, pool.maxSize) && C.Reached(Model(), pool.maxSize)
      ensures old(pool.buffer.Nodes) <= pool.buffer.Nodes
      ensures forall k :: old(|pool.buffer.Nodes|) <= k < |pool.buffer.Nodes| ==> fresh(pool.buffer.Nodes[k])
    {
      C.ReadyToRun(Model(), i, pool.maxSize);
      C.ReachedStays(Model(), i, pool.maxSize);
      if borrowed[i] == null {
        BorrowUntilYield(i);
      } else {
        Release(i);
      }
    }
  }

  /** `borrowed[i]` as above; `failed[i]` says that the first try of thread `i` failed. */
  class Threads<D> {
    const pool: Pool<D>
    var borrowed: seq<Node?<D, bool>>
    var failed: seq<bool>
    ghost var clients: seq<T.Client>

    ghost function Model(): T.State
      reads this, pool, pool.buffer
    {
      T.State(pool.Model(), clients)
    }

    ghost predicate Valid()
      reads this, pool, pool.buffer, pool.buffer.Nodes
    {
      && pool.Valid()
      && |failed| == |clients|
      && AllHave(borrowed, T.Held(clients), pool.buffer.Nodes)
      && (forall i :: 0 <= i < |clients| ==>
            (clients[i].Start? ==> !failed[i]) && (T.HasFailed(clients[i]) ==> failed[i]))
    }

    constructor (n: nat, maxSize: nat, prototype: D)
      ensures Valid() && pool.maxSize == maxSize && Model() == T.Init(n)
      ensures fresh(pool) && fresh(pool.buffer) && fresh(pool.buffer.Nodes)
    {
      pool := new Pool<D>(maxSize, prototype);
      borrowed := seq(n, _ => null);
      failed := seq(n, _ => false);
      clients := seq(n, _ => T.Start);
    }

    /** The first try of `borrow_one`, under its own lock. The thread has an object or
        it has not; either way it stays awake and can go on. */
    method TryBorrowOne(i: nat)
      requires Valid() && i < |clients| && clients[i].Start?
      modifies this, pool, pool.buffer, pool.buffer.Nodes
      ensures Valid() && Model() == T.Step(old(Model()), T.Act(i), pool.maxSize)
      ensures clients == old(clients)[i := clients[i]] && T.Enabled(Model(), T.Act(i))
      ensures if borrowed[i] == null then clients[i].Failed? else clients[i].Holding?
      ensures old(pool.buffer.Nodes) <= pool.buffer.Nodes
      ensures forall k :: old(|pool.buffer.Nodes|) <= k < |pool.buffer.Nodes| ==> fresh(pool.buffer.Nodes[k])
    {
      ghost var r := BorrowNow(i);
      failed := failed[i := borrowed[i] == null];
      clients := clients[i := if r.Some? then T.Holding(r.value) else T.Failed];
      assert T.Held(clients) == T.Held(old(clients))[i := r];
    }

    /** The waiting part of `borrow_one` with the lock held: sleep while the flag is
        clear, else borrow. The borrow cannot fail, so nothing is ever thrown. */
    method CheckFlag(i: nat) returns (threw: bool)
      requires Valid() && T.Reached(Model(), pool.maxSize) && i < |clients| && (clients[i].Failed? || clients[i].Woken?)
      modifies this, pool, pool.buffer, pool.buffer.Nodes
      ensures Valid() && Model() == T.Step(old(Model()), T.Act(i), pool.maxSize)
      ensures !threw && clients == old(clients)[i := clients[i]]
      ensures if old(pool.newObjReady) then borrowed[i] != null && clients[i].Holding?
              else clients[i].Sleeping? && pool.Model() == old(pool.Model())
      ensures old(pool.buffer.Nodes) <= pool.buffer.Nodes
      ensures forall k :: old(|pool.buffer.Nodes|) <= k < |pool.buffer.Nodes| ==> fresh(pool.buffer.Nodes[k])
    {
      T.ReadyToRun(Model(), i, pool.maxSize);
      T.CheckIs(Model(), i, pool.maxSize);
      threw := false;
      if !pool.newObjReady {
        clients := clients[i := T.Sleeping];
        assert T.Held(clients) == T.Held(old(clients));
        return;
      }
      ghost var r := BorrowNow(i);
      if borrowed[i] == null {
        threw := true;
      }
      clients := clients[i := T.Holding(r.value)];
      assert T.Held(clients) == T.Held(old(clients))[i := r];
    }

    /** `try_borrow_one` for thread `i`: what the pool and the thread then have. */
    method BorrowNow(i: nat) returns (ghost r: Option<nat>)
      requires pool.Valid() && AllHave(borrowed, T.Held(clients), pool.buffer.Nodes) && i < |clients|
      modifies this`borrowed, pool, pool.buffer, pool.buffer.Nodes
      ensures pool.Valid() && (r, pool.Model()) == TryBorrow(old(pool.Model()), pool.maxSize)
      ensures AllHave(borrowed, T.Held(clients)[i := r], pool.buffer.Nodes)
      ensures old(pool.buffer.Nodes) <= pool.buffer.Nodes
      ensures forall k :: old(|pool.buffer.Nodes|) <= k < |pool.buffer.Nodes| ==> fresh(pool.buffer.Nodes[k])
    {
      borrowed, r := BorrowFor(pool, borrowed, i, T.Held(clients));
    }

    /** The locked part of `release_one`. */
    method ReleaseOne(i: nat)
      requires Valid() && T.Reached(Model(), pool.maxSize) && i < |clients| && clients[i].Holding?
      modifies this, pool, pool.buffer.Nodes
      ensures Valid() && Model() == T.Step(old(Model()), T.Act(i), pool.maxSize)
      ensures clients == old(clients)[i := T.Notifying] && pool.newObjReady && borrowed[i] == null
      ensures pool.buffer.Nodes == old(pool.buffer.Nodes)
    {
      T.ReadyToRun(Model(), i, pool.maxSize);
      borrowed := ReleaseFor(pool, borrowed, i, T.Held(clients));
      clients := clients[i := T.Notifying];
      assert T.Held(clients) == T.Held(old(clients))[i := None];
    }

    /** No two threads have the same object. */
    lemma HoldersApart(i: nat, j: nat)
      requires Valid() && T.Reached(Model(), pool.maxSize)
      requires i < j < |clients| && borrowed[i] != null
      ensures borrowed[i] != borrowed[j]
    {
      T.HeldApart(Model(), i, j, pool.maxSize);
      pool.buffer.OnlyHere(clients[i].obj);
    }

    /** What the scheduler and the condition variable do next: one critical section,
        one notification that wakes the thread `m` names, or one spurious wakeup. */
    method Move(m: T.Move)
      requires Valid() && T.Reached(Model(), pool.maxSize) && T.Enabled(Model(), m)
      modifies this, pool, pool.buffer, pool.buffer.Nodes
      ensures Valid() && Model() == T.Step(old(Model()), m, pool.maxSize) && T.Reached(Model(), pool.maxSize)
      ensures old(pool.buffer.Nodes) <= pool.buffer.Nodes
      ensures forall k :: old(|pool.buffer.Nodes|) <= k < |pool.buffer.Nodes| ==> fresh(pool.buffer.Nodes[k])
    {
      T.ReachedStays(Model(), m, pool.maxSize);
      match m {
        case Act(i) => CriticalSection(i);
        case _ => Signal(m);
      }
    }

    /** The next critical section of thread `i`, chosen by what the thread knows. */
    method CriticalSection(i: nat)
      requires Valid() && T.Reached(Model(), pool.maxSize) && T.Enabled(Model(), T.Act(i))
      modifies this, pool, pool.buffer, pool.buffer.Nodes
      ensures Valid() && Model() == T.Step(old(Model()), T.Act(i), pool.maxSize)
      ensures old(pool.buffer.Nodes) <= pool.buffer.Nodes
      ensures forall k :: old(|pool.buffer.Nodes|) <= k < |pool.buffer.Nodes| ==> fresh(pool.buffer.Nodes[k])
    {
      if borrowed[i] != null {
        ReleaseOne(i);
      } else if failed[i] {
        var threw := CheckFlag(i);
      } else {
        TryBorrowOne(i);
      }
    }

    /** A notification outside the lock or a spurious wakeup: only sleepers and the
        notifying thread change. */
    method Signal(m: T.Move)
      requires Valid() && T.Enabled(Model(), m) && !m.Act?
      modifies this
      ensures Valid() && Model() == T.Step(old(Model()), m, pool.maxSize)
    {
      clients := T.Step(Model(), m, pool.maxSize).clients;
      assert T.Held(clients) == T.Held(old(clients));
    }

    /** Whatever the interleaving, the heap goes through the states of the protocol. */
    method Run(moves: seq<T.Move>, ghost t: T.State)
      requires Valid() && T.Reached(Model(), pool.maxSize)
      requires T.Run(Model(), moves, t, pool.maxSize)
      modifies this, pool, pool.buffer, pool.buffer.Nodes
      ensures Valid() && Model() == t
    {
      var at := 0;
      while at < |moves|
        invariant at <= |moves|
        invariant Valid() && T.Reached(Model(), pool.maxSize)
        invariant T.Run(Model(), moves[at..], t, pool.maxSize)
        invariant old(pool.buffer.Nodes) <= pool.buffer.Nodes
        invariant forall k :: old(|pool.buffer.Nodes|) <= k < |pool.buffer.Nodes| ==> fresh(pool.buffer.Nodes[k])
      {
        var m := moves[at];
        assert moves[at..][0] == m && moves[at..][1..] == moves[at + 1..];
        Move(m);
        at := at + 1;
      }
    }
  }

  /** The heap under one thread: any legal schedule from construction on ends in the
      state of the protocol, after at most three turns a coroutine; it can stop only with
      every coroutine done and every object free, and no two coroutines share an object. */
  method RunCoroutines<D>(n: nat, maxSize: nat, prototype: D, filled: bool, schedule: seq<nat>, ghost t: C.State)
    returns (c: Coroutines<D>)
    requires maxSize >= 1 && C.Turns(C.Init(StartPool(maxSize, filled), n), schedule, t, maxSize)
    ensures c.Valid() && c.Model() == t && c.pool.maxSize == maxSize
    ensures |schedule| <= 3 * n
    ensures C.Stuck(c.Model()) <==> C.AllDone(c.Model())
    ensures forall i, j :: 0 <= i < j < |c.borrowed| && c.borrowed[i] != null ==> c.borrowed[i] != c.borrowed[j]
  {
    StartPoolIsInitial(maxSize, filled);
    c := new Coroutines<D>(n, maxSize, prototype, filled);
    C.StartIsReached(StartPool(maxSize, filled), n, [], c.Model(), maxSize);
    c.Run(schedule, t);
    C.OneThreadTheorem(StartPool(maxSize, filled), n, schedule, t, maxSize);
    C.StartIsReached(StartPool(maxSize, filled), n, schedule, t, maxSize);
    forall i, j | 0 <= i < j < |c.borrowed| && c.borrowed[i] != null ensures c.borrowed[i] != c.borrowed[j] {
      c.HoldersApart(i, j);
    }
  }

  /** The heap under many threads: any interleaving from construction on ends in the state
      of the protocol; the flag then stands only over a free object, no thread has thrown,
      no two share an object, and the run can stop only with everything done and free. */
  method RunThreads<D>(n: nat, maxSize: nat, prototype: D, moves: seq<T.Move>, ghost t: T.State)
    returns (c: Threads<D>)
    requires maxSize >= 1 && T.Run(T.Init(n), moves, t, maxSize)
    ensures c.Valid() && c.Model() == t && c.pool.maxSize == maxSize
    ensures |moves| <= 5 * n + 2 * Sum(moves, T.IsSpurious)
    ensures T.Stuck(c.Model()) <==> T.AllDone(c.Model())
    ensures c.pool.newObjReady ==> c.pool.freeList != []
    ensures |c.clients| == n && forall i :: 0 <= i < n ==> !c.clients[i].Crashed?
    ensures forall i, j :: 0 <= i < j < |c.borrowed| && c.borrowed[i] != null ==> c.borrowed[i] != c.borrowed[j]
  {
    c := new Threads<D>(n, maxSize, prototype);
    T.StartIsReached(n, [], c.Model(), maxSize);
    c.Run(moves, t);
    T.ThreadedTheorem(n, moves, t, maxSize);
    T.StartIsReached(n, moves, t, maxSize);
    forall i, j | 0 <= i < j < |c.borrowed| && c.borrowed[i] != null ensures c.borrowed[i] != c.borrowed[j] {
      c.HoldersApart(i, j);
    }
  }
}
