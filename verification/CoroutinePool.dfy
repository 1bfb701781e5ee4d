/** The coroutine pool as a protocol: clients that each borrow once and release on
    every exit, over an event that forgets a notification nobody waits for.

    `Micro` is the finest grain, with a step between the failed try and the wait and
    another between the release and the notify; it is what several threads running
    the same io_context can do. `Turn` is one thread: a coroutine keeps the thread
    until it yields, so those pairs of steps are never pulled apart. */
module CoroutinePool {
  import opened Counting
  import opened PoolSpec
  import opened Loans

  datatype Client = Start | Gap | Waiting | Woken | Holding(obj: nat) | Notifying | Done

  /** `waiters` is the queue of handlers pending on the event's timer. */
  datatype State = State(pool: PoolState, waiters: seq<nat>, clients: seq<Client>)

  function Init(p: PoolState, n: nat): State {
    State(p, [], seq(n, _ => Start))
  }

  /** An empty pool, or one filled in advance: nothing is on loan yet. */
  ghost predicate InitialPool(p: PoolState, max: nat) {
    WellFormed(p) && Bounded(p, max) && OnLoan(p) == {}
  }

  predicate CanMove(c: Client) {
    !c.Waiting? && !c.Done?
  }

  function Micro(s: State, i: nat, max: nat): State
    requires i < |s.clients|
  {
    match s.clients[i]
    case Start => Try(s, i, max)
    case Woken => Try(s, i, max)
    case Gap => State(s.pool, s.waiters + [i], s.clients[i := Waiting])
    case Holding(o) => State(Release(s.pool, o), s.waiters, s.clients[i := Notifying])
    case Notifying => NotifyOne(State(s.pool, s.waiters, s.clients[i := Done]))
    case Waiting => s
    case Done => s
  }

  function Try(s: State, i: nat, max: nat): State
    requires i < |s.clients|
  {
    var (r, q) := TryBorrow(s.pool, max);
    State(q, s.waiters, s.clients[i := if r.Some? then Holding(r.value) else Gap])
  }

  /** Cancelling one wait completes the oldest pending handler, if there is one. */
  function NotifyOne(s: State): State {
    if s.waiters == [] || s.waiters[0] >= |s.clients| then s
    else State(s.pool, s.waiters[1..], s.clients[s.waiters[0] := Woken])
  }

  function Turn(s: State, i: nat, max: nat): State
    requires i < |s.clients|
  {
    var s1 := Micro(s, i, max);
    if s1.clients[i] == Gap || s1.clients[i] == Notifying then Micro(s1, i, max) else s1
  }

  // ----- what every step keeps

  function Obj(c: Client): Option<nat> {
    if c.Holding? then Some(c.obj) else None
  }

  function Held(cs: seq<Client>): (h: seq<Option<nat>>)
    ensures |h| == |cs| && forall i :: 0 <= i < |cs| ==> h[i] == Obj(cs[i])
  {
    seq(|cs|, i requires 0 <= i < |cs| => Obj(cs[i]))
  }

  ghost predicate QueueAgrees(s: State) {
    && Distinct(s.waiters)
    && (forall i :: i in s.waiters ==> i < |s.clients| && s.clients[i].Waiting?)
    && (forall i :: 0 <= i < |s.clients| && s.clients[i].Waiting? ==> i in s.waiters)
  }

  ghost predicate Inv(s: State, max: nat) {
    Bounded(s.pool, max) && LoansAgree(s.pool, Held(s.clients)) && QueueAgrees(s)
  }

  lemma InitInv(p: PoolState, n: nat, max: nat)
    requires InitialPool(p, max)
    ensures Inv(Init(p, n), max)
  {
    NobodyHolds(p, n, Held(Init(p, n).clients));
  }

  lemma FrontWaits(s: State)
    requires QueueAgrees(s) && s.waiters != []
    ensures s.waiters[0] < |s.clients| && s.clients[s.waiters[0]].Waiting?
  {
    assert s.waiters[0] in s.waiters;
  }

  lemma NotifyKeeps(s: State, max: nat)
    requires Inv(s, max)
    ensures Inv(NotifyOne(s), max)
    ensures s.waiters != [] ==>
              (s.waiters[0] < |s.clients| &&
               NotifyOne(s) == State(s.pool, s.waiters[1..], s.clients[s.waiters[0] := Woken]))
  {
    if s.waiters != [] {
      var w := s.waiters[0];
      var t := NotifyOne(s);
      FrontWaits(s);
      assert Held(t.clients) == Held(s.clients);
      assert forall i :: i in s.waiters <==> i == w || i in t.waiters;
    }
  }

  lemma MicroKeeps(s: State, i: nat, max: nat)
    requires Inv(s, max) && i < |s.clients|
    ensures Inv(Micro(s, i, max), max) && |Micro(s, i, max).clients| == |s.clients|
  {
    var t := Micro(s, i, max);
    var h := Held(s.clients);
    match s.clients[i] {
      case Start => TryKeeps(s, i, max);
      case Woken => TryKeeps(s, i, max);
      case Gap =>
        assert Held(t.clients) == h;
        assert forall j :: j in t.waiters <==> j == i || j in s.waiters;
      case Holding(o) =>
        TakeBack(s.pool, h, i);
        assert Held(t.clients) == h[i := None];
        assert t.waiters == s.waiters;
      case Notifying =>
        var s1 := State(s.pool, s.waiters, s.clients[i := Done]);
        assert Held(s1.clients) == h;
        NotifyKeeps(s1, max);
      case Waiting =>
      case Done =>
    }
  }

  lemma TryKeeps(s: State, i: nat, max: nat)
    requires Inv(s, max) && i < |s.clients| && (s.clients[i].Start? || s.clients[i].Woken?)
    ensures Inv(Try(s, i, max), max)
  {
    var t := Try(s, i, max);
    var r := TryBorrow(s.pool, max).0;
    BorrowMeaning(s.pool, max);
    Lend(s.pool, Held(s.clients), i, max);
    assert Held(t.clients) == Held(s.clients)[i := r];
    assert t.waiters == s.waiters;
  }

  // ----- one thread: no wakeup is lost

  function IsWoken(c: Client): nat {
    if c.Woken? then 1 else 0
  }

  /** Between turns nobody is halfway, and while somebody waits, every free object
      already has a woken client on its way to it. */
  ghost predicate NoLostWakeup(s: State, max: nat) {
    && (forall i :: 0 <= i < |s.clients| ==> !s.clients[i].Gap? && !s.clients[i].Notifying?)
    && (s.waiters != [] ==> s.pool.size == max && |s.pool.free| <= Sum(s.clients, IsWoken))
  }

  function Weight(c: Client): nat {
    match c
    case Start => 3
    case Woken => 3
    case Gap => 2
    case Waiting => 2
    case Holding(_) => 2
    case Notifying => 1
    case Done => 0
  }

  lemma TurnInv(s: State, i: nat, max: nat)
    requires Inv(s, max) && i < |s.clients|
    ensures Inv(Turn(s, i, max), max)
  {
    MicroKeeps(s, i, max);
    MicroKeeps(Micro(s, i, max), i, max);
  }

  lemma BorrowTurnIs(s: State, i: nat, max: nat)
    requires i < |s.clients| && (s.clients[i].Start? || s.clients[i].Woken?)
    ensures var (r, q) := TryBorrow(s.pool, max);
            Turn(s, i, max) ==
            if r.Some? then State(q, s.waiters, s.clients[i := Holding(r.value)])
            else State(q, s.waiters + [i], s.clients[i := Waiting])
  {
    assert s.clients[i := Gap][i := Waiting] == s.clients[i := Waiting];
  }

  lemma ReleaseTurnIs(s: State, i: nat, max: nat)
    requires i < |s.clients| && s.clients[i].Holding?
    ensures Turn(s, i, max) ==
            NotifyOne(State(Release(s.pool, s.clients[i].obj), s.waiters, s.clients[i := Done]))
  {
    assert s.clients[i := Notifying][i := Done] == s.clients[i := Done];
  }

  lemma TurnKeeps(s: State, i: nat, max: nat)
    requires Inv(s, max) && NoLostWakeup(s, max)
    requires i < |s.clients| && CanMove(s.clients[i])
    ensures var t := Turn(s, i, max);
            Inv(t, max) && NoLostWakeup(t, max) && |t.clients| == |s.clients| &&
            Sum(t.clients, Weight) < Sum(s.clients, Weight)
  {
    TurnInv(s, i, max);
    if s.clients[i].Holding? {
      ReleaseTurn(s, i, max);
    } else {
      BorrowTurn(s, i, max);
    }
  }

  lemma BorrowTurn(s: State, i: nat, max: nat)
    requires WellFormed(s.pool) && Bounded(s.pool, max) && NoLostWakeup(s, max)
    requires i < |s.clients| && (s.clients[i].Start? || s.clients[i].Woken?)
    ensures var t := Turn(s, i, max);
            NoLostWakeup(t, max) && |t.clients| == |s.clients| &&
            Sum(t.clients, Weight) < Sum(s.clients, Weight)
  {
    var r := TryBorrow(s.pool, max).0;
    var x := if r.Some? then Holding(r.value) else Waiting;
    BorrowTurnIs(s, i, max);
    BorrowMeaning(s.pool, max);
    GrowsOnlyWhenNoneFree(s.pool, max);
    SumUpdate(s.clients, i, x, Weight);
    SumUpdate(s.clients, i, x, IsWoken);
  }

  lemma ReleaseTurn(s: State, i: nat, max: nat)
    requires QueueAgrees(s) && NoLostWakeup(s, max)
    requires i < |s.clients| && s.clients[i].Holding?
    ensures var t := Turn(s, i, max);
            NoLostWakeup(t, max) && |t.clients| == |s.clients| &&
            Sum(t.clients, Weight) < Sum(s.clients, Weight)
  {
    ReleaseTurnIs(s, i, max);
    var done := s.clients[i := Done];
    SumUpdate(s.clients, i, Done, Weight);
    SumUpdate(s.clients, i, Done, IsWoken);
    if s.waiters != [] {
      var w := s.waiters[0];
      FrontWaits(s);
      SumUpdate(done, w, Woken, Weight);
      SumUpdate(done, w, Woken, IsWoken);
    }
  }

  ghost predicate Turns(s: State, schedule: seq<nat>, t: State, max: nat)
    decreases schedule
  {
    if schedule == [] then s == t
    else
      && schedule[0] < |s.clients| && CanMove(s.clients[schedule[0]])
      && Turns(Turn(s, schedule[0], max), schedule[1..], t, max)
  }

  lemma {:induction false} TurnsKeep(s: State, schedule: seq<nat>, t: State, max: nat)
    requires Inv(s, max) && NoLostWakeup(s, max) && Turns(s, schedule, t, max)
    ensures Inv(t, max) && NoLostWakeup(t, max) && |t.clients| == |s.clients|
    ensures |schedule| + Sum(t.clients, Weight) <= Sum(s.clients, Weight)
    decreases schedule
  {
    if schedule != [] {
      TurnKeeps(s, schedule[0], max);
      TurnsKeep(Turn(s, schedule[0], max), schedule[1..], t, max);
    }
  }

  ghost predicate Stuck(s: State) {
    forall i :: 0 <= i < |s.clients| ==> !CanMove(s.clients[i])
  }

  ghost predicate AllDone(s: State) {
    && (forall i :: 0 <= i < |s.clients| ==> s.clients[i].Done?)
    && s.waiters == []
    && OnLoan(s.pool) == {} && |s.pool.free| == s.pool.size
  }

  lemma StuckMeansIdle(s: State, max: nat)
    requires Inv(s, max) && Stuck(s)
    ensures OnLoan(s.pool) == {} && |s.pool.free| == s.pool.size
  {
    if Sum(Held(s.clients), One) > 0 {
      var i := SumPositive(Held(s.clients), One);
      assert false;
    }
    LoanCount(s.pool);
  }

  /** Nobody can move only when everybody is done: a waiter implies a client that
      holds an object or one that is about to take it. */
  lemma StuckMeansDone(s: State, max: nat)
    requires Inv(s, max) && NoLostWakeup(s, max) && max >= 1 && Stuck(s)
    ensures AllDone(s)
  {
    StuckMeansIdle(s, max);
    if Sum(s.clients, IsWoken) > 0 {
      var i := SumPositive(s.clients, IsWoken);
      assert false;
    }
    forall i | 0 <= i < |s.clients| ensures s.clients[i].Done? {
      assert !CanMove(s.clients[i]);
      assert s.clients[i].Waiting? ==> i in s.waiters;
    }
    if s.waiters != [] {
      FrontWaits(s);
    }
  }

  /** One thread, any number of clients, pool empty or filled in advance: every run
      is at most three turns a client long, loses no wakeup, lends no object twice,
      and can stop only with every client done and every object free. */
  lemma OneThreadTheorem(p: PoolState, n: nat, schedule: seq<nat>, t: State, max: nat)
    requires InitialPool(p, max) && max >= 1
    requires Turns(Init(p, n), schedule, t, max)
    ensures |schedule| <= 3 * n
    ensures |t.clients| == n && Inv(t, max) && NoLostWakeup(t, max)
    ensures Stuck(t) <==> AllDone(t)
  {
    var s := Init(p, n);
    InitInv(p, n, max);
    TurnsKeep(s, schedule, t, max);
    SumAtMost(s.clients, Weight, 3);
    if Stuck(t) {
      StuckMeansDone(t, max);
    }
  }

  // ----- reachable states, for the heap

  /** A state that one thread can reach. */
  ghost predicate Reached(s: State, max: nat) {
    exists p, n, schedule :: InitialPool(p, max) && max >= 1 && Turns(Init(p, n), schedule, s, max)
  }

  lemma {:induction false} TurnsAppend(s: State, schedule: seq<nat>, t: State, i: nat, max: nat)
    requires Turns(s, schedule, t, max) && i < |t.clients| && CanMove(t.clients[i])
    ensures Turns(s, schedule + [i], Turn(t, i, max), max)
    decreases schedule
  {
    if schedule == [] {
      assert [] + [i] == [i];
    } else {
      TurnsAppend(Turn(s, schedule[0], max), schedule[1..], t, i, max);
      assert (schedule + [i])[1..] == schedule[1..] + [i];
    }
  }

  lemma ReachedStays(s: State, i: nat, max: nat)
    requires Reached(s, max) && i < |s.clients| && CanMove(s.clients[i])
    ensures Reached(Turn(s, i, max), max)
  {
    var p, n, schedule :| InitialPool(p, max) && max >= 1 && Turns(Init(p, n), schedule, s, max);
    TurnsAppend(Init(p, n), schedule, s, i, max);
  }

  lemma ReachedMeans(s: State, max: nat)
    requires Reached(s, max)
    ensures Inv(s, max) && NoLostWakeup(s, max)
  {
    var p, n, schedule :| InitialPool(p, max) && max >= 1 && Turns(Init(p, n), schedule, s, max);
    OneThreadTheorem(p, n, schedule, s, max);
  }

  lemma StartIsReached(p: PoolState, n: nat, schedule: seq<nat>, t: State, max: nat)
    requires InitialPool(p, max) && max >= 1 && Turns(Init(p, n), schedule, t, max)
    ensures Reached(t, max)
  {
  }

  lemma HeldApart(s: State, i: nat, j: nat, max: nat)
    requires Reached(s, max) && i < j < |s.clients| && s.clients[i].Holding?
    ensures s.clients[i] != s.clients[j]
  {
    ReachedMeans(s, max);
    assert Held(s.clients)[i] != Held(s.clients)[j];
  }

  /** What a reachable state promises to the client that runs next. */
  lemma ReadyToRun(s: State, i: nat, max: nat)
    requires Reached(s, max) && i < |s.clients| && CanMove(s.clients[i])
    ensures s.clients[i].Start? || s.clients[i].Woken? || s.clients[i].Holding?
    ensures s.clients[i].Holding? ==> s.clients[i].obj in OnLoan(s.pool)
    ensures s.waiters != [] ==> s.waiters[0] < |s.clients| && s.clients[s.waiters[0]].Waiting?
  {
    ReachedMeans(s, max);
    assert s.clients[i].Holding? ==> Held(s.clients)[i].value in OnLoan(s.pool);
    if s.waiters != [] {
      FrontWaits(s);
    }
  }

  // ----- several threads: a release can fall between the failed try and the wait

  ghost predicate Micros(s: State, schedule: seq<nat>, t: State, max: nat)
    decreases schedule
  {
    if schedule == [] then s == t
    else
      && schedule[0] < |s.clients| && CanMove(s.clients[schedule[0]])
      && Micros(Micro(s, schedule[0], max), schedule[1..], t, max)
  }

  lemma {:induction false} MicrosChain(s: State, a: seq<nat>, t: State, b: seq<nat>, u: State, max: nat)
    requires Micros(s, a, t, max) && Micros(t, b, u, max)
    ensures Micros(s, a + b, u, max)
    decreases a
  {
    if a == [] {
      assert a + b == b;
    } else {
      assert (a + b)[1..] == a[1..] + b;
      MicrosChain(Micro(s, a[0], max), a[1..], t, b, u, max);
    }
  }

  lemma {:induction false} MicrosKeep(s: State, schedule: seq<nat>, t: State, max: nat)
    requires Inv(s, max) && Micros(s, schedule, t, max)
    ensures Inv(t, max) && |t.clients| == |s.clients|
    ensures |schedule| + Sum(t.clients, MicroWeight) <= Sum(s.clients, MicroWeight)
    decreases schedule
  {
    if schedule != [] {
      MicroKeeps(s, schedule[0], max);
      MicroDecreases(s, schedule[0], max);
      MicrosKeep(Micro(s, schedule[0], max), schedule[1..], t, max);
    }
  }

  /** In every state any number of threads can reach, no object is on loan to two
      clients, and a lent object is in the buffer and not free. */
  lemma NoDoubleLoan(p: PoolState, n: nat, schedule: seq<nat>, t: State, max: nat, i: nat, j: nat)
    requires InitialPool(p, max) && Micros(Init(p, n), schedule, t, max)
    requires i < |t.clients| && j < |t.clients|
    requires t.clients[i].Holding? && t.clients[i] == t.clients[j]
    ensures i == j && t.clients[i].obj !in t.pool.free && t.clients[i].obj < t.pool.size
  {
    InitInv(p, n, max);
    MicrosKeep(Init(p, n), schedule, t, max);
    var h := Held(t.clients);
    assert h[i] == h[j] && h[i].value in OnLoan(t.pool);
  }

  function MicroWeight(c: Client): nat {
    match c
    case Start => 5
    case Woken => 5
    case Gap => 4
    case Waiting => 3
    case Holding(_) => 4
    case Notifying => 3
    case Done => 0
  }

  lemma MicroDecreases(s: State, i: nat, max: nat)
    requires QueueAgrees(s) && i < |s.clients| && CanMove(s.clients[i])
    ensures var t := Micro(s, i, max);
            |t.clients| == |s.clients| && Sum(t.clients, MicroWeight) < Sum(s.clients, MicroWeight)
  {
    var t := Micro(s, i, max);
    if s.clients[i].Notifying? {
      var done := s.clients[i := Done];
      SumUpdate(s.clients, i, Done, MicroWeight);
      if s.waiters != [] {
        FrontWaits(s);
        SumUpdate(done, s.waiters[0], Woken, MicroWeight);
      }
    } else {
      assert t.clients == s.clients[i := t.clients[i]];
      SumUpdate(s.clients, i, t.clients[i], MicroWeight);
    }
  }

  /** The grain of the steps: none touches both the pool and the queue of waiters. A
      failed try changes nothing but its client, who can go on; only from there does a
      client start to wait, behind all others; a release leaves its notification for a
      later step; and nobody else changes but the oldest waiter, by a notification. */
  lemma OneThingAStep(s: State, i: nat, max: nat, k: nat)
    requires QueueAgrees(s) && i < |s.clients| && k < |s.clients| && CanMove(s.clients[i])
    ensures var t := Micro(s, i, max);
            && |t.clients| == |s.clients|
            && (t.pool == s.pool || t.waiters == s.waiters)
            && ((s.clients[i].Start? || s.clients[i].Woken?) && TryBorrow(s.pool, max).0.None? ==>
                  t.pool == s.pool && t.waiters == s.waiters && CanMove(t.clients[i]))
            && (t.clients[k].Waiting? && !s.clients[k].Waiting? ==>
                  k == i && s.clients[i].Gap? && t.waiters == s.waiters + [i])
            && (s.clients[i].Holding? ==> t.waiters == s.waiters && CanMove(t.clients[i]))
            && (k != i && t.clients[k] != s.clients[k] ==>
                  s.clients[i].Notifying? && s.waiters == [k] + t.waiters && t.clients[k].Woken?)
  {
    GrowsOnlyWhenNoneFree(s.pool, max);
    if s.waiters != [] {
      FrontWaits(s);
      assert s.waiters == [s.waiters[0]] + s.waiters[1..];
    }
  }

  /** The release of `i`, its notification, and the wait of `j`, whose try has failed: a
      notification after the wait reaches the oldest waiter, which is `j` if nobody else
      waits; one before it does not reach `j`. */
  lemma NotifyAndWait(s: State, i: nat, j: nat, max: nat)
    requires Inv(s, max) && i < |s.clients| && j < |s.clients|
    requires s.clients[i].Holding? && s.clients[j].Gap?
    ensures var queue := s.waiters + [j];
            var t := Micro(Micro(Micro(s, i, max), j, max), i, max);
            && |t.clients| == |s.clients| && queue[0] < |t.clients|
            && t == State(Release(s.pool, s.clients[i].obj), queue[1..], t.clients)
            && t.clients[i] == Done && t.clients[queue[0]] == Woken
    ensures var t := Micro(Micro(Micro(s, i, max), i, max), j, max);
            && |t.clients| == |s.clients|
            && t.clients[i] == Done && t.clients[j] == Waiting && j in t.waiters
  {
    var s1 := Micro(s, i, max);
    var s2 := Micro(s1, j, max);
    assert s1.waiters == s.waiters && s2.waiters == s.waiters + [j];
    assert s2.clients[i] == Notifying;
    if s.waiters != [] {
      FrontWaits(s);
      assert s2.waiters[0] == s.waiters[0];
    }
  }

  /** Two clients and one object, the release and its notification around the wait of
      client 1: it is woken, and then takes the object. */
  lemma NotifiedInTimeRun()
    ensures Micros(Init(EMPTY, 2), [0, 1, 0, 1, 0], State(PoolState(1, [0], true), [], [Done, Woken]), 1)
    ensures Micros(Init(EMPTY, 2), [0, 1, 0, 1, 0, 1], State(PoolState(1, [], false), [], [Done, Holding(0)]), 1)
  {
  }

  /** A turn of one thread is one or two steps of the finer protocol in a row. */
  lemma TurnIsMicros(s: State, i: nat, max: nat) returns (schedule: seq<nat>)
    requires i < |s.clients| && CanMove(s.clients[i])
    ensures Micros(s, schedule, Turn(s, i, max), max)
    ensures schedule == [i] || schedule == [i, i]
  {
    var s1 := Micro(s, i, max);
    assert |s1.clients| == |s.clients|;
    if s1.clients[i] == Gap || s1.clients[i] == Notifying {
      schedule := [i, i];
      assert Micros(s1, schedule[1..], Turn(s, i, max), max) by {
        assert schedule[1..][1..] == [];
      }
    } else {
      schedule := [i];
    }
  }

  /** A client sleeps for good although every object is free. */
  ghost predicate LostWakeup(s: State) {
    Stuck(s) && s.waiters != [] && OnLoan(s.pool) == {}
  }

  ghost predicate CanLoseWakeup(p: PoolState, n: nat, max: nat) {
    exists schedule, t :: Micros(Init(p, n), schedule, t, max) && LostWakeup(t)
  }

  /** With no more clients than objects nobody ever fails to borrow. */
  ghost predicate NobodyFailed(s: State) {
    forall i :: 0 <= i < |s.clients| ==>
      s.clients[i].Start? || s.clients[i].Holding? || s.clients[i].Notifying? || s.clients[i].Done?
  }

  lemma FewClientsNeverFail(s: State, i: nat, max: nat)
    requires Inv(s, max) && NobodyFailed(s) && |s.clients| <= max
    requires i < |s.clients| && CanMove(s.clients[i])
    ensures NobodyFailed(Micro(s, i, max))
  {
    if s.clients[i].Start? && TryBorrow(s.pool, max).0.None? {
      FailureMeansOthersHold(s.pool, Held(s.clients), i, max);
    }
    if s.waiters != [] {
      FrontWaits(s);
    }
  }

  lemma {:induction false} FewClientsKeep(s: State, schedule: seq<nat>, t: State, max: nat)
    requires Inv(s, max) && NobodyFailed(s) && |s.clients| <= max
    requires Micros(s, schedule, t, max)
    ensures NobodyFailed(t) && Inv(t, max)
    decreases schedule
  {
    if schedule != [] {
      FewClientsNeverFail(s, schedule[0], max);
      MicroKeeps(s, schedule[0], max);
      FewClientsKeep(Micro(s, schedule[0], max), schedule[1..], t, max);
    }
  }

  /** The first `k` clients borrow one after the other. */
  lemma {:induction false} BorrowInTurn(s: State, k: nat, max: nat) returns (schedule: seq<nat>, t: State)
    requires Inv(s, max) && s.waiters == [] && k <= |s.clients| && k <= max
    requires forall i :: 0 <= i < |s.clients| ==> s.clients[i].Start?
    ensures Micros(s, schedule, t, max) && Inv(t, max)
    ensures |t.clients| == |s.clients| && t.waiters == []
    ensures forall i :: 0 <= i < k ==> t.clients[i].Holding?
    ensures forall i :: k <= i < |s.clients| ==> t.clients[i].Start?
  {
    if k == 0 {
      schedule, t := [], s;
    } else {
      var before, u := BorrowInTurn(s, k - 1, max);
      SucceedsBelow(u, k - 1, max);
      t := Micro(u, k - 1, max);
      MicroKeeps(u, k - 1, max);
      MicrosStep(u, k - 1, max);
      MicrosChain(s, before, u, [k - 1], t, max);
      schedule := before + [k - 1];
    }
  }

  lemma MicrosStep(s: State, i: nat, max: nat)
    requires i < |s.clients| && CanMove(s.clients[i])
    ensures Micros(s, [i], Micro(s, i, max), max)
  {
  }

  /** With fewer than `max` holders a borrow succeeds, with `max` holders it fails. */
  lemma SucceedsBelow(s: State, k: nat, max: nat)
    requires Inv(s, max) && k <= |s.clients| && k <= max
    requires forall i :: 0 <= i < k ==> s.clients[i].Holding?
    requires forall i :: k <= i < |s.clients| ==> !s.clients[i].Holding?
    ensures TryBorrow(s.pool, max).0.Some? <==> k < max
  {
    var h := Held(s.clients);
    BorrowMeaning(s.pool, max);
    SumSplit(h, One, k);
    forall i | 0 <= i < |h| - k ensures One(h[k..][i]) == 0 {
      assert h[k..][i] == h[k + i];
    }
    SumConstant(h[..k], 1);
    SumConstant(h[k..], 0);
  }

  lemma {:induction false} SumConstant(h: seq<Option<nat>>, each: nat)
    requires forall i :: 0 <= i < |h| ==> One(h[i]) == each
    ensures Sum(h, One) == each * |h|
  {
    if h != [] {
      SumConstant(h[1..], each);
    }
  }

  /** While client `m` stands between its failed try and its wait, all the others can
      run to the end, and their notifications reach nobody. */
  ghost predicate OnlyGap(s: State, m: nat) {
    && s.waiters == [] && m < |s.clients| && s.clients[m].Gap?
    && (forall i :: 0 <= i < |s.clients| && i != m ==>
          s.clients[i].Start? || s.clients[i].Holding? || s.clients[i].Notifying? || s.clients[i].Done?)
  }

  lemma {:induction false} FinishOthers(s: State, m: nat, max: nat) returns (schedule: seq<nat>, t: State)
    requires Inv(s, max) && OnlyGap(s, m) && max >= 1
    ensures Micros(s, schedule, t, max) && Inv(t, max) && OnlyGap(t, m)
    ensures forall i :: 0 <= i < |t.clients| && i != m ==> t.clients[i].Done?
    decreases Sum(s.clients, MicroWeight)
  {
    var i: nat;
    if k: nat :| k < |s.clients| && (s.clients[k].Holding? || s.clients[k].Notifying?) {
      i := k;
    } else if k: nat :| k < |s.clients| && s.clients[k].Start? {
      i := k;
      SucceedsBelow(s, 0, max);
    } else {
      schedule, t := [], s;
      return;
    }
    var u := Micro(s, i, max);
    MicroKeeps(s, i, max);
    MicroDecreases(s, i, max);
    assert OnlyGap(u, m);
    var rest;
    rest, t := FinishOthers(u, m, max);
    schedule := [i] + rest;
    assert schedule[1..] == rest;
  }

  /** `max` clients take every object, and one more finds none. */
  lemma ReachGap(s: State, max: nat) returns (schedule: seq<nat>, u: State)
    requires Inv(s, max) && s.waiters == [] && max < |s.clients|
    requires forall i :: 0 <= i < |s.clients| ==> s.clients[i].Start?
    ensures Micros(s, schedule, u, max) && Inv(u, max) && OnlyGap(u, max)
  {
    var a, t := BorrowInTurn(s, max, max);
    SucceedsBelow(t, max, max);
    u := Micro(t, max, max);
    MicroKeeps(t, max, max);
    MicrosStep(t, max, max);
    MicrosChain(s, a, t, [max], u, max);
    schedule := a + [max];
  }

  /** The others finish first, and only then does that one start to wait. */
  lemma GapLosesWakeup(u: State, m: nat, max: nat) returns (schedule: seq<nat>, w: State)
    requires Inv(u, max) && OnlyGap(u, m) && max >= 1
    ensures Micros(u, schedule, w, max) && LostWakeup(w)
  {
    var b, v := FinishOthers(u, m, max);
    w := Micro(v, m, max);
    MicroKeeps(v, m, max);
    MicrosStep(v, m, max);
    MicrosChain(u, b, v, [m], w, max);
    schedule := b + [m];
    assert Stuck(w);
    StuckMeansIdle(w, max);
  }

  /** With more clients than objects there is a run that loses a wakeup. */
  lemma LosingRun(p: PoolState, n: nat, max: nat)
    requires InitialPool(p, max) && 1 <= max < n
    ensures CanLoseWakeup(p, n, max)
  {
    InitInv(p, n, max);
    var a, u := ReachGap(Init(p, n), max);
    var b, w := GapLosesWakeup(u, max, max);
    MicrosChain(Init(p, n), a, u, b, w, max);
  }

  /** Several threads may lose a wakeup exactly when clients outnumber objects. */
  lemma SeveralThreadsTheorem(p: PoolState, n: nat, max: nat)
    requires InitialPool(p, max) && max >= 1
    ensures CanLoseWakeup(p, n, max) <==> n > max
  {
    if n > max {
      LosingRun(p, n, max);
    } else {
      forall schedule, t | Micros(Init(p, n), schedule, t, max) ensures !LostWakeup(t) {
        InitInv(p, n, max);
        FewClientsKeep(Init(p, n), schedule, t, max);
        if t.waiters != [] {
          FrontWaits(t);
        }
      }
    }
  }

  /** They, too, come to rest after at most five steps a client, lending nothing twice. */
  lemma SeveralThreadsEnd(p: PoolState, n: nat, schedule: seq<nat>, t: State, max: nat)
    requires InitialPool(p, max) && Micros(Init(p, n), schedule, t, max)
    ensures |schedule| <= 5 * n && |t.clients| == n && Inv(t, max)
  {
    InitInv(p, n, max);
    MicrosKeep(Init(p, n), schedule, t, max);
    SumAtMost(Init(p, n).clients, MicroWeight, 5);
  }
}
