/** The threaded pool as a protocol. A step is one critical section of
    `buffer_mutex`, one `notify_one` outside the lock, or one spurious wakeup;
    clients borrow once and then release. */
module ThreadedPool {
  import opened Counting
  import opened PoolSpec
  import opened Loans

  /** `Failed` stands between the failed first try and the second locking of the
      mutex; `Crashed` has thrown `logic_error`. */
  datatype Client = Start | Failed | Sleeping | Woken | Holding(obj: nat) | Notifying | Done | Crashed

  datatype State = State(pool: PoolState, clients: seq<Client>)

  /** `Notify(i, w)`: client `i` notifies and client `w`, if any, is the one woken. */
  datatype Move = Act(i: nat) | Notify(i: nat, woken: Option<nat>) | Spurious(i: nat)

  function Init(n: nat): State {
    State(EMPTY, seq(n, _ => Start))
  }

  ghost predicate SomeSleeper(s: State) {
    exists i :: 0 <= i < |s.clients| && s.clients[i].Sleeping?
  }

  ghost predicate Enabled(s: State, m: Move) {
    && m.i < |s.clients|
    && match m
       case Act(i) =>
         var c := s.clients[i];
         c.Start? || c.Failed? || c.Woken? || c.Holding?
       case Notify(i, w) =>
         && s.clients[i].Notifying?
         && (if w.Some? then w.value < |s.clients| && s.clients[w.value].Sleeping? else !SomeSleeper(s))
       case Spurious(i) => s.clients[i].Sleeping?
  }

  ghost function Step(s: State, m: Move, max: nat): State
    requires Enabled(s, m)
  {
    match m
    case Act(i) => (
      match s.clients[i]
      case Start =>
        var (r, q) := TryBorrow(s.pool, max);
        State(q, s.clients[i := if r.Some? then Holding(r.value) else Failed])
      case Holding(o) => State(Release(s.pool, o), s.clients[i := Notifying])
      case _ => CheckFlag(s, i, max))
    case Notify(i, w) =>
      var cs := s.clients[i := Done];
      State(s.pool, if w.Some? then cs[w.value := Woken] else cs)
    case Spurious(i) => State(s.pool, s.clients[i := Woken])
  }

  /** One evaluation of the wait's predicate with the lock held: sleep while the
      flag is clear, else borrow in the same critical section. */
  function CheckFlag(s: State, i: nat, max: nat): State
    requires i < |s.clients|
  {
    if !s.pool.ready then State(s.pool, s.clients[i := Sleeping])
    else
      var (r, q) := TryBorrow(s.pool, max);
      State(q, s.clients[i := if r.Some? then Holding(r.value) else Crashed])
  }

  // ----- what every step keeps

  function Obj(c: Client): Option<nat> {
    if c.Holding? then Some(c.obj) else None
  }

  function Held(cs: seq<Client>): (h: seq<Option<nat>>)
    ensures |h| == |cs| && forall i :: 0 <= i < |cs| ==> h[i] == Obj(cs[i])
  {
    seq(|cs|, i requires 0 <= i < |cs| => Obj(cs[i]))
  }

  /** A wake is on its way: somebody is woken, or is about to notify. */
  ghost predicate WakePending(s: State) {
    exists i :: 0 <= i < |s.clients| && (s.clients[i].Woken? || s.clients[i].Notifying?)
  }

  predicate HasFailed(c: Client) {
    c.Failed? || c.Sleeping? || c.Woken?
  }

  ghost predicate Inv(s: State, max: nat) {
    && Bounded(s.pool, max)
    && LoansAgree(s.pool, Held(s.clients))
    && (forall i :: 0 <= i < |s.clients| ==> !s.clients[i].Crashed?)
       // the flag promises a free object, so a wait never ends in vain
    && (s.pool.ready ==> s.pool.free != [])
       // a raised flag is on its way to a sleeper
    && (s.pool.ready && SomeSleeper(s) ==> WakePending(s))
       // a clear flag leaves some object on loan, whose release will raise it
    && (!s.pool.ready && s.pool.size > 0 ==> OnLoan(s.pool) != {})
    && (forall i :: 0 <= i < |s.clients| && HasFailed(s.clients[i]) ==> s.pool.size == max)
  }

  lemma InitInv(n: nat, max: nat)
    ensures Inv(Init(n), max)
  {
    assert OnLoan(EMPTY) == {};
    NobodyHolds(EMPTY, n, Held(Init(n).clients));
  }

  lemma StepKeeps(s: State, m: Move, max: nat)
    requires Inv(s, max) && max >= 1 && Enabled(s, m)
    ensures Inv(Step(s, m, max), max) && |Step(s, m, max).clients| == |s.clients|
  {
    match m {
      case Act(i) =>
        if s.clients[i].Holding? {
          ReleaseKeeps(s, i, max);
        } else if TryBorrow(s.pool, max).0.Some? && (s.clients[i].Start? || s.pool.ready) {
          BorrowKeeps(s, i, max);
        } else if s.clients[i].Start? {
          FirstTryFails(s, i, max);
        } else {
          assert Held(Step(s, m, max).clients) == Held(s.clients);
        }
      case Notify(i, w) => NotifyKeeps(s, i, w, max);
      case Spurious(i) =>
        var t := Step(s, m, max);
        assert t.clients[i].Woken?;
        assert Held(t.clients) == Held(s.clients);
    }
  }

  lemma BorrowLends(s: State, i: nat, max: nat)
    requires Bounded(s.pool, max) && LoansAgree(s.pool, Held(s.clients))
    requires i < |s.clients| && !s.clients[i].Holding? && TryBorrow(s.pool, max).0.Some?
    ensures var (r, q) := TryBorrow(s.pool, max);
            && Bounded(q, max) && LoansAgree(q, Held(s.clients[i := Holding(r.value)]))
            && !q.ready && r.value in OnLoan(q) && q.size >= s.pool.size
  {
    var (r, q) := TryBorrow(s.pool, max);
    BorrowMeaning(s.pool, max);
    GrowsOnlyWhenNoneFree(s.pool, max);
    Lend(s.pool, Held(s.clients), i, max);
    assert Held(s.clients[i := Holding(r.value)]) == Held(s.clients)[i := r];
  }

  lemma BorrowKeeps(s: State, i: nat, max: nat)
    requires Inv(s, max) && i < |s.clients| && !s.clients[i].Holding?
    requires TryBorrow(s.pool, max).0.Some?
    ensures var (r, q) := TryBorrow(s.pool, max);
            Inv(State(q, s.clients[i := Holding(r.value)]), max)
  {
    BorrowLends(s, i, max);
  }

  lemma FirstTryFails(s: State, i: nat, max: nat)
    requires Inv(s, max) && i < |s.clients| && s.clients[i].Start?
    requires TryBorrow(s.pool, max).0.None?
    ensures Inv(State(TryBorrow(s.pool, max).1, s.clients[i := Failed]), max)
  {
    BorrowMeaning(s.pool, max);
    assert Held(s.clients[i := Failed]) == Held(s.clients);
  }

  lemma ReleaseKeeps(s: State, i: nat, max: nat)
    requires Inv(s, max) && i < |s.clients| && s.clients[i].Holding?
    ensures Inv(State(Release(s.pool, s.clients[i].obj), s.clients[i := Notifying]), max)
  {
    var h := Held(s.clients);
    var t := State(Release(s.pool, s.clients[i].obj), s.clients[i := Notifying]);
    assert h[i].value in OnLoan(s.pool);
    ReleaseMeaning(s.pool, s.clients[i].obj);
    TakeBack(s.pool, h, i);
    assert Held(t.clients) == h[i := None];
    assert t.clients[i].Notifying?;
  }

  lemma NotifyKeeps(s: State, i: nat, w: Option<nat>, max: nat)
    requires Inv(s, max) && Enabled(s, Notify(i, w))
    ensures Inv(Step(s, Notify(i, w), max), max)
  {
    var t := Step(s, Notify(i, w), max);
    assert Held(t.clients) == Held(s.clients);
    assert w.Some? ==> t.clients[w.value].Woken?;
    assert forall k :: 0 <= k < |t.clients| ==>
        t.clients[k] == s.clients[k] || t.clients[k].Done? || t.clients[k].Woken?;
  }

  // ----- runs

  ghost predicate Run(s: State, moves: seq<Move>, t: State, max: nat)
    decreases moves
  {
    if moves == [] then s == t
    else Enabled(s, moves[0]) && Run(Step(s, moves[0], max), moves[1..], t, max)
  }

  lemma {:induction false} RunChain(s: State, a: seq<Move>, t: State, b: seq<Move>, u: State, max: nat)
    requires Run(s, a, t, max) && Run(t, b, u, max)
    ensures Run(s, a + b, u, max)
    decreases a
  {
    if a == [] {
      assert a + b == b;
    } else {
      assert (a + b)[1..] == a[1..] + b;
      RunChain(Step(s, a[0], max), a[1..], t, b, u, max);
    }
  }

  function Weight(c: Client): nat {
    match c
    case Start => 5
    case Failed => 4
    case Sleeping => 3
    case Woken => 4
    case Holding(_) => 3
    case Notifying => 2
    case Done => 0
    case Crashed => 0
  }

  function IsSpurious(m: Move): nat {
    if m.Spurious? then 1 else 0
  }

  lemma StepDecreases(s: State, m: Move, max: nat)
    requires Enabled(s, m)
    ensures |Step(s, m, max).clients| == |s.clients|
    ensures Sum(Step(s, m, max).clients, Weight) + 1 <= Sum(s.clients, Weight) + 2 * IsSpurious(m)
  {
    var t := Step(s, m, max);
    match m {
      case Act(i) =>
        assert t.clients == s.clients[i := t.clients[i]];
        SumUpdate(s.clients, i, t.clients[i], Weight);
      case Notify(i, w) =>
        SumUpdate(s.clients, i, Done, Weight);
        if w.Some? {
          SumUpdate(s.clients[i := Done], w.value, Woken, Weight);
        }
      case Spurious(i) => SumUpdate(s.clients, i, Woken, Weight);
    }
  }

  lemma {:induction false} RunKeeps(s: State, moves: seq<Move>, t: State, max: nat)
    requires Inv(s, max) && max >= 1 && Run(s, moves, t, max)
    ensures Inv(t, max) && |t.clients| == |s.clients|
    ensures |moves| + Sum(t.clients, Weight) <= Sum(s.clients, Weight) + 2 * Sum(moves, IsSpurious)
    decreases moves
  {
    if moves != [] {
      StepKeeps(s, moves[0], max);
      StepDecreases(s, moves[0], max);
      RunKeeps(Step(s, moves[0], max), moves[1..], t, max);
    }
  }

  // ----- no deadlock

  /** Nothing but a spurious wakeup can happen. */
  ghost predicate Stuck(s: State) {
    forall m :: Enabled(s, m) ==> m.Spurious?
  }

  ghost predicate AllDone(s: State) {
    && (forall i :: 0 <= i < |s.clients| ==> s.clients[i].Done?)
    && OnLoan(s.pool) == {} && |s.pool.free| == s.pool.size
  }

  lemma NotifierCanMove(s: State, i: nat)
    requires i < |s.clients| && s.clients[i].Notifying?
    ensures !Stuck(s)
  {
    if w :| 0 <= w < |s.clients| && s.clients[w].Sleeping? {
      assert Enabled(s, Notify(i, Some(w)));
    } else {
      assert Enabled(s, Notify(i, None));
    }
  }

  /** A stuck state has only clients that sleep or are done. */
  lemma StuckClients(s: State, max: nat, i: nat)
    requires Inv(s, max) && Stuck(s) && i < |s.clients|
    ensures s.clients[i].Sleeping? || s.clients[i].Done?
  {
    if s.clients[i].Notifying? {
      NotifierCanMove(s, i);
    }
    assert !Enabled(s, Act(i));
  }

  lemma StuckMeansDone(s: State, max: nat)
    requires Inv(s, max) && max >= 1 && Stuck(s)
    ensures AllDone(s)
  {
    forall i | 0 <= i < |s.clients| ensures s.clients[i].Sleeping? || s.clients[i].Done? {
      StuckClients(s, max, i);
    }
    if Sum(Held(s.clients), One) > 0 {
      var i := SumPositive(Held(s.clients), One);
      assert false;
    }
    LoanCount(s.pool);
    assert !WakePending(s);
  }

  lemma NoneSpurious(moves: seq<Move>)
    ensures (forall k :: 0 <= k < |moves| ==> !moves[k].Spurious?) ==> Sum(moves, IsSpurious) == 0
  {
    if forall k :: 0 <= k < |moves| ==> !moves[k].Spurious? {
      SumAtMost(moves, IsSpurious, 0);
    }
  }

  lemma AllApart(s: State, max: nat)
    requires Inv(s, max)
    ensures forall i, j :: 0 <= i < j < |s.clients| && s.clients[i].Holding? ==> s.clients[i] != s.clients[j]
  {
    forall i, j | 0 <= i < j < |s.clients| && s.clients[i].Holding? ensures s.clients[i] != s.clients[j] {
      assert Held(s.clients)[i] != Held(s.clients)[j];
    }
  }

  /** Every interleaving of any number of clients: the flag is never raised over an
      empty free list and the `logic_error` is unreachable, spurious wakeups
      included; no object is lent twice; `k` spurious wakeups allow at most `2k`
      steps beyond five a client; and nothing but completion can stop a run. */
  lemma ThreadedTheorem(n: nat, moves: seq<Move>, t: State, max: nat)
    requires max >= 1 && Run(Init(n), moves, t, max)
    ensures |t.clients| == n && Inv(t, max)
    ensures t.pool.ready ==> t.pool.free != []
    ensures forall i :: 0 <= i < n ==> !t.clients[i].Crashed?
    ensures forall i, j :: 0 <= i < j < n && t.clients[i].Holding? ==> t.clients[i] != t.clients[j]
    ensures |moves| <= 5 * n + 2 * Sum(moves, IsSpurious)
    ensures (forall k :: 0 <= k < |moves| ==> !moves[k].Spurious?) ==> |moves| <= 5 * n
    ensures Stuck(t) <==> AllDone(t)
  {
    InitInv(n, max);
    RunKeeps(Init(n), moves, t, max);
    SumAtMost(Init(n).clients, Weight, 5);
    NoneSpurious(moves);
    AllApart(t, max);
    if Stuck(t) {
      StuckMeansDone(t, max);
    }
  }

  // ----- the grain of the steps

  /** Who changes in a step, and how: the pool and the thread that acts in a critical
      section; nothing but threads in a notification or a spurious wakeup. Nobody falls
      asleep except by finding the flag clear under the lock, after its first try has
      failed in an earlier critical section; and nobody wakes unless notified, or
      spuriously. */
  lemma SleepAndWake(s: State, m: Move, max: nat, k: nat)
    requires Enabled(s, m) && k < |s.clients|
    ensures var t := Step(s, m, max);
            && |t.clients| == |s.clients|
            && (!m.Act? ==> t.pool == s.pool)
            && (t.clients[k] != s.clients[k] ==> k == m.i || (m.Notify? && m.woken == Some(k)))
            && (t.clients[k].Sleeping? && !s.clients[k].Sleeping? ==>
                  m == Act(k) && HasFailed(s.clients[k]) && !s.pool.ready && t.pool == s.pool)
            && (s.clients[k].Sleeping? && !t.clients[k].Sleeping? ==>
                  t.clients[k].Woken? && (m == Spurious(k) || (m.Notify? && m.woken == Some(k))))
  {
  }

  /** What can happen next in any state: every sleeper may wake spuriously, every one of
      them may be the one that a notifier wakes, and a notification reaches nobody
      exactly when nobody sleeps. All others that are not finished can act. */
  lemma Choices(s: State, i: nat)
    requires i < |s.clients|
    ensures Enabled(s, Spurious(i)) <==> s.clients[i].Sleeping?
    ensures forall w: nat :: Enabled(s, Notify(i, Some(w))) <==>
              s.clients[i].Notifying? && w < |s.clients| && s.clients[w].Sleeping?
    ensures Enabled(s, Notify(i, None)) <==>
              s.clients[i].Notifying? && forall w :: 0 <= w < |s.clients| ==> !s.clients[w].Sleeping?
    ensures !s.clients[i].Sleeping? && !s.clients[i].Notifying? && !s.clients[i].Done? && !s.clients[i].Crashed? ==>
              Enabled(s, Act(i))
  {
  }

  /** A first try that fails leaves its thread awake between its two lockings of the
      mutex: no notification can reach it there, and its next step looks at the flag,
      sleeping only if it is clear. */
  lemma AwakeBetweenLockings(s: State, i: nat, max: nat)
    requires i < |s.clients| && s.clients[i].Start? && TryBorrow(s.pool, max).0.None?
    ensures Enabled(s, Act(i)) && Enabled(Step(s, Act(i), max), Act(i))
    ensures var t := Step(s, Act(i), max);
            && t.pool == s.pool
            && (forall j: nat :: !Enabled(t, Notify(j, Some(i))))
            && (forall q: PoolState, cs :: |cs| == |t.clients| && cs[i] == t.clients[i] ==>
                  var u := State(q, cs);
                  Enabled(u, Act(i)) && (Step(u, Act(i), max).clients[i].Sleeping? <==> !q.ready))
  {
  }

  /** Two threads and one object: thread 0 releases and notifies while thread 1 stands
      between its lockings. The notification reaches nobody, and thread 1 then sees the
      flag and borrows without ever having slept. */
  lemma NotifiedTooEarlyRun()
    ensures Run(Init(2), [Act(0), Act(1), Act(0), Notify(0, None), Act(1)],
                State(PoolState(1, [], false), [Done, Holding(0)]), 1)
  {
  }

  // ----- reachable states, for the heap

  ghost predicate Reached(s: State, max: nat) {
    exists n, moves :: max >= 1 && Run(Init(n), moves, s, max)
  }

  lemma ReachedStays(s: State, m: Move, max: nat)
    requires Reached(s, max) && Enabled(s, m)
    ensures Reached(Step(s, m, max), max)
  {
    var n, moves :| max >= 1 && Run(Init(n), moves, s, max);
    RunOne(s, m, max);
    RunChain(Init(n), moves, s, [m], Step(s, m, max), max);
  }

  lemma ReachedMeans(s: State, max: nat)
    requires Reached(s, max)
    ensures max >= 1 && Inv(s, max)
  {
    var n, moves :| max >= 1 && Run(Init(n), moves, s, max);
    ThreadedTheorem(n, moves, s, max);
  }

  lemma StartIsReached(n: nat, moves: seq<Move>, t: State, max: nat)
    requires max >= 1 && Run(Init(n), moves, t, max)
    ensures Reached(t, max)
  {
  }

  lemma HeldApart(s: State, i: nat, j: nat, max: nat)
    requires Reached(s, max) && i < j < |s.clients| && s.clients[i].Holding?
    ensures s.clients[i] != s.clients[j]
  {
    ReachedMeans(s, max);
    assert Held(s.clients)[i] != Held(s.clients)[j];
  }

  /** What a reachable state promises to the client that runs next. */
  lemma ReadyToRun(s: State, i: nat, max: nat)
    requires Reached(s, max) && i < |s.clients|
    ensures s.clients[i].Holding? ==> s.clients[i].obj in OnLoan(s.pool)
    ensures s.pool.ready ==> TryBorrow(s.pool, max).0.Some?
  {
    ReachedMeans(s, max);
    assert s.clients[i].Holding? ==> Held(s.clients)[i].value in OnLoan(s.pool);
  }

  lemma CheckIs(s: State, i: nat, max: nat)
    requires Reached(s, max) && i < |s.clients| && (s.clients[i].Failed? || s.clients[i].Woken?)
    ensures s.pool.ready ==> TryBorrow(s.pool, max).0.Some?
    ensures Step(s, Act(i), max) ==
            if s.pool.ready then
              var (r, q) := TryBorrow(s.pool, max);
              State(q, s.clients[i := Holding(r.value)])
            else State(s.pool, s.clients[i := Sleeping])
  {
    ReadyToRun(s, i, max);
  }

  // ----- a thread may sleep beside a free object

  /** Somebody sleeps, an object is free, and no client is on its way to wake a
      sleeper or to take the object out of its own wait. */
  ghost predicate SleepsBesideFree(s: State) {
    && SomeSleeper(s) && s.pool.free != [] && !WakePending(s)
    && (forall i :: 0 <= i < |s.clients| ==> !s.clients[i].Failed?)
  }

  ghost predicate CanSleepBesideFree(n: nat, max: nat) {
    exists moves, t :: Run(Init(n), moves, t, max) && SleepsBesideFree(t)
  }

  /** With at most one client beyond the objects, one client alone can have failed,
      and then all others have got their object. */
  ghost predicate LoneFailure(s: State, max: nat) {
    && |s.clients| <= max + 1
    && (forall i, j :: 0 <= i < |s.clients| && 0 <= j < |s.clients| && i != j && HasFailed(s.clients[i]) ==>
          s.clients[j].Holding? || s.clients[j].Notifying? || s.clients[j].Done?)
    && (forall i :: 0 <= i < |s.clients| && HasFailed(s.clients[i]) ==>
          s.pool.ready || s.pool.free == [])
  }

  lemma LoneFailureStarts(s: State, i: nat, max: nat)
    requires Bounded(s.pool, max) && LoansAgree(s.pool, Held(s.clients)) && LoneFailure(s, max)
    requires i < |s.clients| && s.clients[i].Start?
    requires TryBorrow(s.pool, max).0.None?
    ensures LoneFailure(State(s.pool, s.clients[i := Failed]), max)
  {
    FailureMeansOthersHold(s.pool, Held(s.clients), i, max);
    BorrowMeaning(s.pool, max);
    forall j | 0 <= j < |s.clients| && j != i ensures s.clients[j].Holding? {
      assert Held(s.clients)[j].Some?;
    }
  }

  lemma LoneFailureKeeps(s: State, m: Move, max: nat)
    requires Bounded(s.pool, max) && LoansAgree(s.pool, Held(s.clients)) && LoneFailure(s, max)
    requires Enabled(s, m)
    ensures LoneFailure(Step(s, m, max), max)
  {
    match m {
      case Act(i) =>
        if !s.clients[i].Start? {
          LoneFailureGoesOn(s, i, max);
        } else if TryBorrow(s.pool, max).0.None? {
          BorrowMeaning(s.pool, max);
          LoneFailureStarts(s, i, max);
        } else {
          LoneFailureBorrows(s, i, max);
        }
      case Notify(i, w) =>
      case Spurious(i) =>
    }
  }

  lemma LoneFailureGoesOn(s: State, i: nat, max: nat)
    requires LoneFailure(s, max) && Enabled(s, Act(i)) && !s.clients[i].Start?
    ensures LoneFailure(Step(s, Act(i), max), max)
  {
  }

  /** A client at its first try knows that nobody has failed. */
  lemma LoneFailureBorrows(s: State, i: nat, max: nat)
    requires LoneFailure(s, max) && i < |s.clients| && s.clients[i].Start?
    ensures var (r, q) := TryBorrow(s.pool, max);
            r.Some? ==> LoneFailure(State(q, s.clients[i := Holding(r.value)]), max)
  {
    assert forall j :: 0 <= j < |s.clients| && j != i ==> !HasFailed(s.clients[j]);
  }

  lemma {:induction false} LoneFailureRun(s: State, moves: seq<Move>, t: State, max: nat)
    requires Inv(s, max) && max >= 1 && LoneFailure(s, max) && Run(s, moves, t, max)
    ensures LoneFailure(t, max) && Inv(t, max)
    decreases moves
  {
    if moves != [] {
      LoneFailureKeeps(s, moves[0], max);
      StepKeeps(s, moves[0], max);
      LoneFailureRun(Step(s, moves[0], max), moves[1..], t, max);
    }
  }

  lemma NeverBesideFree(n: nat, moves: seq<Move>, t: State, max: nat)
    requires max >= 1 && (max == 1 || n < max + 2) && Run(Init(n), moves, t, max)
    ensures !SleepsBesideFree(t)
  {
    InitInv(n, max);
    RunKeeps(Init(n), moves, t, max);
    LoanCount(t.pool);
    if max > 1 {
      LoneFailureRun(Init(n), moves, t, max);
    }
  }

  /** The first `k` clients hold the objects built for them. */
  function FirstHold(n: nat, k: nat): (cs: seq<Client>)
    requires k <= n
    ensures |cs| == n
    ensures forall i :: 0 <= i < k ==> cs[i] == Holding(i)
    ensures forall i :: k <= i < n ==> cs[i] == Start
  {
    seq(k, i requires 0 <= i => Holding(i)) + seq(n - k, _ => Start)
  }

  lemma {:induction false} BorrowInTurn(n: nat, k: nat, max: nat) returns (moves: seq<Move>, t: State)
    requires k <= n && k <= max
    ensures Run(Init(n), moves, t, max)
    ensures t == State(PoolState(k, [], false), FirstHold(n, k))
  {
    if k == 0 {
      moves, t := [], Init(n);
      assert t.clients == FirstHold(n, k);
    } else {
      var before, u := BorrowInTurn(n, k - 1, max);
      GrowsOnlyWhenNoneFree(u.pool, max);
      t := Step(u, Act(k - 1), max);
      assert t.clients == FirstHold(n, k);
      RunOne(u, Act(k - 1), max);
      RunChain(Init(n), before, u, [Act(k - 1)], t, max);
      moves := before + [Act(k - 1)];
    }
  }

  lemma RunOne(s: State, m: Move, max: nat)
    requires Enabled(s, m)
    ensures Run(s, [m], Step(s, m, max), max)
  {
  }

  lemma RunTwo(s: State, m1: Move, m2: Move, t: State, max: nat)
    requires Enabled(s, m1) && Enabled(Step(s, m1, max), m2)
    requires t == Step(Step(s, m1, max), m2, max)
    ensures Run(s, [m1, m2], t, max)
  {
    assert [m1, m2][1..][1..] == [];
    assert Run(Step(s, m1, max), [m1, m2][1..], t, max);
  }

  lemma TwoFallAsleep(s: State, a: nat, b: nat, max: nat) returns (moves: seq<Move>, t: State)
    requires a < b < |s.clients| && s.clients[a].Start? && s.clients[b].Start?
    requires s.pool == PoolState(max, [], false)
    ensures Run(s, moves, t, max)
    ensures t == State(s.pool, s.clients[a := Sleeping][b := Sleeping])
  {
    var s2 := State(s.pool, s.clients[a := Sleeping]);
    t := State(s.pool, s.clients[a := Sleeping][b := Sleeping]);
    assert s.clients[a := Failed][a := Sleeping] == s2.clients;
    RunTwo(s, Act(a), Act(a), s2, max);
    assert s2.clients[b := Failed][b := Sleeping] == t.clients;
    RunTwo(s2, Act(b), Act(b), t, max);
    moves := [Act(a), Act(a)] + [Act(b), Act(b)];
    RunChain(s, [Act(a), Act(a)], s2, [Act(b), Act(b)], t, max);
  }

  lemma TwoRelease(s: State, max: nat) returns (moves: seq<Move>, t: State)
    requires 2 <= |s.clients| && s.clients[0] == Holding(0) && s.clients[1] == Holding(1)
    requires s.pool == PoolState(max, [], false)
    ensures Run(s, moves, t, max)
    ensures t == State(PoolState(max, [1, 0], true), s.clients[0 := Notifying][1 := Notifying])
  {
    t := State(PoolState(max, [1, 0], true), s.clients[0 := Notifying][1 := Notifying]);
    assert [1] + ([0] + []) == [1, 0];
    RunTwo(s, Act(0), Act(1), t, max);
    moves := [Act(0), Act(1)];
  }

  lemma FirstWokenTakesTheFlag(s: State, a: nat, b: nat, max: nat) returns (moves: seq<Move>, t: State)
    requires 2 <= a < b < |s.clients| && s.clients[a].Sleeping? && s.clients[b].Sleeping?
    requires s.clients[0].Notifying? && s.clients[1].Notifying?
    requires s.pool == PoolState(max, [1, 0], true)
    ensures Run(s, moves, t, max)
    ensures t == State(PoolState(max, [0], false),
                       s.clients[0 := Done][a := Holding(1)][1 := Done][b := Sleeping])
  {
    var p := PoolState(max, [0], false);
    var s2 := State(p, s.clients[0 := Done][a := Holding(1)]);
    assert s.clients[0 := Done][a := Woken][a := Holding(1)] == s2.clients;
    assert [1, 0][1..] == [0];
    RunTwo(s, Notify(0, Some(a)), Act(a), s2, max);
    t := State(p, s2.clients[1 := Done][b := Sleeping]);
    assert s2.clients[1 := Done][b := Woken][b := Sleeping] == t.clients;
    RunTwo(s2, Notify(1, Some(b)), Act(b), t, max);
    moves := [Notify(0, Some(a)), Act(a)] + [Notify(1, Some(b)), Act(b)];
    RunChain(s, [Notify(0, Some(a)), Act(a)], s2, [Notify(1, Some(b)), Act(b)], t, max);
  }

  /** Two clients fail and sleep, two releases raise the flag twice, and the first
      sleeper to wake clears it: the second finds it clear beside a free object. */
  lemma StrandingRun(n: nat, max: nat)
    requires 2 <= max && max + 2 <= n
    ensures CanSleepBesideFree(n, max)
  {
    var moves, s := BorrowInTurn(n, max, max);
    var more, t := StrandFrom(s, max, max + 1, max);
    RunChain(Init(n), moves, s, more, t, max);
  }

  lemma StrandFrom(s: State, a: nat, b: nat, max: nat) returns (moves: seq<Move>, t: State)
    requires 2 <= a < b < |s.clients|
    requires s.clients[0] == Holding(0) && s.clients[1] == Holding(1)
    requires forall i :: 0 <= i < |s.clients| ==> s.clients[i].Start? || s.clients[i].Holding?
    requires s.clients[a].Start? && s.clients[b].Start?
    requires s.pool == PoolState(max, [], false)
    ensures Run(s, moves, t, max) && SleepsBesideFree(t)
  {
    var s1, s2;
    var m1, m2, m3;
    m1, s1 := TwoFallAsleep(s, a, b, max);
    m2, s2 := TwoRelease(s1, max);
    m3, t := FirstWokenTakesTheFlag(s2, a, b, max);
    Stranded(s, a, b, t);
    RunChain(s, m1, s1, m2, s2, max);
    RunChain(s, m1 + m2, s2, m3, t, max);
    moves := m1 + m2 + m3;
  }

  lemma Stranded(s: State, a: nat, b: nat, t: State)
    requires 2 <= a < b < |s.clients|
    requires forall i :: 0 <= i < |s.clients| ==> s.clients[i].Start? || s.clients[i].Holding?
    requires t.pool.free == [0]
    requires t.clients == s.clients[a := Sleeping][b := Sleeping][0 := Notifying][1 := Notifying]
                                   [0 := Done][a := Holding(1)][1 := Done][b := Sleeping]
    ensures SleepsBesideFree(t)
  {
    assert t.clients[b].Sleeping?;
  }

  /** A thread can be left asleep beside a free object, with no wake on its way,
      exactly when there are two objects or more and two more clients than objects. */
  lemma SleepBesideFreeTheorem(n: nat, max: nat)
    requires max >= 1
    ensures CanSleepBesideFree(n, max) <==> max >= 2 && n >= max + 2
  {
    if max >= 2 && n >= max + 2 {
      StrandingRun(n, max);
    } else {
      forall moves, t | Run(Init(n), moves, t, max) ensures !SleepsBesideFree(t) {
        NeverBesideFree(n, moves, t, max);
      }
    }
  }
}
