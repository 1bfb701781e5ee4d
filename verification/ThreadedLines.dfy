/** The threaded pool line by line: a step is one line of `borrow_one`, `release_one` or
    `do_try_borrow_one`, and the mutex is a thing that one thread at a time holds. The
    protocol of ThreadedPool.dfy, with its whole critical sections, reaches the same
    states. */
module ThreadedLines {
  import opened Counting
  import opened PoolSpec
  import T = ThreadedPool

  /** Where a thread is. `second` tells the try behind the wait from the first one. */
  datatype Place =
    | Outside
    | Trying(second: bool)
    | Popped(second: bool, obj: nat)
    | Got(second: bool, obj: nat)
    | NoneFree(second: bool)
    | Between
    | Checking
    | Asleep
    | Relocking
    | Has(obj: nat)
    | Releasing(obj: nat)
    | Pushed(obj: nat)
    | Flagged(obj: nat)
    | Notifying
    | Done
    | Thrown

  datatype State = State(pool: PoolState, owner: Option<nat>, places: seq<Place>)

  function Init(n: nat): State {
    State(EMPTY, None, seq(n, _ => Outside))
  }

  /** The next line of a thread in such a place locks the mutex. */
  predicate WantsLock(p: Place) {
    p.Outside? || p.Between? || p.Relocking? || p.Has?
  }

  predicate InSection(p: Place) {
    p.Trying? || p.Popped? || p.Got? || p.NoneFree? || p.Checking? || p.Releasing? || p.Pushed? || p.Flagged?
  }

  ghost predicate SomeAsleep(s: State) {
    exists i :: 0 <= i < |s.places| && s.places[i].Asleep?
  }

  /** `Act` is the next line of a thread that holds the mutex, or finds it free. */
  ghost predicate Enabled(s: State, m: T.Move) {
    && m.i < |s.places|
    && match m
       case Act(i) => if s.owner.Some? then s.owner.value == i else WantsLock(s.places[i])
       case Notify(i, w) =>
         && s.places[i].Notifying?
         && (if w.Some? then w.value < |s.places| && s.places[w.value].Asleep? else !SomeAsleep(s))
       case Spurious(i) => s.places[i].Asleep?
  }

  function At(s: State, i: nat, p: Place): State
    requires i < |s.places|
  {
    State(s.pool, s.owner, s.places[i := p])
  }

  function Lock(s: State, i: nat, p: Place): State
    requires i < |s.places|
  {
    State(s.pool, Some(i), s.places[i := p])
  }

  function Unlock(s: State, i: nat, p: Place): State
    requires i < |s.places|
  {
    State(s.pool, None, s.places[i := p])
  }

  /** One line. Waiting gives the mutex back and falls asleep in one go. */
  function Line(s: State, i: nat, max: nat): State
    requires i < |s.places|
  {
    var p := s.pool;
    match s.places[i]
    case Outside => Lock(s, i, Trying(false))
    case Trying(second) =>
      if |p.free| > 0 then
        State(PoolState(p.size, p.free[1..], p.ready), s.owner, s.places[i := Popped(second, p.free[0])])
      else if p.size < max then State(PoolState(p.size + 1, p.free + [p.size], p.ready), s.owner, s.places)
      else At(s, i, NoneFree(second))
    case Popped(second, o) => State(PoolState(p.size, p.free, false), s.owner, s.places[i := Got(second, o)])
    case Got(second, o) => Unlock(s, i, Has(o))
    case NoneFree(second) => Unlock(s, i, if second then Thrown else Between)
    case Between => Lock(s, i, Checking)
    case Checking => if p.ready then At(s, i, Trying(true)) else Unlock(s, i, Asleep)
    case Relocking => Lock(s, i, Checking)
    case Has(o) => Lock(s, i, Releasing(o))
    case Releasing(o) => State(PoolState(p.size, [o] + p.free, p.ready), s.owner, s.places[i := Pushed(o)])
    case Pushed(o) => State(PoolState(p.size, p.free, true), s.owner, s.places[i := Flagged(o)])
    case Flagged(o) => Unlock(s, i, Notifying)
    case _ => s
  }

  function Step(s: State, m: T.Move, max: nat): State
    requires m.i < |s.places|
  {
    match m
    case Act(i) => Line(s, i, max)
    case Notify(i, w) =>
      var places := s.places[i := Done];
      State(s.pool, s.owner,
            if w.Some? && w.value < |places| then places[w.value := Relocking] else places)
    case Spurious(i) => At(s, i, Relocking)
  }

  ghost predicate Run(s: State, moves: seq<T.Move>, t: State, max: nat)
    decreases moves
  {
    if moves == [] then s == t
    else Enabled(s, moves[0]) && Run(Step(s, moves[0], max), moves[1..], t, max)
  }

  // ----- the protocol that the lines carry out

  /** What the protocol calls a thread outside the critical sections. */
  function Client(p: Place): T.Client {
    match p
    case Outside => T.Start
    case Between => T.Failed
    case Asleep => T.Sleeping
    case Relocking => T.Woken
    case Has(o) => T.Holding(o)
    case Notifying => T.Notifying
    case Done => T.Done
    case _ => T.Crashed
  }

  /** Before a try: at the start, or behind a wait that found the flag up. */
  ghost predicate MayTry(second: bool, c: T.Client, was: PoolState) {
    if second then (c.Failed? || c.Woken?) && was.ready else c.Start?
  }

  /** How far a thread that entered its section over the pool `was`, as client `c`, has
      come when the pool is `now`. */
  ghost predicate Progress(p: Place, c: T.Client, now: PoolState, was: PoolState, max: nat) {
    match p
    case Trying(second) => MayTry(second, c, was) && TryBorrow(now, max) == TryBorrow(was, max)
    case Popped(second, o) =>
      MayTry(second, c, was) && TryBorrow(was, max) == (Some(o), PoolState(now.size, now.free, false))
    case Got(second, o) => MayTry(second, c, was) && TryBorrow(was, max) == (Some(o), now)
    case NoneFree(second) => MayTry(second, c, was) && TryBorrow(was, max) == (None, now)
    case Checking => (c.Failed? || c.Woken?) && now == was
    case Releasing(o) => c == T.Holding(o) && now == was
    case Pushed(o) => c == T.Holding(o) && now == PoolState(was.size, [o] + was.free, was.ready)
    case Flagged(o) => c == T.Holding(o) && now == Release(was, o)
    case _ => false
  }

  /** The protocol is in state `a`: it sees the effect of a section when the section ends. */
  ghost predicate Shows(s: State, a: T.State, max: nat) {
    && |a.clients| == |s.places|
    && (forall j :: 0 <= j < |s.places| && s.owner != Some(j) ==>
          !InSection(s.places[j]) && a.clients[j] == Client(s.places[j]))
    && match s.owner
       case None => a.pool == s.pool
       case Some(i) => i < |s.places| && Progress(s.places[i], a.clients[i], s.pool, a.pool, max)
  }

  /** A line that ends a section. */
  predicate Ends(s: State, i: nat) {
    i < |s.places| &&
    (s.places[i].Got? || s.places[i].NoneFree? || s.places[i].Flagged? || (s.places[i].Checking? && !s.pool.ready))
  }

  lemma LockShows(s: State, i: nat, p: Place, a: T.State, max: nat)
    requires Shows(s, a, max) && s.owner.None? && i < |s.places|
    requires Progress(p, a.clients[i], s.pool, a.pool, max)
    ensures Shows(Lock(s, i, p), a, max)
  {
  }

  /** The owner goes on inside its section. */
  lemma InsideShows(s: State, i: nat, q: PoolState, p: Place, a: T.State, max: nat)
    requires Shows(s, a, max) && s.owner == Some(i)
    requires Progress(p, a.clients[i], q, a.pool, max)
    ensures Shows(State(q, s.owner, s.places[i := p]), a, max)
  {
  }

  /** The owner leaves its section with the pool and the state the protocol gives it. */
  lemma UnlockShows(s: State, i: nat, p: Place, a: T.State, b: T.State, max: nat)
    requires Shows(s, a, max) && s.owner == Some(i)
    requires !InSection(p) && b == T.State(s.pool, a.clients[i := Client(p)])
    ensures Shows(Unlock(s, i, p), b, max)
  {
  }

  /** A line inside a section, or one that begins it, shows nothing new. */
  lemma QuietLine(s: State, i: nat, a: T.State, max: nat)
    requires Shows(s, a, max) && Enabled(s, T.Act(i)) && !Ends(s, i)
    ensures Shows(Line(s, i, max), a, max)
  {
    var p := s.pool;
    if s.owner.None? {
      var q := Line(s, i, max).places[i];
      LockShows(s, i, q, a, max);
    } else {
      var t := Line(s, i, max);
      InsideShows(s, i, t.pool, t.places[i], a, max);
    }
  }

  /** The line that ends a section is the step of the protocol. */
  lemma EndingLine(s: State, i: nat, a: T.State, max: nat)
    requires Shows(s, a, max) && Enabled(s, T.Act(i)) && Ends(s, i)
    ensures T.Enabled(a, T.Act(i)) && Shows(Line(s, i, max), T.Step(a, T.Act(i), max), max)
  {
    var b := T.Step(a, T.Act(i), max);
    UnlockShows(s, i, Line(s, i, max).places[i], a, b, max);
  }

  /** A thread inside a section neither sleeps nor notifies. */
  lemma OwnerIsBusy(s: State, i: nat, a: T.State, max: nat)
    requires Shows(s, a, max) && s.owner == Some(i)
    ensures i < |s.places| && InSection(s.places[i]) && !a.clients[i].Sleeping?
  {
  }

  lemma NobodyAsleep(s: State, a: T.State, max: nat)
    requires Shows(s, a, max)
    ensures SomeAsleep(s) <==> T.SomeSleeper(a)
  {
    if s.owner.Some? {
      OwnerIsBusy(s, s.owner.value, a, max);
    }
    forall k | 0 <= k < |s.places| ensures s.places[k].Asleep? <==> a.clients[k].Sleeping? {
      assert s.owner != Some(k) ==> a.clients[k] == Client(s.places[k]);
    }
  }

  /** Notifications and spurious wakeups are those of the protocol, whoever holds the mutex. */
  lemma SignalShows(s: State, m: T.Move, a: T.State, max: nat)
    requires Shows(s, a, max) && Enabled(s, m) && !m.Act?
    ensures T.Enabled(a, m) && Shows(Step(s, m, max), T.Step(a, m, max), max)
  {
    NobodyAsleep(s, a, max);
    if s.owner.Some? {
      OwnerIsBusy(s, s.owner.value, a, max);
    }
    if m.Notify? {
      NotifyStepShows(s, m.i, m.woken, a, max);
    }
  }

  lemma NotifyStepShows(s: State, i: nat, w: Option<nat>, a: T.State, max: nat)
    requires Shows(s, a, max) && Enabled(s, T.Notify(i, w)) && T.Enabled(a, T.Notify(i, w))
    requires s.owner.Some? ==> s.owner.value < |s.places| && InSection(s.places[s.owner.value])
    ensures Shows(Step(s, T.Notify(i, w), max), T.Step(a, T.Notify(i, w), max), max)
  {
  }

  lemma InitShows(n: nat, max: nat)
    ensures Shows(Init(n), T.Init(n), max)
  {
  }

  /** Every run of lines shows a run of the protocol, of no more steps. */
  lemma {:induction false} LinesShowSteps(s: State, moves: seq<T.Move>, t: State, a: T.State, max: nat)
    returns (steps: seq<T.Move>, b: T.State)
    requires Shows(s, a, max) && Run(s, moves, t, max)
    ensures T.Run(a, steps, b, max) && Shows(t, b, max) && |steps| <= |moves|
    decreases moves
  {
    if moves == [] {
      steps, b := [], a;
    } else {
      var m, next := moves[0], Step(s, moves[0], max);
      if m.Act? && !Ends(s, m.i) {
        QuietLine(s, m.i, a, max);
        steps, b := LinesShowSteps(next, moves[1..], t, a, max);
      } else {
        if m.Act? {
          EndingLine(s, m.i, a, max);
        } else {
          SignalShows(s, m, a, max);
        }
        var rest;
        rest, b := LinesShowSteps(next, moves[1..], t, T.Step(a, m, max), max);
        steps := [m] + rest;
        assert steps[1..] == rest;
      }
    }
  }

  // ----- and every step of the protocol is a run of lines

  function PlaceOf(c: T.Client): Place {
    match c
    case Start => Outside
    case Failed => Between
    case Sleeping => Asleep
    case Woken => Relocking
    case Holding(o) => Has(o)
    case Notifying => Notifying
    case Done => Done
    case Crashed => Thrown
  }

  /** The state of the protocol with the mutex free. */
  function Unlocked(a: T.State): (s: State)
    ensures |s.places| == |a.clients|
  {
    State(a.pool, None, seq(|a.clients|, i requires 0 <= i < |a.clients| => PlaceOf(a.clients[i])))
  }

  lemma Front(s: State, i: nat, rest: seq<T.Move>, t: State, max: nat)
    requires Enabled(s, T.Act(i)) && Run(Line(s, i, max), rest, t, max)
    ensures Run(s, [T.Act(i)] + rest, t, max)
  {
    assert ([T.Act(i)] + rest)[1..] == rest;
  }

  /** The lines of a try up to the unlocking. */
  lemma {:induction false} TryLines(s: State, i: nat, second: bool, max: nat) returns (lines: seq<T.Move>)
    requires s.owner == Some(i) && i < |s.places| && s.places[i] == Trying(second)
    ensures var (r, q) := TryBorrow(s.pool, max);
            Run(s, lines, State(q, None, s.places[i := if r.Some? then Has(r.value)
                                                       else if second then Thrown else Between]), max)
    decreases |s.pool.free| == 0
  {
    var p := s.pool;
    if |p.free| > 0 {
      lines := TakeLines(s, i, second, max);
    } else if p.size < max {
      var rest := TryLines(Line(s, i, max), i, second, max);
      var (r, q) := TryBorrow(p, max);
      Front(s, i, rest, State(q, None, s.places[i := if r.Some? then Has(r.value)
                                                     else if second then Thrown else Between]), max);
      lines := [T.Act(i)] + rest;
    } else {
      var t := Unlock(s, i, if second then Thrown else Between);
      assert s.places[i := NoneFree(second)][i := t.places[i]] == t.places;
      var s1 := Line(s, i, max);
      assert Line(s1, i, max) == t;
      Front(s1, i, [], t, max);
      Front(s, i, [T.Act(i)] + [], t, max);
      lines := [T.Act(i)] + ([T.Act(i)] + []);
    }
  }

  lemma TakeLines(s: State, i: nat, second: bool, max: nat) returns (lines: seq<T.Move>)
    requires s.owner == Some(i) && i < |s.places| && s.places[i] == Trying(second) && |s.pool.free| > 0
    ensures var p := s.pool;
            Run(s, lines, State(PoolState(p.size, p.free[1..], false), None, s.places[i := Has(p.free[0])]), max)
  {
    var p, o := s.pool, s.pool.free[0];
    var s1 := State(PoolState(p.size, p.free[1..], p.ready), s.owner, s.places[i := Popped(second, o)]);
    var s2 := State(PoolState(p.size, p.free[1..], false), s.owner, s.places[i := Got(second, o)]);
    var t := State(PoolState(p.size, p.free[1..], false), None, s.places[i := Has(o)]);
    assert s1.places[i := Got(second, o)] == s2.places && s2.places[i := Has(o)] == t.places;
    assert Line(s, i, max) == s1 && Line(s1, i, max) == s2 && Line(s2, i, max) == t;
    Front(s2, i, [], t, max);
    Front(s1, i, [T.Act(i)] + [], t, max);
    Front(s, i, [T.Act(i)] + ([T.Act(i)] + []), t, max);
    lines := [T.Act(i)] + ([T.Act(i)] + ([T.Act(i)] + []));
  }

  lemma ReleaseLines(s: State, i: nat, max: nat) returns (lines: seq<T.Move>)
    requires s.owner.None? && i < |s.places| && s.places[i].Has?
    ensures Run(s, lines, State(Release(s.pool, s.places[i].obj), None, s.places[i := Notifying]), max)
  {
    var p, o := s.pool, s.places[i].obj;
    var pushed := PoolState(p.size, [o] + p.free, p.ready);
    var s1 := State(p, Some(i), s.places[i := Releasing(o)]);
    var s2 := State(pushed, Some(i), s.places[i := Pushed(o)]);
    var s3 := State(Release(p, o), Some(i), s.places[i := Flagged(o)]);
    var t := State(Release(p, o), None, s.places[i := Notifying]);
    assert s1.places[i := Pushed(o)] == s2.places && s2.places[i := Flagged(o)] == s3.places;
    assert s3.places[i := Notifying] == t.places;
    assert Line(s, i, max) == s1 && Line(s1, i, max) == s2 && Line(s2, i, max) == s3 && Line(s3, i, max) == t;
    Front(s3, i, [], t, max);
    Front(s2, i, [T.Act(i)] + [], t, max);
    Front(s1, i, [T.Act(i)] + ([T.Act(i)] + []), t, max);
    Front(s, i, [T.Act(i)] + ([T.Act(i)] + ([T.Act(i)] + [])), t, max);
    lines := [T.Act(i)] + ([T.Act(i)] + ([T.Act(i)] + ([T.Act(i)] + [])));
  }

  /** The second locking: the flag is looked at, and then the thread sleeps or tries. */
  lemma CheckLines(s: State, i: nat, max: nat) returns (lines: seq<T.Move>)
    requires s.owner.None? && i < |s.places| && (s.places[i].Between? || s.places[i].Relocking?)
    ensures var (r, q) := TryBorrow(s.pool, max);
            Run(s, lines,
                if s.pool.ready then State(q, None, s.places[i := if r.Some? then Has(r.value) else Thrown])
                else State(s.pool, None, s.places[i := Asleep]), max)
  {
    var s1 := Lock(s, i, Checking);
    assert Line(s, i, max) == s1;
    if s.pool.ready {
      var s2 := At(s1, i, Trying(true));
      assert Line(s1, i, max) == s2;
      var rest := TryLines(s2, i, true, max);
      var (r, q) := TryBorrow(s.pool, max);
      var t := State(q, None, s.places[i := if r.Some? then Has(r.value) else Thrown]);
      assert s2.places[i := t.places[i]] == t.places;
      Front(s1, i, rest, t, max);
      Front(s, i, [T.Act(i)] + rest, t, max);
      lines := [T.Act(i)] + ([T.Act(i)] + rest);
    } else {
      var t := Unlock(s, i, Asleep);
      assert s1.places[i := Asleep] == t.places;
      assert Line(s1, i, max) == t;
      Front(s1, i, [], t, max);
      Front(s, i, [T.Act(i)] + [], t, max);
      lines := [T.Act(i)] + ([T.Act(i)] + []);
    }
  }

  lemma FirstTryLines(s: State, i: nat, max: nat) returns (lines: seq<T.Move>)
    requires s.owner.None? && i < |s.places| && s.places[i].Outside?
    ensures var (r, q) := TryBorrow(s.pool, max);
            Run(s, lines, State(q, None, s.places[i := if r.Some? then Has(r.value) else Between]), max)
  {
    var s1 := Lock(s, i, Trying(false));
    assert Line(s, i, max) == s1;
    var rest := TryLines(s1, i, false, max);
    var (r, q) := TryBorrow(s.pool, max);
    var t := State(q, None, s.places[i := if r.Some? then Has(r.value) else Between]);
    assert s1.places[i := t.places[i]] == t.places;
    Front(s, i, rest, t, max);
    lines := [T.Act(i)] + rest;
  }

  lemma StepIsLines(a: T.State, m: T.Move, max: nat) returns (lines: seq<T.Move>)
    requires T.Enabled(a, m)
    ensures Run(Unlocked(a), lines, Unlocked(T.Step(a, m, max)), max)
  {
    var s, t := Unlocked(a), Unlocked(T.Step(a, m, max));
    match m {
      case Act(i) =>
        if a.clients[i].Start? {
          lines := FirstTryLines(s, i, max);
          var (r, q) := TryBorrow(s.pool, max);
          assert t.places == s.places[i := if r.Some? then Has(r.value) else Between];
        } else if a.clients[i].Holding? {
          lines := ReleaseLines(s, i, max);
          assert t.places == s.places[i := Notifying];
        } else {
          lines := CheckLines(s, i, max);
          assert t.places == s.places[i := t.places[i]];
        }
      case _ =>
        SignalLine(a, m, max);
        lines := [m];
    }
  }

  lemma SignalLine(a: T.State, m: T.Move, max: nat)
    requires T.Enabled(a, m) && !m.Act?
    ensures Run(Unlocked(a), [m], Unlocked(T.Step(a, m, max)), max)
  {
    var s, t := Unlocked(a), Unlocked(T.Step(a, m, max));
    if SomeAsleep(s) {
      var k :| 0 <= k < |s.places| && s.places[k].Asleep?;
      assert a.clients[k].Sleeping?;
    }
    assert Step(s, m, max).places == t.places;
    assert [m][1..] == [];
  }

  lemma {:induction false} Chain(s: State, a: seq<T.Move>, t: State, b: seq<T.Move>, u: State, max: nat)
    requires Run(s, a, t, max) && Run(t, b, u, max)
    ensures Run(s, a + b, u, max)
    decreases a
  {
    if a == [] {
      assert a + b == b;
    } else {
      assert (a + b)[1..] == a[1..] + b;
      Chain(Step(s, a[0], max), a[1..], t, b, u, max);
    }
  }

  lemma {:induction false} StepsAreLines(a: T.State, steps: seq<T.Move>, b: T.State, max: nat)
    returns (lines: seq<T.Move>)
    requires T.Run(a, steps, b, max)
    ensures Run(Unlocked(a), lines, Unlocked(b), max)
    decreases steps
  {
    if steps == [] {
      lines := [];
    } else {
      var c := T.Step(a, steps[0], max);
      var first := StepIsLines(a, steps[0], max);
      var rest := StepsAreLines(c, steps[1..], b, max);
      Chain(Unlocked(a), first, Unlocked(c), rest, Unlocked(b), max);
      lines := first + rest;
    }
  }

  lemma ShowsItself(a: T.State, b: T.State, max: nat)
    requires Shows(Unlocked(a), b, max)
    ensures a == b
  {
    assert forall j :: 0 <= j < |a.clients| ==> Client(PlaceOf(a.clients[j])) == a.clients[j];
    assert a.clients == b.clients;
  }

  ghost predicate LinesReach(n: nat, s: State, max: nat) {
    exists moves :: Run(Init(n), moves, s, max)
  }

  ghost predicate StepsReach(n: nat, a: T.State, max: nat) {
    exists moves :: T.Run(T.Init(n), moves, a, max)
  }

  /** Whole critical sections are as good as lines: with the mutex free, the lines reach
      just the states that the protocol reaches. */
  lemma SameStates(n: nat, a: T.State, max: nat)
    ensures LinesReach(n, Unlocked(a), max) <==> StepsReach(n, a, max)
  {
    if LinesReach(n, Unlocked(a), max) {
      var moves :| Run(Init(n), moves, Unlocked(a), max);
      InitShows(n, max);
      var steps, b := LinesShowSteps(Init(n), moves, Unlocked(a), T.Init(n), max);
      ShowsItself(a, b, max);
    }
    if StepsReach(n, a, max) {
      var steps :| T.Run(T.Init(n), steps, a, max);
      var lines := StepsAreLines(T.Init(n), steps, a, max);
      assert Unlocked(T.Init(n)) == Init(n);
    }
  }

  // ----- what the protocol promises, line by line

  /** The object a thread has in its hands, in a section or outside. */
  function InHand(p: Place): Option<nat> {
    match p
    case Popped(_, o) => Some(o)
    case Got(_, o) => Some(o)
    case Has(o) => Some(o)
    case Releasing(o) => Some(o)
    case _ => None
  }

  /** An object in hand outside a section, or about to be released, is held in the
      protocol; one just taken from the free list is held by nobody there. */
  lemma InHandMeans(s: State, a: T.State, i: nat, max: nat)
    requires Shows(s, a, max) && T.Inv(a, max) && i < |s.places| && InHand(s.places[i]).Some?
    ensures var o := InHand(s.places[i]).value;
            if s.places[i].Popped? || s.places[i].Got? then s.owner == Some(i) && o !in OnLoan(a.pool)
            else a.clients[i] == T.Holding(o) && o in OnLoan(a.pool)
  {
    if s.places[i].Popped? || s.places[i].Got? {
      BorrowMeaning(a.pool, max);
    } else {
      assert T.Held(a.clients)[i] == InHand(s.places[i]);
    }
  }

  lemma HandsApart(s: State, a: T.State, i: nat, j: nat, max: nat)
    requires Shows(s, a, max) && T.Inv(a, max) && i < j < |s.places| && InHand(s.places[i]).Some?
    ensures InHand(s.places[i]) != InHand(s.places[j])
  {
    InHandMeans(s, a, i, max);
    if InHand(s.places[j]).Some? {
      InHandMeans(s, a, j, max);
      T.AllApart(a, max);
    }
  }

  lemma RaisedFlagLends(a: T.State, max: nat)
    requires T.Inv(a, max) && a.pool.ready
    ensures TryBorrow(a.pool, max).0.Some?
  {
  }

  /** A thread that saw the flag finds an object, and nobody has thrown. */
  lemma NoThrow(s: State, a: T.State, i: nat, max: nat)
    requires Shows(s, a, max) && T.Inv(a, max) && i < |s.places|
    ensures s.places[i] != Thrown && s.places[i] != NoneFree(true)
    ensures InSection(s.places[i]) <==> s.owner == Some(i)
  {
    if a.pool.ready {
      RaisedFlagLends(a, max);
    }
  }

  /** Nothing but a spurious wakeup can happen. */
  ghost predicate Blocked(s: State) {
    forall m :: Enabled(s, m) ==> m.Spurious?
  }

  ghost predicate Finished(s: State) {
    && (forall i :: 0 <= i < |s.places| ==> s.places[i].Done?)
    && s.owner.None? && OnLoan(s.pool) == {} && |s.pool.free| == s.pool.size
  }

  lemma BlockedIsStuck(s: State, a: T.State, max: nat)
    requires Shows(s, a, max) && Blocked(s)
    ensures s.owner.None? && T.Stuck(a)
  {
    if s.owner.Some? {
      OwnerIsBusy(s, s.owner.value, a, max);
      assert Enabled(s, T.Act(s.owner.value));
    }
    NobodyAsleep(s, a, max);
    forall m | T.Enabled(a, m) ensures m.Spurious? {
      assert a.clients[m.i] == Client(s.places[m.i]);
      assert Enabled(s, m);
    }
  }

  /** Every interleaving of lines, spurious wakeups included: just the owner of the mutex
      is in a critical section, nobody throws or is about to, no object is in two hands,
      a free mutex shows the flag up only over a free object, and a run can stop only with
      every thread done and every object free. */
  lemma LineTheorem(n: nat, moves: seq<T.Move>, t: State, max: nat)
    requires max >= 1 && Run(Init(n), moves, t, max)
    ensures |t.places| == n
    ensures forall i :: 0 <= i < n ==> (InSection(t.places[i]) <==> t.owner == Some(i))
    ensures forall i :: 0 <= i < n ==> t.places[i] != Thrown && t.places[i] != NoneFree(true)
    ensures forall i, j :: 0 <= i < j < n && InHand(t.places[i]).Some? ==>
              InHand(t.places[i]) != InHand(t.places[j])
    ensures t.owner.None? && t.pool.ready ==> t.pool.free != []
    ensures Blocked(t) <==> Finished(t)
  {
    InitShows(n, max);
    var steps, b := LinesShowSteps(Init(n), moves, t, T.Init(n), max);
    T.ThreadedTheorem(n, steps, b, max);
    forall i | 0 <= i < n
      ensures (InSection(t.places[i]) <==> t.owner == Some(i)) &&
              t.places[i] != Thrown && t.places[i] != NoneFree(true)
    {
      NoThrow(t, b, i, max);
    }
    forall i, j | 0 <= i < j < n && InHand(t.places[i]).Some? ensures InHand(t.places[i]) != InHand(t.places[j]) {
      HandsApart(t, b, i, j, max);
    }
    if Blocked(t) {
      BlockedIsDone(t, b, max);
    }
  }

  lemma BlockedIsDone(s: State, a: T.State, max: nat)
    requires Shows(s, a, max) && T.Inv(a, max) && max >= 1 && Blocked(s)
    ensures Finished(s)
  {
    BlockedIsStuck(s, a, max);
    T.StuckMeansDone(a, max);
    assert forall i :: 0 <= i < |s.places| ==> a.clients[i] == Client(s.places[i]);
  }
}
