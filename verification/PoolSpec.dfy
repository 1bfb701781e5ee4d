/** The pool as a value: objects are named by their position in the buffer, which
    only grows. The heap class in ObjectPool.dfy refines these functions, and the
    two protocols in CoroutinePool.dfy and ThreadedPool.dfy run on them. */
module PoolSpec {
  import opened Counting

  datatype PoolState = PoolState(size: nat, free: seq<nat>, ready: bool)

  const EMPTY := PoolState(0, [], false)

  ghost predicate WellFormed(p: PoolState) {
    Distinct(p.free) && forall k :: 0 <= k < |p.free| ==> p.free[k] < p.size
  }

  ghost predicate Bounded(p: PoolState, max: nat) {
    p.size <= max
  }

  ghost function OnLoan(p: PoolState): set<nat> {
    set o: nat | o < p.size && o !in p.free
  }

  /** `do_try_borrow_one`: the head of the free list, else one newly built object
      pushed on the free list and another round, else nothing. */
  function TryBorrow(p: PoolState, max: nat): (r: (Option<nat>, PoolState))
    decreases |p.free| == 0
  {
    if |p.free| > 0 then
      (Some(p.free[0]), PoolState(p.size, p.free[1..], false))
    else if p.size < max then
      TryBorrow(PoolState(p.size + 1, p.free + [p.size], p.ready), max)
    else
      (None, p)
  }

  /** The locked part of `release_one`. */
  function Release(p: PoolState, o: nat): PoolState {
    PoolState(p.size, [o] + p.free, true)
  }

  /** `fill_full`: `max` rounds, with no test of the bound. */
  function Fill(p: PoolState, rounds: nat): PoolState
    decreases rounds
  {
    if rounds == 0 then p
    else Fill(PoolState(p.size + 1, p.free + [p.size], p.ready), rounds - 1)
  }

  // ----- what the operations mean

  lemma LoanCount(p: PoolState)
    requires WellFormed(p)
    ensures |p.free| <= p.size
    ensures |OnLoan(p)| == p.size - |p.free|
  {
    DistinctSize(p.free);
    SubsetSize(Members(p.free), Below(p.size));
    assert OnLoan(p) == Below(p.size) - Members(p.free);
  }

  ghost function Below(n: nat): (s: set<nat>)
    ensures |s| == n
    ensures forall o: nat :: o in s <==> o < n
  {
    if n == 0 then {} else Below(n - 1) + {n - 1}
  }

  ghost function Members(s: seq<nat>): (m: set<nat>)
    ensures forall o: nat :: o in m <==> o in s
  {
    set o | o in s
  }

  lemma {:induction false} DistinctSize(s: seq<nat>)
    requires Distinct(s)
    ensures |Members(s)| == |s|
  {
    if s != [] {
      DistinctSize(s[1..]);
      assert forall o :: o in s <==> o == s[0] || o in s[1..];
      assert Members(s) == Members(s[1..]) + {s[0]};
    }
  }

  lemma SubsetSize(a: set<nat>, b: set<nat>)
    requires a <= b
    ensures |a| <= |b|
    ensures |b - a| == |b| - |a|
  {
    assert b == a + (b - a);
  }

  /** A borrow lends exactly one object that nobody held, and fails exactly when
      all `max` objects exist and are on loan. */
  lemma BorrowMeaning(p: PoolState, max: nat)
    requires WellFormed(p) && Bounded(p, max)
    ensures var (r, q) := TryBorrow(p, max);
            && WellFormed(q) && Bounded(q, max)
            && (r.None? <==> |OnLoan(p)| == max)
            && (r.None? ==> q == p && p.free == [] && p.size == max)
            && (r.Some? ==> r.value !in OnLoan(p) && OnLoan(q) == OnLoan(p) + {r.value} && !q.ready)
  {
    LoanCount(p);
    GrowsOnlyWhenNoneFree(p, max);
    if |p.free| > 0 {
      BorrowFree(p);
    } else if p.size < max {
      BorrowNew(p);
    }
  }

  /** Lending an object built on the spot. */
  lemma BorrowNew(p: PoolState)
    requires p.free == []
    ensures var q := PoolState(p.size + 1, [], false);
            WellFormed(q) && p.size !in OnLoan(p) && OnLoan(q) == OnLoan(p) + {p.size}
  {
  }

  /** Taking the head of the free list. */
  lemma BorrowFree(p: PoolState)
    requires WellFormed(p) && |p.free| > 0
    ensures var q := PoolState(p.size, p.free[1..], false);
            WellFormed(q) && p.free[0] !in OnLoan(p) && OnLoan(q) == OnLoan(p) + {p.free[0]}
  {
    var o, rest := p.free[0], p.free[1..];
    assert o !in rest;
    assert forall x :: x in p.free <==> x == o || x in rest;
  }

  /** Releasing an object on loan takes just that object back and raises the flag. */
  lemma ReleaseMeaning(p: PoolState, o: nat)
    requires WellFormed(p) && o in OnLoan(p)
    ensures WellFormed(Release(p, o)) && Release(p, o).ready
    ensures OnLoan(Release(p, o)) == OnLoan(p) - {o}
  {
    var q := Release(p, o);
    assert forall x :: x in q.free <==> x == o || x in p.free;
  }

  /** The object given back last is the one lent next, and the pair leaves size,
      order of the free list and loans as they were. */
  lemma ReleaseThenBorrow(p: PoolState, o: nat, max: nat)
    requires WellFormed(p) && o in OnLoan(p)
    ensures TryBorrow(Release(p, o), max) == (Some(o), p.(ready := false))
  {
    assert Release(p, o).free[1..] == p.free;
  }

  lemma {:induction false} FillMeaning(p: PoolState, rounds: nat)
    requires WellFormed(p)
    ensures var q := Fill(p, rounds);
            && WellFormed(q) && q.size == p.size + rounds && q.ready == p.ready
            && q.free == p.free + seq(rounds, i requires 0 <= i => p.size + i)
            && OnLoan(q) == OnLoan(p)
    decreases rounds
  {
    if rounds == 0 {
      assert Fill(p, 0).free == p.free + [];
    } else {
      var p1 := PoolState(p.size + 1, p.free + [p.size], p.ready);
      assert OnLoan(p1) == OnLoan(p);
      FillMeaning(p1, rounds - 1);
      var tail := seq(rounds, i requires 0 <= i => p.size + i);
      assert tail == [p.size] + seq(rounds - 1, i requires 0 <= i => p1.size + i);
      assert p.free + tail == p1.free + seq(rounds - 1, i requires 0 <= i => p1.size + i);
    }
  }

  /** `fill_full` tests no bound: it keeps the pool within `max` exactly when it is
      called on a pool that has built nothing yet. */
  lemma FillKeepsBoundIffEmpty(p: PoolState, max: nat)
    requires WellFormed(p) && max >= 1
    ensures Bounded(Fill(p, max), max) <==> p.size == 0
    ensures p.size == 0 ==> OnLoan(Fill(p, max)) == {} && |Fill(p, max).free| == max
  {
    FillMeaning(p, max);
    LoanCount(p);
  }

  // ----- histories and the high-water mark

  datatype Op = Borrow | GiveBack(obj: nat)

  ghost predicate Legal(p: PoolState, ops: seq<Op>, max: nat)
    decreases ops
  {
    ops == [] || (
      && (ops[0].GiveBack? ==> ops[0].obj in OnLoan(p))
      && Legal(Apply(p, ops[0], max), ops[1..], max))
  }

  function Apply(p: PoolState, op: Op, max: nat): PoolState {
    match op
    case Borrow => TryBorrow(p, max).1
    case GiveBack(o) => Release(p, o)
  }

  function ApplyAll(p: PoolState, ops: seq<Op>, max: nat): PoolState
    decreases ops
  {
    if ops == [] then p else ApplyAll(Apply(p, ops[0], max), ops[1..], max)
  }

  /** The most objects ever on loan at once, over all states of the history. */
  ghost function Peak(p: PoolState, ops: seq<Op>, max: nat): nat
    decreases ops
  {
    var now := |OnLoan(p)|;
    if ops == [] then now
    else
      var later := Peak(Apply(p, ops[0], max), ops[1..], max);
      if now < later then later else now
  }

  /** An object is built only when none is free, so a history ends with as many
      objects as it began with or as were ever on loan together, whichever is more. */
  lemma {:induction false} HighWaterMark(p: PoolState, ops: seq<Op>, max: nat)
    requires WellFormed(p) && Bounded(p, max) && Legal(p, ops, max)
    ensures var q := ApplyAll(p, ops, max);
            && WellFormed(q) && Bounded(q, max)
            && q.size == (if p.size < Peak(p, ops, max) then Peak(p, ops, max) else p.size)
    decreases ops
  {
    LoanCount(p);
    if ops != [] {
      var p1 := Apply(p, ops[0], max);
      match ops[0] {
        case Borrow => BorrowMeaning(p, max);
          GrowsOnlyWhenNoneFree(p, max);
        case GiveBack(o) => ReleaseMeaning(p, o);
      }
      HighWaterMark(p1, ops[1..], max);
      LoanCount(p1);
      PeakCoversStart(p1, ops[1..], max);
    }
  }

  lemma GrowsOnlyWhenNoneFree(p: PoolState, max: nat)
    ensures var (r, q) := TryBorrow(p, max);
            if p.free == [] && p.size < max then r == Some(p.size) && q == PoolState(p.size + 1, [], false)
            else q.size == p.size
  {
    if |p.free| == 0 && p.size < max {
      assert p.free + [p.size] == [p.size];
    }
  }

  lemma PeakCoversStart(p: PoolState, ops: seq<Op>, max: nat)
    ensures Peak(p, ops, max) >= |OnLoan(p)|
  {
  }

  /** From the empty pool the buffer holds exactly the high-water mark of loans. */
  lemma HighWaterFromEmpty(ops: seq<Op>, max: nat)
    requires Legal(EMPTY, ops, max)
    ensures ApplyAll(EMPTY, ops, max).size == Peak(EMPTY, ops, max) <= max
  {
    HighWaterMark(EMPTY, ops, max);
  }
}
