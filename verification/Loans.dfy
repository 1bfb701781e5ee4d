/** Who holds which object: one entry a client, `Some(o)` while it has `o` on loan. */
module Loans {
  import opened Counting
  import opened PoolSpec

  function One(h: Option<nat>): nat {
    if h.Some? then 1 else 0
  }

  /** Free and lent objects partition the buffer, and every lent object has exactly
      one holder. */
  ghost predicate LoansAgree(p: PoolState, held: seq<Option<nat>>) {
    && WellFormed(p)
    && (forall i :: 0 <= i < |held| && held[i].Some? ==> held[i].value in OnLoan(p))
    && (forall i, j :: 0 <= i < j < |held| && held[i].Some? ==> held[i] != held[j])
    && (forall o :: o in OnLoan(p) ==> Some(o) in held)
    && Sum(held, One) == |OnLoan(p)|
  }

  lemma {:induction false} NobodyHolds(p: PoolState, n: nat, held: seq<Option<nat>>)
    requires WellFormed(p) && OnLoan(p) == {}
    requires |held| == n && forall i :: 0 <= i < n ==> held[i] == None
    ensures LoansAgree(p, held)
  {
    if Sum(held, One) > 0 {
      var i := SumPositive(held, One);
    }
  }

  /** A client that borrows becomes the only holder of what it gets. */
  lemma Lend(p: PoolState, held: seq<Option<nat>>, i: nat, max: nat)
    requires LoansAgree(p, held) && Bounded(p, max)
    requires i < |held| && held[i] == None
    ensures var (r, q) := TryBorrow(p, max); LoansAgree(q, held[i := r])
  {
    BorrowMeaning(p, max);
    var (r, q) := TryBorrow(p, max);
    SumUpdate(held, i, r, One);
    if r.Some? {
      forall o | o in OnLoan(q) ensures Some(o) in held[i := r] {
        if o == r.value {
          assert held[i := r][i] == Some(o);
        } else {
          var k :| 0 <= k < |held| && held[k] == Some(o);
          assert held[i := r][k] == Some(o);
        }
      }
    } else {
      assert held[i := r] == held;
    }
  }

  lemma TakeBack(p: PoolState, held: seq<Option<nat>>, i: nat)
    requires LoansAgree(p, held)
    requires i < |held| && held[i].Some?
    ensures LoansAgree(Release(p, held[i].value), held[i := None])
  {
    var o := held[i].value;
    ReleaseMeaning(p, o);
    SumUpdate(held, i, None, One);
    var q := Release(p, o);
    forall x | x in OnLoan(q) ensures Some(x) in held[i := None] {
      var k :| 0 <= k < |held| && held[k] == Some(x);
      assert held[i := None][k] == Some(x);
    }
  }

  /** When a borrow fails with at most one client more than objects, every other
      client holds an object. */
  lemma FailureMeansOthersHold(p: PoolState, held: seq<Option<nat>>, i: nat, max: nat)
    requires LoansAgree(p, held) && Bounded(p, max)
    requires i < |held| && held[i] == None && |held| <= max + 1
    requires TryBorrow(p, max).0.None?
    ensures |held| == max + 1
    ensures forall j :: 0 <= j < |held| && j != i ==> held[j].Some?
  {
    BorrowMeaning(p, max);
    SumSplit(held, One, i);
    SumAtMost(held[..i], One, 1);
    SumAtMost(held[i..][1..], One, 1);
    forall j | 0 <= j < |held| && j != i ensures held[j].Some? {
      SumNearlyFull(held, One, i, j);
    }
  }
}
