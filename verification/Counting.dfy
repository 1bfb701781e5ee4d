/** Options, and sums of a weight over the members of a sequence. */
module Counting {

  datatype Option<+T> = None | Some(value: T)

  ghost predicate Distinct<T>(s: seq<T>) {
    forall i, j :: 0 <= i < j < |s| ==> s[i] != s[j]
  }

  function Sum<T>(s: seq<T>, f: T -> nat): nat {
    if s == [] then 0 else f(s[0]) + Sum(s[1..], f)
  }

  /** Replacing one member changes the sum by the difference of the two weights. */
  lemma {:induction false} SumUpdate<T>(s: seq<T>, i: nat, x: T, f: T -> nat)
    requires i < |s|
    ensures Sum(s[i := x], f) + f(s[i]) == Sum(s, f) + f(x)
  {
    if i == 0 {
      assert s[i := x][1..] == s[1..];
    } else {
      assert s[i := x][1..] == s[1..][i - 1 := x];
      SumUpdate(s[1..], i - 1, x, f);
    }
  }

  /** If every weight is at most `bound`, a sum is at most `bound` for each member. */
  lemma {:induction false} SumAtMost<T>(s: seq<T>, f: T -> nat, bound: nat)
    requires forall i :: 0 <= i < |s| ==> f(s[i]) <= bound
    ensures Sum(s, f) <= bound * |s|
  {
    if s != [] {
      SumAtMost(s[1..], f, bound);
    }
  }

  lemma {:induction false} SumAtLeastMember<T>(s: seq<T>, f: T -> nat, i: nat)
    requires i < |s|
    ensures f(s[i]) <= Sum(s, f)
  {
    if i > 0 {
      SumAtLeastMember(s[1..], f, i - 1);
    }
  }

  /** A positive sum has a member of positive weight. */
  lemma {:induction false} SumPositive<T>(s: seq<T>, f: T -> nat) returns (i: nat)
    requires Sum(s, f) > 0
    ensures i < |s| && f(s[i]) > 0
  {
    if f(s[0]) > 0 {
      i := 0;
    } else {
      i := SumPositive(s[1..], f);
      i := i + 1;
    }
  }

  /** A sum of weights of at most one that misses its maximum by at most one
      leaves room for only one member of weight zero. */
  lemma SumNearlyFull<T>(s: seq<T>, f: T -> nat, i: nat, j: nat)
    requires i < |s| && j < |s| && i != j
    requires forall k :: 0 <= k < |s| ==> f(s[k]) <= 1
    requires f(s[i]) == 0 && Sum(s, f) + 1 >= |s|
    ensures f(s[j]) == 1
  {
    if f(s[j]) == 0 {
      var lo, hi := if i < j then i else j, if i < j then j else i;
      SumSplit(s, f, hi);
      SumSplit(s[..hi], f, lo);
      SumAtMost(s[hi..][1..], f, 1);
      SumAtMost(s[..hi][..lo], f, 1);
      SumAtMost(s[..hi][lo..][1..], f, 1);
    }
  }

  lemma {:induction false} SumSplit<T>(s: seq<T>, f: T -> nat, k: nat)
    requires k <= |s|
    ensures Sum(s, f) == Sum(s[..k], f) + Sum(s[k..], f)
  {
    if k > 0 {
      SumSplit(s[1..], f, k - 1);
      assert s[1..][..k - 1] == s[..k][1..];
      assert s[1..][k - 1..] == s[k..];
    } else {
      assert s[k..] == s;
    }
  }
}
