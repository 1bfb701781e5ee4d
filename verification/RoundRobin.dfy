/** `query_once` with its cursor kept across calls by one thread. */
module RoundRobin {
  import opened Counting
  import opened ProviderSelector

  /** `latency` holds each provider's `connpool_latency`; `cursor` is the static
      iterator, the length of the queue standing for its end. */
  datatype Rotor = Rotor(queue: seq<nat>, latency: seq<nat>, cursor: nat)

  ghost predicate Valid(s: Rotor) {
    && 0 < |s.queue| && s.cursor <= |s.queue|
    && (forall k :: 0 <= k < |s.queue| ==> s.queue[k] < |s.latency|)
    && (forall p :: 0 <= p < |s.latency| ==> s.latency[p] < UINT32)
  }

  function Position(s: Rotor): nat {
    if s.cursor == |s.queue| then 0 else s.cursor
  }

  function Decayed(latency: nat): nat {
    if latency > DECAY then latency - DECAY else 1
  }

  /** The provider queued at the inspected position. Outside a valid rotor, where the
      code would read past its queue, the value is arbitrary. */
  function Inspected(s: Rotor): nat {
    if Position(s) < |s.queue| then s.queue[Position(s)] else 0
  }

  /** A low latency stays, a high one decays. */
  function Touch(latency: seq<nat>, p: nat): (r: seq<nat>)
    ensures |r| == |latency|
  {
    if p < |latency| && latency[p] >= LIMIT then latency[p := Decayed(latency[p])] else latency
  }

  function Query(s: Rotor): (Option<nat>, Rotor) {
    var p := Inspected(s);
    (if p < |s.latency| && s.latency[p] >= LIMIT then None else Some(p),
     Rotor(s.queue, Touch(s.latency, p), Position(s) + 1))
  }

  /** The selector object. The loop below never moves its cursor while it goes on, so
      all its rounds inspect the same position. */
  class Selector {
    const queue: seq<nat>
    var latency: seq<nat>
    var curr: nat

    ghost function Model(): Rotor
      reads this
    {
      Rotor(queue, latency, curr)
    }

    constructor (queue: seq<nat>, latency: seq<nat>)
      requires Valid(Rotor(queue, latency, 0))
      ensures Model() == Rotor(queue, latency, 0)
    {
      this.queue, this.latency, curr := queue, latency, 0;
    }

    method QueryOnce() returns (r: Option<nat>)
      requires Valid(Model())
      modifies this
      ensures (r, Model()) == Query(old(Model()))
    {
      var counter := 0;
      var currPoolLatency := 1;
      while counter < |queue|
        invariant counter <= |queue|
        invariant latency == old(latency)
        invariant curr == if counter == 0 then old(curr) else Position(old(Model()))
        invariant counter > 0 ==> currPoolLatency == latency[queue[curr]] >= LIMIT
      {
        if curr == |queue| {
          curr := 0;
        }
        currPoolLatency := latency[queue[curr]];
        if currPoolLatency < LIMIT {
          r := Some(queue[curr]);
          curr := curr + 1;
          return;
        }
        counter := counter + 1;
      }
      latency := latency[queue[curr] := if currPoolLatency > DECAY then currPoolLatency - DECAY else 1];
      curr := curr + 1;
      return None;
    }
  }

  // ----- runs of calls

  /** The state after `m` calls. */
  function After(s: Rotor, m: nat): Rotor {
    if m == 0 then s else Query(After(s, m - 1)).1
  }

  /** What call `i` returns, counting from 0. */
  function Answer(s: Rotor, i: nat): Option<nat> {
    Query(After(s, i)).0
  }

  // ----- remainders and products, spelt as recursion

  /** `a` modulo `n`. */
  function Wrap(a: nat, n: nat): (r: nat)
    requires n > 0
    ensures r < n
    decreases a
  {
    if a < n then a else Wrap(a - n, n)
  }

  /** `k` times `n`. */
  function Times(k: nat, n: nat): nat {
    if k == 0 then 0 else Times(k - 1, n) + n
  }

  lemma {:induction false} WrapStep(a: nat, n: nat)
    requires n > 0
    ensures Wrap(a + 1, n) == if Wrap(a, n) + 1 == n then 0 else Wrap(a, n) + 1
    decreases a
  {
    if a >= n {
      WrapStep(a - n, n);
    }
  }

  /** More whole rounds mean more, whatever the rests. */
  lemma MoreRounds(q: nat, r: nat, q': nat, r': nat, n: nat)
    requires q < q' && r < n
    ensures q * n + r < q' * n + r'
  {
    assert q' * n == (q + 1) * n + (q' - q - 1) * n;
    assert (q' - q - 1) * n >= 0;
  }

  lemma ModIs(a: nat, q: nat, r: nat, n: nat)
    requires r < n && a == q * n + r
    ensures a % n == r && a / n == q
  {
    var q', r' := a / n, a % n;
    assert a == q' * n + r';
    if q < q' {
      MoreRounds(q, r, q', r', n);
    } else if q' < q {
      MoreRounds(q', r', q, r, n);
    }
  }

  lemma {:induction false} WrapIsMod(a: nat, n: nat)
    requires n > 0
    ensures Wrap(a, n) == a % n
    decreases a
  {
    if a < n {
      ModIs(a, 0, a, n);
    } else {
      WrapIsMod(a - n, n);
      var q, r := (a - n) / n, (a - n) % n;
      assert a == (q + 1) * n + r;
      ModIs(a, q + 1, r, n);
    }
  }

  lemma {:induction false} TimesIsProduct(k: nat, n: nat)
    ensures Times(k, n) == k * n
  {
    if k > 0 {
      TimesIsProduct(k - 1, n);
      assert k * n == (k - 1) * n + n;
    }
  }

  // ----- what the calls inspect

  /** The provider whose turn call `i` is, the first call inspecting position `c`. */
  function InTurn(q: seq<nat>, c: nat, i: nat): nat
    requires |q| > 0
  {
    q[Wrap(c + i, |q|)]
  }

  /** The latencies after `m` calls. */
  function Latencies(q: seq<nat>, c: nat, latency: seq<nat>, m: nat): (r: seq<nat>)
    requires |q| > 0
    ensures |r| == |latency|
  {
    if m == 0 then latency else Touch(Latencies(q, c, latency, m - 1), InTurn(q, c, m - 1))
  }

  lemma {:induction false} AfterIsValid(s: Rotor, i: nat)
    requires Valid(s)
    ensures After(s, i).queue == s.queue && Valid(After(s, i))
  {
    if i > 0 {
      AfterIsValid(s, i - 1);
      QueryKeeps(After(s, i - 1));
    }
  }

  lemma {:induction false} PositionWraps(s: Rotor, i: nat)
    requires Valid(s)
    ensures Position(After(s, i)) == Wrap(Position(s) + i, |s.queue|)
  {
    if i > 0 {
      PositionWraps(s, i - 1);
      AfterIsValid(s, i - 1);
      QueryKeeps(After(s, i - 1));
      WrapStep(Position(s) + i - 1, |s.queue|);
    }
  }

  /** One call touches the provider whose turn it is. */
  lemma AfterTouches(s: Rotor, i: nat)
    requires Valid(s)
    ensures After(s, i + 1).latency == Touch(After(s, i).latency, InTurn(s.queue, Position(s), i))
  {
    AfterIsValid(s, i);
    PositionWraps(s, i);
    assert Inspected(After(s, i)) == InTurn(s.queue, Position(s), i);
  }

  lemma LatenciesStep(q: seq<nat>, c: nat, latency: seq<nat>, i: nat)
    requires |q| > 0
    ensures Latencies(q, c, latency, i + 1) == Touch(Latencies(q, c, latency, i), InTurn(q, c, i))
  {
  }

  lemma {:induction false} LatenciesAre(s: Rotor, i: nat)
    requires Valid(s)
    ensures After(s, i).latency == Latencies(s.queue, Position(s), s.latency, i)
  {
    if i > 0 {
      LatenciesAre(s, i - 1);
      AfterTouches(s, i - 1);
      LatenciesStep(s.queue, Position(s), s.latency, i - 1);
    }
  }

  lemma InspectsWrapped(s: Rotor, i: nat)
    requires Valid(s)
    ensures After(s, i).queue == s.queue && Valid(After(s, i))
    ensures Position(After(s, i)) == Wrap(Position(s) + i, |s.queue|)
    ensures After(s, i).latency == Latencies(s.queue, Position(s), s.latency, i)
  {
    AfterIsValid(s, i);
    PositionWraps(s, i);
    LatenciesAre(s, i);
  }

  /** Call `i` inspects position `i` modulo the length of the queue and no other,
      whatever the earlier calls found. Below 10000 it returns the provider there and
      changes nothing; else it returns nothing and takes 51427 from that latency, or what
      there is down to 1. No other latency changes. */
  lemma InspectsInTurn(s: Rotor, i: nat)
    requires Valid(s)
    ensures var t := After(s, i);
            && Position(t) == (Position(s) + i) % |s.queue| < |s.queue|
            && t.queue == s.queue && |t.latency| == |s.latency|
            && forall p :: 0 <= p < |s.latency| && p != s.queue[Position(t)] ==>
                 Query(t).1.latency[p] == t.latency[p]
    ensures var t, p := After(s, i), s.queue[(Position(s) + i) % |s.queue|];
            var u := After(s, i + 1);
            && p < |t.latency| == |u.latency|
            && (t.latency[p] < 10000 ==> Answer(s, i) == Some(p) && u.latency == t.latency)
            && (t.latency[p] >= 10000 ==>
                  Answer(s, i) == None && u.latency[p] == if t.latency[p] > 51427 then t.latency[p] - 51427 else 1)
  {
    InspectsWrapped(s, i);
    WrapIsMod(Position(s) + i, |s.queue|);
  }

  lemma QueryKeeps(s: Rotor)
    requires Valid(s)
    ensures var t := Query(s).1;
            && Valid(t) && t.queue == s.queue && t.latency == Touch(s.latency, Inspected(s))
            && Position(t) == if Position(s) + 1 == |s.queue| then 0 else Position(s) + 1
  {
  }

  /** A call returns the provider whose turn it is exactly when its latency is low. */
  lemma AnswerIs(s: Rotor, i: nat)
    requires Valid(s)
    ensures var p := InTurn(s.queue, Position(s), i);
            && p < |s.latency|
            && Answer(s, i) == if Latencies(s.queue, Position(s), s.latency, i)[p] < LIMIT then Some(p) else None
  {
    InspectsWrapped(s, i);
  }

  lemma {:induction false} LatenciesChain(q: seq<nat>, c: nat, latency: seq<nat>, a: nat, b: nat)
    requires |q| > 0
    ensures Latencies(q, c, latency, a + b) == Latencies(q, c + a, Latencies(q, c, latency, a), b)
  {
    if b == 0 {
      assert a + b == a;
    } else {
      LatenciesChain(q, c, latency, a, b - 1);
      assert Latencies(q, c, latency, a + b) ==
             Touch(Latencies(q, c, latency, a + (b - 1)), InTurn(q, c, a + (b - 1)));
    }
  }

  // ----- low latencies: each provider gets exactly its weight

  ghost predicate AllLow(q: seq<nat>, latency: seq<nat>) {
    forall k :: 0 <= k < |q| ==> q[k] < |latency| && latency[q[k]] < LIMIT
  }

  lemma {:induction false} LowStaysLow(q: seq<nat>, c: nat, latency: seq<nat>, i: nat)
    requires |q| > 0 && AllLow(q, latency)
    ensures Latencies(q, c, latency, i) == latency
  {
    if i > 0 {
      LowStaysLow(q, c, latency, i - 1);
    }
  }

  lemma LowAnswer(s: Rotor, i: nat)
    requires Valid(s) && AllLow(s.queue, s.latency)
    ensures Answer(s, i) == Some(InTurn(s.queue, Position(s), i))
  {
    AnswerIs(s, i);
    LowStaysLow(s.queue, Position(s), s.latency, i);
  }

  /** How many of the calls from `from` on, `len` of them, return provider `p`. */
  function Served(s: Rotor, from: nat, len: nat, p: nat): nat {
    if len == 0 then 0
    else Served(s, from, len - 1, p) + (if Answer(s, from + len - 1) == Some(p) then 1 else 0)
  }

  /** How many of `len` positions from `from` on, round and round, hold `p`. */
  function Hits(q: seq<nat>, from: nat, len: nat, p: nat): nat
    requires |q| > 0
  {
    if len == 0 then 0
    else Hits(q, from, len - 1, p) + (if q[Wrap(from + len - 1, |q|)] == p then 1 else 0)
  }

  lemma {:induction false} ServedIsHits(s: Rotor, from: nat, len: nat, p: nat)
    requires Valid(s) && AllLow(s.queue, s.latency)
    ensures Served(s, from, len, p) == Hits(s.queue, Position(s) + from, len, p)
  {
    if len > 0 {
      ServedIsHits(s, from, len - 1, p);
      LowAnswer(s, from + len - 1);
      assert Position(s) + (from + len - 1) == Position(s) + from + len - 1;
    }
  }

  lemma {:induction false} HitsFront(q: seq<nat>, from: nat, len: nat, p: nat)
    requires |q| > 0 && len > 0
    ensures Hits(q, from, len, p) == (if q[Wrap(from, |q|)] == p then 1 else 0) + Hits(q, from + 1, len - 1, p)
  {
    if len > 1 {
      HitsFront(q, from, len - 1, p);
      assert from + 1 + (len - 1) - 1 == from + len - 1;
    }
  }

  lemma {:induction false} HitsSplit(q: seq<nat>, from: nat, a: nat, b: nat, p: nat)
    requires |q| > 0
    ensures Hits(q, from, a + b, p) == Hits(q, from, a, p) + Hits(q, from + a, b, p)
  {
    if b > 0 {
      HitsSplit(q, from, a, b - 1, p);
      assert a + b - 1 == a + (b - 1);
      assert from + a + b - 1 == from + (a + b) - 1;
    }
  }

  lemma {:induction false} FirstRound(q: seq<nat>, len: nat, p: nat)
    requires 0 < |q| && len <= |q|
    ensures Hits(q, 0, len, p) == Occurrences(q[..len], p)
  {
    if len > 0 {
      FirstRound(q, len - 1, p);
      assert q[..len][..len - 1] == q[..len - 1];
    }
  }

  /** Any `|q|` positions in a row, started anywhere, hold each value as often as the queue. */
  lemma {:induction false} AnyRound(q: seq<nat>, from: nat, p: nat)
    requires 0 < |q|
    ensures Hits(q, from, |q|, p) == Occurrences(q, p)
  {
    if from == 0 {
      FirstRound(q, |q|, p);
      assert q[..|q|] == q;
    } else {
      AnyRound(q, from - 1, p);
      HitsFront(q, from - 1, |q|, p);
      assert Hits(q, from, |q|, p) ==
             Hits(q, from, |q| - 1, p) + if q[Wrap(from + |q| - 1, |q|)] == p then 1 else 0;
      assert Wrap(from + |q| - 1, |q|) == Wrap(from - 1, |q|);
    }
  }

  lemma {:induction false} HitsBounds(q: seq<nat>, from: nat, len: nat, p: nat)
    requires 0 < |q| && len <= |q|
    ensures Hits(q, from, len, p) <= len
    ensures Hits(q, from, len, p) <= Occurrences(q, p)
  {
    HitsSplit(q, from, len, |q| - len, p);
    AnyRound(q, from, p);
    HitsAtMostLength(q, from, len, p);
  }

  lemma {:induction false} HitsAtMostLength(q: seq<nat>, from: nat, len: nat, p: nat)
    requires 0 < |q|
    ensures Hits(q, from, len, p) <= len
  {
    if len > 0 {
      HitsAtMostLength(q, from, len - 1, p);
    }
  }

  lemma {:induction false} WholeRounds(q: seq<nat>, from: nat, rounds: nat, p: nat)
    requires 0 < |q|
    ensures Hits(q, from, Times(rounds, |q|), p) == Times(rounds, Occurrences(q, p))
  {
    if rounds > 0 {
      WholeRounds(q, from, rounds - 1, p);
      HitsSplit(q, from, Times(rounds - 1, |q|), |q|, p);
      AnyRound(q, from + Times(rounds - 1, |q|), p);
    }
  }

  lemma RoundsAndRest(q: seq<nat>, from: nat, rounds: nat, rest: nat, p: nat)
    requires 0 < |q| && rest <= |q|
    ensures var w := Occurrences(q, p);
            Times(rounds, w) <= Hits(q, from, Times(rounds, |q|) + rest, p)
            <= Times(rounds, w) + (if w < rest then w else rest)
  {
    HitsSplit(q, from, Times(rounds, |q|), rest, p);
    WholeRounds(q, from, rounds, p);
    HitsBounds(q, from + Times(rounds, |q|), rest, p);
  }

  lemma HitsShares(q: seq<nat>, from: nat, m: nat, p: nat)
    requires 0 < |q|
    ensures var n, w := |q|, Occurrences(q, p);
            m / n * w <= Hits(q, from, m, p) <= m / n * w + (if w < m % n then w else m % n)
  {
    var k, r := m / |q|, m % |q|;
    assert m == Times(k, |q|) + r by {
      TimesIsProduct(k, |q|);
    }
    RoundsAndRest(q, from, k, r, p);
    TimesIsProduct(k, Occurrences(q, p));
  }

  /** While all queued latencies are low, a round of calls started anywhere serves each
      provider as often as it is queued, and `m` calls serve it between `m / n` whole
      shares and one part of a share more. */
  lemma FairShares(s: Rotor, from: nat, m: nat, p: nat)
    requires Valid(s) && AllLow(s.queue, s.latency)
    ensures var n, w := |s.queue|, Occurrences(s.queue, p);
            && Served(s, from, n, p) == w
            && m / n * w <= Served(s, from, m, p) <= m / n * w + (if w < m % n then w else m % n)
  {
    ServedIsHits(s, from, |s.queue|, p);
    ServedIsHits(s, from, m, p);
    AnyRound(s.queue, Position(s) + from, p);
    HitsShares(s.queue, Position(s) + from, m, p);
  }

  /** For a loaded registry a round of calls serves a small provider once, a medium one
      twice and a large one three times. */
  lemma FairByWeight(providers: seq<Provider>, s: Rotor, from: nat)
    requires s.queue == QueueOf(providers, |providers|)
    requires Valid(s) && AllLow(s.queue, s.latency)
    ensures SharesOf(providers, p => Served(s, from, |s.queue|, p))
  {
    QueueIsByWeight(providers);
    forall p: nat ensures Served(s, from, |s.queue|, p) == Occurrences(s.queue, p) {
      FairShares(s, from, |s.queue|, p);
    }
  }

  /** A selector as it is constructed: every connection pool starts at latency 1. */
  function Constructed(providers: seq<Provider>): Rotor {
    Rotor(QueueOf(providers, |providers|), seq(|providers|, _ => 1), 0)
  }

  lemma ConstructedIsLow(providers: seq<Provider>)
    requires Registrable(providers) && providers != []
    ensures var s := Constructed(providers); Valid(s) && AllLow(s.queue, s.latency)
  {
    var q, latency := QueueOf(providers, |providers|), seq(|providers|, _ => 1);
    QueueShape(providers, |providers|);
    assert Weight(providers[|providers| - 1].host) > 0;
    assert |q| > 0 && |latency| == |providers|;
    assert forall k :: 0 <= k < |q| ==> q[k] < |latency| && latency[q[k]] == 1;
  }

  /** From construction on, with latencies that nothing else raises, every call serves
      somebody, in the order of the queue, and every round serves by weight. */
  lemma ConstructedServes(providers: seq<Provider>, i: nat)
    requires Registrable(providers) && providers != []
    ensures var s := Constructed(providers);
            && |s.queue| > 0 && Answer(s, i) == Some(s.queue[i % |s.queue|])
            && SharesOf(providers, p => Served(s, i, |s.queue|, p))
  {
    var s := Constructed(providers);
    ConstructedIsLow(providers);
    LowAnswer(s, i);
    WrapIsMod(i, |s.queue|);
    FairByWeight(providers, s, i);
  }

  // ----- high latencies: how often a provider is skipped

  /** How many more times a provider of this latency will be skipped. */
  function SkipsLeft(latency: nat): nat {
    if latency < LIMIT then 0 else (latency - LIMIT) / DECAY + 1
  }

  lemma SkipsLeftStep(latency: nat)
    requires latency >= LIMIT
    ensures SkipsLeft(latency) == SkipsLeft(Decayed(latency)) + 1
  {
    if latency > DECAY {
      var d := latency - DECAY;
      if d >= LIMIT {
        var q, r := (d - LIMIT) / DECAY, (d - LIMIT) % DECAY;
        ModIs(latency - LIMIT, q + 1, r, DECAY);
      } else {
        ModIs(latency - LIMIT, 0, latency - LIMIT, DECAY);
      }
    } else {
      ModIs(latency - LIMIT, 0, latency - LIMIT, DECAY);
    }
  }

  /** A 32-bit latency costs at most 83516 skips. */
  lemma SkipsLeftBound(latency: nat)
    requires latency < UINT32
    ensures SkipsLeft(latency) <= 83516
    ensures SkipsLeft(UINT32 - 1) == 83516
  {
    var top := (UINT32 - 1) - LIMIT;
    ModIs(top, 83515, top - 83515 * DECAY, DECAY);
  }

  /** One if call `i` returns nothing. */
  function Nothing(s: Rotor, i: nat): nat {
    if Answer(s, i).None? then 1 else 0
  }

  /** One if call `i` skips provider `p`. */
  function Skipped(s: Rotor, i: nat, p: nat): nat {
    if Answer(s, i).None? && Inspected(After(s, i)) == p then 1 else 0
  }

  /** How many of the first `m` calls skipped provider `p`. */
  function Skips(s: Rotor, m: nat, p: nat): nat {
    if m == 0 then 0 else Skips(s, m - 1, p) + Skipped(s, m - 1, p)
  }

  /** How many of the first `m` calls returned nothing. */
  function Dropped(s: Rotor, m: nat): nat {
    if m == 0 then 0 else Dropped(s, m - 1) + Nothing(s, m - 1)
  }

  lemma TouchConserves(latency: seq<nat>, k: nat, p: nat)
    requires k < |latency| && p < |latency|
    ensures var after := Touch(latency, k);
            var skipped := if latency[k] >= LIMIT then 1 else 0;
            && SkipsLeft(after[p]) + (if k == p then skipped else 0) == SkipsLeft(latency[p])
            && Sum(after, SkipsLeft) + skipped == Sum(latency, SkipsLeft)
  {
    if latency[k] >= LIMIT {
      SkipsLeftStep(latency[k]);
      SumUpdate(latency, k, Decayed(latency[k]), SkipsLeft);
    }
  }

  /** One call, in terms of the latencies alone. */
  lemma CallTouches(s: Rotor, i: nat)
    requires Valid(s)
    ensures var t := After(s, i);
            && Inspected(t) == InTurn(s.queue, Position(s), i) < |t.latency| == |s.latency|
            && After(s, i + 1).latency == Touch(t.latency, Inspected(t))
            && (Answer(s, i).None? <==> t.latency[Inspected(t)] >= LIMIT)
  {
    InspectsWrapped(s, i);
    AfterTouches(s, i);
  }

  lemma ProviderStep(s: Rotor, i: nat, p: nat)
    requires Valid(s) && p < |s.latency|
    ensures |After(s, i).latency| == |After(s, i + 1).latency| == |s.latency|
    ensures SkipsLeft(After(s, i + 1).latency[p]) + Skipped(s, i, p) == SkipsLeft(After(s, i).latency[p])
  {
    CallTouches(s, i);
    TouchConserves(After(s, i).latency, Inspected(After(s, i)), p);
  }

  lemma TotalStep(s: Rotor, i: nat)
    requires Valid(s)
    ensures Sum(After(s, i + 1).latency, SkipsLeft) + Nothing(s, i) == Sum(After(s, i).latency, SkipsLeft)
  {
    CallTouches(s, i);
    var k := Inspected(After(s, i));
    TouchConserves(After(s, i).latency, k, k);
  }

  lemma {:induction false} ProviderSkips(s: Rotor, m: nat, p: nat)
    requires Valid(s) && p < |s.latency|
    ensures |After(s, m).latency| == |s.latency|
    ensures Skips(s, m, p) + SkipsLeft(After(s, m).latency[p]) == SkipsLeft(s.latency[p])
  {
    if m > 0 {
      ProviderSkips(s, m - 1, p);
      ProviderStep(s, m - 1, p);
    }
  }

  lemma {:induction false} TotalSkips(s: Rotor, m: nat)
    requires Valid(s)
    ensures Dropped(s, m) + Sum(After(s, m).latency, SkipsLeft) == Sum(s.latency, SkipsLeft)
  {
    if m > 0 {
      var i := m - 1;
      TotalSkips(s, i);
      TotalStep(s, i);
      assert Dropped(s, i + 1) == Dropped(s, i) + Nothing(s, i);
    }
  }

  /** Skips done and skips left are conserved: by provider, and in sum over providers,
      even when one provider sits in several places of the queue. So in any run a
      provider is skipped at most `SkipsLeft` of its first latency, and the calls that
      return nothing are at most the sum of these. */
  lemma SkipsConserved(s: Rotor, m: nat, p: nat)
    requires Valid(s) && p < |s.latency|
    ensures |After(s, m).latency| == |s.latency|
    ensures Skips(s, m, p) + SkipsLeft(After(s, m).latency[p]) == SkipsLeft(s.latency[p])
    ensures Dropped(s, m) + Sum(After(s, m).latency, SkipsLeft) == Sum(s.latency, SkipsLeft)
  {
    ProviderSkips(s, m, p);
    TotalSkips(s, m);
  }

  // ----- warming up

  lemma {:induction false} SkipsOnlyFall(q: seq<nat>, c: nat, latency: seq<nat>, m: nat, p: nat)
    requires |q| > 0 && p < |latency|
    ensures SkipsLeft(Latencies(q, c, latency, m)[p]) <= SkipsLeft(latency[p])
  {
    if m > 0 {
      SkipsOnlyFall(q, c, latency, m - 1, p);
      var before, k := Latencies(q, c, latency, m - 1), InTurn(q, c, m - 1);
      if k < |latency| {
        TouchConserves(before, k, p);
      }
    }
  }

  /** A provider whose turn comes within `m` calls has a skip less left after them. */
  lemma InspectedOnce(q: seq<nat>, c: nat, latency: seq<nat>, i: nat, m: nat, p: nat)
    requires |q| > 0 && i < m && p == InTurn(q, c, i) < |latency| && SkipsLeft(latency[p]) > 0
    ensures SkipsLeft(Latencies(q, c, latency, m)[p]) < SkipsLeft(latency[p])
  {
    var before := Latencies(q, c, latency, i);
    SkipsOnlyFall(q, c, latency, i, p);
    if before[p] >= LIMIT {
      SkipsLeftStep(before[p]);
    }
    var after := Latencies(q, c, latency, i + 1);
    LatenciesChain(q, c, latency, i + 1, m - (i + 1));
    SkipsOnlyFall(q, c + (i + 1), after, m - (i + 1), p);
  }

  /** A round of calls comes to every position. */
  lemma {:induction false} RoundComesTo(c: nat, k: nat, n: nat) returns (i: nat)
    requires k < n
    ensures i < n && Wrap(c + i, n) == k
    decreases c
  {
    if c >= n {
      i := RoundComesTo(c - n, k, n);
    } else {
      i := if k >= c then k - c else k + n - c;
    }
  }

  ghost predicate SkipsAtMost(q: seq<nat>, latency: seq<nat>, bound: nat) {
    forall k :: 0 <= k < |q| ==> q[k] < |latency| && SkipsLeft(latency[q[k]]) <= bound
  }

  lemma RoundHelps(q: seq<nat>, c: nat, latency: seq<nat>, rounds: nat)
    requires |q| > 0 && SkipsAtMost(q, latency, rounds) && rounds > 0
    ensures SkipsAtMost(q, Latencies(q, c, latency, |q|), rounds - 1)
  {
    var after := Latencies(q, c, latency, |q|);
    forall k | 0 <= k < |q| ensures SkipsLeft(after[q[k]]) <= rounds - 1 {
      SkipsOnlyFall(q, c, latency, |q|, q[k]);
      if SkipsLeft(latency[q[k]]) > 0 {
        var i := RoundComesTo(c, k, |q|);
        InspectedOnce(q, c, latency, i, |q|, q[k]);
      }
    }
  }

  lemma {:induction false} WarmUp(q: seq<nat>, c: nat, latency: seq<nat>, rounds: nat)
    requires |q| > 0 && SkipsAtMost(q, latency, rounds)
    ensures AllLow(q, Latencies(q, c, latency, Times(rounds, |q|)))
    decreases rounds
  {
    if rounds > 0 {
      RoundHelps(q, c, latency, rounds);
      WarmUp(q, c + |q|, Latencies(q, c, latency, |q|), rounds - 1);
      LatenciesChain(q, c, latency, |q|, Times(rounds - 1, |q|));
    }
  }

  lemma StaysWarm(q: seq<nat>, c: nat, latency: seq<nat>, rounds: nat, i: nat)
    requires |q| > 0 && SkipsAtMost(q, latency, rounds) && i >= Times(rounds, |q|)
    ensures AllLow(q, Latencies(q, c, latency, i))
  {
    var m := Times(rounds, |q|);
    WarmUp(q, c, latency, rounds);
    LatenciesChain(q, c, latency, m, i - m);
    LowStaysLow(q, c + m, Latencies(q, c, latency, m), i - m);
  }

  /** After as many rounds as the slowest queued provider has skips left, every call
      returns the provider whose turn it is: nothing is dropped any more. */
  lemma ServesAfterWarmUp(s: Rotor, rounds: nat, i: nat)
    requires Valid(s) && SkipsAtMost(s.queue, s.latency, rounds) && i >= rounds * |s.queue|
    ensures Answer(s, i) == Some(s.queue[(Position(s) + i) % |s.queue|])
  {
    TimesIsProduct(rounds, |s.queue|);
    StaysWarm(s.queue, Position(s), s.latency, rounds, i);
    AnswerIs(s, i);
    WrapIsMod(Position(s) + i, |s.queue|);
  }

  // ----- what an answer of nothing says

  /** Every provider in the queue is slow. */
  ghost predicate AllSlow(s: Rotor) {
    forall k :: 0 <= k < |s.queue| ==> s.queue[k] < |s.latency| && s.latency[s.queue[k]] >= LIMIT
  }

  ghost predicate OneProvider(q: seq<nat>) {
    forall j, k :: 0 <= j < |q| && 0 <= k < |q| ==> q[j] == q[k]
  }

  /** The log text for a call that returns nothing: all servers are slow. It fails here
      at the first call, made while provider 1 is fast. */
  lemma NothingThoughOneIsFast()
    ensures var s := Rotor([0, 1], [LIMIT, 1], 0);
            Valid(s) && Answer(s, 0) == None && s.latency[1] < LIMIT && !AllSlow(After(s, 0))
  {
    var s := Rotor([0, 1], [LIMIT, 1], 0);
    assert s.queue[1] == 1;
  }

  /** Calls that all return somebody change no latency. */
  lemma {:induction false} AnsweredChangesNothing(s: Rotor, i: nat, d: nat)
    requires Valid(s) && forall j: nat :: i <= j < i + d ==> Answer(s, j).Some?
    ensures After(s, i + d).latency == After(s, i).latency
  {
    if d > 0 {
      AnsweredChangesNothing(s, i, d - 1);
      CallTouches(s, i + d - 1);
      assert Answer(s, i + d - 1).Some?;
    }
  }

  /** An answered call finds the latency of the provider whose turn it is low. */
  lemma AnsweredIsLow(s: Rotor, i: nat, d: nat, k: nat)
    requires Valid(s) && k < |s.queue| && Wrap(Position(s) + i + d, |s.queue|) == k
    requires Answer(s, i + d).Some? && After(s, i + d).latency == After(s, i).latency
    ensures s.queue[k] < |After(s, i).latency| && After(s, i).latency[s.queue[k]] < LIMIT
  {
    CallTouches(s, i + d);
    assert Position(s) + (i + d) == Position(s) + i + d;
    assert InTurn(s.queue, Position(s), i + d) == s.queue[k];
  }

  /** When no call from `i` on returns nothing, every queued latency is low at call `i`. */
  lemma NeverNothingMeansLow(s: Rotor, i: nat)
    requires Valid(s) && forall j: nat :: i <= j ==> Answer(s, j).Some?
    ensures AllLow(s.queue, After(s, i).latency)
  {
    forall k | 0 <= k < |s.queue|
      ensures s.queue[k] < |After(s, i).latency| && After(s, i).latency[s.queue[k]] < LIMIT
    {
      var d := RoundComesTo(Position(s) + i, k, |s.queue|);
      AnsweredChangesNothing(s, i, d);
      AnsweredIsLow(s, i, d, k);
    }
  }

  lemma {:induction false} LastNothing(s: Rotor, i: nat, m: nat) returns (last: nat)
    requires Answer(s, i).None? && forall j: nat :: m <= j ==> Answer(s, j).Some?
    ensures Answer(s, last).None? && forall j: nat :: last < j ==> Answer(s, j).Some?
    decreases m - i
  {
    if j: nat :| i < j && Answer(s, j).None? {
      last := LastNothing(s, j, m);
    } else {
      last := i;
    }
  }

  /** Nothing is returned from some call on. */
  lemma NothingEnds(s: Rotor) returns (m: nat)
    requires Valid(s)
    ensures forall j: nat :: m <= j ==> Answer(s, j).Some?
  {
    m := 83516 * |s.queue|;
    forall k | 0 <= k < |s.queue| ensures SkipsLeft(s.latency[s.queue[k]]) <= 83516 {
      SkipsLeftBound(s.latency[s.queue[k]]);
    }
    forall j: nat | m <= j ensures Answer(s, j).Some? {
      ServesAfterWarmUp(s, 83516, j);
    }
  }

  /** The last call that returns nothing leaves all queued latencies low, so before it
      every provider but the inspected one was fast. */
  lemma OthersFastAtLast(s: Rotor, last: nat, k: nat)
    requires Valid(s) && k < |s.queue|
    requires forall j: nat :: last < j ==> Answer(s, j).Some?
    ensures s.queue[k] < |After(s, last).latency|
    ensures s.queue[k] != Inspected(After(s, last)) ==> After(s, last).latency[s.queue[k]] < LIMIT
  {
    NeverNothingMeansLow(s, last + 1);
    CallTouches(s, last);
  }

  lemma SomeOtherWasFast(s: Rotor, i: nat) returns (last: nat)
    requires Valid(s) && Answer(s, i).None? && !OneProvider(s.queue)
    ensures Answer(s, last).None? && !AllSlow(After(s, last))
  {
    var m := NothingEnds(s);
    last := LastNothing(s, i, m);
    var j, k :| 0 <= j < |s.queue| && 0 <= k < |s.queue| && s.queue[j] != s.queue[k];
    InspectsWrapped(s, last);
    OthersFastAtLast(s, last, j);
    OthersFastAtLast(s, last, k);
  }

  lemma SoleProviderIsSlow(s: Rotor, i: nat)
    requires Valid(s) && OneProvider(s.queue) && Answer(s, i).None?
    ensures AllSlow(After(s, i))
  {
    InspectsWrapped(s, i);
    CallTouches(s, i);
  }

  /** Every answer of nothing means that all servers are slow, as the log says, exactly
      when no queued latency is high to begin with, so that there is no such answer, or
      the queue holds one provider only. */
  lemma NothingMeansAllSlow(s: Rotor)
    requires Valid(s)
    ensures (forall i: nat :: Answer(s, i).None? ==> AllSlow(After(s, i))) <==>
            AllLow(s.queue, s.latency) || OneProvider(s.queue)
  {
    if AllLow(s.queue, s.latency) {
      forall i: nat ensures Answer(s, i).Some? {
        LowAnswer(s, i);
      }
    } else if OneProvider(s.queue) {
      forall i: nat | Answer(s, i).None? ensures AllSlow(After(s, i)) {
        SoleProviderIsSlow(s, i);
      }
    } else {
      if forall j: nat :: 0 <= j ==> Answer(s, j).Some? {
        NeverNothingMeansLow(s, 0);
      }
      var i: nat :| Answer(s, i).None?;
      var last := SomeOtherWasFast(s, i);
    }
  }
}
