/** Registration in etcd: each agent reads the list, then writes it back with its own
    address behind it. The two requests are separate, so agents interleave. */
module EtcdRegistry {
  import opened Counting
  import opened Text

  const BAR: char := '|'

  // ----- one agent alone

  class EtcdService {
    var store: map<string, string>

    constructor ()
      ensures store == map[]
    {
      store := map[];
    }

    /** A missing key reads as the empty text. */
    method SyncGet(key: string) returns (value: string)
      ensures value == ReadKey(store, key)
      ensures if key in store then value == store[key] else value == ""
    {
      value := if key in store then store[key] else "";
    }

    method SyncSet(key: string, value: string)
      modifies this
      ensures store == old(store)[key := value]
    {
      store := store[key := value];
    }

    /** What one agent does alone: the value becomes the last field of the list under
        the key, or the whole text where there was none. It is a read and a write of the
        protocol below in a row. */
    method Append(key: string, value: string)
      modifies this
      ensures key in store && store == old(store)[key := store[key]]
      ensures key !in old(store) || old(store)[key] == "" ==> store[key] == value
      ensures key in old(store) && old(store)[key] != "" ==> store[key] == old(store)[key] + "|" + value
      ensures Lookup(store, key) == Register(State(Lookup(old(store), key), [Idle]), 0, [value]).store
    {
      var originVal := SyncGet(key);
      if originVal != "" {
        originVal := originVal + [BAR];
      }
      originVal := originVal + value;
      SyncSet(key, originVal);
    }

    method GetList(key: string) returns (list: seq<string>)
      ensures list == Split(if key in store then store[key] else "", '|')
    {
      var value := SyncGet(key);
      list := Split(value, BAR);
    }
  }

  function ReadKey(store: map<string, string>, key: string): string {
    if key in store then store[key] else ""
  }

  function Lookup(store: map<string, string>, key: string): Option<string> {
    if key in store then Some(store[key]) else None
  }

  function Extended(origin: string, value: string): string {
    (if origin != "" then origin + [BAR] else origin) + value
  }

  // ----- the text and the list it stands for

  /** What a reader makes of the stored text: its fields, empty ones skipped. */
  function Decode(text: string): seq<string> {
    NonEmpty(Split(text, BAR))
  }

  function NonEmpty(parts: seq<string>): seq<string> {
    if parts == [] then []
    else if parts[0] == "" then NonEmpty(parts[1..])
    else [parts[0]] + NonEmpty(parts[1..])
  }

  lemma {:induction false} NonEmptyConcat(a: seq<string>, b: seq<string>)
    ensures NonEmpty(a + b) == NonEmpty(a) + NonEmpty(b)
  {
    if a == [] {
      assert a + b == b;
    } else {
      assert (a + b)[1..] == a[1..] + b;
      NonEmptyConcat(a[1..], b);
    }
  }

  lemma DecodeEmpty()
    ensures Decode("") == []
  {
    assert Split("", BAR) == [""];
    assert NonEmpty([""]) == NonEmpty([""][1..]);
  }

  predicate Addressable(value: string) {
    value != "" && BAR !in value
  }

  /** Appending an address to any stored text adds it to the end of the list. */
  lemma AppendDecodes(origin: string, value: string)
    requires Addressable(value)
    ensures Decode(Extended(origin, value)) == Decode(origin) + [value]
  {
    SplitPlain(value, BAR);
    assert NonEmpty([value]) == [value] + NonEmpty([value][1..]);
    if origin == "" {
      DecodeEmpty();
      assert Extended(origin, value) == value;
    } else {
      SplitConcat(origin, BAR, value);
      NonEmptyConcat(Split(origin, BAR), [value]);
    }
  }

  /** Appending changes the fields, empty ones included, in one way: the value comes in
      behind them, and alone where there was no text. */
  lemma AppendAddsField(origin: string, value: string)
    requires '|' !in value
    ensures Extended("", value) == value
    ensures Split(Extended(origin, value), '|') == if origin == "" then [value] else Split(origin, '|') + [value]
  {
    SplitPlain(value, '|');
    if origin != "" {
      SplitConcat(origin, '|', value);
    }
  }

  /** A text that holds no empty field: it is its list with bars between. */
  ghost predicate Canonical(text: string) {
    text == Join(Decode(text), '|')
  }

  lemma AppendKeepsCanonical(origin: string, value: string)
    requires Canonical(origin) && Addressable(value)
    ensures Canonical(Extended(origin, value))
  {
    AppendDecodes(origin, value);
    if origin == "" {
      DecodeEmpty();
    } else {
      JoinAppend(Decode(origin), value, '|');
    }
  }

  // ----- many agents

  /** `Read` carries the text an agent has read and not yet written back. */
  datatype Agent = Idle | Read(copy: string) | Registered

  datatype State = State(store: Option<string>, agents: seq<Agent>)

  /** The agents' addresses: none empty, none with a bar, no two alike. */
  ghost predicate Addresses(addrs: seq<string>) {
    Distinct(addrs) && forall i :: 0 <= i < |addrs| ==> Addressable(addrs[i])
  }

  function Init(n: nat): State {
    State(None, seq(n, _ => Idle))
  }

  function Stored(store: Option<string>): string {
    if store.Some? then store.value else ""
  }

  predicate Enabled(s: State, i: nat) {
    i < |s.agents| && !s.agents[i].Registered?
  }

  function Step(s: State, i: nat, addrs: seq<string>): State
    requires Enabled(s, i) && |addrs| == |s.agents|
  {
    match s.agents[i]
    case Idle => State(s.store, s.agents[i := Read(Stored(s.store))])
    case Read(copy) => State(Some(Extended(copy, addrs[i])), s.agents[i := Registered])
  }

  ghost predicate Run(s: State, schedule: seq<nat>, t: State, addrs: seq<string>)
    requires |addrs| == |s.agents|
    decreases schedule
  {
    if schedule == [] then s == t
    else Enabled(s, schedule[0]) && Run(Step(s, schedule[0], addrs), schedule[1..], t, addrs)
  }

  // ----- what every step keeps

  /** A decoded list names agents that have set, each at most once. */
  ghost predicate GoodList(list: seq<string>, s: State, addrs: seq<string>)
    requires |addrs| == |s.agents|
  {
    && Distinct(list)
    && (forall a :: a in list ==>
          exists i :: 0 <= i < |addrs| && addrs[i] == a && s.agents[i].Registered?)
  }

  ghost predicate Inv(s: State, addrs: seq<string>) {
    && |addrs| == |s.agents|
    && GoodList(Decode(Stored(s.store)), s, addrs)
    && Canonical(Stored(s.store))
    && (forall i :: 0 <= i < |s.agents| && s.agents[i].Read? ==>
          GoodList(Decode(s.agents[i].copy), s, addrs) && Canonical(s.agents[i].copy))
  }

  lemma InitInv(addrs: seq<string>)
    ensures Inv(Init(|addrs|), addrs)
  {
    DecodeEmpty();
  }

  /** An agent that has not set yet is in no list that anybody can see. */
  lemma NotListedBeforeSet(list: seq<string>, s: State, addrs: seq<string>, i: nat)
    requires Addresses(addrs) && |addrs| == |s.agents| && GoodList(list, s, addrs)
    requires i < |addrs| && !s.agents[i].Registered?
    ensures addrs[i] !in list
  {
  }

  /** Lists stay good while agents only move forward. */
  lemma GoodListStays(list: seq<string>, s: State, t: State, addrs: seq<string>)
    requires |addrs| == |s.agents| == |t.agents| && GoodList(list, s, addrs)
    requires forall i :: 0 <= i < |s.agents| && s.agents[i].Registered? ==> t.agents[i].Registered?
    ensures GoodList(list, t, addrs)
  {
    forall a | a in list
      ensures exists i :: 0 <= i < |addrs| && addrs[i] == a && t.agents[i].Registered?
    {
      var i :| 0 <= i < |addrs| && addrs[i] == a && s.agents[i].Registered?;
      assert t.agents[i].Registered?;
    }
  }

  lemma StepKeeps(s: State, i: nat, addrs: seq<string>)
    requires Addresses(addrs) && Inv(s, addrs) && Enabled(s, i)
    ensures var t := Step(s, i, addrs);
            && Inv(t, addrs)
            && (s.agents[i].Read? ==>
                  Decode(Stored(t.store)) == Decode(s.agents[i].copy) + [addrs[i]])
  {
    var t := Step(s, i, addrs);
    GoodListStays(Decode(Stored(s.store)), s, t, addrs);
    forall j | 0 <= j < |s.agents| && s.agents[j].Read? ensures GoodList(Decode(s.agents[j].copy), t, addrs) {
      GoodListStays(Decode(s.agents[j].copy), s, t, addrs);
    }
    if s.agents[i].Read? {
      var list := Decode(s.agents[i].copy);
      AppendDecodes(s.agents[i].copy, addrs[i]);
      AppendKeepsCanonical(s.agents[i].copy, addrs[i]);
      NotListedBeforeSet(list, s, addrs, i);
      assert t.agents[i].Registered?;
      assert forall a :: a in list + [addrs[i]] ==> a in list || a == addrs[i];
    }
  }

  /** The agent whose write came last, `before` standing for the writes made earlier. */
  ghost function LatestSetter(
    s: State, schedule: seq<nat>, t: State, addrs: seq<string>, before: Option<nat>
  ): Option<nat>
    requires |addrs| == |s.agents| && Run(s, schedule, t, addrs)
    decreases schedule
  {
    if schedule == [] then before
    else
      var i := schedule[0];
      LatestSetter(Step(s, i, addrs), schedule[1..], t, addrs, if s.agents[i].Read? then Some(i) else before)
  }

  ghost predicate EndsWith(list: seq<string>, setter: Option<nat>, addrs: seq<string>) {
    match setter
    case None => list == []
    case Some(i) => i < |addrs| && |list| > 0 && list[|list| - 1] == addrs[i]
  }

  lemma {:induction false} RunKeeps(s: State, schedule: seq<nat>, t: State, addrs: seq<string>, before: Option<nat>)
    requires Addresses(addrs) && Inv(s, addrs) && Run(s, schedule, t, addrs)
    requires EndsWith(Decode(Stored(s.store)), before, addrs)
    ensures Inv(t, addrs)
    ensures EndsWith(Decode(Stored(t.store)), LatestSetter(s, schedule, t, addrs, before), addrs)
    decreases schedule
  {
    if schedule != [] {
      var i := schedule[0];
      StepKeeps(s, i, addrs);
      RunKeeps(Step(s, i, addrs), schedule[1..], t, addrs, if s.agents[i].Read? then Some(i) else before);
    }
  }

  /** Under any interleaving the stored text is a list with bars between, without empty
      fields or duplicates, of agents that have set, and the one that set last is at its
      end. */
  lemma RegistryTheorem(addrs: seq<string>, schedule: seq<nat>, t: State)
    requires Addresses(addrs) && Run(Init(|addrs|), schedule, t, addrs)
    ensures Inv(t, addrs) && GoodList(Decode(Stored(t.store)), t, addrs)
    ensures Stored(t.store) == Join(Decode(Stored(t.store)), '|')
    ensures EndsWith(Decode(Stored(t.store)), LatestSetter(Init(|addrs|), schedule, t, addrs, None), addrs)
  {
    InitInv(addrs);
    DecodeEmpty();
    RunKeeps(Init(|addrs|), schedule, t, addrs, None);
  }

  ghost predicate OthersKept(before: map<string, string>, after: map<string, string>, key: string) {
    forall k :: k != key ==> Lookup(after, k) == Lookup(before, k)
  }

  /** The agents on one service, in any order of their requests: each reads at its first
      turn and writes at its second. The store goes through the states of the protocol,
      and no other key changes. */
  method RunAgents(service: EtcdService, key: string, addrs: seq<string>, schedule: seq<nat>, ghost t: State)
    returns (agents: seq<Agent>)
    requires Run(State(Lookup(service.store, key), seq(|addrs|, _ => Idle)), schedule, t, addrs)
    modifies service
    ensures State(Lookup(service.store, key), agents) == t
    ensures OthersKept(old(service.store), service.store, key)
  {
    agents := seq(|addrs|, _ => Idle);
    var at := 0;
    while at < |schedule|
      invariant at <= |schedule| && |agents| == |addrs|
      invariant Run(State(Lookup(service.store, key), agents), schedule[at..], t, addrs)
      invariant OthersKept(old(service.store), service.store, key)
    {
      var i := schedule[at];
      assert schedule[at..][0] == i && schedule[at..][1..] == schedule[at + 1..];
      match agents[i] {
        case Idle =>
          var value := service.SyncGet(key);
          agents := agents[i := Read(value)];
        case Read(copy) =>
          service.SyncSet(key, Extended(copy, addrs[i]));
          agents := agents[i := Registered];
      }
      at := at + 1;
    }
  }

  // ----- whose entry survives

  /** The address is in the store and in every copy that may still overwrite it. */
  ghost predicate Everywhere(a: string, s: State) {
    && a in Decode(Stored(s.store))
    && (forall i :: 0 <= i < |s.agents| && s.agents[i].Read? ==> a in Decode(s.agents[i].copy))
  }

  lemma {:induction false} EverywhereStays(a: string, s: State, schedule: seq<nat>, t: State, addrs: seq<string>)
    requires Addresses(addrs) && Inv(s, addrs) && Everywhere(a, s) && Run(s, schedule, t, addrs)
    ensures Everywhere(a, t)
    decreases schedule
  {
    if schedule != [] {
      StepKeeps(s, schedule[0], addrs);
      EverywhereStays(a, Step(s, schedule[0], addrs), schedule[1..], t, addrs);
    }
  }

  ghost predicate Survives(a: string, s: State, addrs: seq<string>)
    requires |addrs| == |s.agents|
  {
    forall schedule, t :: Run(s, schedule, t, addrs) ==> a in Decode(Stored(t.store))
  }

  lemma SurvivesIffNobodyInBetween(s: State, i: nat, addrs: seq<string>)
    requires Addresses(addrs) && Inv(s, addrs) && Enabled(s, i) && s.agents[i].Read?
    ensures Survives(addrs[i], Step(s, i, addrs), addrs) <==>
            forall j :: 0 <= j < |s.agents| && j != i ==> !s.agents[j].Read?
  {
    var t := Step(s, i, addrs);
    StepKeeps(s, i, addrs);
    if j :| 0 <= j < |s.agents| && j != i && s.agents[j].Read? {
      var u := Step(t, j, addrs);
      assert t.agents[j] == s.agents[j];
      StepKeeps(t, j, addrs);
      NotListedBeforeSet(Decode(s.agents[j].copy), s, addrs, i);
      assert Run(u, [j][1..], u, addrs);
      assert Run(t, [j], u, addrs);
      assert addrs[i] != addrs[j];
    } else {
      assert Everywhere(addrs[i], t);
      forall schedule, u | Run(t, schedule, u, addrs) ensures addrs[i] in Decode(Stored(u.store)) {
        EverywhereStays(addrs[i], t, schedule, u, addrs);
      }
    }
  }

  /** In any run, when agent `i` has just set, its entry stays in the store through
      every continuation if and only if no other agent stood between its own read and
      its own write. */
  lemma SurvivalTheorem(addrs: seq<string>, schedule: seq<nat>, s: State, i: nat)
    requires Addresses(addrs) && Run(Init(|addrs|), schedule, s, addrs)
    requires |addrs| == |s.agents| && Enabled(s, i) && s.agents[i].Read?
    ensures Survives(addrs[i], Step(s, i, addrs), addrs) <==>
            forall j :: 0 <= j < |s.agents| && j != i ==> !s.agents[j].Read?
  {
    RegistryTheorem(addrs, schedule, s);
    SurvivesIffNobodyInBetween(s, i, addrs);
  }

  /** Two agents that both read before either writes: the first address is lost. */
  lemma LostUpdateRun(addrs: seq<string>)
    requires |addrs| == 2
    ensures Run(Init(2), [0, 1, 0, 1], State(Some(addrs[1]), [Registered, Registered]), addrs)
  {
    var s1 := State(None, [Read(""), Idle]);
    var s2 := State(None, [Read(""), Read("")]);
    var s3 := State(Some(addrs[0]), [Registered, Read("")]);
    var s4 := State(Some(addrs[1]), [Registered, Registered]);
    assert Init(2).agents == [Idle, Idle];
    assert Step(Init(2), 0, addrs) == s1 && Step(s1, 1, addrs) == s2;
    assert Extended("", addrs[0]) == addrs[0] && Extended("", addrs[1]) == addrs[1];
    assert Step(s2, 0, addrs) == s3 && Step(s3, 1, addrs) == s4;
    assert [0, 1, 0, 1][1..] == [1, 0, 1] && [1, 0, 1][1..] == [0, 1] && [0, 1][1..] == [1] && [1][1..] == [];
    assert Run(s4, [], s4, addrs);
    assert Run(s3, [1], s4, addrs);
    assert Run(s2, [0, 1], s4, addrs);
    assert Run(s1, [1, 0, 1], s4, addrs);
  }

  // ----- one after the other

  /** Each agent reads and writes before the next one starts. */
  function OneByOne(order: seq<nat>): seq<nat> {
    if order == [] then [] else [order[0], order[0]] + OneByOne(order[1..])
  }

  function Pick(addrs: seq<string>, order: seq<nat>): seq<string>
    requires forall k :: 0 <= k < |order| ==> order[k] < |addrs|
  {
    if order == [] then [] else [addrs[order[0]]] + Pick(addrs, order[1..])
  }

  lemma ConcatAssociates(a: seq<string>, b: seq<string>, c: seq<string>)
    ensures (a + b) + c == a + (b + c)
  {
  }

  /** One agent's read and write, back to back. */
  function Register(s: State, i: nat, addrs: seq<string>): State
    requires |addrs| == |s.agents| && i < |addrs| && s.agents[i].Idle?
  {
    Step(Step(s, i, addrs), i, addrs)
  }

  lemma RegisterIs(s: State, i: nat, addrs: seq<string>)
    requires |addrs| == |s.agents| && i < |addrs| && s.agents[i].Idle? && Addressable(addrs[i])
    ensures Register(s, i, addrs).agents == s.agents[i := Registered]
    ensures Decode(Stored(Register(s, i, addrs).store)) == Decode(Stored(s.store)) + [addrs[i]]
  {
    AppendDecodes(Stored(s.store), addrs[i]);
    var copy := Read(Stored(s.store));
    assert s.agents[i := copy][i := Registered] == s.agents[i := Registered];
  }

  lemma RegisterThenRun(s: State, i: nat, rest: seq<nat>, t: State, addrs: seq<string>)
    requires |addrs| == |s.agents| && i < |addrs| && s.agents[i].Idle?
    requires Run(Register(s, i, addrs), rest, t, addrs)
    ensures Run(s, [i, i] + rest, t, addrs)
  {
    assert ([i, i] + rest)[1..] == [i] + rest;
    assert ([i] + rest)[1..] == rest;
    assert Run(Step(s, i, addrs), [i] + rest, t, addrs);
  }

  ghost predicate AllIdle(s: State, order: seq<nat>) {
    Distinct(order) && forall k :: 0 <= k < |order| ==> order[k] < |s.agents| && s.agents[order[k]].Idle?
  }

  /** Where a serial registration ends. */
  ghost function AfterAll(s: State, order: seq<nat>, addrs: seq<string>): State
    requires |addrs| == |s.agents| && AllIdle(s, order)
    decreases order
  {
    if order == [] then s else AfterAll(Register(s, order[0], addrs), order[1..], addrs)
  }

  lemma {:induction false} SerialRuns(s: State, order: seq<nat>, addrs: seq<string>)
    requires |addrs| == |s.agents| && AllIdle(s, order)
    ensures Run(s, OneByOne(order), AfterAll(s, order, addrs), addrs)
    decreases order
  {
    if order != [] {
      SerialRuns(Register(s, order[0], addrs), order[1..], addrs);
      RegisterThenRun(s, order[0], OneByOne(order[1..]), AfterAll(s, order, addrs), addrs);
    }
  }

  lemma {:induction false} SerialDecodes(s: State, order: seq<nat>, addrs: seq<string>)
    requires |addrs| == |s.agents| && AllIdle(s, order)
    requires forall i :: 0 <= i < |addrs| ==> Addressable(addrs[i])
    ensures Decode(Stored(AfterAll(s, order, addrs).store)) == Decode(Stored(s.store)) + Pick(addrs, order)
    decreases order
  {
    if order != [] {
      var i := order[0];
      RegisterIs(s, i, addrs);
      SerialDecodes(Register(s, i, addrs), order[1..], addrs);
      ConcatAssociates(Decode(Stored(s.store)), [addrs[i]], Pick(addrs, order[1..]));
    }
  }

  /** Serial registration is a run, and keeps every entry in the order of registration. */
  lemma SerialKeepsAll(s: State, order: seq<nat>, addrs: seq<string>)
    requires Addresses(addrs) && |addrs| == |s.agents| && AllIdle(s, order)
    ensures exists t :: Run(s, OneByOne(order), t, addrs) &&
                        Decode(Stored(t.store)) == Decode(Stored(s.store)) + Pick(addrs, order)
  {
    SerialRuns(s, order, addrs);
    SerialDecodes(s, order, addrs);
  }

  /** A schedule that can be run leads to one state only. */
  lemma {:induction false} RunEndsOnce(s: State, schedule: seq<nat>, t: State, u: State, addrs: seq<string>)
    requires |addrs| == |s.agents| && Run(s, schedule, t, addrs) && Run(s, schedule, u, addrs)
    ensures t == u
    decreases schedule
  {
    if schedule != [] {
      RunEndsOnce(Step(s, schedule[0], addrs), schedule[1..], t, u, addrs);
    }
  }
}
