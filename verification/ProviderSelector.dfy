/** The provider selector: loading the registry, the weighted queue, and `query_once`,
    which inspects one queue position a call. */
module ProviderSelector {
  import opened Counting
  import opened Text
  import EtcdRegistry

  datatype Provider = Provider(host: string, port: nat)

  datatype Result<+T> =
    | Ok(value: T)
    | BadAddress(addr: string)
    | BadPort(text: string)
    | NoProvider
    | UnknownHost(host: string)

  const PORTS: nat := 0x1_0000
  const UINT32: nat := 0x1_0000_0000
  const LIMIT: nat := 10000
  const DECAY: nat := 51427

  // ----- loading

  /** One registry entry: skipped when empty, else a host and a port. */
  function ParseProvider(addr: string): Result<Provider> {
    var parts := Split(addr, ':');
    if |parts| != 2 then BadAddress(addr)
    else
      match ParseDecimal(parts[1])
      case None => BadPort(parts[1])
      case Some(port) => if port < PORTS then Ok(Provider(parts[0], port)) else BadPort(parts[1])
  }

  function ParseAll(addrs: seq<string>): Result<seq<Provider>> {
    if addrs == [] then Ok([])
    else
      var before := ParseAll(addrs[..|addrs| - 1]);
      var addr := addrs[|addrs| - 1];
      if !before.Ok? || addr == "" then before
      else
        match ParseProvider(addr)
        case Ok(p) => Ok(before.value + [p])
        case BadAddress(a) => BadAddress(a)
        case BadPort(t) => BadPort(t)
        case NoProvider => NoProvider
        case UnknownHost(h) => UnknownHost(h)
  }

  /** How often a host is queued; none for a host the selector does not know. */
  function Weight(host: string): nat {
    if host == "provider-small" then 1
    else if host == "provider-medium" then 2
    else if host == "provider-large" then 3
    else 0
  }

  function Repeat(i: nat, times: nat): (r: seq<nat>)
    ensures |r| == times && forall k :: 0 <= k < times ==> r[k] == i
  {
    seq(times, _ => i)
  }

  /** The queue for the first `n` providers. */
  function QueueOf(providers: seq<Provider>, n: nat): seq<nat>
    requires n <= |providers|
  {
    if n == 0 then [] else QueueOf(providers, n - 1) + Repeat(n - 1, Weight(providers[n - 1].host))
  }

  ghost predicate AllKnown(providers: seq<Provider>) {
    forall i :: 0 <= i < |providers| ==> Weight(providers[i].host) > 0
  }

  /** An entry is read exactly when it is a host and a decimal port below 65536 with one
      colon between, the port with any number of leading zeros. */
  lemma EntryMeaning(addr: string, p: Provider)
    ensures ParseProvider(addr) == Ok(p) <==>
            && p.port < 0x1_0000 && ':' !in p.host
            && p.host + ":" <= addr && ParseDecimal(addr[|p.host| + 1..]) == Some(p.port)
    ensures ParseProvider(addr).BadAddress? <==> |Split(addr, ':')| != 2
  {
    var parts := Split(addr, ':');
    JoinSplit(addr, ':');
    if |parts| == 2 {
      assert addr == parts[0] + [':'] + parts[1];
      assert addr[|parts[0]| + 1..] == parts[1];
      if p.host + ":" <= addr && ':' !in p.host {
        FirstColon(parts[0], parts[1], p.host, addr);
      }
    }
    if p.host + ":" <= addr && ':' !in p.host && ParseDecimal(addr[|p.host| + 1..]).Some? {
      TwoParts(addr, p.host);
    }
  }

  lemma FirstColon(a: string, b: string, host: string, addr: string)
    requires addr == a + ":" + b && host + ":" <= addr && ':' !in a && ':' !in host
    ensures a == host
  {
    assert addr[|a|] == ':' && addr[|host|] == ':';
    assert forall k :: 0 <= k < |a| ==> addr[k] == a[k];
    assert forall k :: 0 <= k < |host| ==> addr[k] == (host + ":")[k] == host[k];
    assert a == addr[..|a|] && host == addr[..|host|];
  }

  lemma TwoParts(addr: string, host: string)
    requires ':' !in host && host + ":" <= addr && ParseDecimal(addr[|host| + 1..]).Some?
    ensures Split(addr, ':') == [host, addr[|host| + 1..]]
  {
    var text := addr[|host| + 1..];
    DecimalMeaning(text, 0);
    assert ':' !in text;
    SplitPlain(host, ':');
    SplitPlain(text, ':');
    SplitConcat(host, ':', text);
    assert addr == host + [':'] + text;
  }

  /** The first entry that is neither empty nor a provider. */
  ghost predicate FirstBad(addrs: seq<string>, k: nat) {
    && k < |addrs| && addrs[k] != "" && !ParseProvider(addrs[k]).Ok?
    && (forall i :: 0 <= i < k && addrs[i] != "" ==> ParseProvider(addrs[i]).Ok?)
  }

  /** Loading fails as the first bad entry does, whatever stands behind it; it finds no
      provider exactly when all entries are empty. */
  lemma LoadOutcome(addrs: seq<string>, k: nat)
    ensures FirstBad(addrs, k) && ParseProvider(addrs[k]).BadAddress? ==> ParseAll(addrs) == BadAddress(addrs[k])
    ensures FirstBad(addrs, k) && ParseProvider(addrs[k]).BadPort? ==>
              ParseAll(addrs) == BadPort(Split(addrs[k], ':')[1])
    ensures FirstBad(addrs, k) ==> ParseProvider(addrs[k]).BadAddress? || ParseProvider(addrs[k]).BadPort?
    ensures ParseAll(addrs) == Ok([]) <==> forall i :: 0 <= i < |addrs| ==> addrs[i] == ""
  {
    if FirstBad(addrs, k) {
      LoadsIffAllParse(addrs[..k]);
      assert addrs[..k + 1][..k] == addrs[..k];
      ParseFails(addrs, k + 1);
    }
    LoadsIffAllParse(addrs);
    NothingKept(addrs);
  }

  lemma {:induction false} NothingKept(addrs: seq<string>)
    ensures EtcdRegistry.NonEmpty(addrs) == [] <==> forall i :: 0 <= i < |addrs| ==> addrs[i] == ""
  {
    if addrs != [] {
      NothingKept(addrs[1..]);
      assert forall i :: 1 <= i < |addrs| ==> addrs[i] == addrs[1..][i - 1];
    }
  }

  /** The first part of the constructor. */
  method LoadProviders(addrs: seq<string>) returns (r: Result<seq<Provider>>)
    ensures r == if ParseAll(addrs) == Ok([]) then NoProvider else ParseAll(addrs)
  {
    var providers: seq<Provider> := [];
    var k := 0;
    while k < |addrs|
      invariant k <= |addrs|
      invariant ParseAll(addrs[..k]) == Ok(providers)
    {
      var addr := addrs[k];
      assert addrs[..k + 1][..k] == addrs[..k];
      if addr != "" {
        var p := ParseProvider(addr);
        match p {
          case Ok(provider) => providers := providers + [provider];
          case BadAddress(a) =>
            ParseFails(addrs, k + 1);
            return BadAddress(a);
          case BadPort(t) =>
            ParseFails(addrs, k + 1);
            return BadPort(t);
        }
      }
      k := k + 1;
    }
    assert addrs[..k] == addrs;
    r := if providers == [] then NoProvider else Ok(providers);
  }

  /** A failure at one entry is the outcome of the whole list. */
  lemma {:induction false} ParseFails(addrs: seq<string>, k: nat)
    requires k <= |addrs| && !ParseAll(addrs[..k]).Ok?
    ensures ParseAll(addrs) == ParseAll(addrs[..k])
    decreases |addrs|
  {
    if k == |addrs| {
      assert addrs[..k] == addrs;
    } else {
      var init := addrs[..|addrs| - 1];
      assert init[..k] == addrs[..k];
      ParseFails(init, k);
    }
  }

  /** Loading succeeds exactly when every entry that is not empty is a host and a port,
      and then yields these in order. */
  lemma {:induction false} LoadsIffAllParse(addrs: seq<string>)
    ensures ParseAll(addrs).Ok? <==> forall i :: 0 <= i < |addrs| && addrs[i] != "" ==> ParseProvider(addrs[i]).Ok?
    ensures ParseAll(addrs).Ok? ==> |ParseAll(addrs).value| == |EtcdRegistry.NonEmpty(addrs)|
  {
    if addrs != [] {
      var init, last := addrs[..|addrs| - 1], addrs[|addrs| - 1];
      LoadsIffAllParse(init);
      assert addrs == init + [last];
      EtcdRegistry.NonEmptyConcat(init, [last]);
      assert EtcdRegistry.NonEmpty([last]) == if last == "" then [] else [last];
    }
  }

  predicate KnownHost(host: string) {
    host in ["provider-small", "provider-medium", "provider-large"]
  }

  lemma KnownHasWeight(host: string)
    ensures KnownHost(host) <==> Weight(host) > 0
    ensures Weight("provider-small") == 1 && Weight("provider-medium") == 2 && Weight("provider-large") == 3
  {
    assert |"provider-small"| == 14 && |"provider-medium"| == 15 && |"provider-large"| == 14;
    assert "provider-small"[9] == 's' && "provider-large"[9] == 'l';
  }

  /** A small provider is queued once, a medium one twice, a large one three times. */
  ghost predicate SharesOf(providers: seq<Provider>, count: nat -> nat) {
    && (forall i :: 0 <= i < |providers| && providers[i].host == "provider-small" ==> count(i) == 1)
    && (forall i :: 0 <= i < |providers| && providers[i].host == "provider-medium" ==> count(i) == 2)
    && (forall i :: 0 <= i < |providers| && providers[i].host == "provider-large" ==> count(i) == 3)
  }

  /** The second part: the weighted queue, grouped in the order of the providers, or the
      first host that is none of the three. */
  method BuildQueue(providers: seq<Provider>) returns (r: Result<seq<nat>>)
    ensures r.Ok? <==> forall i :: 0 <= i < |providers| ==> KnownHost(providers[i].host)
    ensures r.Ok? ==> r.value == QueueOf(providers, |providers|) && Sorted(r.value)
    ensures r.Ok? ==> SharesOf(providers, i => Occurrences(r.value, i))
    ensures r.Ok? ==> forall k :: 0 <= k < |r.value| ==> r.value[k] < |providers|
    ensures !r.Ok? ==> exists i :: 0 <= i < |providers| && r == UnknownHost(providers[i].host) &&
                                   !KnownHost(providers[i].host) &&
                                   forall j :: 0 <= j < i ==> KnownHost(providers[j].host)
  {
    var queue: seq<nat> := [];
    var i := 0;
    while i < |providers|
      invariant i <= |providers|
      invariant forall j :: 0 <= j < i ==> KnownHost(providers[j].host)
      invariant queue == QueueOf(providers, i)
    {
      var host := providers[i].host;
      KnownHasWeight(host);
      if host == "provider-small" {
        queue := queue + [i];
      } else if host == "provider-medium" {
        queue := queue + [i];
        queue := queue + [i];
        assert queue == QueueOf(providers, i) + Repeat(i, 2);
      } else if host == "provider-large" {
        queue := queue + [i];
        queue := queue + [i];
        queue := queue + [i];
        assert queue == QueueOf(providers, i) + Repeat(i, 3);
      } else {
        return UnknownHost(host);
      }
      i := i + 1;
    }
    QueueShape(providers, |providers|);
    QueueIsByWeight(providers);
    r := Ok(queue);
  }

  // ----- the registry round trip

  function Address(p: Provider): string {
    p.host + ":" + Decimal(p.port)
  }

  function Addresses(providers: seq<Provider>): (addrs: seq<string>)
    ensures |addrs| == |providers|
  {
    if providers == [] then []
    else Addresses(providers[..|providers| - 1]) + [Address(providers[|providers| - 1])]
  }

  ghost predicate Registrable(providers: seq<Provider>) {
    AllKnown(providers) && forall i :: 0 <= i < |providers| ==> providers[i].port < PORTS
  }

  lemma KnownHostIsPlain(host: string)
    requires Weight(host) > 0
    ensures ':' !in host && '|' !in host && host != ""
  {
    assert host == "provider-small" || host == "provider-medium" || host == "provider-large";
  }

  lemma AddressParses(p: Provider)
    requires Weight(p.host) > 0 && p.port < PORTS
    ensures ParseProvider(Address(p)) == Ok(p)
    ensures EtcdRegistry.Addressable(Address(p))
  {
    KnownHostIsPlain(p.host);
    DecimalRoundTrip(p.port);
    SplitConcat(p.host, ':', Decimal(p.port));
    SplitPlain(p.host, ':');
    SplitPlain(Decimal(p.port), ':');
    assert Split(Address(p), ':') == [p.host, Decimal(p.port)];
  }

  /** The text left by appending the providers' addresses one after the other. */
  function Registered(providers: seq<Provider>): string {
    if providers == [] then ""
    else EtcdRegistry.Extended(Registered(providers[..|providers| - 1]), Address(providers[|providers| - 1]))
  }

  lemma {:induction false} RegisteredDecodes(providers: seq<Provider>)
    requires Registrable(providers)
    ensures EtcdRegistry.Decode(Registered(providers)) == Addresses(providers)
  {
    if providers == [] {
      EtcdRegistry.DecodeEmpty();
    } else {
      var init, p := providers[..|providers| - 1], providers[|providers| - 1];
      RegisteredDecodes(init);
      AddressParses(p);
      EtcdRegistry.AppendDecodes(Registered(init), Address(p));
    }
  }

  /** The loader reads only the fields that are not empty. */
  lemma {:induction false} ParseSkipsEmpty(parts: seq<string>)
    ensures ParseAll(parts) == ParseAll(EtcdRegistry.NonEmpty(parts))
  {
    if parts != [] {
      var init, last := parts[..|parts| - 1], parts[|parts| - 1];
      assert parts == init + [last];
      EtcdRegistry.NonEmptyConcat(init, [last]);
      assert EtcdRegistry.NonEmpty([last]) == if last == "" then [] else [last];
      ParseSkipsEmpty(init);
      var kept := EtcdRegistry.NonEmpty(init);
      if last == "" {
        assert kept + [] == kept;
      } else {
        assert (kept + [last])[..|kept|] == kept;
      }
    }
  }

  lemma ParseAppend(addrs: seq<string>, addr: string, p: Provider)
    requires ParseAll(addrs).Ok? && addr != "" && ParseProvider(addr) == Ok(p)
    ensures ParseAll(addrs + [addr]) == Ok(ParseAll(addrs).value + [p])
  {
    assert (addrs + [addr])[..|addrs|] == addrs;
  }

  lemma {:induction false} AddressesParse(providers: seq<Provider>)
    requires Registrable(providers)
    ensures ParseAll(Addresses(providers)) == Ok(providers)
  {
    if providers != [] {
      var init, p := providers[..|providers| - 1], providers[|providers| - 1];
      AddressesParse(init);
      AddressParses(p);
      ParseAppend(Addresses(init), Address(p), p);
      assert providers == init + [p];
    }
  }

  /** A stored text that decodes to the providers' addresses, however it came about,
      loads exactly those providers, in order; serial registration leaves such a text. */
  lemma RegistryRoundTrip(providers: seq<Provider>, text: string)
    requires Registrable(providers)
    ensures EtcdRegistry.Decode(text) == Addresses(providers) ==> ParseAll(Split(text, '|')) == Ok(providers)
    ensures EtcdRegistry.Decode(Registered(providers)) == Addresses(providers)
  {
    ParseSkipsEmpty(Split(text, '|'));
    AddressesParse(providers);
    RegisteredDecodes(providers);
  }

  lemma {:induction false} AddressAt(providers: seq<Provider>, i: nat)
    requires i < |providers|
    ensures Addresses(providers)[i] == Address(providers[i])
    decreases |providers|
  {
    var init := providers[..|providers| - 1];
    if i < |init| {
      AddressAt(init, i);
    }
  }

  /** Providers that differ have addresses that differ, so theirs can be registered. */
  lemma AddressesApart(providers: seq<Provider>)
    requires Registrable(providers) && Distinct(providers)
    ensures EtcdRegistry.Addresses(Addresses(providers))
  {
    var addrs := Addresses(providers);
    forall i | 0 <= i < |providers|
      ensures addrs[i] == Address(providers[i])
      ensures EtcdRegistry.Addressable(addrs[i]) && ParseProvider(addrs[i]) == Ok(providers[i])
    {
      AddressAt(providers, i);
      AddressParses(providers[i]);
    }
  }

  /** The providers that registered, in that order. */
  function Chosen(providers: seq<Provider>, order: seq<nat>): (chosen: seq<Provider>)
    requires forall k :: 0 <= k < |order| ==> order[k] < |providers|
    ensures |chosen| == |order| && forall k :: 0 <= k < |order| ==> chosen[k] == providers[order[k]]
  {
    seq(|order|, k requires 0 <= k < |order| => providers[order[k]])
  }

  /** A list made of providers' addresses is loaded, each entry as its provider. */
  lemma {:induction false} ListedLoads(list: seq<string>, providers: seq<Provider>)
    requires Registrable(providers)
    requires forall a :: a in list ==> a in Addresses(providers)
    ensures ParseAll(list).Ok? && |ParseAll(list).value| == |list|
    ensures forall k :: 0 <= k < |list| ==>
              ParseAll(list).value[k] in providers && list[k] == Address(ParseAll(list).value[k])
  {
    if list != [] {
      var init, last := list[..|list| - 1], list[|list| - 1];
      ListedLoads(init, providers);
      var p := AddressOf(last, providers);
      AddressParses(p);
    }
  }

  lemma AddressOf(a: string, providers: seq<Provider>) returns (p: Provider)
    requires Registrable(providers) && a in Addresses(providers)
    ensures p in providers && a == Address(p)
  {
    var i :| 0 <= i < |Addresses(providers)| && Addresses(providers)[i] == a;
    AddressAt(providers, i);
    p := providers[i];
  }

  lemma GoodListLoads(list: seq<string>, providers: seq<Provider>, t: EtcdRegistry.State)
    requires Registrable(providers) && |providers| == |t.agents|
    requires EtcdRegistry.GoodList(list, t, Addresses(providers))
    ensures ParseAll(list).Ok? && Distinct(ParseAll(list).value)
    ensures forall p :: p in ParseAll(list).value ==>
              exists i :: 0 <= i < |providers| == |t.agents| && providers[i] == p && t.agents[i].Registered?
  {
    ListedLoads(list, providers);
    var loaded, addrs := ParseAll(list).value, Addresses(providers);
    forall p | p in loaded
      ensures exists i :: 0 <= i < |providers| == |t.agents| && providers[i] == p && t.agents[i].Registered?
    {
      var k :| 0 <= k < |loaded| && loaded[k] == p;
      assert list[k] in list;
      var i :| 0 <= i < |addrs| && addrs[i] == list[k] && t.agents[i].Registered?;
      AddressAt(providers, i);
      AddressParses(providers[i]);
      AddressParses(p);
    }
  }

  /** However the registrations of different providers interleave, what the store holds
      always parses: only providers that have registered, and none of them twice. */
  lemma AnyRunLoads(providers: seq<Provider>, schedule: seq<nat>, t: EtcdRegistry.State)
    requires Registrable(providers) && Distinct(providers)
    requires EtcdRegistry.Run(EtcdRegistry.Init(|providers|), schedule, t, Addresses(providers))
    ensures var loaded := ParseAll(Split(EtcdRegistry.Stored(t.store), '|'));
            && loaded.Ok?
            && Distinct(loaded.value)
            && (forall p :: p in loaded.value ==>
                  exists i :: 0 <= i < |providers| == |t.agents| && providers[i] == p && t.agents[i].Registered?)
  {
    var addrs, text := Addresses(providers), EtcdRegistry.Stored(t.store);
    AddressesApart(providers);
    EtcdRegistry.RegistryTheorem(addrs, schedule, t);
    ParseSkipsEmpty(Split(text, '|'));
    GoodListLoads(EtcdRegistry.Decode(text), providers, t);
  }

  /** Providers that register one after the other, in any order and any number of them,
      leave a store from which exactly they are loaded, in that order. */
  lemma SerialRunLoads(providers: seq<Provider>, order: seq<nat>)
    requires Registrable(providers) && Distinct(providers)
    requires Distinct(order) && forall k :: 0 <= k < |order| ==> order[k] < |providers|
    ensures var init, addrs := EtcdRegistry.Init(|providers|), Addresses(providers);
            && (exists t :: EtcdRegistry.Run(init, EtcdRegistry.OneByOne(order), t, addrs))
            && (forall t :: EtcdRegistry.Run(init, EtcdRegistry.OneByOne(order), t, addrs) ==>
                  ParseAll(Split(EtcdRegistry.Stored(t.store), '|')) == Ok(Chosen(providers, order)))
  {
    var init, addrs := EtcdRegistry.Init(|providers|), Addresses(providers);
    var chosen := Chosen(providers, order);
    AddressesApart(providers);
    EtcdRegistry.SerialKeepsAll(init, order, addrs);
    EtcdRegistry.DecodeEmpty();
    PickIsChosen(providers, order);
    forall t | EtcdRegistry.Run(init, EtcdRegistry.OneByOne(order), t, addrs)
      ensures ParseAll(Split(EtcdRegistry.Stored(t.store), '|')) == Ok(chosen)
    {
      var u :| EtcdRegistry.Run(init, EtcdRegistry.OneByOne(order), u, addrs) &&
               EtcdRegistry.Decode(EtcdRegistry.Stored(u.store)) ==
               EtcdRegistry.Decode(EtcdRegistry.Stored(init.store)) + EtcdRegistry.Pick(addrs, order);
      EtcdRegistry.RunEndsOnce(init, EtcdRegistry.OneByOne(order), t, u, addrs);
      RegistryRoundTrip(chosen, EtcdRegistry.Stored(t.store));
    }
  }

  lemma AddressesConcat(a: seq<Provider>, b: seq<Provider>)
    ensures Addresses(a + b) == Addresses(a) + Addresses(b)
  {
    if b == [] {
      assert a + b == a;
    } else {
      assert (a + b)[..|a + b| - 1] == a + b[..|b| - 1];
      AddressesConcat(a, b[..|b| - 1]);
    }
  }

  lemma {:induction false} PickIsChosen(providers: seq<Provider>, order: seq<nat>)
    requires forall k :: 0 <= k < |order| ==> order[k] < |providers|
    ensures EtcdRegistry.Pick(Addresses(providers), order) == Addresses(Chosen(providers, order))
  {
    if order != [] {
      PickIsChosen(providers, order[1..]);
      AddressAt(providers, order[0]);
      var first := [providers[order[0]]];
      assert Chosen(providers, order) == first + Chosen(providers, order[1..]);
      AddressesConcat(first, Chosen(providers, order[1..]));
      assert Addresses(first) == [Address(first[0])];
    }
  }

  /** What the constructor makes of a serially filled registry: the providers, and a
      queue whose length is the sum of the weights. */
  lemma LoadedQueue(providers: seq<Provider>)
    requires Registrable(providers) && providers != []
    ensures ParseAll(Split(Registered(providers), '|')) == Ok(providers)
    ensures |QueueOf(providers, |providers|)| == Sum(providers, ProviderWeight) > 0
    ensures SharesOf(providers, i => Occurrences(QueueOf(providers, |providers|), i))
    ensures Sorted(QueueOf(providers, |providers|))
  {
    RegistryRoundTrip(providers, Registered(providers));
    QueueShape(providers, |providers|);
    QueueIsByWeight(providers);
    assert providers[..|providers|] == providers;
    SumAtLeastMember(providers, ProviderWeight, 0);
  }

  lemma QueueIsByWeight(providers: seq<Provider>)
    ensures SharesOf(providers, i => Occurrences(QueueOf(providers, |providers|), i))
  {
    KnownHasWeight("provider-small");
    forall i | 0 <= i < |providers|
      ensures Occurrences(QueueOf(providers, |providers|), i) == Weight(providers[i].host)
    {
      QueueShares(providers, |providers|, i);
    }
  }

  /** One provider of each size: six places. */
  lemma QueueOfThree(small: nat, medium: nat, large: nat)
    ensures QueueOf([Provider("provider-small", small), Provider("provider-medium", medium),
                     Provider("provider-large", large)], 3) == [0, 1, 1, 2, 2, 2]
  {
    var providers := [Provider("provider-small", small), Provider("provider-medium", medium),
                      Provider("provider-large", large)];
    KnownHasWeight("provider-small");
    assert QueueOf(providers, 1) == [0];
    assert QueueOf(providers, 2) == [0] + [1, 1];
    assert Repeat(2, 3) == [2, 2, 2];
  }

  function ProviderWeight(p: Provider): nat {
    Weight(p.host)
  }

  ghost predicate Sorted(q: seq<nat>) {
    forall i, j :: 0 <= i < j < |q| ==> q[i] <= q[j]
  }

  function Occurrences(q: seq<nat>, p: nat): nat {
    if q == [] then 0 else Occurrences(q[..|q| - 1], p) + (if q[|q| - 1] == p then 1 else 0)
  }

  lemma {:induction false} OccurrencesRepeat(q: seq<nat>, i: nat, times: nat, p: nat)
    ensures Occurrences(q + Repeat(i, times), p) == Occurrences(q, p) + if i == p then times else 0
    decreases times
  {
    var r := q + Repeat(i, times);
    if times == 0 {
      assert r == q;
    } else {
      assert r[..|r| - 1] == q + Repeat(i, times - 1);
      OccurrencesRepeat(q, i, times - 1, p);
    }
  }

  lemma {:induction false} QueueShape(providers: seq<Provider>, n: nat)
    requires n <= |providers|
    ensures var q := QueueOf(providers, n);
            && |q| == Sum(providers[..n], ProviderWeight)
            && (forall k :: 0 <= k < |q| ==> q[k] < n)
            && Sorted(q)
  {
    if n > 0 {
      QueueShape(providers, n - 1);
      SumSplit(providers[..n], ProviderWeight, n - 1);
      assert providers[..n][..n - 1] == providers[..n - 1];
      assert providers[..n][n - 1..] == [providers[n - 1]];
      assert Sum([providers[n - 1]], ProviderWeight) == Weight(providers[n - 1].host);
    }
  }

  lemma {:induction false} QueueShares(providers: seq<Provider>, n: nat, i: nat)
    requires n <= |providers|
    ensures Occurrences(QueueOf(providers, n), i) == if i < n then Weight(providers[i].host) else 0
  {
    if n > 0 {
      QueueShares(providers, n - 1, i);
      OccurrencesRepeat(QueueOf(providers, n - 1), n - 1, Weight(providers[n - 1].host), i);
    }
  }
}
