# Verified model of the ali-middleware agents

The consumer and provider agents share connections through object pools, choose a
provider by weighted rotation, find each other through a list in etcd, and speak small
text and binary protocols. This project models those parts and proves what they promise.
`dafny verify dfyconfig.toml` checks everything.

## How it is built

- `TraceableList.dfy` and `ObjectPool.dfy` are the pool on the heap: the linked list with
  its nodes, iterators and links, and the free list and free flags over it. What a list
  operation may write is stated field by field (`prev`, `next`, `deleted`), so a node's
  data and flag are untouched by every list operation. `deleted` records that a node was
  given back; every step of an iterator and every delete asks that it was not, so a list
  method that verifies reads no deleted node and deletes none twice.
- `PoolSpec.dfy` is the same pool as a value, objects being numbered by their position in
  the buffer. Each heap method computes its namesake there. `Loans.dfy` says who holds what.
- `CoroutinePool.dfy` and `ThreadedPool.dfy` are the two borrowing protocols as state
  machines over that value, for any number of clients that borrow once and release.
  `Event.dfy` is the event of the coroutine pool, and `PoolClients.dfy` ties the two
  layers: the code between two yields, or inside one critical section, run on the heap,
  takes exactly one step of the protocol, and `RunCoroutines` and `RunThreads` carry any
  legal schedule out on the heap, from construction to the state the protocol gives it.
  `OneThingAStep`, `SleepAndWake` and `Choices` say how fine the steps are and what may
  come next.
- `ThreadedLines.dfy` is the threaded pool once more, one line of code a step and the mutex
  explicit. With the mutex free it reaches just the states of the protocol (`SameStates`),
  so taking each critical section as one step loses no interleaving and adds none.
- `EtcdRegistry.dfy`, `ProviderSelector.dfy` and `RoundRobin.dfy` follow an address from
  its registration to the rotation that serves it.
  `SerialRunLoads` and `AnyRunLoads` go the whole way from the writes to the loaded list.
- `RequestRoute.dfy`, `DubboFrames.dfy` and `JsonText.dfy` are the text and binary formats,
  over the string operations of `Text.dfy`. `Counting.dfy` holds options and sums.

## Promises that hold only under a condition

Each is proved in both directions.

- The coroutine pool loses no wakeup when one thread runs the `io_context`. With several
  threads a release can fall between the failed try and the wait; a client can then sleep
  for good exactly when clients outnumber objects (`SeveralThreadsTheorem`).
- The comment on the threaded pool says that a borrower waits when it starves. A thread can
  be left asleep beside a free object exactly when there are at least two objects and at
  least two more clients than objects (`SleepBesideFreeTheorem`). It is still woken later:
  no run gets stuck (`ThreadedTheorem`).
- `fill_full` tests no bound; it keeps the pool within its size exactly when the pool has
  built nothing before (`FillKeepsBoundIffEmpty`).
- A registered address survives exactly when no other agent was between its own read and
  its own write at the moment the address was written (`SurvivalTheorem`).
- The line route hands Dubbo the same arguments as the old route exactly when the whole line
  arrived in the one read, is shorter than the buffer, and holds no stray newline and no zero
  byte (`RoutesAgree`). Its reply arrives exactly when it came in one read, is shorter than
  the buffer and holds no zero byte (`ReplyArrives`).
- A Dubbo payload is one JSON value a line, and the code puts its texts between quotes as
  they are. Read as JSON it gives the four texts back exactly when none of them holds a
  quote, a backslash or a control character (`PayloadRoundTrip`); the same holds for every
  string in written JSON (`JsonRoundTrip`). A response arrives exactly when it is short
  enough, has the magic number and no newline in its value (`ResponseRoundTrip`).
- The log text of the consumer for a call that gets no provider (src/consumer_agent.cc:122)
  says that all servers are slow, but `query_once` never moves its cursor inside its loop
  and looks at one position only. The text fails at the first call over two providers of
  which only the first is slow (`NothingThoughOneIsFast`). It is true of every call exactly
  when no queued latency is high at the start or only one provider is queued
  (`NothingMeansAllSlow`).

## Model

| member | source | states |
|---|---|---|
| `TraceableList.List.PushOne` | lib/traceable_list.hpp:122-145 | a fresh node with the given data and flag goes exactly before `where`; head, tail, size and all links agree again; all other nodes keep identity, data and flag |
| `TraceableList.List.PushBack` | lib/traceable_list.hpp:152-158 | the new node is the last one, the others are as before |
| `TraceableList.List.PushFront` | lib/traceable_list.hpp:160-166 | the new node is the first one, the others are as before |
| `TraceableList.List.PopOne` | lib/traceable_list.hpp:168-186 | removes and deletes exactly that node; refuses an empty list and the end, changing nothing |
| `TraceableList.List.PopFront` | lib/traceable_list.hpp:188-190 | removes the first node, refuses an empty list |
| `TraceableList.List.PopBack` | lib/traceable_list.hpp:192-194 | removes the last node of a list that has one |
| `TraceableList.List.PopSome` | lib/traceable_list.hpp:196-201 | removes exactly the half-open range, deletes what it removes, and terminates |
| `TraceableList.List.Destroy` | lib/traceable_list.hpp:107-112 | deletes every node, each once, reading none after that |
| `TraceableList.ChainsAgree` | lib/traceable_list.hpp:66-84 | walking `next` from the head and `prev` from the tail meets the same `size` nodes in opposite orders and nothing else |
| `TraceableList.List.StepsUndo` | lib/traceable_list.hpp:66-84 | the two steps of an iterator undo each other, from the last node to the end and back included; a step back from the first node leads to the end |
| `PoolSpec.BorrowMeaning` | lib/pool.hpp:77-96 | a borrow lends one object nobody held and clears the flag; it fails exactly when all objects exist and are on loan, and then changes nothing |
| `PoolSpec.ReleaseMeaning` | lib/pool.hpp:56-63 | a release takes just that object off loan and raises the flag |
| `PoolSpec.ReleaseThenBorrow` | lib/pool.hpp:56-63 | what is given back last is lent next, and all else is as before the pair |
| `PoolSpec.FillMeaning` | lib/pool.hpp:121-126 | filling appends that many new free objects in order of their building and lends none |
| `PoolSpec.FillKeepsBoundIffEmpty` | lib/pool.hpp:121-126 | filling keeps the size bound exactly for a pool that has built nothing, which is then full and free |
| `PoolSpec.HighWaterMark` | lib/pool.hpp:77-96 | after any legal history the buffer holds the larger of its first size and the most objects ever on loan at once |
| `PoolSpec.HighWaterFromEmpty` | lib/pool.hpp:180-198 | from an empty pool the buffer size is that high-water mark, and within the bound |
| `Loans.Lend` | lib/pool.hpp:134-159 | a borrowing client becomes the only holder of what it gets, and free and lent objects still partition the buffer |
| `ObjectPool.Pool.DoTryBorrowOne` | lib/pool.hpp:77-96 | on the heap: flags, free list and list stay in agreement, the result is the node the value model lends, lent nodes stay where they are |
| `ObjectPool.Pool.ReleaseOne` | lib/pool.hpp:56-63 | on the heap: the object on loan becomes the first free one, its flag goes up, no other node changes |
| `ObjectPool.Pool.FillFull` | lib/pool.hpp:121-126 | on the heap: the loop adds as many free objects as the bound says, to whatever was there |
| `Event.Event.AsyncWait` | lib/boost_asio_event.hpp:21-26 | a handler joins the pending ones, last |
| `Event.Event.NotifyOne` | lib/boost_asio_event.hpp:28 | completes the oldest pending handler; without one it does nothing and leaves no trace |
| `CoroutinePool.NoDoubleLoan` | lib/pool.hpp:134-169 | in every state that any number of threads can reach, no object is on loan to two clients, and none on loan is free |
| `CoroutinePool.OneThreadTheorem` | lib/pool.hpp:134-198 | one thread, any number of clients: at most three turns a client, no lost wakeup in any reachable state, and a run can stop exactly when all are done and all objects free |
| `CoroutinePool.OneThingAStep` | lib/pool.hpp:134-169 | the grain with several threads: no step touches both the pool and the waiters; a client waits only in a step after its failed try, first or repeated; a release leaves its notification for a later step; only the oldest waiter is woken |
| `CoroutinePool.NotifyAndWait` | lib/pool.hpp:137-169 | a wait that falls between a release and its notification is woken in its turn; one that comes after the notification is not |
| `CoroutinePool.NotifiedInTimeRun` | lib/pool.hpp:137-169 | such a run of two clients and one object, step by step: the second is woken and takes the object |
| `CoroutinePool.TurnIsMicros` | lib/pool.hpp:134-169 | a turn of one thread is one or two steps in a row of the protocol with several threads |
| `CoroutinePool.SeveralThreadsTheorem` | lib/pool.hpp:134-169 | with several threads a wakeup can be lost for good if and only if there are more clients than objects |
| `CoroutinePool.SeveralThreadsEnd` | lib/pool.hpp:134-169 | such runs take at most five steps a client and lend nothing twice |
| `ThreadedPool.ThreadedTheorem` | lib/pool.hpp:36-96 | every interleaving, spurious wakeups included: the flag never stands over an empty free list, the exception is unreachable, no double loan, bounded runs, and only completion stops a run |
| `ThreadedPool.SleepAndWake` | lib/pool.hpp:36-65 | nobody falls asleep but under the lock, with the flag clear, after a first try that failed in an earlier section; nobody wakes unless notified or spuriously; notifications leave the pool alone |
| `ThreadedPool.Choices` | lib/pool.hpp:46-64 | any sleeper may wake spuriously or be the one a notification wakes; it reaches nobody exactly when nobody sleeps; all others can go on |
| `ThreadedPool.AwakeBetweenLockings` | lib/pool.hpp:38-46 | after a failed first try no notification reaches the thread, and its next section sleeps exactly if it finds the flag clear, whatever happened in between |
| `ThreadedPool.NotifiedTooEarlyRun` | lib/pool.hpp:38-64 | two threads, one object: a notification between the lockings reaches nobody, and the thread borrows without having slept |
| `ThreadedPool.SleepBesideFreeTheorem` | lib/pool.hpp:36-65 | a thread can be left asleep beside a free object with no wake on its way if and only if there are two objects or more and at least two more clients than objects |
| `ThreadedLines.LinesShowSteps` | lib/pool.hpp:32-96 | every run of lines, from any state, shows a run of the protocol that is no longer: the line that ends a critical section is its step, and no other line is seen |
| `ThreadedLines.StepIsLines` | lib/pool.hpp:32-96 | every step of the protocol is a run of lines that ends with the mutex free |
| `ThreadedLines.SameStates` | lib/pool.hpp:32-96 | with the mutex free, lines and protocol reach the same states, from any number of threads and for any bound |
| `ThreadedLines.LineTheorem` | lib/pool.hpp:32-96 | every interleaving of lines: just the owner of the mutex is in a section, the exception is unreachable, no object is in two hands, and a run can stop exactly with all done and free |
| `PoolClients.Coroutines.constructor` | lib/pool.hpp:118-126 | a new pool, filled or not, with its event and its clients: all of it fresh, and the initial state of the protocol |
| `PoolClients.Coroutines.BorrowUntilYield` | lib/pool.hpp:134-159 | the code from a start or a wakeup to the next yield is one turn of the protocol; old nodes stay, new ones are fresh |
| `PoolClients.Coroutines.Release` | lib/pool.hpp:161-169 | the release with its notification is one turn of the protocol, over the same nodes |
| `PoolClients.Coroutines.HoldersApart` | lib/pool.hpp:134-169 | in every reachable state two coroutines have two nodes |
| `PoolClients.Coroutines.Run` | lib/pool.hpp:134-169 | any legal schedule, run on the heap from any reachable state, ends in the state the protocol gives it |
| `PoolClients.RunCoroutines` | lib/pool.hpp:118-198 | from construction on: at most three turns a coroutine, stopped exactly when all is done and free, no two coroutines with one node |
| `PoolClients.Threads.constructor` | lib/pool.hpp:28-29 | a new empty pool with its threads, all fresh, is the initial state of the protocol |
| `PoolClients.Threads.TryBorrowOne` | lib/pool.hpp:32-40 | the first locked try is one step of the protocol; with or without an object the thread stays awake and can go on; old nodes stay, new ones are fresh |
| `PoolClients.Threads.CheckFlag` | lib/pool.hpp:42-54 | one check of the flag with the lock held is one step: a clear flag puts the thread to sleep, a raised one gives it an object, and nothing is thrown; old nodes stay, new ones are fresh |
| `PoolClients.Threads.ReleaseOne` | lib/pool.hpp:56-63 | the locked part of the release is one step, over the same nodes |
| `PoolClients.Threads.HoldersApart` | lib/pool.hpp:36-63 | in every reachable state two threads have two nodes |
| `PoolClients.Threads.Run` | lib/pool.hpp:36-96 | any interleaving of critical sections, notifications and spurious wakeups, run on the heap from any reachable state, ends in the state the protocol gives it |
| `PoolClients.RunThreads` | lib/pool.hpp:24-96 | from construction on: the flag stands only over a free object, nobody has thrown, no two threads have one node, and the run is bounded and stops exactly when all is done and free |
| `EtcdRegistry.EtcdService.Append` | src/etcd_service.cc:8-19 | the value alone where there was no text, else the text, a bar and the value; a read and a write of the protocol in a row |
| `EtcdRegistry.EtcdService.GetList` | src/etcd_service.cc:21-30 | the fields between the bars, empty ones kept |
| `EtcdRegistry.AppendAddsField` | src/etcd_service.cc:15-18 | the fields of the text, empty ones included, gain the value as their last, and it is the only field where there was no text |
| `EtcdRegistry.AppendDecodes` | src/etcd_service.cc:15-18 | appending an address to any stored text adds it at the end of the list read from it |
| `EtcdRegistry.RunAgents` | src/etcd_service.cc:8-19 | the requests of several agents, in any order on one service, take it through the states of the protocol; other keys are untouched |
| `EtcdRegistry.RegistryTheorem` | src/etcd_service.cc:8-19 | under any interleaving the store is a list with bars between, without empty fields or duplicates, of agents that have set, the latest setter last |
| `EtcdRegistry.SurvivalTheorem` | src/etcd_service.cc:8-19 | an entry just written stays through every continuation if and only if no other agent was between its read and its write |
| `EtcdRegistry.LostUpdateRun` | src/etcd_service.cc:8-19 | two agents that both read before either writes leave only the address of the second |
| `EtcdRegistry.SerialKeepsAll` | src/etcd_service.cc:8-19 | agents registering one after the other all stay, in that order |
| `ProviderSelector.LoadProviders` | src/provider_selector.hpp:178-189 | the loop loads the list, fails as its first bad entry says, or reports that nothing is there |
| `ProviderSelector.LoadsIffAllParse` | src/provider_selector.hpp:179-186 | loading succeeds exactly when every entry that is not empty is a host and a port |
| `ProviderSelector.EntryMeaning` | src/provider_selector.hpp:182-185 | an entry is read exactly when it is a host and a decimal port below 65536 around a single colon |
| `ProviderSelector.LoadOutcome` | src/provider_selector.hpp:178-189 | loading fails as the first bad entry does, whatever follows it, and finds nobody exactly when all entries are empty |
| `ProviderSelector.BuildQueue` | src/provider_selector.hpp:191-204 | `provider-small` is queued once, `provider-medium` twice, `provider-large` three times, in order; the first host that is none of these is refused |
| `ProviderSelector.RegistryRoundTrip` | src/provider_selector.hpp:178-189 | any text that decodes to the providers' addresses loads those pairs in order, and serial registration leaves such a text |
| `ProviderSelector.AnyRunLoads` | src/provider_selector.hpp:174-189 | after any interleaving of registrations every entry in the store parses: only providers that have registered, none twice |
| `ProviderSelector.SerialRunLoads` | src/provider_selector.hpp:174-189 | after registrations one after the other, of any providers in any order, exactly these are loaded, in that order |
| `ProviderSelector.LoadedQueue` | src/provider_selector.hpp:191-204 | the queue of a serially filled registry is grouped in order, each provider in it once, twice or three times by its host name |
| `ProviderSelector.QueueOfThree` | src/provider_selector.hpp:191-204 | the queue of one provider of each size, place by place |
| `RoundRobin.Selector.QueryOnce` | src/provider_selector.hpp:209-223 | the loop inspects one position, answers or decays it, and moves the cursor by one |
| `RoundRobin.InspectsInTurn` | src/provider_selector.hpp:209-223 | call i inspects position i modulo the queue length: below 10000 it answers and changes nothing, else it takes 51427 off that latency, down to 1, and changes no other |
| `RoundRobin.FairShares` | src/provider_selector.hpp:209-219 | with low latencies a round started anywhere serves each provider as often as it is queued, and m calls serve it between m / n whole shares and one part more |
| `RoundRobin.FairByWeight` | src/provider_selector.hpp:191-223 | a round serves `provider-small` once, `provider-medium` twice and `provider-large` three times |
| `RoundRobin.ConstructedServes` | src/provider_selector.hpp:75-223 | from construction, with every latency at 1, each call serves the next place of the queue, and each round by those weights |
| `RoundRobin.SkipsLeftBound` | src/provider_selector.hpp:154-155 | a 32-bit latency allows at most 83516 skips, and that many are possible |
| `RoundRobin.SkipsConserved` | src/provider_selector.hpp:213-222 | skips done plus skips left are constant, by provider and in sum, so the calls that return nothing are bounded for every run |
| `RoundRobin.ServesAfterWarmUp` | src/provider_selector.hpp:213-222 | after as many rounds as the slowest queued provider has skips left, no call returns nothing |
| `RoundRobin.NothingThoughOneIsFast` | src/consumer_agent.cc:120-124 | with two providers, the first slow, the first call returns nothing although the second is fast |
| `RoundRobin.NothingMeansAllSlow` | src/consumer_agent.cc:120-124 | a call returns nothing only when all queued providers are slow, if and only if no queued latency is high at the start or one provider alone is queued |
| `RequestRoute.TypeDecoding` | src/provider_selector.hpp:58 | each `%2F` becomes a slash and each `%3B` a semicolon wherever they stand; the two replacements are one simultaneous decoding, leave neither pattern, and change nothing when repeated |
| `RequestRoute.ParseForm` | src/provider_selector.hpp:35-66 | the loops compute interface, method, decoded types and parameter, each by its last pair, or fail when one is empty |
| `RequestRoute.FormRoundTrip` | src/provider_agent.cc:140-168 | a body is read by the last `interface=`, `method=`, `parameterTypesString=` and `parameter=` pair, wherever each stands |
| `RequestRoute.FormInAnyOrder` | src/provider_agent.cc:140-168 | the four pairs in any order, behind any others, are read back each under its own key |
| `RequestRoute.FormNeedsAll` | src/provider_agent.cc:163-168 | a body without a pair for one of the four is refused |
| `RequestRoute.RoutesAgree` | src/provider_agent.cc:84-97 | the line route yields the old route's arguments if and only if the line arrived whole, fits the buffer and holds no stray newline or zero byte |
| `RequestRoute.FirstFourLines` | src/provider_agent.cc:84-97 | the provider takes the first four lines and drops the rest |
| `RequestRoute.ReadEndsAtZero` | src/provider_agent.cc:84-96 | what was read ends at its first zero byte, and has no end in a full buffer without one |
| `RequestRoute.ReplyArrives` | src/provider_selector.hpp:124-136 | the reply of the line route is forwarded unchanged if and only if it came whole, is shorter than the buffer and holds no zero byte |
| `DubboFrames.HeaderRoundTrip` | lib/dubbo_client.hpp:164-186 | the packed bits, the byte orders and the big-endian length are inverted exactly |
| `DubboFrames.HeaderLayout` | lib/dubbo_client.hpp:164-186 | the sixteen bytes one by one: magic and id with the low byte first, flags above the serialization id, length with the high byte first |
| `DubboFrames.PayloadRoundTrip` | lib/dubbo_client.hpp:99-108 | the payload, read line by line as JSON, gives the four texts back if and only if none holds a character that JSON escapes |
| `DubboFrames.PayloadText` | lib/dubbo_client.hpp:99-108 | the eight lines of the payload, in their order |
| `DubboFrames.Client.Encode` | lib/dubbo_client.hpp:99-128 | the bytes of one request under the current id, and the 64-bit id moves on by one, from its last value to 0 |
| `DubboFrames.WriteAll` | lib/dubbo_client.hpp:99-128 | a client's requests in a row write the stream that `StreamRoundTrip` cuts |
| `DubboFrames.StreamRoundTrip` | lib/dubbo_client.hpp:110-128 | requests written back to back are cut into the same headers and payloads, with consecutive ids; each payload reads back exactly when its texts need no escape |
| `DubboFrames.ResponseRoundTrip` | lib/dubbo_client.hpp:134-156 | the bytes of an answer, whatever follows: refused above 1 GiB, then for a magic number that is not 0xbbda, then for a newline in the value, else received as sent |
| `DubboFrames.ResponseCutShort` | lib/dubbo_client.hpp:134-144 | an answer cut short anywhere is a failed read, unless its header already announces too much |
| `DubboFrames.AnswerMeaning` | lib/dubbo_client.hpp:149-156 | a payload is an answer exactly when it is a decimal kind, the value and a third line that is not looked at |
| `JsonText.Serialize` | lib/json_serializer.hpp:23-33 | the appended and overwritten text is the brace, the items joined by comma and newline, and the closing brace |
| `JsonText.WrittenMore` | lib/json_serializer.hpp:23-33 | one more pair comes as one more line before the closing brace, behind a comma |
| `JsonText.JsonRoundTrip` | lib/json_serializer.hpp:23-48 | reading what was written gives the list back if and only if nothing in it needs an escape |

## Left out

- Sockets, HTTP, accept loops, keep-alive, logging, timing and option parsing: what they deliver is a parameter.
- Exceptions while a pooled connection is built, and connections that failed and are reused.
- The memory layout behind `iterator(T*)` and its magic number: a data pointer and its node are one thing here.
- Data races inside the timer and on the static cursor of `query_once`: several threads interleave by whole steps in the pool and are not modelled in the selector.
- Objects are built from a fixed prototype, which stands for the bound constructor arguments.
- The coroutine pool has no `new_obj_ready`; the heap class serves both pools and the coroutine clients never read the flag.
- The out-of-lock `notify_one` of the threaded pool and the spurious wakeup touch no field of the pool: on the heap they change only which threads sleep (`PoolClients.Threads.Signal`).
- rlib is not part of this model: its `split`, `join`, `replace` and decimal `as` are defined in `Text.dfy`. A port that is no decimal number below 65536 fails to load here; what rlib does with one is not known.
- etcd requests that fail end an agent's registration and are not retried; keys other than the one list are kept but not interleaved.
- The refusal of non-POST requests in `handle_request` and the wrapping of errors into HTTP responses.
- The JSON reader stands for Boost's and covers flat objects of strings without escapes.
- `lib/http_forwarder.hpp`, `src/etcd_kv_service.*`, the heartbeat stub and the deprecated `sync_request`: empty, unused or duplicates.
- The server's side of Dubbo is not in the repository: the reader of a payload follows JSON as `JsonText.dfy` has it, without escapes, and a server's answer is its kind and its value, each on its line.
- ReadResponse: a kind that is not a decimal number is a bad payload here, because the conversion is rlib's.
- `notify_all` of the event: nothing calls it.
- StreamRoundTrip: asks for payloads below 2^32 bytes, because the length field is 32 bits wide.
