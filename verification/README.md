# Verification of the libp2p test nodes

This project models the self-contained logic of the Rust, Go and Nim libp2p test nodes and of the
simulator scripts beside them, and proves properties of the model with Dafny 4.11.
`dafny verify dfyconfig.toml` checks everything.

- `Bytes`, `Fragments`, `Publisher`: a message is sent as `chunks` payloads that differ in one
  stamped byte. The publish routines run over a real byte array that the loop overwrites.
- `Counting`, `Receiver`: the handlers count fragments per key. Rust forgets a key when it
  completes, Go and Nim never do. `Counting` is their specification and its closed forms.
- `Network`, `Reassembly`: any number of nodes that publish, deduplicate and deliver in any order
  with any loss. A node reports a message exactly at its last missing fragment, so the counters
  refine a receiver that keeps the set of fragments.
- `MeshWalk`, `Tracer`: the Go tracer's mesh counters and health gauges, and the Rust recount.
- `Traffic`: the Go tracer's RPC counters and the conservation law over all nodes.
- `TickFloor`, `Keepalive`, `Bootstrap`, `Dialing`: timers, the ping sweep, retries with backoff,
  the choice and dialling of first peers.
- `Topology`, `LatencySummary`: the generated network graph, host placement, and the summary script.
- `Arithmetic`, `Common`: facts about products and quotients, shared definitions.

## Assumptions

- The message id is an injective function of the data, passed as a parameter; hashing itself is
  not modelled. Such functions exist (`Network.InjectiveIdExists`). A node's set of seen ids never
  forgets.
- A payload is delivered as it was when published (Rust clones the buffer; for Go and Nim this is
  assumed of the pubsub library).
- No two counted messages of a whole run share a key (timestamp for Rust and Go, message id for
  Nim). `Receiver.TimestampsAreKeys` and `Receiver.RustMixesSharedTimestamps` show what happens
  otherwise.
- Publish, dial and resolve outcomes, durations, the shuffle and the moment at which traffic
  starts are arbitrary parameters.
- Go's and Nim's 64-bit counters and Prometheus' floating-point values are unbounded integers here;
  Rust's 32-bit fragment counter is modelled with its width and proved not to wrap.
- The Python script's floating-point quotient is taken as exact, which holds for ranges below 2^53.

## Findings

- A Rust message is reassembled if and only if it has one fragment, or at most 256 and fragments
  longer than ten bytes (`Reassembly.ReportableIffWhole`; rust-test-node/src/main.rs:120).
- Leave does not reset the per-topic mesh gauge of the Go node (go-test-node/metrics.go:319-326).
  The gauge is right exactly if the topic was grafted or pruned since its last Leave or its mesh
  was empty when it last was (`MeshWalk.GaugeIsRightIff`, `MeshWalk.GaugeIsRightOnMeshIff`).
- `ping_utils.nim` says that a sweep stays under quic's 30 s idle timeout
  (nim-test-node/regression/ping_utils.nim:12-19). Under the file's own time limits that is
  guaranteed for at most 16 peers. With batches of at most 0.9 s it holds for up to 256 peers while
  the list of connections does not change, and for up to 128 when it may change between two
  sweeps (`Keepalive.OwnTimeoutsKeepAliveOneBatch`, `Keepalive.FastBatchesKeepAlive`).
- The Go and Rust dial loops make up to `connectTo` + 1 connections where the documentation speaks
  of the target number (go-test-node/main.go:319, rust-test-node/src/main.rs:337); Nim stops at
  `connectTo` (nim-test-node/gossipsub-queues/main.nim:421). Rust compares with the target cast to
  32 bits, so from 2^32 on it can stop short (`Dialing.TargetIsReached`, `Dialing.RustStopsAtOne`).
- The Go node does not check that the target is below the network size, which is exactly what makes
  the pool sufficient (`Dialing.PoolIsEnoughIff`; go-test-node/main.go:295-297,
  rust-test-node/src/env.rs:73-75).
- A Nim publish reports the outcome of its last fragment only
  (nim-test-node/gossipsub-queues/main.nim:182-184), so a reported success or failure can be
  believed exactly when a message is one fragment (`Publisher.NimReportIsTrueIff`,
  `Publisher.NimReportsHalfAMessage`). A message with a fragment missing is reported by nobody
  (`Reassembly.NeverLoggedUnlessPublished`).
- The printed hop columns of the latency summary leave out hop 0 and hops beyond 54
  (`LatencySummary.PrintedSpreadIsCompleteIff`; shadow/summary_latency_large.awk:53-59).

## Model

| member | source | states |
|---|---|---|
| Bytes.DecodeEncode | rust-test-node/src/main.rs:80-81 | Reading a little-endian word returns every value that was written |
| Bytes.EncodeDecode | go-test-node/main.go:33 | Every byte string is the encoding of the word read from it |
| Bytes.DigitOfWord | rust-test-node/src/main.rs:111 | Byte j of an encoded number is its digit j to the base 256 |
| Bytes.WordIsLittleEndian | go-test-node/main.go:33 | The value of a word in terms of its eight bytes, the first one least significant |
| Bytes.UnsignedIsCongruent | rust-test-node/src/main.rs:105-111 | The header word of a timestamp is the one 64-bit number congruent to it modulo 2^64, and reading it as signed gives the timestamp back |
| Bytes.SignedIsCongruent | nim-test-node/gossipsub-queues/main.nim:131-133 | The same for the signed reading of a word |
| Fragments.HeaderRoundTrip | nim-test-node/gossipsub-queues/main.nim:128-130 | The receiver reads the sender's timestamp, and in Nim its message id, from every fragment: the stamp never overlaps the header |
| Fragments.PayloadBytes | rust-test-node/src/main.rs:109-121 | Behind the header a fragment is zero except for its number modulo 256 in byte 10, or 16 for Nim |
| Fragments.PayloadNamesMessage | rust-test-node/src/main.rs:108-121 | Two different messages never produce the same payload |
| Fragments.PayloadNamesFragment | rust-test-node/src/main.rs:117-121 | Two fragments of a message are equal exactly when the stamp does not fit or their numbers agree modulo 256 |
| Fragments.DistinctPayloads | rust-test-node/src/main.rs:108-123 | A message has min(chunks, 256) different payloads when the stamp fits and at most one otherwise |
| Fragments.FragmentBytes | go-test-node/main.go:70-75 | Total size of the first n payloads of a message |
| Publisher.PublishRust | rust-test-node/src/main.rs:101-143 | Sends exactly the leading fragments the topic accepts, each with its own stamp and with the sending time as its signed header word, and reports success only if all were accepted; panics exactly for no fragments or fragments below eight bytes |
| Publisher.PublishGo | go-test-node/main.go:63-81 | As above with a header of its own and one recorded publication per accepted fragment; panics exactly when the body per fragment is below three bytes or the division fails |
| Publisher.PublishNim | nim-test-node/gossipsub-queues/main.nim:164-194 | Tries every fragment and returns the outcome of the last one; fails exactly when a fragment cannot hold header and stamp |
| Publisher.AcceptedPrefixIs | go-test-node/main.go:73-80 | The number of leading fragments is all of them exactly when all are accepted, and otherwise the number of the first refused |
| Publisher.RemainderOfQuotient | go-test-node/main.go:70 | What division leaves over is smaller than the divisor and has the sign of the dividend |
| Publisher.ReachedInOrder | nim-test-node/gossipsub-queues/main.nim:182-184 | A Nim publish sends the payloads of the fragments that reached a peer, each once and in the order of their numbers |
| Publisher.NimSendsAllIff | nim-test-node/gossipsub-queues/main.nim:182-194 | The whole message went out exactly when every single publish reached a peer |
| Publisher.NimReportIsTrueIff | nim-test-node/gossipsub-queues/main.nim:182-184 | A reported success always means that the whole message went out, and a reported failure that nothing did, exactly when a message is one fragment |
| Publisher.NimReportsHalfAMessage | nim-test-node/gossipsub-queues/main.nim:220-222 | Two fragments of which the first reaches nobody are reported as a success |
| Publisher.RustBytesOnTheWire | rust-test-node/src/main.rs:109 | A complete publish carries at most msg_size bytes and loses less than one per fragment |
| Publisher.GoBytesOnTheWire | go-test-node/main.go:68-75 | A complete publish carries exactly eight extra bytes per fragment |
| Counting.EvictingCounts | rust-test-node/src/main.rs:83-96 | Deliveries of a key are needed-per-message times completions plus pending, pending is below the need, and a key is in the table exactly while something is pending |
| Counting.EvictingQuotient | rust-test-node/src/main.rs:83-96 | Completions and pending are quotient and remainder of the deliveries |
| Counting.KeepingCounts | go-test-node/main.go:40-49 | Without eviction a key completes max(0, deliveries - need + 1) times |
| Counting.OrderIsIrrelevant | rust-test-node/src/main.rs:79-99 | Final table and multiset of completions are the same for every order of the deliveries |
| Counting.KeysDoNotInterfere | nim-test-node/gossipsub-queues/main.nim:145-149 | What a key leaves in table and log is what its own deliveries alone would leave |
| Counting.SameLogIff | go-test-node/main.go:40-44 | Evicting and keeping print the same log exactly when no key is delivered more often than needed, or one fragment suffices |
| Receiver.ReadsOwnKey | rust-test-node/src/main.rs:80-84 | A fragment is counted under its sender's key, or recognised as warm-up, by each node's reading of the header |
| Receiver.CountedKeys | rust-test-node/src/main.rs:80-84 | A payload is counted exactly when its timestamp is at least 1000000 and, for Rust and Nim, below 2^63, under the timestamp or the Nim message id |
| Receiver.PublishIsReportedOnce | go-test-node/main.go:31-50 | The fragments of one publish in any order are reported exactly once, by every handler |
| Receiver.RustHandler.Handle | rust-test-node/src/main.rs:79-99 | After any calls, table and log are those of the evicting specification, the received metric is the length of the log, and the 32-bit counter has not wrapped; panics exactly on payloads below eight bytes |
| Receiver.GoHandler.Handle | go-test-node/main.go:31-50 | After any calls, table and log are those of the specification that never evicts |
| Receiver.NimHandler.Handle | nim-test-node/gossipsub-queues/main.nim:123-149 | As Go but keyed by message id; fails exactly on payloads below sixteen bytes and on timestamps that do not convert to a time |
| Receiver.RegressionHandler.Handle | nim-test-node/regression/node/main.nim:31-57 | Counts as the specification does and fails as the other Nim handler; the keepalive loop has been told to stop exactly when some fragment was not warm-up |
| Receiver.IsTimeIff | nim-test-node/gossipsub-queues/main.nim:21-22 | The date conversion rejects exactly the timestamps before 1970 that are not whole seconds, and none that is counted |
| Receiver.RustLogsLikeGoIff | go-test-node/main.go:33-44 | On payload traces with timestamps below 2^63, Rust and Go print the same completions exactly when no key has surplus deliveries or one fragment suffices |
| Receiver.SignBitSplitsThem | rust-test-node/src/main.rs:81-82 | From 2^63 on Rust takes a timestamp for warm-up while Go counts it |
| Receiver.NimKeepsApart | nim-test-node/gossipsub-queues/main.nim:130-146 | Nim messages that share a timestamp are counted together only if their ids agree |
| Receiver.TimestampsAreKeys | go-test-node/main.go:33-40 | Rust and Go count fragments of two messages together exactly when the messages share a timestamp |
| Receiver.RustMixesSharedTimestamps | rust-test-node/src/main.rs:84-93 | Two Rust messages of one timestamp can complete although neither is whole |
| Network.AlwaysInvariant | rust-test-node/src/main.rs:73-99 | In every reachable state a node's count for a message is the number of its distinct payloads the node has seen |
| Reassembly.LoggedOnceIffAllReceived | rust-test-node/src/main.rs:79-99 | In every reachable state a node has reported a message once if it has all its fragments and not at all otherwise |
| Reassembly.LogGrowsOnLastFragment | go-test-node/main.go:40-49 | In every reachable state a delivery makes a node report a message exactly when the fragments of the message differ and this is the last missing one |
| Reassembly.IdealLogsOnce | nim-test-node/gossipsub-queues/main.nim:145-149 | The set-keeping reference receiver reports a message once, when its set is full |
| Reassembly.CountersRefineSets | rust-test-node/src/main.rs:73-99 | On every run every node of every implementation logs what the set-keeping receiver logs, in the same order |
| Reassembly.RustAndGoNetworksAgree | go-test-node/main.go:31-50 | Behind deduplication Rust and Go nodes log the same timestamps in the same order on the same schedule |
| Reassembly.NeverLoggedUnlessWhole | rust-test-node/src/main.rs:117-131 | A message with repeated payloads is never reported in any run |
| Reassembly.NeverLoggedUnlessPublished | rust-test-node/src/main.rs:117-131 | In every reachable state a message with an unpublished fragment has been reported by no node |
| Reassembly.ReportableIffWhole | rust-test-node/src/main.rs:108-131 | Some run reports a message exactly when it has one fragment, or at most 256 that carry the stamp |
| Reassembly.AnyNodeCanReport | rust-test-node/src/main.rs:73-143 | From any point of any run, any node can still report a new message of suitable length, time, fragment number and key |
| MeshWalk.ReflectedWalk | go-test-node/metrics.go:310-345 | For every event sequence a topic has an entry exactly when mentioned since its last Leave, and its count is grafts minus prunes above their lowest prefix |
| MeshWalk.GaugeFollowsCount | go-test-node/metrics.go:328-345 | The exported mesh gauge equals the count of a topic grafted or pruned since its last Leave |
| MeshWalk.GaugeIsRightIff | go-test-node/metrics.go:319-345 | The exported gauge is right exactly if the topic was grafted or pruned since its last Leave or its count was zero when it last was |
| MeshWalk.GaugeIsRightOnMeshIff | go-test-node/metrics.go:319-345 | On well-formed traces it is right exactly if the topic was grafted or pruned since its last Leave or the last such event left its mesh empty |
| MeshWalk.GaugeIsLastMovesCount | go-test-node/metrics.go:328-345 | The gauge is the count after the last Graft or Prune, whatever happened since |
| MeshWalk.GaugeSurvivesLeave | go-test-node/metrics.go:319-334 | Leaving a topic does not reset its mesh gauge |
| MeshWalk.CountsAreMeshSizes | go-test-node/metrics.go:310-345 | On well-formed traces the counter map is the sizes of the true mesh sets |
| Tracer.GossipSubTracer.Join | go-test-node/metrics.go:310-317 | Keeps map and gauges those of the event history, and the three health gauges those of the current map |
| Tracer.GossipSubTracer.Leave | go-test-node/metrics.go:319-326 | The same after a Leave, known topic or not |
| Tracer.GossipSubTracer.Graft | go-test-node/metrics.go:328-334 | The same after a Graft, known topic or not |
| Tracer.GossipSubTracer.Prune | go-test-node/metrics.go:336-345 | The same after a Prune, clamped at zero |
| Tracer.RecountMap | go-test-node/metrics.go:348-362 | The recount gives the numbers of topics without, with few and with enough peers for every iteration order |
| Tracer.UpdateHealth | rust-test-node/src/metrics.rs:158-176 | The Rust recount gives the numbers of list entries at each level |
| Tracer.HealthTick | rust-test-node/src/main.rs:488-507 | The periodic tick lists every topic once with its mesh size, whatever the order, and recounts that list |
| Tracer.SnapshotAgrees | rust-test-node/src/metrics.rs:158-176 | The recount of any listing of a map equals the recount of the map |
| Tracer.GoGaugesMatchRustSnapshot | go-test-node/metrics.go:348-362 | After a well-formed trace the Go gauges are what Rust computes from a snapshot of the true mesh |
| Tracer.GaugesAreMeshHealth | go-test-node/metrics.go:348-362 | After a well-formed trace the gauges count the topics whose true mesh is empty, too small, or large enough |
| Traffic.TrafficCounters.SendRPC | go-test-node/metrics.go:422-460 | Every broadcast series grows by the number of its items in the RPC and nothing else changes |
| Traffic.TrafficCounters.RecvRPC | go-test-node/metrics.go:382-420 | The same for the received series |
| Traffic.TrafficCounters.DropRPC | go-test-node/metrics.go:462-464 | A drop counts only as a drop |
| Traffic.WeightIsNumberOfItems | go-test-node/metrics.go:382-420 | What an RPC adds to a series is its size, or the number of its items of that kind and topic |
| Traffic.TrafficIsConserved | go-test-node/metrics.go:382-464 | In every run and for every series, all broadcasts are all receptions plus what is in flight |
| Traffic.TotalsAgreeWhenQuiet | go-test-node/metrics.go:382-464 | Never more received than broadcast, and equal exactly when nothing of the series is in flight |
| Traffic.AnyRpcCanBeSent | go-test-node/metrics.go:422-460 | Any node can send any RPC next |
| Traffic.AnyRpcCanBeDelivered | go-test-node/metrics.go:382-420 | Any RPC in flight can be delivered next |
| Traffic.EveryRunCanBecomeQuiet | go-test-node/metrics.go:382-464 | Every run can be continued to a state in which all nodes together received what they broadcast, in every series |
| TickFloor.QuicContext.RearmReentrant | nim-test-node/regression/lsquic-tick-floor.patch:46-53 | Re-entering arms the timer a floor from now, the later of the stock moment and the floor |
| TickFloor.QuicContext.constructor | nim-test-node/regression/lsquic-tick-floor.patch:33-39 | The floor is the parsed setting if positive, and zero otherwise |
| TickFloor.QuicContext.RearmAfterProcessing | nim-test-node/regression/lsquic-tick-floor.patch:57-66 | After processing the timer is armed the engine's time to its next tick from now, or the granularity if that is negative, but at least the floor; no next tick leaves it alone |
| TickFloor.NoFloorIsStock | nim-test-node/regression/lsquic-tick-floor.patch:29-39 | The patched re-arm equals the stock one exactly with floor zero, and is never earlier |
| TickFloor.TicksAreSpaced | nim-test-node/regression/lsquic-tick-floor.patch:46-66 | The k-th re-armed tick is at least k floors after the first |
| TickFloor.FollowsIff | nim-test-node/regression/lsquic-tick-floor.patch:46-66 | One tick can follow another exactly when it is at least the floor later |
| TickFloor.HorizonIsPassed | nim-test-node/regression/lsquic-tick-floor.patch:60-66 | With a floor any horizon is passed after a bounded number of ticks |
| TickFloor.StuckIsARun | nim-test-node/regression/lsquic-tick-floor.patch:46-53 | Without one, runs of every length stay at one instant |
| TickFloor.TimeAdvancesIffFloor | nim-test-node/regression/lsquic-tick-floor.patch:29-66 | Simulated time is bound to advance exactly when the floor is positive |
| Keepalive.KeepaliveLoop.PingAllOnce | nim-test-node/regression/ping_utils.nim:89-107 | Pings the other peers in order, batch by batch with the gaps, up to the batch before which traffic was seen |
| Keepalive.OthersInOrder | nim-test-node/regression/ping_utils.nim:90-93 | The list of peers is the connections other than the node itself, in order |
| Keepalive.OthersAreCounted | nim-test-node/regression/ping_utils.nim:90-93 | Each of them as often as it is connected |
| Keepalive.SweepPingsEachOnce | nim-test-node/regression/ping_utils.nim:89-107 | With distinct connections a full sweep pings every other peer exactly once, in the order of the connections |
| Keepalive.PingStarts | nim-test-node/regression/ping_utils.nim:97-107 | The first sixteen pings start at once and every other one 200 ms after the batch sixteen places before it is over |
| Keepalive.SweepsStart | nim-test-node/regression/ping_utils.nim:118-120 | A sweep starts 12 s after the last batch of the one before is over |
| Keepalive.KeepaliveLoop.PingLoop | nim-test-node/regression/ping_utils.nim:109-121 | Every sweep reads its own list of connections; all sweeps but the last are complete, the last is the beginning of one, each starts an interval after the one before ends, and the loop ends as soon as traffic is seen |
| Keepalive.SweepIsInOrder | nim-test-node/regression/ping_utils.nim:97-107 | A full sweep pings each peer once in order, at most sixteen at a time, and batches do not overlap |
| Keepalive.LoopPingsStayClose | nim-test-node/regression/ping_utils.nim:11-19 | Successive pings of a peer start at most interval + batches + gaps apart, counting the batches between its places in the two lists |
| Keepalive.NeverIdleIff | nim-test-node/regression/ping_utils.nim:12-19 | With an unchanged list the idle timeout is never reached exactly when that worst gap is below it |
| Keepalive.NeverIdleUnderChangeIff | nim-test-node/regression/ping_utils.nim:31-36 | With a list that changes between sweeps the worst gap is that of almost two sweeps, and the timeout is never reached exactly when it is below it |
| Keepalive.FastBatchesKeepAlive | nim-test-node/regression/ping_utils.nim:12-19 | With batches of at most 0.9 s this means up to 256 peers, or 128 if the list can change |
| Keepalive.OwnTimeoutsKeepAliveOneBatch | nim-test-node/regression/ping_utils.nim:12-22 | With only the file's own time limits it means at most sixteen peers |
| Bootstrap.DialCandidate | nim-test-node/service-discovery/helpers.nim:89-102 | Returns the peer of the first connecting attempt among ten, within 281 seconds |
| Bootstrap.CandidateTimeBound | nim-test-node/service-discovery/helpers.nim:89-102 | A candidate costs at most 281 seconds, and exactly that when all ten dials time out |
| Bootstrap.AnswerIff | nim-test-node/regression/kad_utils.nim:62-79 | A candidate answers with the first of ten attempts that is not retried if that connects, and raises if it was cancelled; only the discovery dialer retries a cancellation |
| Bootstrap.ConnectToBootstraps | nim-test-node/service-discovery/helpers.nim:75-110 | Returns the answering candidates of the shortest prefix that fills the cap, and an error exactly when none answered or the cap is not positive |
| Bootstrap.AnsweringIsInOrder | nim-test-node/service-discovery/helpers.nim:85-96 | The result is an in-order subsequence of the candidates; whoever is left out gave no answer |
| Bootstrap.NoneAnswersIff | nim-test-node/service-discovery/helpers.nim:85-108 | Nothing is found exactly when no candidate would connect in ten attempts |
| Bootstrap.ResolveBootstrapAddrs | nim-test-node/regression/kad_utils.nim:45-57 | Yields the first non-empty resolution of twenty tries, or nothing exactly when all fail or are empty, after five seconds for every try that yielded nothing |
| Bootstrap.ConnectToBootstrap | nim-test-node/regression/kad_utils.nim:40-85 | Returns every answering candidate of that resolution, passes on a cancellation exactly when one decides a candidate, and takes at most 100 seconds and 281 per candidate |
| Dialing.BuildPool | rust-test-node/src/main.rs:310-320 | The pool is the first 2 * target of what the shuffle makes of the other pods in increasing order; so it is in range, free of duplicates and of the node itself, and has min(2 * target, others) pods |
| Dialing.PoolIsEnoughIff | rust-test-node/src/env.rs:73-75 | The pool suffices for the target exactly when the target is below the network size |
| Dialing.PrefixReaches | rust-test-node/src/main.rs:336-354 | Stopping after the shortest sufficient prefix reaches the quota or every success there is |
| Dialing.SuccessesAreCounted | go-test-node/main.go:326-340 | The number of successes is how often a dial worked |
| Dialing.DialGo | go-test-node/main.go:314-347 | Ends with min(successes, connectTo + 1) after the shortest sufficient prefix |
| Dialing.DialRust | rust-test-node/src/main.rs:334-389 | The same on the target cast to 32 bits; an error exactly when no dial succeeds |
| Dialing.DialNim | nim-test-node/gossipsub-queues/main.nim:419-437 | Ends with min(successes, connectTo); an error exactly when that is zero |
| Dialing.TargetIsReached | nim-test-node/gossipsub-queues/main.nim:400-431 | With one address per pod and no failing dial Nim and Go nodes reach their target, and Rust nodes exactly when it fits 32 bits |
| Dialing.RustStopsAtOne | rust-test-node/src/main.rs:337-339 | For a target of 2^32 a Rust node stops after one working dial |
| Topology.CreateNetworkTopology | shadow/topogen.py:39-71 | One attributed edge per unordered pair of nodes with self-loops, stage formulas for stages, fixed values for the injector; fails exactly without stages |
| Topology.StageFormulas | shadow/topogen.py:44-62 | Bandwidth and latency of the stages in terms of the arguments of the script |
| Topology.BandwidthInRange | shadow/topogen.py:44-51 | Stage bandwidths lie in the range and do not decrease |
| Topology.LatencyInRange | shadow/topogen.py:53-62 | Stage latencies lie in the range and between stages do not increase with the larger index |
| Topology.EdgeCount | shadow/topogen.py:42-69 | The graph has (steps + 1)(steps + 2) / 2 edges |
| Topology.CreateShadowConfig | shadow/topogen.py:99-136 | Every pod is on stage i mod steps and the controller on the injector node; fails exactly when pods remain without a template |
| Topology.HostsAreIntendedIff | shadow/topogen.py:99-136 | The hosts are the pods and the controller and nothing else exactly when steps <= network size + 1; the controller is alone on its node |
| Topology.StagesAreBalanced | shadow/topogen.py:120-122 | The first n pods spread as evenly as division allows |
| Topology.PodsPerStage | shadow/topogen.py:117-136 | Every stage of a generated configuration holds floor or ceiling of network size / steps pods |
| LatencySummary.RoundingError | shadow/summary_latency_large.awk:24 | Rounding moves a latency by at most half a hop and rounded values and buckets correspond |
| LatencySummary.ReadRows | shadow/summary_latency_large.awk:11-30 | The tables hold the number of rows per message and hop, the messages seen, and each message's maximum, which is a value of an accepted row and at least all of them |
| LatencySummary.RowsAreCounted | shadow/summary_latency_large.awk:24-25 | The counts are the numbers of accepted rows of a message, in all and with a latency within half a hop of each multiple of 100 |
| LatencySummary.LatencyOfOneMore | shadow/summary_latency_large.awk:37-50 | The true total that the average is compared with grows by the latency of every accepted row |
| LatencySummary.Report | shadow/summary_latency_large.awk:37-61 | For every iteration order the count is exact, the spread is the exact histogram and the average is within half a hop of the mean |
| LatencySummary.PrintedSpreadIsCompleteIff | shadow/summary_latency_large.awk:53-59 | The printed columns add up to the count exactly when all latencies lie in [50, 5450) |

## Left out

- libp2p, gossipsub, Kademlia and service discovery: only the deduplicate-and-deliver abstraction above is modelled.
- HTTP endpoints, JSON, Prometheus registration, logging, files, DNS, real clocks, process start-up and environment parsing: I/O.
- Key generation and hashing: the message id is an uninterpreted injective function.
- Publisher.PublishGo: does not capture that Go hands the same slice to the library every time; a copy is assumed.
- TickFloor.QuicContext.RearmAfterProcessing: the engine calls between the two re-arm sites are in lsquic, which is not part of this model; neither is the clock granularity setting.
- Keepalive.KeepaliveLoop.PingLoop: observed for any finite number of sweeps; the list of connections is read at the start of a sweep and a peer without known addresses is taken to be pinged.
- Receiver.NimHandler.Handle: does not model the floating-point time source; Nim's range checks are taken to be switched on.
- Receiver.RegressionHandler.Handle: the regression node reports no completion, so its table of counts is all there is to say about a message.
- Bootstrap.ConnectToBootstrap: the time spent inside the resolver itself is not bounded.
- Traffic.TrafficCounters.RecvRPC: the source writes the bodies of SendRPC and RecvRPC out separately; they count the same items, and here both call one routine.
- Dialing.DialRust: the 32-bit connection counter of the loop is unbounded here, which differs only from the 2^32nd successful dial on.
- LatencySummary.ReadRows: splitting of a line into fields and the overall network totals are not modelled; a row is its third column, its last field and its message.
- Topology.CreateShadowConfig: hosts are keyed by pod number instead of by name, and process settings are left out.
- shadow/summary_latency.awk and shadow/summary_shadowlog.awk: their results depend on iteration order or on zero handling and have no clean contract.
- The peer and stream gauges of the Go and Rust nodes: plain copies of library values.
- The connmanager, kad-dht and service-discovery role loops: they only sequence library calls.
