/** The Go tracer's RPC accounting and the law that ties the counters of all nodes together. */
module Traffic {
  import opened Common

  type Topic = string

  datatype Subscription = Subscription(topic: Topic, subscribe: bool)

  datatype Control = Control(ihave: seq<Topic>, iwant: nat, graft: seq<Topic>, prune: seq<Topic>, idontwant: nat)

  datatype Rpc = Rpc(size: nat, subscriptions: seq<Subscription>, control: Option<Control>, publish: seq<Topic>)

  /** One time series; it exists once for each direction. */
  datatype Series =
    | Bytes | Subscriptions(topic: Topic) | Unsubscriptions(topic: Topic)
    | Ihave(topic: Topic) | Iwant | Graft(topic: Topic) | Prune(topic: Topic) | Idontwant
    | Messages(topic: Topic)

  /** What one RPC is worth in a series: how often the item occurs in it. */
  function Weight(rpc: Rpc, k: Series): nat {
    match k
    case Bytes => rpc.size
    case Subscriptions(t) => multiset(rpc.subscriptions)[Subscription(t, true)]
    case Unsubscriptions(t) => multiset(rpc.subscriptions)[Subscription(t, false)]
    case Messages(t) => multiset(rpc.publish)[t]
    case Ihave(t) => if rpc.control.None? then 0 else multiset(rpc.control.value.ihave)[t]
    case Graft(t) => if rpc.control.None? then 0 else multiset(rpc.control.value.graft)[t]
    case Prune(t) => if rpc.control.None? then 0 else multiset(rpc.control.value.prune)[t]
    case Iwant => if rpc.control.None? then 0 else rpc.control.value.iwant
    case Idontwant => if rpc.control.None? then 0 else rpc.control.value.idontwant
  }

  /** Where an item occurs in a list. */
  function Positions<T(==)>(s: seq<T>, x: T): set<int> {
    set i | 0 <= i < |s| && s[i] == x
  }

  lemma {:induction false} PositionsAreCounted<T>(s: seq<T>, x: T)
    ensures multiset(s)[x] == |Positions(s, x)|
  {
    if s == [] {
      assert Positions(s, x) == {};
    } else {
      var n, front := |s| - 1, s[..|s| - 1];
      PositionsAreCounted(front, x);
      assert s == front + [s[n]];
      assert Positions(s, x) == Positions(front, x) + if s[n] == x then {n} else {};
    }
  }

  /** An RPC is worth its size in bytes and, in every other series, the number of its items of
      that kind and topic. */
  lemma WeightIsNumberOfItems(rpc: Rpc, t: Topic)
    ensures Weight(rpc, Bytes) == rpc.size
    ensures Weight(rpc, Messages(t)) == |Positions(rpc.publish, t)|
    ensures Weight(rpc, Subscriptions(t)) ==
            |Positions(rpc.subscriptions, Subscription(t, true))|
    ensures Weight(rpc, Unsubscriptions(t)) ==
            |Positions(rpc.subscriptions, Subscription(t, false))|
    ensures rpc.control.Some? ==>
              var c := rpc.control.value;
              && Weight(rpc, Ihave(t)) == |Positions(c.ihave, t)|
              && Weight(rpc, Graft(t)) == |Positions(c.graft, t)|
              && Weight(rpc, Prune(t)) == |Positions(c.prune, t)|
              && Weight(rpc, Iwant) == c.iwant && Weight(rpc, Idontwant) == c.idontwant
    ensures rpc.control.None? ==>
              && Weight(rpc, Ihave(t)) == Weight(rpc, Graft(t)) == Weight(rpc, Prune(t)) == 0
              && Weight(rpc, Iwant) == Weight(rpc, Idontwant) == 0
  {
    PositionsAreCounted(rpc.publish, t);
    PositionsAreCounted(rpc.subscriptions, Subscription(t, true));
    PositionsAreCounted(rpc.subscriptions, Subscription(t, false));
    if rpc.control.Some? {
      PositionsAreCounted(rpc.control.value.ihave, t);
      PositionsAreCounted(rpc.control.value.graft, t);
      PositionsAreCounted(rpc.control.value.prune, t);
    }
  }

  function Add(m: map<Series, nat>, k: Series, n: nat): (r: map<Series, nat>)
    ensures forall j :: Get(r, j, 0) == Get(m, j, 0) + if j == k then n else 0
  {
    m[k := Get(m, k, 0) + n]
  }

  ghost predicate Accounted(before: map<Series, nat>, after: map<Series, nat>, rpc: Rpc) {
    forall k :: Get(after, k, 0) == Get(before, k, 0) + Weight(rpc, k)
  }

  lemma OneMoreSubscription(subscriptions: seq<Subscription>, last: Subscription, k: Series)
    ensures Weight(Rpc(0, subscriptions + [last], None, []), k) ==
            Weight(Rpc(0, subscriptions, None, []), k) +
            if k == (if last.subscribe then Subscriptions(last.topic) else Unsubscriptions(last.topic)) then 1 else 0
  {
  }

  /** The loop over the subscription options of an RPC. */
  method AddSubscriptions(m: map<Series, nat>, subscriptions: seq<Subscription>) returns (r: map<Series, nat>)
    ensures Accounted(m, r, Rpc(0, subscriptions, None, []))
  {
    r := m;
    for n := 0 to |subscriptions|
      invariant Accounted(m, r, Rpc(0, subscriptions[..n], None, []))
    {
      assert subscriptions[..n + 1] == subscriptions[..n] + [subscriptions[n]];
      forall k ensures Weight(Rpc(0, subscriptions[..n + 1], None, []), k) ==
                       Weight(Rpc(0, subscriptions[..n], None, []), k) +
                       if k == (if subscriptions[n].subscribe then Subscriptions(subscriptions[n].topic)
                                else Unsubscriptions(subscriptions[n].topic)) then 1 else 0
      {
        OneMoreSubscription(subscriptions[..n], subscriptions[n], k);
      }
      if subscriptions[n].subscribe {
        r := Add(r, Subscriptions(subscriptions[n].topic), 1);
      } else {
        r := Add(r, Unsubscriptions(subscriptions[n].topic), 1);
      }
    }
    assert subscriptions[..|subscriptions|] == subscriptions;
  }

  /** The lists of an RPC that are counted per topic. */
  datatype Kind = IhaveKind | GraftKind | PruneKind | MessagesKind

  function Label(kind: Kind, t: Topic): Series {
    match kind
    case IhaveKind => Ihave(t)
    case GraftKind => Graft(t)
    case PruneKind => Prune(t)
    case MessagesKind => Messages(t)
  }

  /** What a list of topics of one kind is worth. */
  function ListWeight(kind: Kind, topics: seq<Topic>, k: Series): nat {
    match (kind, k)
    case (IhaveKind, Ihave(t)) => multiset(topics)[t]
    case (GraftKind, Graft(t)) => multiset(topics)[t]
    case (PruneKind, Prune(t)) => multiset(topics)[t]
    case (MessagesKind, Messages(t)) => multiset(topics)[t]
    case _ => 0
  }

  lemma OneMoreTopic(kind: Kind, topics: seq<Topic>, last: Topic, k: Series)
    ensures ListWeight(kind, topics + [last], k) == ListWeight(kind, topics, k) + if k == Label(kind, last) then 1 else 0
  {
  }

  /** The loop that counts one item per topic mentioned. */
  method AddTopics(m: map<Series, nat>, kind: Kind, topics: seq<Topic>) returns (r: map<Series, nat>)
    ensures forall k :: Get(r, k, 0) == Get(m, k, 0) + ListWeight(kind, topics, k)
  {
    r := m;
    for n := 0 to |topics|
      invariant forall k :: Get(r, k, 0) == Get(m, k, 0) + ListWeight(kind, topics[..n], k)
    {
      assert topics[..n + 1] == topics[..n] + [topics[n]];
      forall k ensures ListWeight(kind, topics[..n + 1], k) ==
                       ListWeight(kind, topics[..n], k) + if k == Label(kind, topics[n]) then 1 else 0
      {
        OneMoreTopic(kind, topics[..n], topics[n], k);
      }
      r := Add(r, Label(kind, topics[n]), 1);
    }
    assert topics[..|topics|] == topics;
  }

  lemma ControlParts(c: Control, k: Series)
    ensures Weight(Rpc(0, [], Some(c), []), k) ==
            ListWeight(IhaveKind, c.ihave, k) + ListWeight(GraftKind, c.graft, k) + ListWeight(PruneKind, c.prune, k)
            + (if k == Iwant then c.iwant else 0) + (if k == Idontwant then c.idontwant else 0)
  {
  }

  method AddControl(m: map<Series, nat>, control: Control) returns (r: map<Series, nat>)
    ensures Accounted(m, r, Rpc(0, [], Some(control), []))
  {
    r := AddTopics(m, IhaveKind, control.ihave);
    r := Add(r, Iwant, control.iwant);
    r := AddTopics(r, GraftKind, control.graft);
    r := AddTopics(r, PruneKind, control.prune);
    r := Add(r, Idontwant, control.idontwant);
    forall k ensures Get(r, k, 0) == Get(m, k, 0) + Weight(Rpc(0, [], Some(control), []), k) {
      ControlParts(control, k);
    }
  }

  lemma RpcParts(rpc: Rpc, k: Series)
    ensures Weight(rpc, k) ==
            (if k == Bytes then rpc.size else 0)
            + Weight(Rpc(0, rpc.subscriptions, None, []), k)
            + Weight(Rpc(0, [], rpc.control, []), k)
            + ListWeight(MessagesKind, rpc.publish, k)
  {
  }

  method AddRpc(m: map<Series, nat>, rpc: Rpc) returns (r: map<Series, nat>)
    ensures Accounted(m, r, rpc)
  {
    r := Add(m, Bytes, rpc.size);
    r := AddSubscriptions(r, rpc.subscriptions);
    ghost var counted := r;
    if rpc.control.Some? {
      r := AddControl(r, rpc.control.value);
    }
    assert Accounted(counted, r, Rpc(0, [], rpc.control, []));
    r := AddTopics(r, MessagesKind, rpc.publish);
    forall k ensures Get(r, k, 0) == Get(m, k, 0) + Weight(rpc, k) {
      RpcParts(rpc, k);
    }
  }

  /** The traffic counters of one node. */
  class TrafficCounters {
    var broadcast: map<Series, nat>
    var received: map<Series, nat>
    var rpcDrop: nat

    constructor ()
      ensures broadcast == map[] && received == map[] && rpcDrop == 0
    {
      broadcast, received, rpcDrop := map[], map[], 0;
    }

    method SendRPC(rpc: Rpc)
      modifies this`broadcast
      ensures Accounted(old(broadcast), broadcast, rpc)
    {
      broadcast := AddRpc(broadcast, rpc);
    }

    method RecvRPC(rpc: Rpc)
      modifies this`received
      ensures Accounted(old(received), received, rpc)
    {
      received := AddRpc(received, rpc);
    }

    method DropRPC(rpc: Rpc)
      modifies this`rpcDrop
      ensures rpcDrop == old(rpcDrop) + 1
    {
      rpcDrop := rpcDrop + 1;
    }
  }

  // ----- the system -----

  datatype Node = Node(broadcast: map<Series, nat>, received: map<Series, nat>, rpcDrop: nat)

  datatype Envelope = Envelope(to: nat, rpc: Rpc)

  datatype State = State(nodes: seq<Node>, inFlight: seq<Envelope>)

  ghost predicate SendStep(s: State, s': State, i: nat, e: Envelope) {
    && i < |s.nodes| && |s'.nodes| == |s.nodes| && e.to < |s.nodes|
    && Accounted(s.nodes[i].broadcast, s'.nodes[i].broadcast, e.rpc)
    && s'.nodes == s.nodes[i := s.nodes[i].(broadcast := s'.nodes[i].broadcast)]
    && s'.inFlight == s.inFlight + [e]
  }

  ghost predicate DeliverStep(s: State, s': State, j: nat, node: Node) {
    && j < |s.inFlight| && s.inFlight[j].to < |s.nodes|
    && var i := s.inFlight[j].to;
       && Accounted(s.nodes[i].received, node.received, s.inFlight[j].rpc)
       && s'.nodes == s.nodes[i := s.nodes[i].(received := node.received)]
       && s'.inFlight == s.inFlight[..j] + s.inFlight[j + 1..]
  }

  ghost predicate DropStep(s: State, s': State, i: nat) {
    && i < |s.nodes|
    && s' == s.(nodes := s.nodes[i := s.nodes[i].(rpcDrop := s.nodes[i].rpcDrop + 1)])
  }

  /** Each step is one tracer callback at one node: a send puts the RPC in flight, a drop does
      not, and a delivery takes any RPC in flight to the node it was sent to. */
  ghost predicate Next(s: State, s': State) {
    || (exists i, e :: SendStep(s, s', i, e))
    || (exists j, node :: DeliverStep(s, s', j, node))
    || (exists i :: DropStep(s, s', i))
  }

  ghost predicate IsRun(run: seq<State>) {
    && run != []
    && run[0].inFlight == []
    && (forall i :: 0 <= i < |run[0].nodes| ==> run[0].nodes[i] == Node(map[], map[], 0))
    && (forall n :: 0 < n < |run| ==> Next(run[n - 1], run[n]))
  }

  function Broadcast(nodes: seq<Node>, k: Series): nat {
    if nodes == [] then 0 else Get(nodes[0].broadcast, k, 0) + Broadcast(nodes[1..], k)
  }

  function Received(nodes: seq<Node>, k: Series): nat {
    if nodes == [] then 0 else Get(nodes[0].received, k, 0) + Received(nodes[1..], k)
  }

  function Pending(envelopes: seq<Envelope>, k: Series): nat {
    if envelopes == [] then 0 else Weight(envelopes[0].rpc, k) + Pending(envelopes[1..], k)
  }

  lemma {:induction false} SumsAfterUpdate(nodes: seq<Node>, i: nat, node: Node, k: Series)
    requires i < |nodes|
    ensures Broadcast(nodes[i := node], k) ==
            Broadcast(nodes, k) - Get(nodes[i].broadcast, k, 0) + Get(node.broadcast, k, 0)
    ensures Received(nodes[i := node], k) ==
            Received(nodes, k) - Get(nodes[i].received, k, 0) + Get(node.received, k, 0)
  {
    if i == 0 {
      assert nodes[i := node][1..] == nodes[1..];
    } else {
      SumsAfterUpdate(nodes[1..], i - 1, node, k);
      assert nodes[i := node][1..] == nodes[1..][i - 1 := node];
    }
  }

  lemma {:induction false} PendingSplits(a: seq<Envelope>, b: seq<Envelope>, k: Series)
    ensures Pending(a + b, k) == Pending(a, k) + Pending(b, k)
  {
    if a == [] {
      assert a + b == b;
    } else {
      PendingSplits(a[1..], b, k);
      assert (a + b)[1..] == a[1..] + b;
    }
  }

  lemma {:induction false} NothingCounted(nodes: seq<Node>, k: Series)
    requires forall i :: 0 <= i < |nodes| ==> nodes[i] == Node(map[], map[], 0)
    ensures Broadcast(nodes, k) == 0 && Received(nodes, k) == 0
  {
    if nodes != [] {
      NothingCounted(nodes[1..], k);
    }
  }

  ghost predicate Balanced(s: State, k: Series) {
    Broadcast(s.nodes, k) == Received(s.nodes, k) + Pending(s.inFlight, k)
  }

  lemma SendConserves(s: State, s': State, i: nat, e: Envelope, k: Series)
    requires SendStep(s, s', i, e) && Balanced(s, k)
    ensures Balanced(s', k)
  {
    SumsAfterUpdate(s.nodes, i, s.nodes[i].(broadcast := s'.nodes[i].broadcast), k);
    PendingSplits(s.inFlight, [e], k);
  }

  lemma PendingWithout(envelopes: seq<Envelope>, j: nat, k: Series)
    requires j < |envelopes|
    ensures Pending(envelopes, k) ==
            Pending(envelopes[..j] + envelopes[j + 1..], k) + Weight(envelopes[j].rpc, k)
  {
    PendingSplits(envelopes[..j], envelopes[j + 1..], k);
    PendingSplits(envelopes[..j], envelopes[j..], k);
    assert envelopes == envelopes[..j] + envelopes[j..];
    assert envelopes[j..][1..] == envelopes[j + 1..];
  }

  lemma DeliverConserves(s: State, s': State, j: nat, node: Node, k: Series)
    requires DeliverStep(s, s', j, node) && Balanced(s, k)
    ensures Balanced(s', k)
  {
    var i := s.inFlight[j].to;
    SumsAfterUpdate(s.nodes, i, s.nodes[i].(received := node.received), k);
    PendingWithout(s.inFlight, j, k);
  }

  lemma DropConserves(s: State, s': State, i: nat, k: Series)
    requires DropStep(s, s', i) && Balanced(s, k)
    ensures Balanced(s', k)
  {
    SumsAfterUpdate(s.nodes, i, s.nodes[i].(rpcDrop := s.nodes[i].rpcDrop + 1), k);
  }

  lemma StepConserves(s: State, s': State, k: Series)
    requires Next(s, s') && Balanced(s, k)
    ensures Balanced(s', k)
  {
    if i: nat, e: Envelope :| SendStep(s, s', i, e) {
      SendConserves(s, s', i, e, k);
    } else if j: nat, node: Node :| DeliverStep(s, s', j, node) {
      DeliverConserves(s, s', j, node, k);
    } else {
      var i: nat :| DropStep(s, s', i);
      DropConserves(s, s', i, k);
    }
  }

  /** Conservation, in every state of every run and for every series: what all nodes together
      broadcast is what they received plus what is still in flight. Drops are on neither side. */
  lemma {:induction false} TrafficIsConserved(run: seq<State>, k: Series)
    requires IsRun(run)
    ensures var s := run[|run| - 1];
            Broadcast(s.nodes, k) == Received(s.nodes, k) + Pending(s.inFlight, k)
  {
    if |run| == 1 {
      NothingCounted(run[0].nodes, k);
    } else {
      var front := run[..|run| - 1];
      assert forall n :: 0 < n < |front| ==> Next(front[n - 1], front[n]);
      TrafficIsConserved(front, k);
      StepConserves(run[|run| - 2], run[|run| - 1], k);
    }
  }

  /** Nothing is received that was not broadcast, and at quiescence the totals agree. */
  lemma TotalsAgreeWhenQuiet(run: seq<State>, k: Series)
    requires IsRun(run)
    ensures var s := run[|run| - 1];
            && Received(s.nodes, k) <= Broadcast(s.nodes, k)
            && (Pending(s.inFlight, k) == 0 <==> Received(s.nodes, k) == Broadcast(s.nodes, k))
  {
    TrafficIsConserved(run, k);
  }

  // ----- every run can become quiet -----

  /** The series an RPC has items of. */
  function SeriesOf(rpc: Rpc): set<Series> {
    {Bytes, Iwant, Idontwant}
    + (set t | t in rpc.publish :: Messages(t))
    + (set u | u in rpc.subscriptions :: Subscriptions(u.topic))
    + (set u | u in rpc.subscriptions :: Unsubscriptions(u.topic))
    + match rpc.control
      case None => {}
      case Some(c) => (set t | t in c.ihave :: Ihave(t)) + (set t | t in c.graft :: Graft(t)) + (set t | t in c.prune :: Prune(t))
  }

  lemma OtherSeriesWeighNothing(rpc: Rpc, k: Series)
    requires k !in SeriesOf(rpc)
    ensures Weight(rpc, k) == 0
  {
    match k {
      case Subscriptions(t) => assert Subscription(t, true) !in rpc.subscriptions;
      case Unsubscriptions(t) => assert Subscription(t, false) !in rpc.subscriptions;
      case Messages(t) => assert t !in rpc.publish;
      case Ihave(t) => assert rpc.control.Some? ==> t !in rpc.control.value.ihave;
      case Graft(t) => assert rpc.control.Some? ==> t !in rpc.control.value.graft;
      case Prune(t) => assert rpc.control.Some? ==> t !in rpc.control.value.prune;
      case _ =>
    }
  }

  /** The counters after an RPC. */
  function Charged(m: map<Series, nat>, rpc: Rpc): (r: map<Series, nat>)
    ensures Accounted(m, r, rpc)
  {
    assert forall k :: k !in SeriesOf(rpc) ==> Weight(rpc, k) == 0 by {
      forall k | k !in SeriesOf(rpc) ensures Weight(rpc, k) == 0 {
        OtherSeriesWeighNothing(rpc, k);
      }
    }
    map k | k in m.Keys + SeriesOf(rpc) :: Get(m, k, 0) + Weight(rpc, k)
  }

  /** Every RPC in flight is on its way to a node. */
  ghost predicate Addressed(s: State) {
    forall j :: 0 <= j < |s.inFlight| ==> s.inFlight[j].to < |s.nodes|
  }

  lemma {:induction false} DestinationsExist(run: seq<State>)
    requires IsRun(run)
    ensures Addressed(run[|run| - 1])
  {
    if |run| > 1 {
      var front := run[..|run| - 1];
      assert forall n :: 0 < n < |front| ==> Next(front[n - 1], front[n]);
      DestinationsExist(front);
      assert Next(run[|run| - 2], run[|run| - 1]);
    }
  }

  /** Any node can send any RPC to any node next. */
  lemma AnyRpcCanBeSent(run: seq<State>, i: nat, e: Envelope) returns (s': State)
    requires IsRun(run) && i < |run[|run| - 1].nodes| && e.to < |run[|run| - 1].nodes|
    ensures IsRun(run + [s']) && s'.inFlight == run[|run| - 1].inFlight + [e]
  {
    var s := run[|run| - 1];
    var node := s.nodes[i].(broadcast := Charged(s.nodes[i].broadcast, e.rpc));
    s' := State(s.nodes[i := node], s.inFlight + [e]);
    assert SendStep(s, s', i, e);
  }

  /** Any RPC in flight can be delivered next. */
  lemma AnyRpcCanBeDelivered(run: seq<State>, j: nat) returns (s': State)
    requires IsRun(run) && j < |run[|run| - 1].inFlight|
    ensures IsRun(run + [s'])
    ensures s'.inFlight == run[|run| - 1].inFlight[..j] + run[|run| - 1].inFlight[j + 1..]
  {
    var s := run[|run| - 1];
    DestinationsExist(run);
    var i := s.inFlight[j].to;
    var node := s.nodes[i].(received := Charged(s.nodes[i].received, s.inFlight[j].rpc));
    s' := State(s.nodes[i := node], s.inFlight[..j] + s.inFlight[j + 1..]);
    assert DeliverStep(s, s', j, node);
  }

  /** So every run can be continued until all nodes together received what they broadcast. */
  lemma {:induction false} EveryRunCanBecomeQuiet(run: seq<State>) returns (more: seq<State>)
    requires IsRun(run)
    ensures run <= more && IsRun(more)
    ensures var s := more[|more| - 1];
            s.inFlight == [] && forall k :: Broadcast(s.nodes, k) == Received(s.nodes, k)
    decreases |run[|run| - 1].inFlight|
  {
    if run[|run| - 1].inFlight == [] {
      more := run;
      var nodes := run[|run| - 1].nodes;
      forall k ensures Broadcast(nodes, k) == Received(nodes, k) {
        TrafficIsConserved(run, k);
      }
    } else {
      var s' := AnyRpcCanBeDelivered(run, 0);
      more := EveryRunCanBecomeQuiet(run + [s']);
    }
  }
}
