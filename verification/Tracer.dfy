/** The Go node's GossipSubTracer with its incrementally refreshed health gauges, and the Rust
    node's snapshot recount, which must agree with it. */
module Tracer {
  import opened Common
  import opened MeshWalk

  /** Numbers of topics without peers, below the low threshold, and healthy. */
  datatype Health = Health(noPeers: nat, lowPeers: nat, healthy: nat)

  datatype Level = NoPeers | LowPeers | HealthyPeers

  function LevelOf(count: int, dLow: int): Level {
    if count == 0 then NoPeers else if count < dLow then LowPeers else HealthyPeers
  }

  /** The topics of a set that are at a level. */
  function TopicsAt(topics: set<Topic>, counts: map<Topic, int>, dLow: int, level: Level): set<Topic>
    requires topics <= counts.Keys
  {
    set t | t in topics && LevelOf(counts[t], dLow) == level
  }

  /** The health of a set of topics: three cardinalities. */
  function HealthOf(topics: set<Topic>, counts: map<Topic, int>, dLow: int): Health
    requires topics <= counts.Keys
  {
    Health(|TopicsAt(topics, counts, dLow, NoPeers)|,
           |TopicsAt(topics, counts, dLow, LowPeers)|,
           |TopicsAt(topics, counts, dLow, HealthyPeers)|)
  }

  lemma OneMoreAt(topics: set<Topic>, counts: map<Topic, int>, dLow: int, t: Topic, level: Level)
    requires topics <= counts.Keys && t in counts && t !in topics
    ensures |TopicsAt(topics + {t}, counts, dLow, level)| ==
            |TopicsAt(topics, counts, dLow, level)| + if LevelOf(counts[t], dLow) == level then 1 else 0
  {
    assert TopicsAt(topics + {t}, counts, dLow, level) ==
           TopicsAt(topics, counts, dLow, level) + if LevelOf(counts[t], dLow) == level then {t} else {};
  }

  function HealthAfter(h: Health, level: Level): Health {
    match level
    case NoPeers => h.(noPeers := h.noPeers + 1)
    case LowPeers => h.(lowPeers := h.lowPeers + 1)
    case HealthyPeers => h.(healthy := h.healthy + 1)
  }

  /** One more topic moves exactly one of the three numbers. */
  lemma OneMoreTopic(topics: set<Topic>, counts: map<Topic, int>, dLow: int, t: Topic)
    requires topics <= counts.Keys && t in counts && t !in topics
    ensures HealthOf(topics + {t}, counts, dLow) ==
            HealthAfter(HealthOf(topics, counts, dLow), LevelOf(counts[t], dLow))
  {
    OneMoreAt(topics, counts, dLow, t, NoPeers);
    OneMoreAt(topics, counts, dLow, t, LowPeers);
    OneMoreAt(topics, counts, dLow, t, HealthyPeers);
  }

  /** One turn of the recount loops: which of the three numbers goes up. */
  method CountLevel(h: Health, count: int, dLow: int) returns (r: Health)
    ensures r == HealthAfter(h, LevelOf(count, dLow))
  {
    if count == 0 {
      r := h.(noPeers := h.noPeers + 1);
    } else if count < dLow {
      r := h.(lowPeers := h.lowPeers + 1);
    } else {
      r := h.(healthy := h.healthy + 1);
    }
  }

  /** The loop of updateTopicHealthMetrics, in whatever order the map is iterated. */
  method RecountMap(counts: map<Topic, int>, dLow: int) returns (h: Health)
    ensures h == HealthOf(counts.Keys, counts, dLow)
  {
    h := Health(0, 0, 0);
    var rest, done := counts.Keys, {};
    while rest != {}
      invariant done <= counts.Keys && rest == counts.Keys - done
      invariant h == HealthOf(done, counts, dLow)
      decreases rest
    {
      var t :| t in rest;
      OneMoreTopic(done, counts, dLow, t);
      h := CountLevel(h, counts[t], dLow);
      rest, done := rest - {t}, done + {t};
    }
    assert done == counts.Keys;
  }

  /** Decrementing and then clamping is what a Prune does to the counters. */
  lemma PruneStep(before: Counters, peer: Peer, topic: Topic)
    ensures var n := Get(before.counts, topic, 0) - 1;
            var counts := if n < 0 then before.counts[topic := n][topic := 0] else before.counts[topic := n];
            Step(before, Event.Prune(peer, topic)) == Counters(counts, before.gauge[topic := counts[topic]])
  {
    var n := Get(before.counts, topic, 0) - 1;
    assert before.counts[topic := n][topic := 0] == before.counts[topic := 0];
  }

  class GossipSubTracer {
    const dLow: int
    var meshPeerCount: map<Topic, int>
    var peersPerTopicMesh: map<Topic, int>   // exported gauge
    var noPeersTopics: nat
    var lowPeersTopics: nat
    var healthyTopics: nat
    ghost var events: seq<Event>             // every callback so far

    /** The map and the gauge are what the events say, and the three health gauges are those of
        the current map. */
    ghost predicate Valid()
      reads this
    {
      && Counters(meshPeerCount, peersPerTopicMesh) == Run(events)
      && Health(noPeersTopics, lowPeersTopics, healthyTopics) == HealthOf(meshPeerCount.Keys, meshPeerCount, dLow)
    }

    constructor (dLow: int)
      ensures Valid() && events == [] && this.dLow == dLow
    {
      this.dLow := dLow;
      meshPeerCount, peersPerTopicMesh, events := map[], map[], [];
      noPeersTopics, lowPeersTopics, healthyTopics := 0, 0, 0;
    }

    method UpdateTopicHealthMetrics()
      modifies this`noPeersTopics, this`lowPeersTopics, this`healthyTopics
      ensures Health(noPeersTopics, lowPeersTopics, healthyTopics) == HealthOf(meshPeerCount.Keys, meshPeerCount, dLow)
    {
      var h := RecountMap(meshPeerCount, dLow);
      noPeersTopics, lowPeersTopics, healthyTopics := h.noPeers, h.lowPeers, h.healthy;
    }

    method Join(topic: Topic)
      requires Valid()
      modifies this
      ensures Valid() && events == old(events) + [Event.Join(topic)]
    {
      RunSnoc(events, Event.Join(topic));
      events := events + [Event.Join(topic)];
      if topic !in meshPeerCount {
        meshPeerCount := meshPeerCount[topic := 0];
        UpdateTopicHealthMetrics();
      }
    }

    method Leave(topic: Topic)
      requires Valid()
      modifies this
      ensures Valid() && events == old(events) + [Event.Leave(topic)]
    {
      RunSnoc(events, Event.Leave(topic));
      events := events + [Event.Leave(topic)];
      if topic in meshPeerCount {
        meshPeerCount := meshPeerCount - {topic};
        UpdateTopicHealthMetrics();
      } else {
        assert meshPeerCount - {topic} == meshPeerCount;
      }
    }

    method Graft(peer: Peer, topic: Topic)
      requires Valid()
      modifies this
      ensures Valid() && events == old(events) + [Event.Graft(peer, topic)]
    {
      RunSnoc(events, Event.Graft(peer, topic));
      events := events + [Event.Graft(peer, topic)];
      ghost var before := Counters(meshPeerCount, peersPerTopicMesh);
      meshPeerCount := meshPeerCount[topic := Get(meshPeerCount, topic, 0) + 1];
      peersPerTopicMesh := peersPerTopicMesh[topic := meshPeerCount[topic]];
      assert Counters(meshPeerCount, peersPerTopicMesh) == Step(before, Event.Graft(peer, topic));
      UpdateTopicHealthMetrics();
    }

    method Prune(peer: Peer, topic: Topic)
      requires Valid()
      modifies this
      ensures Valid() && events == old(events) + [Event.Prune(peer, topic)]
    {
      RunSnoc(events, Event.Prune(peer, topic));
      events := events + [Event.Prune(peer, topic)];
      ghost var before := Counters(meshPeerCount, peersPerTopicMesh);
      meshPeerCount := meshPeerCount[topic := Get(meshPeerCount, topic, 0) - 1];
      if meshPeerCount[topic] < 0 {
        meshPeerCount := meshPeerCount[topic := 0];
      }
      peersPerTopicMesh := peersPerTopicMesh[topic := meshPeerCount[topic]];
      assert Counters(meshPeerCount, peersPerTopicMesh) == Step(before, Event.Prune(peer, topic)) by {
        PruneStep(before, peer, topic);
      }
      UpdateTopicHealthMetrics();
    }
  }

  // ----- the Rust snapshot -----

  /** The positions of a list that are at a level. */
  function PositionsAt(meshCounts: seq<(Topic, int)>, dLow: int, level: Level): set<int> {
    set i | 0 <= i < |meshCounts| && LevelOf(meshCounts[i].1, dLow) == level
  }

  function HealthOfList(meshCounts: seq<(Topic, int)>, dLow: int): Health {
    Health(|PositionsAt(meshCounts, dLow, NoPeers)|,
           |PositionsAt(meshCounts, dLow, LowPeers)|,
           |PositionsAt(meshCounts, dLow, HealthyPeers)|)
  }

  lemma OneMorePositionAt(meshCounts: seq<(Topic, int)>, dLow: int, last: (Topic, int), level: Level)
    ensures |PositionsAt(meshCounts + [last], dLow, level)| ==
            |PositionsAt(meshCounts, dLow, level)| + if LevelOf(last.1, dLow) == level then 1 else 0
  {
    assert PositionsAt(meshCounts + [last], dLow, level) ==
           PositionsAt(meshCounts, dLow, level) + if LevelOf(last.1, dLow) == level then {|meshCounts|} else {};
  }

  lemma OneMorePosition(meshCounts: seq<(Topic, int)>, dLow: int, last: (Topic, int))
    ensures HealthOfList(meshCounts + [last], dLow) ==
            HealthAfter(HealthOfList(meshCounts, dLow), LevelOf(last.1, dLow))
  {
    OneMorePositionAt(meshCounts, dLow, last, NoPeers);
    OneMorePositionAt(meshCounts, dLow, last, LowPeers);
    OneMorePositionAt(meshCounts, dLow, last, HealthyPeers);
  }

  /** update_health of the Rust node, on the list of topics with their mesh sizes. */
  method UpdateHealth(meshCounts: seq<(Topic, int)>, dLow: int) returns (h: Health)
    ensures h == HealthOfList(meshCounts, dLow)
  {
    h := Health(0, 0, 0);
    for n := 0 to |meshCounts|
      invariant h == HealthOfList(meshCounts[..n], dLow)
    {
      assert meshCounts[..n + 1] == meshCounts[..n] + [meshCounts[n]];
      OneMorePosition(meshCounts[..n], dLow, meshCounts[n]);
      h := CountLevel(h, meshCounts[n].1, dLow);
    }
    assert meshCounts[..|meshCounts|] == meshCounts;
  }

  /** The list has every topic of the map once, with its count. */
  ghost predicate Lists(meshCounts: seq<(Topic, int)>, counts: map<Topic, int>) {
    && (forall i, j :: 0 <= i < j < |meshCounts| ==> meshCounts[i].0 != meshCounts[j].0)
    && (forall i :: 0 <= i < |meshCounts| ==> meshCounts[i].0 in counts && counts[meshCounts[i].0] == meshCounts[i].1)
    && (forall t :: t in counts ==> exists i :: 0 <= i < |meshCounts| && meshCounts[i].0 == t)
  }

  lemma ListsOneMore(before: seq<(Topic, int)>, mesh: map<Topic, set<Peer>>, rest: set<Topic>, last: Topic)
    requires last in rest && rest <= mesh.Keys
    requires Lists(before, map t | t in mesh && t !in rest :: |mesh[t]|)
    ensures Lists(before + [(last, |mesh[last]|)], map t | t in mesh && t !in rest - {last} :: |mesh[t]|)
  {
    var longer := before + [(last, |mesh[last]|)];
    var listed := map t | t in mesh && t !in rest :: |mesh[t]|;
    assert longer[|before|].0 == last;
    forall t | t in mesh && t !in rest - {last} ensures exists i :: 0 <= i < |longer| && longer[i].0 == t {
      if t != last {
        assert t in listed;
        var i :| 0 <= i < |before| && before[i].0 == t;
        assert longer[i].0 == t;
      }
    }
  }

  /** The health part of the Rust node's periodic tick: list the subscribed topics with their mesh
      sizes, in whatever order they come, and recount. */
  method HealthTick(mesh: map<Topic, set<Peer>>, dLow: int) returns (meshCounts: seq<(Topic, int)>, h: Health)
    ensures Lists(meshCounts, map t | t in mesh :: |mesh[t]|)
    ensures h == HealthOfList(meshCounts, dLow)
  {
    meshCounts := [];
    var rest := mesh.Keys;
    while rest != {}
      invariant rest <= mesh.Keys
      invariant Lists(meshCounts, map t | t in mesh && t !in rest :: |mesh[t]|)
      decreases rest
    {
      var t :| t in rest;
      ghost var before := meshCounts;
      meshCounts := meshCounts + [(t, |mesh[t]|)];
      ListsOneMore(before, mesh, rest, t);
      rest := rest - {t};
    }
    assert (map t | t in mesh && t !in rest :: |mesh[t]|) == map t | t in mesh :: |mesh[t]|;
    h := UpdateHealth(meshCounts, dLow);
  }

  lemma ListsFront(meshCounts: seq<(Topic, int)>, counts: map<Topic, int>)
    requires Lists(meshCounts, counts) && meshCounts != []
    ensures Lists(meshCounts[..|meshCounts| - 1], counts - {meshCounts[|meshCounts| - 1].0})
  {
    var n := |meshCounts| - 1;
    var front, fewer := meshCounts[..n], counts - {meshCounts[n].0};
    forall t | t in fewer ensures exists i :: 0 <= i < n && front[i].0 == t {
      var i :| 0 <= i < |meshCounts| && meshCounts[i].0 == t;
      assert front[i].0 == t;
    }
  }

  lemma OneMoreEntry(counts: map<Topic, int>, t: Topic, dLow: int, level: Level)
    requires t in counts
    ensures var fewer := counts - {t};
            |TopicsAt(counts.Keys, counts, dLow, level)| ==
            |TopicsAt(fewer.Keys, fewer, dLow, level)| + if LevelOf(counts[t], dLow) == level then 1 else 0
  {
    var fewer := counts - {t};
    OneMoreAt(fewer.Keys, counts, dLow, t, level);
    assert fewer.Keys + {t} == counts.Keys;
    assert TopicsAt(fewer.Keys, fewer, dLow, level) == TopicsAt(fewer.Keys, counts, dLow, level);
  }

  lemma NothingListed(counts: map<Topic, int>, dLow: int, level: Level)
    requires Lists([], counts)
    ensures TopicsAt(counts.Keys, counts, dLow, level) == {} && PositionsAt([], dLow, level) == {}
  {
    assert forall t :: t !in counts;
  }

  lemma {:induction false} PositionsAreTopics(meshCounts: seq<(Topic, int)>, counts: map<Topic, int>, dLow: int, level: Level)
    requires Lists(meshCounts, counts)
    ensures |PositionsAt(meshCounts, dLow, level)| == |TopicsAt(counts.Keys, counts, dLow, level)|
  {
    if meshCounts == [] {
      NothingListed(counts, dLow, level);
    } else {
      var front, last := meshCounts[..|meshCounts| - 1], meshCounts[|meshCounts| - 1];
      assert meshCounts == front + [last];
      ListsFront(meshCounts, counts);
      PositionsAreTopics(front, counts - {last.0}, dLow, level);
      OneMorePositionAt(front, dLow, last, level);
      OneMoreEntry(counts, last.0, dLow, level);
    }
  }

  /** The snapshot recount of any listing of a map equals the recount of the map itself, so the
      result depends neither on the list's order nor on the map's. */
  lemma SnapshotAgrees(meshCounts: seq<(Topic, int)>, counts: map<Topic, int>, dLow: int)
    requires Lists(meshCounts, counts)
    ensures HealthOfList(meshCounts, dLow) == HealthOf(counts.Keys, counts, dLow)
  {
    PositionsAreTopics(meshCounts, counts, dLow, NoPeers);
    PositionsAreTopics(meshCounts, counts, dLow, LowPeers);
    PositionsAreTopics(meshCounts, counts, dLow, HealthyPeers);
  }

  /** Two nodes with the same true mesh: the Go gauges after a well-formed trace are what a Rust
      node computes from any snapshot of the mesh sizes. */
  lemma GoGaugesMatchRustSnapshot(es: seq<Event>, snapshot: seq<(Topic, int)>, dLow: int)
    requires WellFormed(es) && Lists(snapshot, map t | t in Mesh(es) :: |Mesh(es)[t]|)
    ensures HealthOf(Run(es).counts.Keys, Run(es).counts, dLow) == HealthOfList(snapshot, dLow)
  {
    CountsAreMeshSizes(es);
    SnapshotAgrees(snapshot, Run(es).counts, dLow);
  }

  /** On a well-formed trace the three Go gauges count the topics whose true mesh is empty, has
      some peers but fewer than the threshold, or has enough. */
  lemma GaugesAreMeshHealth(es: seq<Event>, dLow: int)
    requires WellFormed(es)
    ensures var h, mesh := HealthOf(Run(es).counts.Keys, Run(es).counts, dLow), Mesh(es);
            && h.noPeers == |set t | t in mesh && mesh[t] == {}|
            && h.lowPeers == |set t | t in mesh && mesh[t] != {} && |mesh[t]| < dLow|
            && h.healthy == |set t | t in mesh && mesh[t] != {} && |mesh[t]| >= dLow|
  {
    CountsAreMeshSizes(es);
    var counts, mesh := Run(es).counts, Mesh(es);
    assert TopicsAt(counts.Keys, counts, dLow, NoPeers) == set t | t in mesh && mesh[t] == {};
    assert TopicsAt(counts.Keys, counts, dLow, LowPeers) == set t | t in mesh && mesh[t] != {} && |mesh[t]| < dLow;
    assert TopicsAt(counts.Keys, counts, dLow, HealthyPeers) ==
           set t | t in mesh && mesh[t] != {} && |mesh[t]| >= dLow;
  }
}
