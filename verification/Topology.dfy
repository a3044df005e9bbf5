/** The simulator's network graph and host placement, as generated by topogen.py. */
module Topology {
  import opened Common
  import opened Arithmetic

  /** Latency in milliseconds and packet loss of an edge. */
  datatype Link = Link(latency: int, loss: real)

  /** `bandwidth` in Mbit per node. An undirected edge is keyed by its ends in increasing order;
      None is an edge without attributes. */
  datatype Graph = Graph(bandwidth: map<int, int>, edges: map<(int, int), Option<Link>>)

  datatype Range = Range(min: int, max: int)

  /** int((max - min) / steps) for a range the argument parser has accepted. */
  function Jump(r: Range, steps: int): int
    requires r.min <= r.max && steps > 0
  {
    (r.max - r.min) / steps
  }

  function Bandwidth(bandwidth: Range, steps: int, i: int): int
    requires bandwidth.min <= bandwidth.max && steps > 0
  {
    i * Jump(bandwidth, steps) + bandwidth.min
  }

  /** Latency of the edge between stages i <= j. */
  function StageLatency(latency: Range, steps: int, i: int, j: int): int
    requires latency.min <= latency.max && steps > 0
  {
    if i == j then Max((steps - i) * Jump(latency, steps), latency.min)
    else Min((steps - j) * Jump(latency, steps) + latency.min, latency.max)
  }

  /** The complete graph over the stages, without attributes. */
  function CompleteGraph(steps: nat): (edges: map<(int, int), Option<Link>>)
    ensures forall i, j :: (i, j) in edges <==> 0 <= i < j < steps
  {
    map i, j | 0 <= i < steps && i < j < steps :: (i, j) := None
  }

  /** All edges of the first n stages to later stages and to themselves are attributed. */
  ghost predicate RowsSet(edges: map<(int, int), Option<Link>>, latency: Range, steps: int, loss: real, n: int)
    requires latency.min <= latency.max && steps > 0
  {
    && (forall i, j :: (i, j) in edges <==> 0 <= i <= j < steps && (i < j || i < n))
    && (forall i, j :: 0 <= i <= j < steps && i < n ==>
          edges[(i, j)] == Some(Link(StageLatency(latency, steps, i, j), loss)))
  }

  /** The body of the loop over stages: the self-loop, then the edges to later stages. */
  method SetRow(edges: map<(int, int), Option<Link>>, latency: Range, steps: int, jump: int, loss: real, i: int)
    returns (r: map<(int, int), Option<Link>>)
    requires latency.min <= latency.max && 0 <= i < steps && jump == Jump(latency, steps)
    requires RowsSet(edges, latency, steps, loss, i)
    ensures RowsSet(r, latency, steps, loss, i + 1)
  {
    r := edges[(i, i) := Some(Link(Max((steps - i) * jump, latency.min), loss))];
    assert r[(i, i)] == Some(Link(StageLatency(latency, steps, i, i), loss));
    for j := i + 1 to steps
      invariant r.Keys == edges.Keys + {(i, i)}
      invariant forall k, l :: 0 <= k <= l < steps && k < i ==> r[(k, l)] == edges[(k, l)]
      invariant forall l :: i <= l < j ==> r[(i, l)] == Some(Link(StageLatency(latency, steps, i, l), loss))
    {
      r := r[(i, j) := Some(Link(Min((steps - j) * jump + latency.min, latency.max), loss))];
    }
    forall k, l ensures (k, l) in r <==> 0 <= k <= l < steps && (k < l || k < i + 1) {
      assert (k, l) in r.Keys <==> (k, l) in edges.Keys || (k, l) == (i, i);
    }
  }

  /** The first n stages have their bandwidth. */
  ghost predicate NodesSet(nodes: map<int, int>, bandwidth: Range, steps: int, n: int)
    requires bandwidth.min <= bandwidth.max && steps > 0
  {
    && (forall k :: k in nodes <==> 0 <= k < n)
    && (forall k :: 0 <= k < n ==> nodes[k] == Bandwidth(bandwidth, steps, k))
  }

  lemma NodeSet(nodes: map<int, int>, bandwidth: Range, steps: int, i: nat, jump: int)
    requires bandwidth.min <= bandwidth.max && steps > 0 && jump == Jump(bandwidth, steps)
    requires NodesSet(nodes, bandwidth, steps, i)
    ensures NodesSet(nodes[i := i * jump + bandwidth.min], bandwidth, steps, i + 1)
  {
  }

  lemma NoRowSet(latency: Range, steps: int, loss: real)
    requires latency.min <= latency.max && steps > 0
    ensures RowsSet(CompleteGraph(steps), latency, steps, loss, 0)
  {
  }

  method BuildStages(steps: nat, bandwidth: Range, latency: Range, loss: real)
    returns (nodes: map<int, int>, edges: map<(int, int), Option<Link>>)
    requires steps > 0 && bandwidth.min <= bandwidth.max && latency.min <= latency.max
    ensures NodesSet(nodes, bandwidth, steps, steps) && RowsSet(edges, latency, steps, loss, steps)
  {
    var bandwidthJump, latencyJump := Jump(bandwidth, steps), Jump(latency, steps);
    nodes, edges := map[], CompleteGraph(steps);
    NoRowSet(latency, steps, loss);
    for i := 0 to steps
      invariant NodesSet(nodes, bandwidth, steps, i) && RowsSet(edges, latency, steps, loss, i)
    {
      NodeSet(nodes, bandwidth, steps, i, bandwidthJump);
      nodes := nodes[i := i * bandwidthJump + bandwidth.min];
      edges := SetRow(edges, latency, steps, latencyJump, loss, i);
    }
  }

  /** The fast node of the message injector, linked to every stage and to itself. */
  method AddInjector(edges: map<(int, int), Option<Link>>, steps: int) returns (r: map<(int, int), Option<Link>>)
    requires steps > 0 && forall i, j :: (i, j) in edges <==> 0 <= i <= j < steps
    ensures forall i, j :: (i, j) in r <==> 0 <= i <= j <= steps
    ensures forall i, j :: 0 <= i <= j < steps ==> r[(i, j)] == edges[(i, j)]
    ensures forall i :: 0 <= i <= steps ==> r[(i, steps)] == Some(Link(1, 0.0))
  {
    r := edges;
    for i := 0 to steps + 1
      invariant forall k, j :: (k, j) in r <==> (0 <= k <= j < steps || (j == steps && 0 <= k < i))
      invariant forall k, j :: 0 <= k <= j < steps ==> r[(k, j)] == edges[(k, j)]
      invariant forall k :: 0 <= k < i ==> r[(k, steps)] == Some(Link(1, 0.0))
    {
      r := r[(i, steps) := Some(Link(1, 0.0))];
    }
  }

  /** create_network_topology. A step count of zero divides by zero, and there is no complete
      graph with a negative number of nodes. */
  method CreateNetworkTopology(steps: int, bandwidth: Range, latency: Range, loss: real) returns (r: Option<Graph>)
    requires bandwidth.min <= bandwidth.max && latency.min <= latency.max
    ensures r.None? <==> steps <= 0
    ensures steps > 0 ==>
              var g := r.value;
              && (forall i :: i in g.bandwidth <==> 0 <= i <= steps)
              && (forall i :: 0 <= i < steps ==> g.bandwidth[i] == Bandwidth(bandwidth, steps, i))
              && g.bandwidth[steps] == 100
              && (forall i, j :: (i, j) in g.edges <==> 0 <= i <= j <= steps)
              && (forall i, j :: 0 <= i <= j < steps ==>
                    g.edges[(i, j)] == Some(Link(StageLatency(latency, steps, i, j), loss)))
              && (forall i :: 0 <= i <= steps ==> g.edges[(i, steps)] == Some(Link(1, 0.0)))
  {
    if steps <= 0 {
      return None;
    }
    var nodes, edges := BuildStages(steps, bandwidth, latency, loss);
    nodes := nodes[steps := 100];
    edges := AddInjector(edges, steps);
    r := Some(Graph(nodes, edges));
  }

  // ----- what the formulas guarantee -----

  /** The attributes in terms of the script's arguments. */
  lemma StageFormulas(bandwidth: Range, latency: Range, steps: int, i: int, j: int)
    requires bandwidth.min <= bandwidth.max && latency.min <= latency.max && 0 <= i < steps
    ensures Bandwidth(bandwidth, steps, i) == bandwidth.min + i * ((bandwidth.max - bandwidth.min) / steps)
    ensures i < j < steps ==>
              StageLatency(latency, steps, i, j) ==
              Min(latency.max, latency.min + (steps - j) * ((latency.max - latency.min) / steps))
    ensures StageLatency(latency, steps, i, i) ==
            Max(latency.min, (steps - i) * ((latency.max - latency.min) / steps))
  {
  }

  lemma JumpFits(r: Range, steps: int)
    requires r.min <= r.max && steps > 0
    ensures 0 <= Jump(r, steps)
    ensures steps * Jump(r, steps) <= r.max - r.min
  {
  }

  lemma Scaled(jump: nat, a: nat, b: nat)
    requires a <= b
    ensures 0 <= a * jump <= b * jump
  {
  }

  /** Bandwidths stay in the range and do not decrease with the stage. */
  lemma BandwidthInRange(bandwidth: Range, steps: int, i: int, i': int)
    requires bandwidth.min <= bandwidth.max && 0 <= i <= i' < steps
    ensures bandwidth.min <= Bandwidth(bandwidth, steps, i) <= Bandwidth(bandwidth, steps, i') <= bandwidth.max
  {
    JumpFits(bandwidth, steps);
    Scaled(Jump(bandwidth, steps), i, i');
    Scaled(Jump(bandwidth, steps), i', steps);
  }

  /** Latencies stay in the range; between different stages they depend on the larger index only
      and do not increase with it. */
  lemma LatencyInRange(latency: Range, steps: int, i: int, j: int, i': int, j': int)
    requires 0 <= latency.min <= latency.max && 0 <= i <= j < steps && 0 <= i' < j' < steps
    ensures latency.min <= StageLatency(latency, steps, i, j) <= latency.max
    ensures i < j <= j' ==> StageLatency(latency, steps, i, j) >= StageLatency(latency, steps, i', j')
  {
    JumpFits(latency, steps);
    Scaled(Jump(latency, steps), steps - j, steps);
    Scaled(Jump(latency, steps), steps - i, steps);
    if j <= j' {
      Scaled(Jump(latency, steps), steps - j', steps - j);
    }
  }

  function Pairs(n: int): set<(int, int)> {
    set i, j | 0 <= i <= n && i <= j <= n :: (i, j)
  }

  function Column(n: int, i: int): set<(int, int)> {
    set k | 0 <= k < i :: (k, n)
  }

  lemma {:induction false} ColumnSize(n: int, i: nat)
    ensures |Column(n, i)| == i
  {
    if i > 0 {
      ColumnSize(n, i - 1);
      assert Column(n, i) == Column(n, i - 1) + {(i - 1, n)};
    } else {
      assert Column(n, i) == {};
    }
  }

  /** Number of unordered pairs, self-loops included, over the nodes 0..n. */
  lemma {:induction false} PairCount(n: nat)
    ensures 2 * |Pairs(n)| == (n + 1) * (n + 2)
  {
    ColumnSize(n, n + 1);
    if n == 0 {
      assert Pairs(0) == {(0, 0)};
    } else {
      PairCount(n - 1);
      assert Pairs(n) == Pairs(n - 1) + Column(n, n + 1);
      assert (n + 1) * (n + 2) == n * (n + 1) + 2 * (n + 1);
    }
  }

  /** The generated graph has one attributed edge for every pair. */
  lemma EdgeCount(g: Graph, steps: nat)
    requires forall i, j :: (i, j) in g.edges <==> 0 <= i <= j <= steps
    ensures 2 * |g.edges| == (steps + 1) * (steps + 2)
  {
    PairCount(steps);
    assert g.edges.Keys == Pairs(steps) by {
      forall e: (int, int) ensures e in g.edges.Keys <==> e in Pairs(steps) {
        var (i, j) := e;
        assert (i, j) in g.edges <==> (i, j) in Pairs(steps);
      }
    }
    assert |g.edges| == |g.edges.Keys|;
  }

  // ----- hosts -----

  /** A simulated host and the graph node it is attached to. */
  datatype Host = Pod(node: int) | Controller(node: int)

  /** One host for every stage or network pod, on stage i mod steps, and the controller. */
  ghost predicate Configured(hosts: map<int, Host>, steps: int, networkSize: int) {
    && steps > 0
    && (forall i :: i in hosts <==> 0 <= i < Max(steps, networkSize) || i == networkSize)
    && (forall i | 0 <= i < Max(steps, networkSize) && i != networkSize :: hosts[i] == Pod(i % steps))
    && hosts[networkSize] == Controller(steps)
  }

  /** The first n pods, each on its stage. */
  ghost predicate PodsUpTo(hosts: map<int, Host>, steps: int, n: int)
    requires steps > 0
  {
    && (forall k :: k in hosts <==> 0 <= k < n)
    && (forall k :: 0 <= k < n ==> hosts[k] == Pod(k % steps))
  }

  /** create_shadow_config: hosts by pod number. One template per stage, then the remaining pods,
      then the publish controller under the number `networkSize`. */
  method CreateShadowConfig(steps: int, networkSize: int) returns (r: Option<map<int, Host>>)
    ensures r.None? <==> steps <= 0 && steps < networkSize
    ensures steps > 0 ==> Configured(r.value, steps, networkSize)
  {
    var hosts: map<int, Host> := map[];
    var i := 0;
    while i < steps
      invariant 0 <= i && (steps > 0 ==> i <= steps)
      invariant steps > 0 ==> PodsUpTo(hosts, steps, i)
    {
      DivisionIsUnique(i, steps, 0, i);
      hosts := hosts[i := Pod(i)];
      i := i + 1;
    }
    i := steps;
    while i < networkSize
      invariant steps <= i <= Max(steps, networkSize)
      invariant steps > 0 ==> PodsUpTo(hosts, steps, i)
      invariant steps <= 0 ==> i == steps
    {
      if steps <= 0 {
        return None;  // no template to look up
      }
      hosts := hosts[i := Pod(i % steps)];
      i := i + 1;
    }
    hosts := hosts[networkSize := Controller(steps)];
    r := Some(hosts);
  }

  /** The configuration holds the intended pods and the controller and nothing else exactly when
      there are at most networkSize + 1 stages; the controller is alone on the injector node. */
  lemma HostsAreIntendedIff(hosts: map<int, Host>, steps: nat, networkSize: nat)
    requires Configured(hosts, steps, networkSize)
    ensures (forall i :: i in hosts <==> 0 <= i <= networkSize) <==> steps <= networkSize + 1
    ensures forall i :: i in hosts && hosts[i].node == steps <==> i == networkSize
    ensures forall i :: i in hosts ==> 0 <= hosts[i].node <= steps
  {
    if steps > networkSize + 1 {
      assert networkSize + 1 in hosts;
    }
  }

  function OnStage(steps: nat, n: nat, stage: nat): set<int>
    requires steps > 0
  {
    set i | 0 <= i < n && i % steps == stage
  }

  /** The first n pods are spread evenly: stages below n mod steps carry one more. */
  lemma {:induction false} StagesAreBalanced(steps: nat, n: nat, stage: nat)
    requires stage < steps
    ensures |OnStage(steps, n, stage)| == n / steps + if stage < n % steps then 1 else 0
  {
    if n == 0 {
      assert OnStage(steps, 0, stage) == {};
      DivisionIsUnique(0, steps, 0, 0);
    } else {
      StagesAreBalanced(steps, n - 1, stage);
      assert OnStage(steps, n, stage) ==
             OnStage(steps, n - 1, stage) + if (n - 1) % steps == stage then {n - 1} else {};
      NextQuotient(n - 1, steps);
    }
  }

  /** The pods of a configuration on one stage: floor or ceiling of networkSize / steps. */
  lemma PodsPerStage(hosts: map<int, Host>, steps: nat, networkSize: nat, stage: nat)
    requires Configured(hosts, steps, networkSize) && steps <= networkSize && stage < steps
    ensures var pods := set i | i in hosts && hosts[i].node == stage;
            |pods| == networkSize / steps + if stage < networkSize % steps then 1 else 0
  {
    StagesAreBalanced(steps, networkSize, stage);
    assert (set i | i in hosts && hosts[i].node == stage) == OnStage(steps, networkSize, stage);
  }
}
