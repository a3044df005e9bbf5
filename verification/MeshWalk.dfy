/** Specification of the Go tracer's mesh counters: the state after a sequence of events, the
    reflected walk it amounts to, and the true mesh it stands for on well-formed traces. */
module MeshWalk {
  import opened Common

  type Topic = string
  type Peer = string

  datatype Event = Join(topic: Topic) | Leave(topic: Topic) | Graft(peer: Peer, topic: Topic) | Prune(peer: Peer, topic: Topic)

  /** `counts` is the tracer's map, `gauge` the exported per-topic mesh gauge. */
  datatype Counters = Counters(counts: map<Topic, int>, gauge: map<Topic, int>)

  /** One tracer callback. Graft and Prune create an entry for a topic that was never joined,
      Prune does not go below zero, Leave forgets the count but not the gauge. */
  function Step(s: Counters, e: Event): Counters {
    match e
    case Join(t) => if t in s.counts then s else s.(counts := s.counts[t := 0])
    case Leave(t) => s.(counts := s.counts - {t})
    case Graft(_, t) =>
      var n := Get(s.counts, t, 0) + 1;
      Counters(s.counts[t := n], s.gauge[t := n])
    case Prune(_, t) =>
      var n := Get(s.counts, t, 0) - 1;
      var clamped := if n < 0 then 0 else n;
      Counters(s.counts[t := clamped], s.gauge[t := clamped])
  }

  function Run(es: seq<Event>): Counters {
    if es == [] then Counters(map[], map[]) else Step(Run(es[..|es| - 1]), es[|es| - 1])
  }

  lemma RunSnoc(es: seq<Event>, e: Event)
    ensures Run(es + [e]) == Step(Run(es), e)
  {
    assert (es + [e])[..|es|] == es;
  }

  // ----- the reflected walk -----

  /** The events after the last Leave of t. */
  function SinceLeave(es: seq<Event>, t: Topic): seq<Event> {
    if es == [] || es[|es| - 1] == Leave(t) then []
    else SinceLeave(es[..|es| - 1], t) + [es[|es| - 1]]
  }

  function Delta(e: Event, t: Topic): int {
    match e
    case Graft(_, u) => if u == t then 1 else 0
    case Prune(_, u) => if u == t then -1 else 0
    case _ => 0
  }

  /** Grafts minus prunes of t. */
  function Walk(es: seq<Event>, t: Topic): int {
    if es == [] then 0 else Walk(es[..|es| - 1], t) + Delta(es[|es| - 1], t)
  }

  /** low is the least value the walk takes on any prefix, the empty one included. */
  ghost predicate IsLowest(es: seq<Event>, t: Topic, low: int) {
    && (forall k :: 0 <= k <= |es| ==> low <= Walk(es[..k], t))
    && (exists k :: 0 <= k <= |es| && low == Walk(es[..k], t))
  }

  ghost predicate Mentioned(es: seq<Event>, t: Topic) {
    exists k :: 0 <= k < |es| && es[k].topic == t && !es[k].Leave?
  }

  /** Graft or Prune of t. */
  predicate Moves(e: Event, t: Topic) {
    e.topic == t && (e.Graft? || e.Prune?)
  }

  ghost predicate Moved(es: seq<Event>, t: Topic) {
    exists k :: 0 <= k < |es| && Moves(es[k], t)
  }

  lemma WalkOfPrefix(es: seq<Event>, e: Event, t: Topic, k: int)
    requires 0 <= k <= |es|
    ensures Walk((es + [e])[..k], t) == Walk(es[..k], t)
  {
    assert (es + [e])[..k] == es[..k];
  }

  lemma WalkSnoc(es: seq<Event>, e: Event, t: Topic)
    ensures Walk(es + [e], t) == Walk(es, t) + Delta(e, t)
    ensures Walk((es + [e])[..|es| + 1], t) == Walk(es + [e], t)
  {
    assert (es + [e])[..|es|] == es;
    assert (es + [e])[..|es| + 1] == es + [e];
  }

  lemma LowestAfter(es: seq<Event>, e: Event, t: Topic, low: int)
    requires IsLowest(es, t, low)
    ensures IsLowest(es + [e], t, if Walk(es + [e], t) < low then Walk(es + [e], t) else low)
  {
    var longer, after := es + [e], Walk(es + [e], t);
    var low' := if after < low then after else low;
    WalkSnoc(es, e, t);
    forall k | 0 <= k <= |longer| ensures low' <= Walk(longer[..k], t) {
      if k <= |es| {
        WalkOfPrefix(es, e, t, k);
      }
    }
    if low <= after {
      var k :| 0 <= k <= |es| && low == Walk(es[..k], t);
      WalkOfPrefix(es, e, t, k);
      assert low' == Walk(longer[..k], t);
    } else {
      assert low' == Walk(longer[..|longer|], t);
    }
  }

  lemma MentionedAfter(es: seq<Event>, e: Event, t: Topic)
    ensures Mentioned(es + [e], t) <==> Mentioned(es, t) || (e.topic == t && !e.Leave?)
    ensures Moved(es + [e], t) <==> Moved(es, t) || Moves(e, t)
  {
    var longer := es + [e];
    assert longer[|es|] == e;
    assert forall k :: 0 <= k < |es| ==> longer[k] == es[k];
  }

  /** One event moves the count of t by its delta, clamped at zero. */
  lemma CountAfter(s: Counters, e: Event, t: Topic)
    requires e != Leave(t) && Get(s.counts, t, 0) >= 0
    ensures Get(Step(s, e).counts, t, 0) ==
            if Get(s.counts, t, 0) + Delta(e, t) < 0 then 0 else Get(s.counts, t, 0) + Delta(e, t)
    ensures t in Step(s, e).counts <==> t in s.counts || (e.topic == t && !e.Leave?)
  {
  }

  /** For every event sequence, grafts and prunes of unknown topics included: a topic has an
      entry exactly when it was joined, grafted or pruned since its last Leave, and then its
      count is the walk's height above its lowest point. */
  lemma {:induction false} ReflectedWalk(es: seq<Event>, t: Topic) returns (low: int)
    ensures IsLowest(SinceLeave(es, t), t, low)
    ensures t in Run(es).counts <==> Mentioned(SinceLeave(es, t), t)
    ensures Get(Run(es).counts, t, 0) == Walk(SinceLeave(es, t), t) - low
  {
    if es == [] || es[|es| - 1] == Leave(t) {
      low := 0;
      assert SinceLeave(es, t)[..0] == [];
    } else {
      var front, e := es[..|es| - 1], es[|es| - 1];
      var since := SinceLeave(front, t);
      low := ReflectedWalk(front, t);
      assert SinceLeave(es, t) == since + [e];
      LowestAfter(since, e, t, low);
      WalkSnoc(since, e, t);
      MentionedAfter(since, e, t);
      CountAfter(Run(front), e, t);
      var after := Walk(since + [e], t);
      low := if after < low then after else low;
    }
  }

  // ----- the exported per-topic gauge -----

  /** The gauge follows the count of a topic grafted or pruned since its last Leave. Leave does
      not reset it, so otherwise it still shows an earlier value. */
  lemma {:induction false} GaugeFollowsCount(es: seq<Event>, t: Topic)
    ensures Moved(SinceLeave(es, t), t) ==> t in Run(es).gauge && Run(es).gauge[t] == Get(Run(es).counts, t, 0)
    ensures !Moved(SinceLeave(es, t), t) ==> Get(Run(es).counts, t, 0) == 0
  {
    if es != [] && es[|es| - 1] != Leave(t) {
      var front, e := es[..|es| - 1], es[|es| - 1];
      GaugeFollowsCount(front, t);
      MentionedAfter(SinceLeave(front, t), e, t);
    }
  }

  /** The events up to and including the last Graft or Prune of t. */
  function UpToLastMove(es: seq<Event>, t: Topic): seq<Event> {
    if es == [] || Moves(es[|es| - 1], t) then es else UpToLastMove(es[..|es| - 1], t)
  }

  lemma {:induction false} SplitAtLastMove(es: seq<Event>, t: Topic)
    ensures var past := UpToLastMove(es, t);
            && past <= es
            && (past == [] || Moves(past[|past| - 1], t))
            && !Moved(es[|past|..], t)
  {
    if es != [] && !Moves(es[|es| - 1], t) {
      var front := es[..|es| - 1];
      SplitAtLastMove(front, t);
      var past := UpToLastMove(es, t);
      assert past <= es by {
        assert front <= es;
      }
      forall k | 0 <= k < |es| - |past| ensures !Moves(es[|past|..][k], t) {
        assert k < |front| - |past| ==> es[|past|..][k] == front[|past|..][k];
      }
    }
  }

  /** The gauge keeps the count of the last Graft or Prune, whatever happened since. */
  lemma {:induction false} GaugeIsLastMovesCount(es: seq<Event>, t: Topic)
    ensures Get(Run(es).gauge, t, 0) == Get(Run(UpToLastMove(es, t)).counts, t, 0)
  {
    if es != [] && !Moves(es[|es| - 1], t) {
      GaugeIsLastMovesCount(es[..|es| - 1], t);
    }
  }

  /** The exact condition for the exported gauge to be right: t was grafted or pruned since its
      last Leave, or its count was zero when it last was. */
  lemma GaugeIsRightIff(es: seq<Event>, t: Topic)
    ensures Get(Run(es).gauge, t, 0) == Get(Run(es).counts, t, 0)
            <==> Moved(SinceLeave(es, t), t) || Get(Run(UpToLastMove(es, t)).counts, t, 0) == 0
  {
    GaugeFollowsCount(es, t);
    GaugeIsLastMovesCount(es, t);
  }

  lemma GaugeSurvivesLeave(p: Peer, t: Topic)
    ensures Get(Run([Graft(p, t), Leave(t)]).gauge, t, 0) == 1
    ensures t !in Run([Graft(p, t), Leave(t)]).counts
  {
    RunSnoc([], Graft(p, t));
    RunSnoc([Graft(p, t)], Leave(t));
    assert [] + [Graft(p, t)] == [Graft(p, t)];
    assert [Graft(p, t)] + [Leave(t)] == [Graft(p, t), Leave(t)];
  }

  // ----- well-formed traces and the true mesh -----

  function Members(mesh: map<Topic, set<Peer>>, t: Topic): set<Peer> {
    Get(mesh, t, {})
  }

  function MeshStep(mesh: map<Topic, set<Peer>>, e: Event): map<Topic, set<Peer>> {
    match e
    case Join(t) => mesh[t := Members(mesh, t)]
    case Leave(t) => mesh - {t}
    case Graft(p, t) => mesh[t := Members(mesh, t) + {p}]
    case Prune(p, t) => mesh[t := Members(mesh, t) - {p}]
  }

  function Mesh(es: seq<Event>): map<Topic, set<Peer>> {
    if es == [] then map[] else MeshStep(Mesh(es[..|es| - 1]), es[|es| - 1])
  }

  /** Only non-members are grafted and only members are pruned. */
  ghost predicate WellFormed(es: seq<Event>) {
    forall k :: 0 <= k < |es| ==>
      match es[k]
      case Graft(p, t) => p !in Members(Mesh(es[..k]), t)
      case Prune(p, t) => p in Members(Mesh(es[..k]), t)
      case _ => true
  }

  /** Any trace can be continued by any event, as long as a graft adds a new member and a prune
      removes one. */
  lemma WellFormedSnoc(es: seq<Event>, e: Event)
    ensures WellFormed([])
    ensures WellFormed(es + [e]) <==>
            && WellFormed(es)
            && (e.Graft? ==> e.topic !in Mesh(es) || e.peer !in Mesh(es)[e.topic])
            && (e.Prune? ==> e.topic in Mesh(es) && e.peer in Mesh(es)[e.topic])
  {
    var longer := es + [e];
    assert longer[..|es|] == es && longer[|es|] == e;
    assert forall k :: 0 <= k < |es| ==> longer[..k] == es[..k] && longer[k] == es[k];
  }

  lemma WellFormedPrefix(es: seq<Event>, n: nat)
    requires n <= |es| && WellFormed(es)
    ensures WellFormed(es[..n])
  {
    var front := es[..n];
    assert forall k :: 0 <= k < |front| ==> front[..k] == es[..k] && front[k] == es[k];
  }

  /** One well-formed event keeps every count equal to the size of its mesh set. */
  lemma SizeAfter(s: Counters, mesh: map<Topic, set<Peer>>, e: Event, t: Topic)
    requires t in s.counts <==> t in mesh
    requires Get(s.counts, t, 0) == |Members(mesh, t)|
    requires e.Graft? ==> e.peer !in Members(mesh, e.topic)
    requires e.Prune? ==> e.peer in Members(mesh, e.topic)
    ensures t in Step(s, e).counts <==> t in MeshStep(mesh, e)
    ensures Get(Step(s, e).counts, t, 0) == |Members(MeshStep(mesh, e), t)|
  {
  }

  lemma {:induction false} CountIsMeshSize(es: seq<Event>, t: Topic)
    requires WellFormed(es)
    ensures t in Run(es).counts <==> t in Mesh(es)
    ensures Get(Run(es).counts, t, 0) == |Members(Mesh(es), t)|
  {
    if es != [] {
      WellFormedPrefix(es, |es| - 1);
      CountIsMeshSize(es[..|es| - 1], t);
      SizeAfter(Run(es[..|es| - 1]), Mesh(es[..|es| - 1]), es[|es| - 1], t);
    }
  }

  /** On a well-formed trace this means that the mesh was empty after the last Graft or Prune:
      a Leave of a topic with mesh peers leaves the gauge wrong until the next one. */
  lemma GaugeIsRightOnMeshIff(es: seq<Event>, t: Topic)
    requires WellFormed(es)
    ensures Get(Run(es).gauge, t, 0) == |Members(Mesh(es), t)|
            <==> Moved(SinceLeave(es, t), t) || Members(Mesh(UpToLastMove(es, t)), t) == {}
  {
    GaugeIsRightIff(es, t);
    CountIsMeshSize(es, t);
    SplitAtLastMove(es, t);
    WellFormedPrefix(es, |UpToLastMove(es, t)|);
    assert UpToLastMove(es, t) == es[..|UpToLastMove(es, t)|];
    CountIsMeshSize(UpToLastMove(es, t), t);
  }

  /** On a well-formed trace the tracer's map is the size of every mesh set. */
  lemma CountsAreMeshSizes(es: seq<Event>)
    requires WellFormed(es)
    ensures Run(es).counts == map t | t in Mesh(es) :: |Mesh(es)[t]|
  {
    forall t: Topic ensures t in Run(es).counts <==> t in Mesh(es) {
      CountIsMeshSize(es, t);
    }
    forall t | t in Mesh(es) ensures Run(es).counts[t] == |Mesh(es)[t]| {
      CountIsMeshSize(es, t);
    }
  }
}
