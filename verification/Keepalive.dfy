/** The regression node's keepalive sweep and ping loop. Times are milliseconds. */
module Keepalive {
  import opened Common
  import opened Arithmetic

  type Peer = string

  const PING_INTERVAL: nat := 12000
  const PING_BATCH: nat := 16
  const PING_BATCH_GAP: nat := 200
  const IDLE_TIMEOUT: nat := 30000

  datatype Ping = Ping(peer: Peer, start: int)

  /** Number of batches a sweep over n peers needs. */
  function Batches(n: nat): nat {
    (n + 15) / 16
  }

  /** Index of the first peer of a batch. */
  function BatchStart(batch: nat): nat {
    16 * batch
  }

  /** There is another batch exactly while peers are left. */
  lemma AnotherBatch(n: nat, batch: nat)
    ensures BatchStart(batch) < n <==> batch < Batches(n)
  {
  }

  /** Index of the batch that pings peer j. */
  function BatchOf(j: nat): nat {
    j / 16
  }

  /** Time from the start of a sweep to the start of batch b, when batch i takes duration(i). */
  function Offset(duration: nat -> nat, b: nat): nat {
    if b == 0 then 0 else Offset(duration, b - 1) + duration(b - 1) + PING_BATCH_GAP
  }

  /** The first n pings of a sweep that starts at t. */
  function Pings(peers: seq<Peer>, t: int, duration: nat -> nat, n: nat): (ps: seq<Ping>)
    requires n <= |peers|
    ensures |ps| == n
  {
    seq(n, j requires 0 <= j < n => Ping(peers[j], t + Offset(duration, BatchOf(j))))
  }

  /** When a complete sweep over n peers that starts at t ends. */
  function SweepEnd(n: nat, t: int, duration: nat -> nat): int {
    if n == 0 then t else t + Offset(duration, Batches(n) - 1) + duration(Batches(n) - 1)
  }

  function Others(connected: seq<Peer>, self: Peer): seq<Peer> {
    if connected == [] then []
    else Others(connected[..|connected| - 1], self) +
         if connected[|connected| - 1] == self then [] else [connected[|connected| - 1]]
  }

  /** index tells where the peers of a list come from: all connections but self, in order. */
  ghost predicate Selects(index: seq<nat>, connected: seq<Peer>, self: Peer, peers: seq<Peer>) {
    && |index| == |peers|
    && (forall j, j' :: 0 <= j < j' < |index| ==> index[j] < index[j'])
    && (forall j :: 0 <= j < |index| ==> index[j] < |connected| && peers[j] == connected[index[j]])
    && (forall i: nat :: i in index <==> i < |connected| && connected[i] != self)
  }

  lemma SelectsOneMore(index: seq<nat>, connected: seq<Peer>, self: Peer, peers: seq<Peer>, last: Peer)
    requires Selects(index, connected, self, peers)
    ensures last == self ==> Selects(index, connected + [last], self, peers)
    ensures last != self ==> Selects(index + [|connected|], connected + [last], self, peers + [last])
  {
    if last != self {
      var longer := index + [|connected|];
      forall i: nat ensures i in longer <==> i in index || i == |connected| {
      }
    }
  }

  /** Every other connection once for each time it occurs, none but those, and in their order. */
  lemma {:induction false} OthersInOrder(connected: seq<Peer>, self: Peer) returns (index: seq<nat>)
    ensures Selects(index, connected, self, Others(connected, self))
  {
    index := [];
    if connected != [] {
      var front, last := connected[..|connected| - 1], connected[|connected| - 1];
      index := OthersInOrder(front, self);
      SelectsOneMore(index, front, self, Others(front, self), last);
      assert connected == front + [last];
      if last != self {
        index := index + [|front|];
      }
    }
  }

  lemma {:induction false} OthersAreCounted(connected: seq<Peer>, self: Peer, p: Peer)
    ensures multiset(Others(connected, self))[p] == if p == self then 0 else multiset(connected)[p]
  {
    if connected != [] {
      var last := |connected| - 1;
      OthersAreCounted(connected[..last], self, p);
      assert connected == connected[..last] + [connected[last]];
    }
  }

  /** The connected peers without the node itself. */
  method OtherPeers(connected: seq<Peer>, self: Peer) returns (peers: seq<Peer>)
    ensures peers == Others(connected, self)
  {
    peers := [];
    for n := 0 to |connected|
      invariant peers == Others(connected[..n], self)
    {
      assert connected[..n + 1][..n] == connected[..n];
      if connected[n] != self {
        peers := peers + [connected[n]];
      }
    }
    assert connected[..|connected|] == connected;
  }

  /** The pings of the peers from i up to end, all started at once. */
  function OneBatch(peers: seq<Peer>, start: int, i: nat, end: nat): seq<Ping>
    requires i <= end <= |peers|
  {
    seq(end - i, j requires 0 <= j < end - i => Ping(peers[i + j], start))
  }

  /** Number of peers in the first batches of a sweep over n. */
  function PeersIn(batches: nat, n: nat): nat {
    Min(BatchStart(batches), n)
  }

  /** Starting a batch extends the pings of the sweep. */
  lemma NextBatch(peers: seq<Peer>, t: int, duration: nat -> nat, batch: nat, start: int, i: nat, end: nat)
    requires i == BatchStart(batch) < |peers| && end == PeersIn(batch + 1, |peers|)
    requires start == t + Offset(duration, batch)
    ensures Pings(peers, t, duration, PeersIn(batch, |peers|)) + OneBatch(peers, start, i, end) ==
            Pings(peers, t, duration, PeersIn(batch + 1, |peers|))
  {
    assert forall j :: i <= j < end ==> BatchOf(j) == batch;
  }

  /** The peers of every sweep, the start of the first one and the durations of the batches. */
  datatype Schedule = Schedule(peers: nat -> seq<Peer>, first: int, duration: nat -> nat -> nat)

  function LoopSchedule(connected: nat -> seq<Peer>, self: Peer, first: int, duration: nat -> nat -> nat): Schedule {
    Schedule((r: nat) => Others(connected(r), self), first, duration)
  }

  /** When sweep r of the ping loop starts. */
  function SweepStart(s: Schedule, r: nat): int {
    if r == 0 then s.first
    else SweepEnd(|s.peers(r - 1)|, SweepStart(s, r - 1), s.duration(r - 1)) + PING_INTERVAL
  }

  /** ps are the first pings of sweep r. */
  ghost predicate BeginsSweep(ps: seq<Ping>, s: Schedule, r: nat) {
    && |ps| <= |s.peers(r)|
    && ps == Pings(s.peers(r), SweepStart(s, r), s.duration(r), |ps|)
  }

  /** Every recorded sweep pings the peers of that sweep from the first on, and the first n of
      the recorded sweeps are complete. */
  ghost predicate AreSweeps(sweeps: seq<seq<Ping>>, n: int, s: Schedule) {
    forall q {:trigger sweeps[q]} :: 0 <= q < |sweeps| ==>
      BeginsSweep(sweeps[q], s, q) && (q < n ==> |sweeps[q]| == |s.peers(q)|)
  }

  lemma SweepsGrow(prior: seq<seq<Ping>>, sweeps: seq<seq<Ping>>, n: nat, s: Schedule)
    requires n == |prior| && |sweeps| == n + 1 && sweeps[..n] == prior
    requires AreSweeps(prior, n, s) && BeginsSweep(sweeps[n], s, n)
    ensures AreSweeps(sweeps, n, s)
    ensures |sweeps[n]| == |s.peers(n)| ==> AreSweeps(sweeps, n + 1, s)
  {
    assert forall q :: 0 <= q < n ==> sweeps[q] == prior[q];
  }

  /** notePublishingStarted sets the flag and nothing clears it. */
  ghost predicate NeverReset(started: nat -> nat -> bool) {
    forall r: nat, r': nat, b: nat :: r' == r + 1 && started(r)(b) ==> started(r')(0)
  }

  class KeepaliveLoop {
    var now: int
    var sweeps: seq<seq<Ping>>   // pings of every sweep so far

    constructor (now: int)
      ensures this.now == now && sweeps == []
    {
      this.now, sweeps := now, [];
    }

    /** pingAllOnce. `started(b)` is the messagesStarted flag as read before batch b and
        duration(b) how long the batch's futures take; both come from outside. The batch that
        was about to start when the flag was seen is returned, or the number of batches. */
    method PingAllOnce(connected: seq<Peer>, self: Peer, started: nat -> bool, duration: nat -> nat)
      returns (batch: nat)
      modifies this
      ensures var peers := Others(connected, self);
              && batch <= (|peers| + 15) / 16
              && (forall b: nat :: b < batch ==> !started(b))
              && (batch < (|peers| + 15) / 16 ==> started(batch))
              && sweeps == old(sweeps) + [Pings(peers, old(now), duration, Min(16 * batch, |peers|))]
              && (batch == (|peers| + 15) / 16 ==> now == SweepEnd(|peers|, old(now), duration))
    {
      var peers := OtherPeers(connected, self);
      var pings: seq<Ping> := [];
      batch := 0;
      var i := 0;
      while i < |peers|
        invariant i == BatchStart(batch) && batch <= Batches(|peers|)
        invariant forall b: nat :: b < batch ==> !started(b)
        invariant pings == Pings(peers, old(now), duration, PeersIn(batch, |peers|))
        invariant sweeps == old(sweeps)
        invariant i < |peers| ==> now == old(now) + Offset(duration, batch)
        invariant i >= |peers| ==> now == SweepEnd(|peers|, old(now), duration)
      {
        AnotherBatch(|peers|, batch);
        if started(batch) {
          sweeps := sweeps + [pings];
          return;
        }
        var end := Min(i + PING_BATCH, |peers|);
        NextBatch(peers, old(now), duration, batch, now, i, end);
        pings := pings + OneBatch(peers, now, i, end);
        now := now + duration(batch);
        i := i + PING_BATCH;
        AnotherBatch(|peers|, batch + 1);
        if i < |peers| {
          now := now + PING_BATCH_GAP;
        }
        batch := batch + 1;
      }
      sweeps := sweeps + [pings];
    }

    /** The body of pingLoop: sweep r, after sweeps that were all complete. */
    method SweepAndSleep(ghost schedule: Schedule, connected: seq<Peer>, self: Peer, r: nat,
                         started: nat -> nat -> bool, duration: nat -> nat)
      returns (ghost full: nat)
      requires Others(connected, self) == schedule.peers(r) && duration == schedule.duration(r)
      requires NeverReset(started) && |sweeps| == r
      requires AreSweeps(sweeps, r, schedule) && now == SweepStart(schedule, r)
      modifies this
      ensures |sweeps| == r + 1 && r <= full <= r + 1 && AreSweeps(sweeps, full, schedule)
      ensures !started(r + 1)(0) ==> full == r + 1 && now == SweepStart(schedule, full)
    {
      ghost var prior, peers := sweeps, Others(connected, self);
      var batch := PingAllOnce(connected, self, started(r), duration);
      AnotherBatch(|peers|, batch);
      SweepsGrow(prior, sweeps, r, schedule);
      now := now + PING_INTERVAL;
      full := if batch == Batches(|peers|) then r + 1 else r;
    }

    /** pingLoop, watched for at most `rounds` sweeps. The connections are read anew for every
        sweep: connected(r) is what sweep r finds. started(r)(b) is the flag before batch b of
        sweep r; nothing suspends between the loop test and the test before the first batch, so
        both read started(r)(0). All sweeps are complete but perhaps the last. */
    method PingLoop(connected: nat -> seq<Peer>, self: Peer, stagger: nat, rounds: nat,
                    started: nat -> nat -> bool, duration: nat -> nat -> nat)
      returns (ghost full: nat)
      requires sweeps == [] && NeverReset(started)
      modifies this
      ensures |sweeps| <= rounds
      ensures |sweeps| < rounds ==> started(|sweeps|)(0)
      ensures forall r :: 0 <= r < |sweeps| ==> !started(r)(0)
      ensures |sweeps| - 1 <= full <= |sweeps|
      ensures AreSweeps(sweeps, full, LoopSchedule(connected, self, old(now) + stagger, duration))
    {
      ghost var schedule := LoopSchedule(connected, self, now + stagger, duration);
      now := now + stagger;
      var r := 0;
      full := 0;
      while r < rounds && !started(r)(0)
        invariant r <= rounds && |sweeps| == r && r - 1 <= full <= r
        invariant forall q :: 0 <= q < r ==> !started(q)(0)
        invariant AreSweeps(sweeps, full, schedule)
        invariant !started(r)(0) ==> full == r && now == SweepStart(schedule, full)
      {
        full := SweepAndSleep(schedule, connected(r), self, r, started, duration(r));
        r := r + 1;
      }
    }
  }

  /** All pings of sweep r. */
  function SweepPings(s: Schedule, r: nat): (ps: seq<Ping>)
    ensures |ps| == |s.peers(r)|
  {
    Pings(s.peers(r), SweepStart(s, r), s.duration(r), |s.peers(r)|)
  }

  /** With distinct connections a full sweep pings each of them once, the node itself excepted,
      in the order of the list. */
  lemma SweepPingsEachOnce(connected: seq<Peer>, self: Peer, t: int, duration: nat -> nat) returns (index: seq<nat>)
    requires forall i, j :: 0 <= i < j < |connected| ==> connected[i] != connected[j]
    ensures var ps := Pings(Others(connected, self), t, duration, |Others(connected, self)|);
            && |ps| == |index|
            && (forall j, j' :: 0 <= j < j' < |index| ==> index[j] < index[j'] && ps[j].peer != ps[j'].peer)
            && (forall i: nat :: i in index <==> i < |connected| && connected[i] != self)
            && (forall j :: 0 <= j < |index| ==> index[j] < |connected| && ps[j].peer == connected[index[j]])
  {
    index := OthersInOrder(connected, self);
  }

  /** When the pings of a sweep start: the first sixteen at once, each later one 200 ms after the
      batch sixteen places before it is over. */
  lemma PingStarts(peers: seq<Peer>, t: int, duration: nat -> nat, j: nat)
    requires j < |peers|
    ensures var ps := Pings(peers, t, duration, |peers|);
            ps[j].start == if j < 16 then t else ps[j - 16].start + duration(j / 16 - 1) + 200
  {
    if j >= 16 {
      assert BatchOf(j) == BatchOf(j - 16) + 1;
    }
  }

  /** The first sweep starts at the given moment and every other one 12 s after the last batch of
      the sweep before it. */
  lemma SweepsStart(s: Schedule, r: nat)
    ensures SweepStart(s, 0) == s.first
    ensures var ps := SweepPings(s, r);
            SweepStart(s, r + 1) == 12000 +
              if ps == [] then SweepStart(s, r) else ps[|ps| - 1].start + s.duration(r)((|ps| - 1) / 16)
  {
  }

  lemma {:induction false} OffsetGrows(duration: nat -> nat, b: nat, b': nat)
    requires b <= b'
    ensures Offset(duration, b') >= Offset(duration, b)
  {
    if b < b' {
      OffsetGrows(duration, b, b' - 1);
    }
  }

  /** A full sweep pings every peer of the list once, in order. At most PING_BATCH pings share a
      batch, and a batch starts only after the ones before it are over and the gap has passed. */
  lemma SweepIsInOrder(peers: seq<Peer>, t: int, duration: nat -> nat, j: nat, j': nat)
    requires j < j' < |peers|
    ensures var ps := Pings(peers, t, duration, |peers|);
            && ps[j].peer == peers[j]
            && BatchOf(j) <= BatchOf(j') < Batches(|peers|)
            && (BatchOf(j) == BatchOf(j') ==> j' - j < PING_BATCH && ps[j].start == ps[j'].start)
            && (BatchOf(j) < BatchOf(j') ==>
                  ps[j'].start >= ps[j].start + duration(BatchOf(j)) + PING_BATCH_GAP)
  {
    if BatchOf(j) < BatchOf(j') {
      OffsetGrows(duration, BatchOf(j) + 1, BatchOf(j'));
    }
  }

  // ----- the gap between two pings of one peer -----

  ghost predicate BatchesWithin(duration: nat -> nat, bound: nat) {
    forall b :: duration(b) <= bound
  }

  /** The longest gap with k batches between the starts of two pings: the interval, the batches
      and the pauses between them. */
  function WorstGap(k: nat, bound: nat): int {
    PING_INTERVAL + k * bound + (k - 1) * PING_BATCH_GAP
  }

  lemma {:induction false} OffsetBound(duration: nat -> nat, bound: nat, b: nat, b': nat)
    requires BatchesWithin(duration, bound) && b <= b'
    ensures Offset(duration, b') - Offset(duration, b) <= (b' - b) * bound + (b' - b) * PING_BATCH_GAP
  {
    if b < b' {
      OffsetBound(duration, bound, b, b' - 1);
      assert (b' - b) * bound == (b' - 1 - b) * bound + bound;
    }
  }

  /** Gap between the start of ping j of a sweep over n peers and ping j' of the next sweep. */
  function Gap(n: nat, j: nat, j': nat, duration: nat -> nat, next: nat -> nat): int {
    SweepEnd(n, 0, duration) + PING_INTERVAL + Offset(next, BatchOf(j')) - Offset(duration, BatchOf(j))
  }

  /** How many batches start from that of ping j up to, but not including, that of ping j'. */
  function BatchesBetween(n: nat, j: nat, j': nat): nat
    requires j < n
  {
    Batches(n) - BatchOf(j) + BatchOf(j')
  }

  lemma ThreeParts(k: int, b: int, b': int, bound: int)
    ensures (k - 1 - b) * bound + b' * bound + bound == (k - b + b') * bound
  {
  }

  lemma GapBound(n: nat, j: nat, j': nat, duration: nat -> nat, next: nat -> nat, bound: nat)
    requires j < n && BatchesWithin(duration, bound) && BatchesWithin(next, bound)
    ensures Gap(n, j, j', duration, next) <= WorstGap(BatchesBetween(n, j, j'), bound)
  {
    var k, b := Batches(n), BatchOf(j);
    OffsetBound(duration, bound, b, k - 1);
    OffsetBound(next, bound, 0, BatchOf(j'));
    assert duration(k - 1) <= bound;
    ThreeParts(k, b, BatchOf(j'), bound);
  }

  /** Two successive pings of one peer by the loop start at most the worst gap apart, wherever
      the peer stands in the two lists of connections. */
  lemma LoopPingsStayClose(s: Schedule, r: nat, j: nat, j': nat, bound: nat)
    requires j < |s.peers(r)| && j' < |s.peers(r + 1)| && s.peers(r)[j] == s.peers(r + 1)[j']
    requires BatchesWithin(s.duration(r), bound) && BatchesWithin(s.duration(r + 1), bound)
    ensures var ping, next := SweepPings(s, r)[j], SweepPings(s, r + 1)[j'];
            && ping.peer == next.peer
            && next.start - ping.start == Gap(|s.peers(r)|, j, j', s.duration(r), s.duration(r + 1))
            && next.start - ping.start <= WorstGap(BatchesBetween(|s.peers(r)|, j, j'), bound)
  {
    GapBound(|s.peers(r)|, j, j', s.duration(r), s.duration(r + 1), bound);
  }

  lemma {:induction false} OffsetAtBound(bound: nat, b: nat)
    ensures Offset(_ => bound, b) == b * bound + b * PING_BATCH_GAP
  {
    if b > 0 {
      OffsetAtBound(bound, b - 1);
      assert b * bound == (b - 1) * bound + bound;
    }
  }

  /** The bound is attained when every batch takes as long as it may. */
  lemma GapIsAttained(n: nat, j: nat, bound: nat)
    requires n > 0
    ensures Gap(n, 0, j, _ => bound, _ => bound) == WorstGap(BatchesBetween(n, 0, j), bound)
  {
    OffsetAtBound(bound, Batches(n) - 1);
    OffsetAtBound(bound, BatchOf(j));
    ThreeParts(Batches(n), 0, BatchOf(j), bound);
  }

  /** No connection goes idle, whatever the batches do within the bound, while the list of n
      connections stays as it is. */
  ghost predicate NeverIdle(n: nat, bound: nat) {
    forall j: nat, duration, next | j < n && BatchesWithin(duration, bound) && BatchesWithin(next, bound) ::
      Gap(n, j, j, duration, next) < IDLE_TIMEOUT
  }

  /** The worst gap decides: it is attained, so the guarantee holds exactly when it fits. */
  lemma NeverIdleIff(n: nat, bound: nat)
    requires n > 0
    ensures NeverIdle(n, bound) <==> 12000 + (n + 15) / 16 * bound + ((n + 15) / 16 - 1) * 200 < 30000
  {
    if WorstGap(Batches(n), bound) < IDLE_TIMEOUT {
      forall j: nat, duration, next | j < n && BatchesWithin(duration, bound) && BatchesWithin(next, bound)
        ensures Gap(n, j, j, duration, next) < IDLE_TIMEOUT
      {
        GapBound(n, j, j, duration, next, bound);
      }
    } else {
      GapIsAttained(n, 0, bound);
      var slow: nat -> nat := _ => bound;
      assert BatchesWithin(slow, bound);
    }
  }

  /** No connection goes idle although the list may change between two sweeps: there are never
      more than n connections, and one that stays can move to any position. */
  ghost predicate NeverIdleUnderChange(n: nat, bound: nat) {
    forall len: nat, j: nat, j': nat, duration, next
      | j < len <= n && j' < n && BatchesWithin(duration, bound) && BatchesWithin(next, bound) ::
      Gap(len, j, j', duration, next) < IDLE_TIMEOUT
  }

  lemma WorstGapGrows(k: nat, k': nat, bound: nat)
    requires k <= k'
    ensures WorstGap(k, bound) <= WorstGap(k', bound)
  {
    MonotoneProduct(bound, k, k');
  }

  /** A connection that moves from the first batch to the last waits for almost two sweeps. */
  lemma NeverIdleUnderChangeIff(n: nat, bound: nat)
    requires n > 0
    ensures NeverIdleUnderChange(n, bound) <==>
            12000 + (2 * ((n + 15) / 16) - 1) * bound + (2 * ((n + 15) / 16) - 2) * 200 < 30000
  {
    if WorstGap(2 * Batches(n) - 1, bound) < IDLE_TIMEOUT {
      forall len: nat, j: nat, j': nat, duration, next
        | j < len <= n && j' < n && BatchesWithin(duration, bound) && BatchesWithin(next, bound)
        ensures Gap(len, j, j', duration, next) < IDLE_TIMEOUT
      {
        GapBound(len, j, j', duration, next, bound);
        WorstGapGrows(BatchesBetween(len, j, j'), 2 * Batches(n) - 1, bound);
      }
    } else {
      GapIsAttained(n, n - 1, bound);
      var slow: nat -> nat := _ => bound;
      assert BatchesWithin(slow, bound);
    }
  }

  /** With batches of at most 0.9 s the connections of a node survive up to 256 peers, which
      covers the intended 250, as long as the list of connections does not change. If it may change
      between two sweeps, it is 128 peers. */
  lemma FastBatchesKeepAlive(n: nat)
    requires n > 0
    ensures NeverIdle(n, 900) <==> n <= 256
    ensures NeverIdleUnderChange(n, 900) <==> n <= 128
  {
    NeverIdleIff(n, 900);
    NeverIdleUnderChangeIff(n, 900);
  }

  /** The code's own time limits only bound a batch by dial (4 s), ping (4 s) and close (2 s). Under
      that bound alone the idle timeout is safe for a single batch and not beyond. */
  lemma OwnTimeoutsKeepAliveOneBatch(n: nat)
    requires n > 0
    ensures NeverIdle(n, 4000 + 4000 + 2000) <==> n <= PING_BATCH
    ensures NeverIdleUnderChange(n, 4000 + 4000 + 2000) <==> n <= PING_BATCH
  {
    NeverIdleIff(n, 4000 + 4000 + 2000);
    NeverIdleUnderChangeIff(n, 4000 + 4000 + 2000);
  }
}
