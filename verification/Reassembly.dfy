/** What the counters achieve in the whole system: a node reports a message exactly once, at the
    step that brings the last of its fragments, as if it kept the set of received fragments. */
module Reassembly {
  import opened Common
  import opened Arithmetic
  import opened Bytes
  import opened Fragments
  import opened Counting
  import opened Receiver
  import opened Network

  ghost predicate AllReceived(c: Config, node: Node, m: Message)
    requires Sendable(c.impl, m)
  {
    forall k: nat :: k < c.chunks ==> c.id(Payload(c.impl, m, k)) in node.seen
  }

  lemma SubsetOfSameSize<T>(a: set<T>, b: set<T>)
    requires a <= b
    ensures |a| <= |b|
    ensures |a| == |b| ==> a == b
  {
    assert b == a + (b - a);
    assert |b| == |a| + |b - a|;
  }

  /** Pigeonhole: as many distinct payloads as fragments means every fragment. */
  lemma FullIffCounted(c: Config, node: Node, m: Message)
    requires Sendable(c.impl, m) && c.chunks >= 1
    ensures |Got(c, node, m)| <= |Payloads(c.impl, m, c.chunks)| <= c.chunks
    ensures AllReceived(c, node, m) <==> |Got(c, node, m)| == |Payloads(c.impl, m, c.chunks)|
    ensures Whole(c.impl, m, c.chunks) <==> |Payloads(c.impl, m, c.chunks)| == c.chunks
  {
    var all := Payloads(c.impl, m, c.chunks);
    WholeIffAllDifferent(c.impl, m, c.chunks);
    DistinctPayloads(c.impl, m, c.chunks);
    SubsetOfSameSize(Got(c, node, m), all);
    if Got(c, node, m) == all {
      forall k: nat | k < c.chunks ensures c.id(Payload(c.impl, m, k)) in node.seen {
        assert Payload(c.impl, m, k) in all;
      }
    }
    if AllReceived(c, node, m) {
      assert Got(c, node, m) == all;
    }
  }

  ghost predicate Reachable(c: Config, s: State) {
    exists size, run :: Exec(c, size, run) == Some(s)
  }

  lemma ReachableInvariant(c: Config, s: State)
    requires Injective(c.id) && Reachable(c, s)
    ensures Invariant(c, s)
  {
    var size, run :| Exec(c, size, run) == Some(s);
    AlwaysInvariant(c, size, run);
  }

  lemma SmallQuotient(got: nat, chunks: nat)
    requires got <= chunks && chunks > 0
    ensures got / chunks == if got == chunks then 1 else 0
    ensures got < chunks ==> got % chunks == got
  {
    DivisionIsUnique(got, chunks, if got == chunks then 1 else 0, if got == chunks then 0 else got);
  }

  /** A node's counter for a message, read off its tally. */
  lemma CounterMeaning(c: Config, s: State, i: nat, m: Message)
    requires Invariant(c, s) && i < |s.nodes| && c.chunks >= 1
    requires m in s.started && Counted(c.impl, m)
    ensures Sendable(c.impl, m)
    ensures var got, tally, t := |Got(c, s.nodes[i], m)|, s.nodes[i].tally, Key(c.impl, m);
            && Get(tally.table, t, 0) == (if c.impl.Rust? then got % c.chunks else got)
            && Occurrences(tally.log, t) ==
               (if c.impl.Rust? then got / c.chunks else if got < c.chunks then 0 else got - c.chunks + 1)
  {
    var node := s.nodes[i];
    assert NodeInvariant(c, s, node);
    assert KeyIsFree(c, s, m);
    if c.impl.Rust? {
      EvictingQuotient(c.chunks, node.keys, Key(c.impl, m));
    } else {
      KeepingCounts(c.chunks, node.keys, Key(c.impl, m));
    }
  }

  /** In every reachable state a node has logged a counted message whose fragments all differ
      exactly once if it has received all of them, and not at all otherwise. */
  lemma LoggedOnceIffAllReceived(c: Config, s: State, i: nat, m: Message)
    requires Injective(c.id) && Reachable(c, s) && i < |s.nodes| && c.chunks >= 1
    requires m in s.started && Sendable(c.impl, m) && Counted(c.impl, m) && Whole(c.impl, m, c.chunks)
    ensures Occurrences(s.nodes[i].tally.log, Key(c.impl, m)) == if AllReceived(c, s.nodes[i], m) then 1 else 0
  {
    ReachableInvariant(c, s);
    CounterMeaning(c, s, i, m);
    FullIffCounted(c, s.nodes[i], m);
    SmallQuotient(|Got(c, s.nodes[i], m)|, c.chunks);
  }

  /** A message with repeated payloads is never logged, in any run. */
  lemma NeverLoggedUnlessWhole(c: Config, s: State, i: nat, m: Message)
    requires Injective(c.id) && Reachable(c, s) && i < |s.nodes| && c.chunks >= 1
    requires m in s.started && Sendable(c.impl, m) && Counted(c.impl, m) && !Whole(c.impl, m, c.chunks)
    ensures Key(c.impl, m) !in s.nodes[i].tally.log
  {
    ReachableInvariant(c, s);
    CounterMeaning(c, s, i, m);
    FullIffCounted(c, s.nodes[i], m);
    SmallQuotient(|Got(c, s.nodes[i], m)|, c.chunks);
    assert Occurrences(s.nodes[i].tally.log, Key(c.impl, m)) == 0;
  }

  /** While any fragment of a message is unpublished, no node has reported it. */
  lemma NeverLoggedUnlessPublished(c: Config, s: State, i: nat, m: Message, k: nat)
    requires Injective(c.id) && Reachable(c, s) && i < |s.nodes|
    requires m in s.started && Sendable(c.impl, m) && Counted(c.impl, m)
    requires k < c.chunks && Payload(c.impl, m, k) !in s.published
    ensures Key(c.impl, m) !in s.nodes[i].tally.log
  {
    ReachableInvariant(c, s);
    assert NodeInvariant(c, s, s.nodes[i]);
    if Whole(c.impl, m, c.chunks) {
      LoggedOnceIffAllReceived(c, s, i, m);
      assert Occurrences(s.nodes[i].tally.log, Key(c.impl, m)) == 0;
    } else {
      NeverLoggedUnlessWhole(c, s, i, m);
    }
  }

  /** What a node can ever report: counted messages whose fragments all differ. */
  function Reports(impl: Impl, chunks: nat): Message -> bool {
    m => Counted(impl, m) && Whole(impl, m, chunks)
  }

  /** The counter reaches its goal with the last missing fragment, and never if fragments repeat. */
  lemma CounterBeforeLast(c: Config, s: State, i: nat, m: Message, k: nat)
    requires Injective(c.id) && Invariant(c, s) && i < |s.nodes| && c.chunks >= 1
    requires m in s.started && Sendable(c.impl, m) && Counted(c.impl, m)
    requires k < c.chunks && c.id(Payload(c.impl, m, k)) !in s.nodes[i].seen
    ensures !AllReceived(c, s.nodes[i], m)
    ensures Whole(c.impl, m, c.chunks) && AllReceived(c, Receive(c, s.nodes[i], Payload(c.impl, m, k)), m)
            <==> Get(s.nodes[i].tally.table, Key(c.impl, m), 0) + 1 >= c.chunks
  {
    var before := s.nodes[i];
    var after := Receive(c, before, Payload(c.impl, m, k));
    var got := |Got(c, before, m)|;
    GotAfter(c, before, m, k, m);
    FullIffCounted(c, before, m);
    FullIffCounted(c, after, m);
    assert |Got(c, after, m)| == got + 1;
    SmallQuotient(got, c.chunks);
    assert Get(before.tally.table, Key(c.impl, m), 0) == got by {
      CounterMeaning(c, s, i, m);
    }
  }

  /** One delivery extends the node's log exactly when it brings the last missing fragment of
      such a message. */
  lemma LogGrowsOnLastFragment(c: Config, s: State, i: nat, m: Message, k: nat)
    requires Injective(c.id) && Reachable(c, s) && c.chunks >= 1
    requires Enabled(c, s, Deliver(i, m, k))
    ensures var before, after := s.nodes[i], Apply(c, s, Deliver(i, m, k)).nodes[i];
            after.tally.log == before.tally.log +
              if Reports(c.impl, c.chunks)(m) && !AllReceived(c, before, m) && AllReceived(c, after, m)
              then [Key(c.impl, m)] else []
  {
    ReachableInvariant(c, s);
    PublishedNamesStarted(c, s, m, k);
    var before, p := s.nodes[i], Payload(c.impl, m, k);
    if c.id(p) !in before.seen {
      ReceiveNew(c, before, m, k);
      if Counted(c.impl, m) {
        CounterBeforeLast(c, s, i, m, k);
      }
    }
  }

  // ----- the ideal receiver -----

  /** A receiver that keeps the set of fragments it has been handed and reports a message when
      the set is full. It knows nothing of bytes, ids, keys or counters. */
  datatype Ideal = Ideal(got: set<(Message, nat)>, log: seq<Message>)

  ghost predicate Full(got: set<(Message, nat)>, m: Message, chunks: nat) {
    forall k: nat :: k < chunks ==> (m, k) in got
  }

  ghost function IdealStep(counted: Message -> bool, chunks: nat, ideal: Ideal, m: Message, k: nat): Ideal {
    var got := ideal.got + {(m, k)};
    Ideal(got, if counted(m) && !Full(ideal.got, m, chunks) && Full(got, m, chunks) then ideal.log + [m] else ideal.log)
  }

  ghost function IdealRun(counted: Message -> bool, chunks: nat, i: nat, run: seq<Action>): Ideal {
    if run == [] then Ideal({}, [])
    else
      var ideal := IdealRun(counted, chunks, i, run[..|run| - 1]);
      match run[|run| - 1]
      case Deliver(j, m, k) => if i == j then IdealStep(counted, chunks, ideal, m, k) else ideal
      case Publish(_, _) => ideal
  }

  /** The ideal receiver reports no message twice. */
  lemma {:induction false} IdealLogsOnce(counted: Message -> bool, chunks: nat, i: nat, run: seq<Action>, m: Message)
    requires chunks >= 1
    ensures var ideal := IdealRun(counted, chunks, i, run);
            multiset(ideal.log)[m] == if counted(m) && Full(ideal.got, m, chunks) then 1 else 0
  {
    if run != [] {
      IdealLogsOnce(counted, chunks, i, run[..|run| - 1], m);
      var ideal := IdealRun(counted, chunks, i, run[..|run| - 1]);
      match run[|run| - 1] {
        case Publish(_, _) =>
        case Deliver(j, m', k) =>
          if i == j {
            var got := ideal.got + {(m', k)};
            if m' != m {
              assert forall k': nat :: (m, k') in got <==> (m, k') in ideal.got;
            }
          }
      }
    } else {
      assert (m, 0) !in IdealRun(counted, chunks, i, run).got;
    }
  }

  function KeysOfLog(impl: Impl, log: seq<Message>): seq<int> {
    seq(|log|, j requires 0 <= j < |log| => Key(impl, log[j]))
  }

  /** Seen ids and the ideal fragment set agree. */
  ghost predicate Agrees(c: Config, node: Node, ideal: Ideal) {
    forall m, k: nat | Sendable(c.impl, m) && k < c.chunks && Whole(c.impl, m, c.chunks) ::
      (m, k) in ideal.got <==> c.id(Payload(c.impl, m, k)) in node.seen
  }

  lemma AgreesFull(c: Config, node: Node, ideal: Ideal, m: Message)
    requires Agrees(c, node, ideal) && Sendable(c.impl, m) && Whole(c.impl, m, c.chunks)
    ensures Full(ideal.got, m, c.chunks) <==> AllReceived(c, node, m)
  {
    assert forall k: nat :: k < c.chunks ==> ((m, k) in ideal.got <==> c.id(Payload(c.impl, m, k)) in node.seen);
  }

  lemma AgreesAfter(c: Config, node: Node, ideal: Ideal, m: Message, k: nat)
    requires Injective(c.id) && Agrees(c, node, ideal)
    requires Sendable(c.impl, m) && k < c.chunks
    ensures Agrees(c, Receive(c, node, Payload(c.impl, m, k)),
                   IdealStep(Reports(c.impl, c.chunks), c.chunks, ideal, m, k))
  {
    var after := Receive(c, node, Payload(c.impl, m, k));
    assert after.seen == node.seen + {c.id(Payload(c.impl, m, k))};
    forall m', k': nat | Sendable(c.impl, m') && k' < c.chunks && Whole(c.impl, m', c.chunks)
      ensures (m', k') in ideal.got + {(m, k)} <==> c.id(Payload(c.impl, m', k')) in after.seen
    {
      if Payload(c.impl, m', k') == Payload(c.impl, m, k) {
        PayloadNamesMessage(c.impl, m', k', m, k);
        PayloadNamesFragment(c.impl, m, k', k);
      }
    }
  }

  lemma RefineDelivery(c: Config, s: State, i: nat, ideal: Ideal, m: Message, k: nat)
    requires Injective(c.id) && c.chunks >= 1 && Reachable(c, s)
    requires Enabled(c, s, Deliver(i, m, k))
    requires s.nodes[i].tally.log == KeysOfLog(c.impl, ideal.log) && Agrees(c, s.nodes[i], ideal)
    ensures var node := Apply(c, s, Deliver(i, m, k)).nodes[i];
            var ideal' := IdealStep(Reports(c.impl, c.chunks), c.chunks, ideal, m, k);
            node.tally.log == KeysOfLog(c.impl, ideal'.log) && Agrees(c, node, ideal')
  {
    var node := Apply(c, s, Deliver(i, m, k)).nodes[i];
    var ideal' := IdealStep(Reports(c.impl, c.chunks), c.chunks, ideal, m, k);
    AgreesAfter(c, s.nodes[i], ideal, m, k);
    LogGrowsOnLastFragment(c, s, i, m, k);
    if Whole(c.impl, m, c.chunks) {
      AgreesFull(c, s.nodes[i], ideal, m);
      AgreesFull(c, node, ideal', m);
    }
    if ideal'.log != ideal.log {
      assert KeysOfLog(c.impl, ideal.log + [m]) == KeysOfLog(c.impl, ideal.log) + [Key(c.impl, m)];
    }
  }

  /** Refinement: on every run, every node of every implementation logs exactly what the ideal
      receiver logs. */
  lemma {:induction false} CountersRefineSets(c: Config, size: nat, run: seq<Action>, i: nat)
    requires Injective(c.id) && c.chunks >= 1
    requires Exec(c, size, run).Some? && i < size
    ensures |Exec(c, size, run).value.nodes| == size
    ensures var node := Exec(c, size, run).value.nodes[i];
            var ideal := IdealRun(Reports(c.impl, c.chunks), c.chunks, i, run);
            node.tally.log == KeysOfLog(c.impl, ideal.log) && Agrees(c, node, ideal)
  {
    AlwaysInvariant(c, size, run);
    if run == [] {
      assert Exec(c, size, run).value.nodes[i] == Node({}, Tally(map[], []), []);
    } else {
      var front, last := run[..|run| - 1], run[|run| - 1];
      CountersRefineSets(c, size, front, i);
      var s := Exec(c, size, front).value;
      AlwaysInvariant(c, size, front);
      if last.Deliver? && last.node == i {
        assert Reachable(c, s);
        RefineDelivery(c, s, i, IdealRun(Reports(c.impl, c.chunks), c.chunks, i, front), last.m, last.k);
      } else {
        assert Exec(c, size, run).value.nodes[i] == s.nodes[i];
      }
    }
  }

  // ----- Rust and Go in the same system -----

  ghost predicate BeforeSignBit(run: seq<Action>) {
    forall j :: 0 <= j < |run| ==> run[j].m.ts < TWO_TO_THE_63
  }

  lemma {:induction false} SameIdeal(chunks: nat, i: nat, run: seq<Action>)
    requires BeforeSignBit(run)
    ensures IdealRun(Reports(Rust, chunks), chunks, i, run) == IdealRun(Reports(Go, chunks), chunks, i, run)
    ensures forall m :: m in IdealRun(Reports(Go, chunks), chunks, i, run).log ==> m.ts < TWO_TO_THE_63
  {
    if run != [] {
      SameIdeal(chunks, i, run[..|run| - 1]);
    }
  }

  /** Behind deduplication, eviction makes no difference: on the same schedule a Rust network
      and a Go network log the same timestamps in the same order at every node. */
  lemma RustAndGoNetworksAgree(rust: Config, go: Config, size: nat, run: seq<Action>, i: nat)
    requires rust.impl == Rust && go.impl == Go && rust.chunks == go.chunks >= 1
    requires Injective(rust.id) && Injective(go.id) && BeforeSignBit(run)
    requires Exec(rust, size, run).Some? && Exec(go, size, run).Some? && i < size
    ensures |Exec(rust, size, run).value.nodes| == size == |Exec(go, size, run).value.nodes|
    ensures Exec(rust, size, run).value.nodes[i].tally.log == Exec(go, size, run).value.nodes[i].tally.log
  {
    SameIdeal(rust.chunks, i, run);
    CountersRefineSets(rust, size, run, i);
    CountersRefineSets(go, size, run, i);
    var log := IdealRun(Reports(Go, go.chunks), go.chunks, i, run).log;
    assert KeysOfLog(Rust, log) == KeysOfLog(Go, log);
  }

  // ----- reassembly is possible exactly for whole messages -----

  lemma ExecSnoc(c: Config, size: nat, run: seq<Action>, a: Action)
    requires Exec(c, size, run).Some? && Enabled(c, Exec(c, size, run).value, a)
    ensures Exec(c, size, run + [a]) == Some(Apply(c, Exec(c, size, run).value, a))
  {
    assert (run + [a])[..|run|] == run;
  }

  /** m and its first n fragments are published in s', in addition to what was going on in s. */
  ghost predicate Extends(c: Config, s: State, s': State, m: Message, n: nat) {
    && Sendable(c.impl, m) && KeyIsFree(c, s, m)
    && s'.nodes == s.nodes
    && s'.started == (if n == 0 then s.started else s.started + {m})
    && s'.published == s.published + Payloads(c.impl, m, n)
  }

  lemma PublishNext(c: Config, size: nat, run: seq<Action>, s: State, s': State, m: Message, n: nat)
    returns (longer: seq<Action>, s'': State)
    requires n < c.chunks && Exec(c, size, run) == Some(s') && Extends(c, s, s', m, n)
    ensures run <= longer && Exec(c, size, longer) == Some(s'') && Extends(c, s, s'', m, n + 1)
  {
    ExecSnoc(c, size, run, Publish(m, n));
    NextPayload(c.impl, m, n);
    longer, s'' := run + [Publish(m, n)], Apply(c, s', Publish(m, n));
  }

  /** From any point of any run a message with a free key can be published. */
  lemma {:induction false} CanPublish(c: Config, size: nat, run: seq<Action>, s: State, m: Message, n: nat)
    returns (more: seq<Action>, s': State)
    requires Exec(c, size, run) == Some(s) && Sendable(c.impl, m) && n <= c.chunks && KeyIsFree(c, s, m)
    ensures run <= more && Exec(c, size, more) == Some(s') && Extends(c, s, s', m, n)
  {
    more, s' := run, s;
    if n == 0 {
      assert Payloads(c.impl, m, 0) == {};
    } else {
      more, s' := CanPublish(c, size, run, s, m, n - 1);
      more, s' := PublishNext(c, size, more, s, s', m, n - 1);
    }
  }

  /** Node i has seen the first d fragments of m, and all of them are published. */
  ghost predicate Seen(c: Config, s: State, i: nat, m: Message, d: nat) {
    && Sendable(c.impl, m) && d <= c.chunks && i < |s.nodes|
    && m in s.started && Payloads(c.impl, m, c.chunks) <= s.published
    && forall k: nat :: k < d ==> c.id(Payload(c.impl, m, k)) in s.nodes[i].seen
  }

  lemma DeliverNext(c: Config, size: nat, run: seq<Action>, s: State, i: nat, m: Message, d: nat)
    returns (longer: seq<Action>, s': State)
    requires d < c.chunks && Exec(c, size, run) == Some(s) && Seen(c, s, i, m, d)
    ensures run <= longer && Exec(c, size, longer) == Some(s') && Seen(c, s', i, m, d + 1)
  {
    assert Payload(c.impl, m, d) in Payloads(c.impl, m, c.chunks);
    ExecSnoc(c, size, run, Deliver(i, m, d));
    longer, s' := run + [Deliver(i, m, d)], Apply(c, s, Deliver(i, m, d));
    assert s'.nodes[i].seen == s.nodes[i].seen + {c.id(Payload(c.impl, m, d))};
  }

  lemma {:induction false} CanDeliver(c: Config, size: nat, run: seq<Action>, s: State, i: nat, m: Message, d: nat)
    returns (more: seq<Action>, s': State)
    requires d <= c.chunks && Exec(c, size, run) == Some(s) && Seen(c, s, i, m, 0)
    ensures run <= more && Exec(c, size, more) == Some(s') && Seen(c, s', i, m, d)
  {
    more, s' := run, s;
    if d > 0 {
      more, s' := CanDeliver(c, size, run, s, i, m, d - 1);
      more, s' := DeliverNext(c, size, more, s', i, m, d - 1);
    }
  }

  /** From any point of any run, and at any node: a message that is long enough to be sent, is no
      warm-up, whose fragments differ and whose key no other message of the run has, can still be
      published and reported. */
  lemma AnyNodeCanReport(c: Config, size: nat, run: seq<Action>, s: State, i: nat, m: Message)
    returns (more: seq<Action>, s': State)
    requires Injective(c.id) && Exec(c, size, run) == Some(s) && i < size
    requires c.impl.Nim? || m.id == 0
    requires m.len >= match c.impl case Rust => 8 case Go => 11 case Nim => 17
    requires c.chunks == 1 || (2 <= c.chunks <= 256 && m.len > 10)
    requires 1000000 <= m.ts && (c.impl.Go? || m.ts < 0x8000_0000_0000_0000)
    requires forall m' :: m' in s.started && m' != m ==> if c.impl.Nim? then m'.id != m.id else m'.ts != m.ts
    ensures run <= more && Exec(c, size, more) == Some(s') && m in s'.started
    ensures i < |s'.nodes| && (if c.impl.Nim? then m.id else m.ts) in s'.nodes[i].tally.log
  {
    AlwaysInvariant(c, size, run);
    assert KeyIsFree(c, s, m);
    more, s' := CanPublish(c, size, run, s, m, c.chunks);
    more, s' := CanDeliver(c, size, more, s', i, m, c.chunks);
    assert Reachable(c, s');
    LoggedOnceIffAllReceived(c, s', i, m);
    assert Occurrences(s'.nodes[i].tally.log, Key(c.impl, m)) == 1;
  }

  /** Some run of the system makes a node report m. */
  ghost predicate CanBeReported(c: Config, m: Message) {
    exists s, i: nat ::
      Reachable(c, s) && i < |s.nodes| && m in s.started && Key(c.impl, m) in s.nodes[i].tally.log
  }

  /** A counted message can be reassembled exactly when its fragments all differ: one fragment,
      or at most 256 of them and long enough to carry the stamp in byte 10, or 16 for Nim. */
  lemma ReportableIffWhole(c: Config, m: Message)
    requires Injective(c.id) && c.chunks >= 1 && Sendable(c.impl, m) && Counted(c.impl, m)
    ensures CanBeReported(c, m) <==> c.chunks == 1 || (c.chunks <= 256 && m.len > if c.impl.Nim? then 16 else 10)
  {
    if Whole(c.impl, m, c.chunks) {
      var more, s := AnyNodeCanReport(c, 1, [], Initial(1), 0, m);
      assert Reachable(c, s);
    } else if CanBeReported(c, m) {
      var s, i: nat :|
        Reachable(c, s) && i < |s.nodes| && m in s.started && Key(c.impl, m) in s.nodes[i].tally.log;
      NeverLoggedUnlessWhole(c, s, i, m);
    }
  }
}
