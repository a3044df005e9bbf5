/** The publish, deduplicate and deliver system, for any number of nodes, any interleaving and
    any loss. The pubsub layer is abstract; what is assumed of it is in the step relation:
    a payload is delivered as it was when published, a node hands a payload to its handler only
    if the payload's message id is new to it, and a node never forgets an id. */
module Network {
  import opened Common
  import opened Bytes
  import opened Fragments
  import opened Counting
  import opened Receiver

  /** All nodes run the same implementation with the same number of fragments. `id` stands for
      the message-id function, a hash of the data. */
  datatype Config = Config(impl: Impl, chunks: nat, id: seq<Byte> -> int)

  /** `keys` is a history variable: every key the handler counted. */
  datatype Node = Node(seen: set<int>, tally: Tally, keys: seq<int>)

  datatype State = State(started: set<Message>, published: set<seq<Byte>>, nodes: seq<Node>)

  datatype Action = Publish(m: Message, k: nat) | Deliver(node: nat, m: Message, k: nat)

  ghost predicate Injective(id: seq<Byte> -> int) {
    forall p, q :: id(p) == id(q) ==> p == q
  }

  lemma {:induction false} PositiveWhenClosed(p: seq<Byte>)
    ensures FromLittleEndian(p + [1]) > 0
  {
    if p != [] {
      PositiveWhenClosed(p[1..]);
      assert (p + [1])[1..] == p[1..] + [1];
    }
  }

  lemma {:induction false} SameNumberSameBytes(p: seq<Byte>, q: seq<Byte>)
    requires FromLittleEndian(p + [1]) == FromLittleEndian(q + [1])
    ensures p == q
  {
    if p != [] && q != [] {
      assert (p + [1])[1..] == p[1..] + [1] && (q + [1])[1..] == q[1..] + [1];
      SameNumberSameBytes(p[1..], q[1..]);
      assert p == [p[0]] + p[1..] && q == [q[0]] + q[1..];
    } else if p != [] {
      assert (p + [1])[1..] == p[1..] + [1];
      PositiveWhenClosed(p[1..]);
    } else if q != [] {
      assert (q + [1])[1..] == q[1..] + [1];
      PositiveWhenClosed(q[1..]);
    }
  }

  /** Such an id exists: the payload itself, closed by a one, read as a number. */
  lemma InjectiveIdExists()
    ensures exists id: seq<Byte> -> int :: Injective(id)
  {
    var id: seq<Byte> -> int := p => FromLittleEndian(p + [1]);
    forall p, q | id(p) == id(q) ensures p == q {
      SameNumberSameBytes(p, q);
    }
    assert Injective(id);
  }

  // ----- steps and runs -----

  /** The handler, on a payload the pubsub layer has passed on. */
  function Handle(c: Config, node: Node, data: seq<Byte>): Node {
    match Read(c.impl, data)
    case Fragment(key) =>
      node.(tally := Count(c.impl.Rust?, c.chunks, node.tally, key), keys := node.keys + [key])
    case _ => node
  }

  function Receive(c: Config, node: Node, data: seq<Byte>): Node {
    if c.id(data) in node.seen then node
    else Handle(c, node.(seen := node.seen + {c.id(data)}), data)
  }

  /** Counted messages that are in use have different keys. */
  ghost predicate KeyIsFree(c: Config, s: State, m: Message) {
    forall m' | m' in s.started && Counted(c.impl, m') && Counted(c.impl, m) && Key(c.impl, m') == Key(c.impl, m) ::
      m' == m
  }

  ghost predicate Enabled(c: Config, s: State, a: Action) {
    && a.k < c.chunks
    && Sendable(c.impl, a.m)
    && match a
       case Publish(m, k) => KeyIsFree(c, s, m)
       case Deliver(i, m, k) => i < |s.nodes| && Payload(c.impl, m, k) in s.published
  }

  ghost function Apply(c: Config, s: State, a: Action): State
    requires Enabled(c, s, a)
  {
    match a
    case Publish(m, k) => s.(started := s.started + {m}, published := s.published + {Payload(c.impl, m, k)})
    case Deliver(i, m, k) => s.(nodes := s.nodes[i := Receive(c, s.nodes[i], Payload(c.impl, m, k))])
  }

  ghost function Initial(size: nat): State {
    State({}, {}, seq(size, _ => Node({}, Tally(map[], []), [])))
  }

  /** The state a sequence of actions leads to, if every one of them was enabled. */
  ghost function Exec(c: Config, size: nat, run: seq<Action>): Option<State> {
    if run == [] then Some(Initial(size))
    else
      match Exec(c, size, run[..|run| - 1])
      case None => None
      case Some(s) =>
        if Enabled(c, s, run[|run| - 1]) then Some(Apply(c, s, run[|run| - 1])) else None
  }

  // ----- what every reachable state satisfies -----

  /** The payloads of m that a node has seen. */
  ghost function Got(c: Config, node: Node, m: Message): set<seq<Byte>>
    requires Sendable(c.impl, m)
  {
    set p | p in Payloads(c.impl, m, c.chunks) && c.id(p) in node.seen
  }

  ghost predicate FromStarted(c: Config, s: State, p: seq<Byte>) {
    exists m, k: nat :: m in s.started && Sendable(c.impl, m) && k < c.chunks && p == Payload(c.impl, m, k)
  }

  ghost predicate KeyFromStarted(c: Config, s: State, t: int) {
    exists m :: m in s.started && Counted(c.impl, m) && Key(c.impl, m) == t
  }

  ghost predicate NodeInvariant(c: Config, s: State, node: Node) {
    && node.tally == Run(c.impl.Rust?, c.chunks, node.keys)
    && (forall p :: c.id(p) in node.seen ==> p in s.published)
    && (forall t :: t in node.keys ==> KeyFromStarted(c, s, t))
    && (forall m | m in s.started && Sendable(c.impl, m) && Counted(c.impl, m) ::
          Occurrences(node.keys, Key(c.impl, m)) == |Got(c, node, m)|)
  }

  ghost predicate Invariant(c: Config, s: State) {
    && (forall m :: m in s.started ==> Sendable(c.impl, m) && KeyIsFree(c, s, m))
    && (forall p :: p in s.published ==> FromStarted(c, s, p))
    && (forall i :: 0 <= i < |s.nodes| ==> NodeInvariant(c, s, s.nodes[i]))
  }

  lemma PublishedNamesStarted(c: Config, s: State, m: Message, k: nat)
    requires Invariant(c, s) && Sendable(c.impl, m) && Payload(c.impl, m, k) in s.published
    ensures m in s.started
  {
    var m', k': nat :| m' in s.started && Sendable(c.impl, m') && k' < c.chunks
                       && Payload(c.impl, m, k) == Payload(c.impl, m', k');
    PayloadNamesMessage(c.impl, m, k, m', k');
  }

  lemma PublishKeepsNode(c: Config, s: State, m: Message, k: nat, node: Node)
    requires Invariant(c, s) && Enabled(c, s, Publish(m, k)) && NodeInvariant(c, s, node)
    ensures NodeInvariant(c, Apply(c, s, Publish(m, k)), node)
  {
    var s' := Apply(c, s, Publish(m, k));
    forall t | t in node.keys ensures KeyFromStarted(c, s', t) {
      var m' :| m' in s.started && Counted(c.impl, m') && Key(c.impl, m') == t;
      assert m' in s'.started;
    }
    if m !in s.started {
      forall p | p in Got(c, node, m) ensures false {
        var k': nat :| k' < c.chunks && p == Payload(c.impl, m, k');
        PublishedNamesStarted(c, s, m, k');
      }
      assert Got(c, node, m) == {};
      assert Counted(c.impl, m) ==> Key(c.impl, m) !in node.keys;
    }
  }

  lemma PublishKeeps(c: Config, s: State, m: Message, k: nat)
    requires Invariant(c, s) && Enabled(c, s, Publish(m, k))
    ensures Invariant(c, Apply(c, s, Publish(m, k)))
  {
    var s' := Apply(c, s, Publish(m, k));
    forall p | p in s'.published ensures FromStarted(c, s', p) {
      if p in s.published {
        var m', k': nat :| m' in s.started && Sendable(c.impl, m') && k' < c.chunks && p == Payload(c.impl, m', k');
        assert m' in s'.started;
      }
    }
    forall i | 0 <= i < |s'.nodes| ensures NodeInvariant(c, s', s'.nodes[i]) {
      PublishKeepsNode(c, s, m, k, s.nodes[i]);
    }
  }

  /** A new payload enters the set of its own message and of no other. */
  lemma GotAfter(c: Config, node: Node, m: Message, k: nat, other: Message)
    requires Injective(c.id) && Sendable(c.impl, m) && Sendable(c.impl, other) && k < c.chunks
    requires c.id(Payload(c.impl, m, k)) !in node.seen
    ensures var p := Payload(c.impl, m, k);
            Got(c, Receive(c, node, p), other) ==
            (if other == m then Got(c, node, m) + {p} else Got(c, node, other))
    ensures Payload(c.impl, m, k) !in Got(c, node, m)
  {
    var p := Payload(c.impl, m, k);
    var after := Receive(c, node, p);
    assert after.seen == node.seen + {c.id(p)};
    assert p in Payloads(c.impl, m, c.chunks);
    if other != m && p in Payloads(c.impl, other, c.chunks) {
      var k': nat :| k' < c.chunks && p == Payload(c.impl, other, k');
      PayloadNamesMessage(c.impl, m, k, other, k');
    }
  }

  /** What the handler does with a new fragment. */
  lemma ReceiveNew(c: Config, node: Node, m: Message, k: nat)
    requires Sendable(c.impl, m) && c.id(Payload(c.impl, m, k)) !in node.seen
    ensures var after := Receive(c, node, Payload(c.impl, m, k));
            && after.seen == node.seen + {c.id(Payload(c.impl, m, k))}
            && after.keys == node.keys + (if Counted(c.impl, m) then [Key(c.impl, m)] else [])
            && after.tally == (if Counted(c.impl, m)
                               then Count(c.impl.Rust?, c.chunks, node.tally, Key(c.impl, m)) else node.tally)
  {
    ReadsOwnKey(c.impl, m, k);
  }

  lemma CountsAfter(c: Config, s: State, node: Node, m: Message, k: nat, other: Message)
    requires Injective(c.id) && Invariant(c, s) && NodeInvariant(c, s, node)
    requires Sendable(c.impl, m) && k < c.chunks && m in s.started
    requires c.id(Payload(c.impl, m, k)) !in node.seen
    requires other in s.started && Sendable(c.impl, other) && Counted(c.impl, other)
    ensures var after := Receive(c, node, Payload(c.impl, m, k));
            Occurrences(after.keys, Key(c.impl, other)) == |Got(c, after, other)|
  {
    GotAfter(c, node, m, k, other);
    ReceiveNew(c, node, m, k);
    if Counted(c.impl, m) {
      var key, k' := Key(c.impl, m), Key(c.impl, other);
      assert Occurrences(node.keys + [key], k') == Occurrences(node.keys, k') + if k' == key then 1 else 0 by {
        RunSnoc(c.impl.Rust?, c.chunks, node.keys, key);
      }
    }
    assert KeyIsFree(c, s, other);
  }

  lemma DeliverKeepsNode(c: Config, s: State, node: Node, m: Message, k: nat)
    requires Injective(c.id) && Invariant(c, s) && NodeInvariant(c, s, node)
    requires Sendable(c.impl, m) && k < c.chunks && Payload(c.impl, m, k) in s.published
    ensures NodeInvariant(c, s, Receive(c, node, Payload(c.impl, m, k)))
  {
    var p := Payload(c.impl, m, k);
    PublishedNamesStarted(c, s, m, k);
    if c.id(p) !in node.seen {
      var after := Receive(c, node, p);
      ReceiveNew(c, node, m, k);
      if Counted(c.impl, m) {
        RunSnoc(c.impl.Rust?, c.chunks, node.keys, Key(c.impl, m));
        assert KeyFromStarted(c, s, Key(c.impl, m));
      }
      forall other | other in s.started && Sendable(c.impl, other) && Counted(c.impl, other)
        ensures Occurrences(after.keys, Key(c.impl, other)) == |Got(c, after, other)|
      {
        CountsAfter(c, s, node, m, k, other);
      }
      assert after.tally == Run(c.impl.Rust?, c.chunks, after.keys);
      forall q | c.id(q) in after.seen ensures q in s.published {
        if c.id(q) !in node.seen {
          assert q == p;
        }
      }
      forall t | t in after.keys ensures KeyFromStarted(c, s, t) {
        if t !in node.keys {
          assert t == Key(c.impl, m);
        }
      }
    }
  }

  lemma SameMessages(c: Config, s: State, s': State, node: Node)
    requires s.started == s'.started && s.published == s'.published && NodeInvariant(c, s, node)
    ensures NodeInvariant(c, s', node)
  {
    forall t | t in node.keys ensures KeyFromStarted(c, s', t) {
      assert KeyFromStarted(c, s, t);
    }
  }

  lemma DeliverKeeps(c: Config, s: State, i: nat, m: Message, k: nat)
    requires Injective(c.id) && Invariant(c, s) && Enabled(c, s, Deliver(i, m, k))
    ensures Invariant(c, Apply(c, s, Deliver(i, m, k)))
  {
    var s' := Apply(c, s, Deliver(i, m, k));
    DeliverKeepsNode(c, s, s.nodes[i], m, k);
    forall p | p in s'.published ensures FromStarted(c, s', p) {
      assert FromStarted(c, s, p);
    }
    forall j | 0 <= j < |s'.nodes| ensures NodeInvariant(c, s', s'.nodes[j]) {
      assert NodeInvariant(c, s, s'.nodes[j]);
      SameMessages(c, s, s', s'.nodes[j]);
    }
  }

  /** Every reachable state of every run: each node's counter for a counted message is the
      number of distinct payloads of that message the node has seen. */
  lemma {:induction false} AlwaysInvariant(c: Config, size: nat, run: seq<Action>)
    requires Injective(c.id) && Exec(c, size, run).Some?
    ensures Invariant(c, Exec(c, size, run).value)
    ensures |Exec(c, size, run).value.nodes| == size
  {
    if run != [] {
      AlwaysInvariant(c, size, run[..|run| - 1]);
      var s := Exec(c, size, run[..|run| - 1]).value;
      match run[|run| - 1] {
        case Publish(m, k) => PublishKeeps(c, s, m, k);
        case Deliver(i, m, k) => DeliverKeeps(c, s, i, m, k);
      }
    }
  }
}
