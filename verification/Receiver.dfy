/** The message handlers of the nodes: decode the header, count fragments per key, report the
    message when the count reaches the number of fragments. */
module Receiver {
  import opened Common
  import opened Bytes
  import opened Fragments
  import opened Counting

  /** Timestamps below this are warm-up traffic. */
  const WARM_UP: int := 1000000

  const NANOSECONDS: int := 1_000_000_000

  type U32 = n: int | 0 <= n < 0x1_0000_0000

  /** What a handler makes of a payload before it touches its table. */
  datatype Reading = TooShort | WarmUp | Fragment(key: int)

  /** Rust reads the timestamp as signed, Go as unsigned; Nim reads it as signed but counts by
      the message id that follows it. */
  function Read(impl: Impl, data: seq<Byte>): Reading {
    if |data| < HeaderLength(impl) then TooShort
    else match impl
      case Rust => var t := AsSigned(Word(data, 0)); if t < WARM_UP then WarmUp else Fragment(t)
      case Go => var t := Word(data, 0); if t < WARM_UP then WarmUp else Fragment(t)
      case Nim => if AsSigned(Word(data, 0)) < WARM_UP then WarmUp else Fragment(Word(data, 8))
  }

  /** The keys a handler counts on a trace, in order. */
  function KeysOf(impl: Impl, trace: seq<seq<Byte>>): seq<int> {
    if trace == [] then []
    else
      KeysOf(impl, trace[..|trace| - 1]) +
      match Read(impl, trace[|trace| - 1])
      case Fragment(key) => [key]
      case _ => []
  }

  /** One more payload adds its key to those counted: for Rust and Nim if the timestamp lies
      between the warm-up limit and the sign bit, for Go if it is above the limit. */
  lemma CountedKeys(trace: seq<seq<Byte>>, data: seq<Byte>)
    ensures KeysOf(Rust, trace + [data]) == KeysOf(Rust, trace) +
            if |data| >= 8 && 1000000 <= Word(data, 0) < 0x8000_0000_0000_0000 then [Word(data, 0)] else []
    ensures KeysOf(Go, trace + [data]) == KeysOf(Go, trace) +
            if |data| >= 8 && 1000000 <= Word(data, 0) then [Word(data, 0)] else []
    ensures KeysOf(Nim, trace + [data]) == KeysOf(Nim, trace) +
            if |data| >= 16 && 1000000 <= Word(data, 0) < 0x8000_0000_0000_0000 then [Word(data, 8)] else []
  {
    assert (trace + [data])[..|trace|] == trace;
  }

  predicate Counted(impl: Impl, m: Message) {
    WARM_UP <= if impl.Go? then m.ts else AsSigned(m.ts)
  }

  function Key(impl: Impl, m: Message): int {
    match impl
    case Rust => AsSigned(m.ts)
    case Go => m.ts
    case Nim => m.id
  }

  /** A sender's fragment is counted under the sender's own key. */
  lemma ReadsOwnKey(impl: Impl, m: Message, k: nat)
    requires Sendable(impl, m)
    ensures Read(impl, Payload(impl, m, k)) == if Counted(impl, m) then Fragment(Key(impl, m)) else WarmUp
  {
    HeaderRoundTrip(impl, m, k);
  }

  // ----- from one publish to one report -----

  /** Counting the same key up to the number of fragments completes it once, at the end. */
  lemma {:induction false} SameKeyCompletesOnce(evict: bool, chunks: nat, t: int, keys: seq<int>)
    requires 1 <= chunks && |keys| <= chunks && forall i :: 0 <= i < |keys| ==> keys[i] == t
    ensures var s := Run(evict, chunks, keys);
            && s.log == (if |keys| == chunks then [t] else [])
            && (|keys| < chunks ==> Get(s.table, t, 0) == |keys|)
  {
    if keys != [] {
      SameKeyCompletesOnce(evict, chunks, t, keys[..|keys| - 1]);
    }
  }

  ghost predicate IsFragment(impl: Impl, m: Message, p: seq<Byte>)
    requires Sendable(impl, m)
  {
    exists k: nat :: p == Payload(impl, m, k)
  }

  lemma {:induction false} KeysOfOneMessage(impl: Impl, m: Message, trace: seq<seq<Byte>>)
    requires Sendable(impl, m) && Counted(impl, m)
    requires forall i :: 0 <= i < |trace| ==> IsFragment(impl, m, trace[i])
    ensures |KeysOf(impl, trace)| == |trace|
    ensures forall i :: 0 <= i < |trace| ==> KeysOf(impl, trace)[i] == Key(impl, m)
  {
    if trace != [] {
      KeysOfOneMessage(impl, m, trace[..|trace| - 1]);
      var k: nat :| trace[|trace| - 1] == Payload(impl, m, k);
      ReadsOwnKey(impl, m, k);
    }
  }

  /** The fragments of one completed publish, handed over in any order, are reported exactly once
      and under the sender's key, by the evicting and by the keeping handlers. */
  lemma PublishIsReportedOnce(impl: Impl, m: Message, chunks: nat, trace: seq<seq<Byte>>)
    requires chunks >= 1 && Sendable(impl, m) && Counted(impl, m)
    requires multiset(trace) == multiset(FirstFragments(impl, m, chunks))
    ensures Run(impl.Rust?, chunks, KeysOf(impl, trace)).log == [Key(impl, m)]
  {
    var sent := FirstFragments(impl, m, chunks);
    assert |trace| == |multiset(trace)| == |multiset(sent)| == chunks;
    forall i | 0 <= i < |trace| ensures IsFragment(impl, m, trace[i]) {
      assert trace[i] in multiset(sent);
      var k :| 0 <= k < |sent| && sent[k] == trace[i];
      assert trace[i] == Payload(impl, m, k);
    }
    KeysOfOneMessage(impl, m, trace);
    SameKeyCompletesOnce(impl.Rust?, chunks, Key(impl, m), KeysOf(impl, trace));
  }

  // ----- the handlers -----

  /** create_message_handler of the Rust node. */
  class RustHandler {
    const chunks: U32
    var msgSeen: map<int, U32>
    var log: seq<int>         // timestamps of the "milliseconds" lines
    var received: nat         // custom metric, one per completed message
    ghost var keys: seq<int>  // every key counted so far

    ghost predicate Valid()
      reads this
    {
      && Tally(msgSeen, log) == Run(true, chunks, keys)
      && received == |log|
    }

    constructor (chunks: U32)
      ensures Valid() && keys == [] && this.chunks == chunks
    {
      this.chunks := chunks;
      msgSeen, log, received, keys := map[], [], 0, [];
    }

    method CountFragment(txTime: int)
      requires Valid()
      modifies this
      ensures Valid() && keys == old(keys) + [txTime]
    {
      RunSnoc(true, chunks, keys, txTime);
      PendingIsSmall(chunks, keys, txTime);
      ghost var before := msgSeen;
      if txTime !in msgSeen {
        msgSeen := msgSeen[txTime := 0];
      }
      // The u32 counter cannot wrap: before the increment it is below the fragment count.
      msgSeen := msgSeen[txTime := msgSeen[txTime] + 1];
      assert msgSeen == before[txTime := Get(before, txTime, 0) + 1];
      keys := keys + [txTime];
      if msgSeen[txTime] < chunks {
        return;
      }
      log := log + [txTime];
      received := received + 1;
      msgSeen := msgSeen - {txTime};
      assert msgSeen == before - {txTime};
    }

    method Handle(data: seq<Byte>) returns (panicked: bool)
      requires Valid()
      modifies this
      ensures Valid()
      ensures panicked <==> |data| < 8
      ensures keys == old(keys) + KeysOf(Rust, [data])
    {
      assert [data][..0] == [];
      if |data| < 8 {
        return true;
      }
      panicked := false;
      var txTime := AsSigned(Word(data, 0));
      if txTime >= WARM_UP {
        CountFragment(txTime);
      }
    }
  }

  /** messageHandler of the Go node: the counter is never reset. */
  class GoHandler {
    const chunks: int
    var msgSeen: map<int, nat>
    var log: seq<int>
    ghost var keys: seq<int>

    ghost predicate Valid()
      reads this
    {
      Tally(msgSeen, log) == Run(false, chunks, keys)
    }

    constructor (chunks: int)
      ensures Valid() && keys == [] && this.chunks == chunks
    {
      this.chunks := chunks;
      msgSeen, log, keys := map[], [], [];
    }

    method Handle(data: seq<Byte>) returns (panicked: bool)
      requires Valid()
      modifies this
      ensures Valid()
      ensures panicked <==> |data| < 8
      ensures keys == old(keys) + KeysOf(Go, [data])
    {
      assert [data][..0] == [];
      if |data| < 8 {
        return true;
      }
      panicked := false;
      var sent := Word(data, 0);
      if sent < WARM_UP {
        return;
      }
      RunSnoc(false, chunks, keys, sent);
      msgSeen := msgSeen[sent := Get(msgSeen, sent, 0) + 1];
      keys := keys + [sent];
      if msgSeen[sent] < chunks {
        return;
      }
      log := log + [sent];
    }
  }

  /** Nim's division truncates toward zero. */
  function RemainderOfSecond(ns: int): int {
    if ns >= 0 then ns % NANOSECONDS else -((-ns) % NANOSECONDS)
  }

  /** fromUnixNanoseconds accepts a number whose part below a second is not negative. */
  predicate IsTime(ns: int) {
    RemainderOfSecond(ns) >= 0
  }

  /** The conversion that comes before the warm-up test raises for the timestamps before 1970 that
      are not whole seconds, and for no timestamp that would be counted. */
  lemma IsTimeIff(ns: int)
    ensures IsTime(ns) <==> ns >= 0 || ns % 1_000_000_000 == 0
    ensures ns >= WARM_UP ==> IsTime(ns)
  {
    if ns < 0 {
      var q, r := (-ns) / NANOSECONDS, (-ns) % NANOSECONDS;
      assert ns == (-q - 1) * NANOSECONDS + (NANOSECONDS - r);
    }
  }

  /** createMessageHandler of the Nim gossipsub node: as Go's, by message id. */
  class NimHandler {
    const chunks: int
    var messagesChunks: map<int, nat>
    var log: seq<int>
    ghost var keys: seq<int>

    ghost predicate Valid()
      reads this
    {
      Tally(messagesChunks, log) == Run(false, chunks, keys)
    }

    constructor (chunks: int)
      ensures Valid() && keys == [] && this.chunks == chunks
    {
      this.chunks := chunks;
      messagesChunks, log, keys := map[], [], [];
    }

    method Handle(data: seq<Byte>) returns (panicked: bool)
      requires Valid()
      modifies this
      ensures Valid()
      ensures panicked <==> |data| < 16 || !IsTime(AsSigned(Word(data, 0)))
      ensures keys == old(keys) + KeysOf(Nim, [data])
    {
      assert [data][..0] == [];
      if |data| < 16 {
        return true;
      }
      var timestampNs := AsSigned(Word(data, 0));
      if !IsTime(timestampNs) {
        return true;
      }
      panicked := false;
      var msgId := Word(data, 8);
      if timestampNs < WARM_UP {
        return;
      }
      RunSnoc(false, chunks, keys, msgId);
      messagesChunks := messagesChunks[msgId := Get(messagesChunks, msgId, 0) + 1];
      keys := keys + [msgId];
      if messagesChunks[msgId] < chunks {
        return;
      }
      log := log + [msgId];
    }
  }

  /** createMessageHandler of the Nim regression node. It counts in the same way but reports no
      completion; every fragment that is not warm-up tells the keepalive loop to stop. */
  class RegressionHandler {
    const chunks: int
    var messagesChunks: map<int, nat>
    var messagesStarted: bool
    ghost var keys: seq<int>

    ghost predicate Valid()
      reads this
    {
      && messagesChunks == Run(false, chunks, keys).table
      && (messagesStarted <==> keys != [])
    }

    constructor (chunks: int)
      ensures Valid() && keys == [] && this.chunks == chunks
    {
      this.chunks := chunks;
      messagesChunks, messagesStarted, keys := map[], false, [];
    }

    method Handle(data: seq<Byte>) returns (panicked: bool)
      requires Valid()
      modifies this
      ensures Valid()
      ensures panicked <==> |data| < 16 || !IsTime(AsSigned(Word(data, 0)))
      ensures keys == old(keys) + KeysOf(Nim, [data])
    {
      assert [data][..0] == [];
      if |data| < 16 {
        return true;
      }
      var timestampNs := AsSigned(Word(data, 0));
      if !IsTime(timestampNs) {
        return true;
      }
      panicked := false;
      var msgId := Word(data, 8);
      if timestampNs < WARM_UP {
        return;
      }
      messagesStarted := true;
      RunSnoc(false, chunks, keys, msgId);
      messagesChunks := messagesChunks[msgId := Get(messagesChunks, msgId, 0) + 1];
      keys := keys + [msgId];
    }
  }

  // ----- Rust against Go on whole traces of bytes -----

  /** No header has its sign bit set, so the signed and the unsigned reading agree. */
  ghost predicate BeforeSignBit(trace: seq<seq<Byte>>) {
    forall i :: 0 <= i < |trace| ==> |trace[i]| >= 8 && Word(trace[i], 0) < TWO_TO_THE_63
  }

  lemma {:induction false} SameKeys(trace: seq<seq<Byte>>)
    requires BeforeSignBit(trace)
    ensures KeysOf(Rust, trace) == KeysOf(Go, trace)
  {
    if trace != [] {
      SameKeys(trace[..|trace| - 1]);
    }
  }

  /** The two handlers print the same completions exactly when no key is delivered more often
      than it takes to complete it, or one fragment is enough. */
  lemma RustLogsLikeGoIff(chunks: nat, trace: seq<seq<Byte>>)
    requires BeforeSignBit(trace)
    ensures Run(true, chunks, KeysOf(Rust, trace)).log == Run(false, chunks, KeysOf(Go, trace)).log
            <==> NoSurplus(chunks, KeysOf(Go, trace)) || Needed(chunks) == 1
  {
    SameKeys(trace);
    SameLogIff(chunks, KeysOf(Go, trace));
  }

  /** Past the sign bit the two nodes disagree about what is warm-up. */
  lemma SignBitSplitsThem(m: Message)
    requires Sendable(Rust, m) && Sendable(Go, m) && m.ts >= TWO_TO_THE_63
    ensures Read(Rust, Payload(Rust, m, 0)) == WarmUp
    ensures Read(Go, Payload(Go, m, 0)) == Fragment(m.ts)
  {
    ReadsOwnKey(Rust, m, 0);
    ReadsOwnKey(Go, m, 0);
  }

  /** Two Nim messages that share a timestamp are counted apart. */
  lemma NimKeepsApart(m: Message, m': Message, k: nat, k': nat)
    requires Sendable(Nim, m) && Sendable(Nim, m') && Counted(Nim, m) && m.ts == m'.ts
    ensures Read(Nim, Payload(Nim, m, k)) == Read(Nim, Payload(Nim, m', k')) <==> m.id == m'.id
  {
    ReadsOwnKey(Nim, m, k);
    ReadsOwnKey(Nim, m', k');
  }

  /** Rust and Go count two messages together exactly when they share a timestamp, whatever their
      lengths and fragment numbers. */
  lemma TimestampsAreKeys(impl: Impl, m: Message, m': Message, k: nat, k': nat)
    requires !impl.Nim? && Sendable(impl, m) && Sendable(impl, m') && Counted(impl, m)
    ensures Read(impl, Payload(impl, m, k)) == Read(impl, Payload(impl, m', k')) <==> m.ts == m'.ts
  {
    ReadsOwnKey(impl, m, k);
    ReadsOwnKey(impl, m', k');
  }

  /** Two Rust messages of different size that share a timestamp are taken for one: with two
      fragments each, the first fragment of both completes a message nobody received whole. */
  lemma RustMixesSharedTimestamps()
    ensures exists m: Message, m': Message ::
              && Sendable(Rust, m) && Sendable(Rust, m') && m != m'
              && Run(true, 2, KeysOf(Rust, [Payload(Rust, m, 0), Payload(Rust, m', 0)])).log == [m.ts]
  {
    var m, m' := Message(1000000, 0, 20), Message(1000000, 0, 30);
    ReadsOwnKey(Rust, m, 0);
    ReadsOwnKey(Rust, m', 0);
    var trace := [Payload(Rust, m, 0), Payload(Rust, m', 0)];
    assert trace[..1] == [Payload(Rust, m, 0)];
    var keys := KeysOf(Rust, trace);
    assert keys == [1000000, 1000000] by {
      assert KeysOf(Rust, trace[..1]) == [1000000];
    }
    RunSnoc(true, 2, [], 1000000);
    RunSnoc(true, 2, [1000000], 1000000);
    assert [] + [1000000] == [1000000] && [1000000] + [1000000] == keys;
  }
}
