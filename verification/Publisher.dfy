/** The publish routines of the three nodes, over a real buffer that the fragment loop overwrites. */
module Publisher {
  import opened Arithmetic
  import opened Bytes
  import opened Fragments

  /** The pubsub topic as the publish loop sees it. An accepted payload is copied, so later
      writes to the caller's buffer do not reach it. */
  class Topic {
    var sent: seq<seq<Byte>>
    var recorded: nat   // published-messages counter of the Go node

    constructor ()
      ensures sent == [] && recorded == 0
    {
      sent, recorded := [], 0;
    }

    method Publish(payload: array<Byte>, accepted: bool)
      modifies this`sent
      ensures sent == if accepted then old(sent) + [payload[..]] else old(sent)
    {
      if accepted {
        sent := sent + [payload[..]];
      }
    }

    method RecordMessagePublished()
      modifies this`recorded
      ensures recorded == old(recorded) + 1
    {
      recorded := recorded + 1;
    }
  }

  datatype Response = Published | Refused(fragment: nat) | NothingPublished | Panicked

  /** Division of Go and Nim: the quotient is truncated toward zero. */
  function TruncatedQuotient(a: int, b: int): (q: int)
    requires b != 0
    ensures a >= 0 && b > 0 ==> q == a / b
  {
    var magnitude := (if a < 0 then -a else a) / (if b < 0 then -b else b);
    if (a < 0) != (b < 0) then -magnitude else magnitude
  }

  /** What is left has the sign of the dividend and is smaller than the divisor. */
  lemma RemainderOfQuotient(a: int, b: int)
    requires b != 0
    ensures var r := a - b * TruncatedQuotient(a, b);
            && (if b < 0 then b < r < -b else -b < r < b)
            && (a >= 0 ==> r >= 0) && (a <= 0 ==> r <= 0)
  {
    var dividend, divisor := if a < 0 then -a else a, if b < 0 then -b else b;
    var q := dividend / divisor;
    assert dividend == divisor * q + dividend % divisor;
    SignsOfProduct(divisor, q);
    assert b * TruncatedQuotient(a, b) == if a < 0 then -(divisor * q) else divisor * q;
  }

  /** res is the number of leading fragments the topic accepts, at most `chunks`. */
  ghost predicate AcceptedPrefix(accepts: nat -> bool, chunks: int, res: nat) {
    && (res <= chunks || res == 0)
    && (forall k: nat :: k < res ==> accepts(k))
    && (res < chunks ==> !accepts(res))
  }

  /** The number of accepted leading fragments is all of them, or the number of the first refused. */
  lemma AcceptedPrefixIs(accepts: nat -> bool, chunks: nat, res: nat)
    requires AcceptedPrefix(accepts, chunks, res)
    ensures res == chunks <==> forall k: nat :: k < chunks ==> accepts(k)
    ensures res < chunks ==> !accepts(res) && forall k: nat :: k < res ==> accepts(k)
    ensures res <= chunks
  {
  }

  /** A receiver reads `now` from each of the payloads. */
  ghost predicate CarryTime(ps: seq<seq<Byte>>, now: I64) {
    forall p :: p in ps ==> |p| >= 8 && AsSigned(Word(p, 0)) == now
  }

  lemma FragmentsCarryTime(impl: Impl, m: Message, n: nat, now: I64, before: seq<seq<Byte>>, sent: seq<seq<Byte>>)
    requires Sendable(impl, m) && m.ts == AsUnsigned(now) && sent == before + FirstFragments(impl, m, n)
    ensures CarryTime(sent[|before|..], now)
  {
    assert sent[|before|..] == FirstFragments(impl, m, n);
    forall k | 0 <= k < n
      ensures |Payload(impl, m, k)| >= 8 && AsSigned(Word(Payload(impl, m, k), 0)) == now
    {
      HeaderRoundTrip(impl, m, k);
      UnsignedIsCongruent(now, m.ts);
    }
  }

  /** One more fragment on the wire. */
  lemma SentNext(impl: Impl, m: Message, n: nat, before: seq<seq<Byte>>, sent: seq<seq<Byte>>)
    requires Sendable(impl, m) && sent == before + FirstFragments(impl, m, n)
    ensures sent + [Payload(impl, m, n)] == before + FirstFragments(impl, m, n + 1)
  {
    NextFragment(impl, m, n);
  }

  /** Writing the fragment number into a buffer that holds the header and otherwise zeros, apart
      from an older stamp, gives the payload of that fragment. */
  lemma StampedBuffer(impl: Impl, m: Message, before: seq<Byte>, k: nat)
    requires Sendable(impl, m) && |before| == m.len
    requires before[..HeaderLength(impl)] == Header(impl, m)
    requires forall i :: HeaderLength(impl) <= i < |before| && i != StampIndex(impl) ==> before[i] == 0
    ensures Payload(impl, m, k) ==
            if Stamped(impl, m) then var stamp: Byte := k % 256; before[StampIndex(impl) := stamp] else before
  {
    var p := Payload(impl, m, k);
    assert p[..HeaderLength(impl)] == Header(impl, m);
    forall i | 0 <= i < HeaderLength(impl) ensures p[i] == before[i] {
      assert p[..HeaderLength(impl)][i] == before[..HeaderLength(impl)][i];
    }
  }

  /** The loop of Rust's publish_new_message: stamp if there is room, publish a clone, stop at
      the first error. */
  method PublishRust(topic: Topic, now: I64, msgSize: nat, chunks: nat, accepts: nat -> bool)
    returns (response: Response, res: nat)
    modifies topic`sent
    ensures response.Panicked? <==> chunks == 0 || msgSize / chunks < 8
    ensures response.Panicked? ==> topic.sent == old(topic.sent)
    ensures !response.Panicked? ==>
              var m := Message(AsUnsigned(now), 0, msgSize / chunks);
              && AcceptedPrefix(accepts, chunks, res)
              && topic.sent == old(topic.sent) + FirstFragments(Rust, m, res)
              && CarryTime(topic.sent[|old(topic.sent)|..], now)
              && response == if res < chunks then Refused(res) else Published
  {
    res := 0;
    if chunks == 0 || msgSize / chunks < 8 {
      return Panicked, res;
    }
    ghost var m := Message(AsUnsigned(now), 0, msgSize / chunks);
    var buffer := new Byte[msgSize / chunks](i => 0);
    var header := ToLittleEndian(AsUnsigned(now), 8);
    forall i | 0 <= i < 8 {
      buffer[i] := header[i];
    }
    var failed := false;
    var chunk := 0;
    while chunk < chunks && !failed
      invariant chunk <= chunks
      invariant res == if failed then chunk - 1 else chunk
      invariant failed ==> chunk > 0 && !accepts(res)
      invariant forall k: nat :: k < res ==> accepts(k)
      invariant forall i :: 0 <= i < 8 ==> buffer[i] == header[i]
      invariant forall i :: 8 <= i < buffer.Length && i != 10 ==> buffer[i] == 0
      invariant topic.sent == old(topic.sent) + FirstFragments(Rust, m, res)
    {
      ghost var before, stamp: Byte := buffer[..], chunk % 256;
      if buffer.Length > 10 {
        buffer[10] := chunk % 256;
      }
      assert buffer[..] == if |before| > 10 then before[10 := stamp] else before;
      StampedBuffer(Rust, m, before, chunk);
      SentNext(Rust, m, chunk, old(topic.sent), topic.sent);
      topic.Publish(buffer, accepts(chunk));
      if accepts(chunk) {
        res := res + 1;
      } else {
        failed := true;
      }
      chunk := chunk + 1;
    }
    response := if failed then Refused(res) else if res > 0 then Published else NothingPublished;
    FragmentsCarryTime(Rust, m, res, now, old(topic.sent), topic.sent);
  }

  /** Go's publishNewMessage: header and body are appended, so a fragment is eight bytes longer,
      and the stamp is written without a length test. */
  method PublishGo(topic: Topic, now: I64, msgSize: int, chunks: int, accepts: nat -> bool)
    returns (response: Response, res: nat)
    modifies topic
    ensures response.Panicked? <==>
            chunks == 0 || TruncatedQuotient(msgSize, chunks) < 0
            || (chunks > 0 && TruncatedQuotient(msgSize, chunks) < 3)
    ensures response.Panicked? || chunks < 0 ==> topic.sent == old(topic.sent)
    ensures !response.Panicked? && chunks > 0 ==>
              var m := Message(AsUnsigned(now), 0, 8 + TruncatedQuotient(msgSize, chunks));
              && topic.sent == old(topic.sent) + FirstFragments(Go, m, res)
              && CarryTime(topic.sent[|old(topic.sent)|..], now)
    ensures !response.Panicked? ==>
              && AcceptedPrefix(accepts, chunks, res)
              && response == if res < chunks then Refused(res) else Published
    ensures topic.recorded == old(topic.recorded) + res
  {
    res := 0;
    if chunks == 0 || TruncatedQuotient(msgSize, chunks) < 0 {
      return Panicked, res;
    }
    var payload := new Byte[8 + TruncatedQuotient(msgSize, chunks)](i => 0);
    var header := ToLittleEndian(AsUnsigned(now), 8);
    forall i | 0 <= i < 8 {
      payload[i] := header[i];
    }
    ghost var m := Message(AsUnsigned(now), 0, payload.Length);
    var chunk := 0;
    while chunk < chunks
      invariant 0 <= chunk && (chunk <= chunks || chunk == 0)
      invariant res == chunk
      invariant chunk > 0 ==> Sendable(Go, m)
      invariant forall k: nat :: k < res ==> accepts(k)
      invariant forall i :: 0 <= i < 8 ==> payload[i] == header[i]
      invariant forall i :: 8 <= i < payload.Length && i != 10 ==> payload[i] == 0
      invariant chunk == 0 ==> topic.sent == old(topic.sent)
      invariant chunk > 0 ==> topic.sent == old(topic.sent) + FirstFragments(Go, m, res)
      invariant topic.recorded == old(topic.recorded) + res
    {
      if payload.Length <= 10 {
        return Panicked, res;
      }
      payload[10] := chunk % 256;
      assert payload[..] == Payload(Go, m, chunk);
      SentNext(Go, m, chunk, old(topic.sent), topic.sent);
      topic.Publish(payload, accepts(chunk));
      if !accepts(chunk) {
        FragmentsCarryTime(Go, m, res, now, old(topic.sent), topic.sent);
        return Refused(chunk), res;
      }
      topic.RecordMessagePublished();
      res := res + 1;
      chunk := chunk + 1;
    }
    if chunk > 0 {
      FragmentsCarryTime(Go, m, res, now, old(topic.sent), topic.sent);
    }
    response := Published;
  }

  /** The fragments that reached at least one peer, in order. */
  ghost function Reached(m: Message, reach: nat -> int, n: nat): seq<seq<Byte>>
    requires Sendable(Nim, m)
  {
    if n == 0 then []
    else Reached(m, reach, n - 1) + if reach(n - 1) > 0 then [Payload(Nim, m, n - 1)] else []
  }

  /** `numbers` are those fragments, and `ps` their payloads in the same order. */
  ghost predicate PayloadsOf(m: Message, reach: nat -> int, n: nat, numbers: seq<nat>, ps: seq<seq<Byte>>)
    requires Sendable(Nim, m)
  {
    && |numbers| == |ps|
    && (forall j, j' :: 0 <= j < j' < |numbers| ==> numbers[j] < numbers[j'])
    && (forall j :: 0 <= j < |numbers| ==> numbers[j] < n && ps[j] == Payload(Nim, m, numbers[j]))
    && (forall k: nat :: k in numbers <==> k < n && reach(k) > 0)
  }

  lemma PayloadsOfOneMore(m: Message, reach: nat -> int, n: nat, numbers: seq<nat>, ps: seq<seq<Byte>>)
    requires Sendable(Nim, m) && PayloadsOf(m, reach, n, numbers, ps)
    ensures reach(n) > 0 ==> PayloadsOf(m, reach, n + 1, numbers + [n], ps + [Payload(Nim, m, n)])
    ensures reach(n) <= 0 ==> PayloadsOf(m, reach, n + 1, numbers, ps)
  {
    forall k: nat ensures k in numbers + [n] <==> k in numbers || k == n {
    }
  }

  lemma {:induction false} ReachedInOrder(m: Message, reach: nat -> int, n: nat) returns (numbers: seq<nat>)
    requires Sendable(Nim, m)
    ensures PayloadsOf(m, reach, n, numbers, Reached(m, reach, n))
  {
    numbers := [];
    if n > 0 {
      numbers := ReachedInOrder(m, reach, n - 1);
      PayloadsOfOneMore(m, reach, n - 1, numbers, Reached(m, reach, n - 1));
      if reach(n - 1) > 0 {
        numbers := numbers + [n - 1];
      }
    }
  }

  /** Nim's publishNewMessage: every fragment is tried whatever happened to the earlier ones and
      only the last publish result is kept. `reach(k)` is the number of peers fragment k went to. */
  method PublishNim(topic: Topic, now: U64, msgId: U64, msgSize: int, chunks: int, reach: nat -> int)
    returns (panicked: bool, res: int)
    modifies topic`sent
    ensures panicked <==>
            chunks == 0 || TruncatedQuotient(msgSize, chunks) < 16
            || (chunks > 0 && TruncatedQuotient(msgSize, chunks) == 16)
    ensures panicked || chunks < 0 ==> topic.sent == old(topic.sent)
    ensures !panicked && chunks > 0 ==>
              var m := Message(now, msgId, TruncatedQuotient(msgSize, chunks));
              topic.sent == old(topic.sent) + Reached(m, reach, chunks)
    ensures !panicked ==> res == if chunks > 0 then reach(chunks - 1) else 0
  {
    res := 0;
    if chunks == 0 || TruncatedQuotient(msgSize, chunks) - 16 < 0 {
      return true, res;
    }
    var nowBytes := new Byte[TruncatedQuotient(msgSize, chunks)](i => 0);
    var header := ToLittleEndian(now, 8) + ToLittleEndian(msgId, 8);
    forall i | 0 <= i < 16 {
      nowBytes[i] := header[i];
    }
    ghost var m := Message(now, msgId, nowBytes.Length);
    var chunk := 0;
    while chunk < chunks
      invariant 0 <= chunk && (chunk <= chunks || chunk == 0)
      invariant res == if chunk > 0 then reach(chunk - 1) else 0
      invariant chunk > 0 ==> Sendable(Nim, m)
      invariant forall i :: 0 <= i < 16 ==> nowBytes[i] == header[i]
      invariant forall i :: 17 <= i < nowBytes.Length ==> nowBytes[i] == 0
      invariant chunk == 0 ==> topic.sent == old(topic.sent)
      invariant chunk > 0 ==> topic.sent == old(topic.sent) + Reached(m, reach, chunk)
    {
      if nowBytes.Length <= 16 {
        return true, res;
      }
      nowBytes[16] := chunk % 256;
      assert nowBytes[..] == Payload(Nim, m, chunk);
      topic.Publish(nowBytes, reach(chunk) > 0);
      res := reach(chunk);
      chunk := chunk + 1;
    }
    panicked := false;
  }

  /** Exactly the publishes of which every fragment reached a peer are the whole message. */
  lemma {:induction false} NimSendsAllIff(m: Message, reach: nat -> int, chunks: nat)
    requires Sendable(Nim, m)
    ensures |Reached(m, reach, chunks)| <= chunks
    ensures Reached(m, reach, chunks) == FirstFragments(Nim, m, chunks)
            <==> forall k: nat :: k < chunks ==> reach(k) > 0
  {
    if chunks > 0 {
      NimSendsAllIff(m, reach, chunks - 1);
      NextFragment(Nim, m, chunks - 1);
      var before, whole := Reached(m, reach, chunks - 1), FirstFragments(Nim, m, chunks - 1);
      if Reached(m, reach, chunks) == FirstFragments(Nim, m, chunks) {
        assert |Reached(m, reach, chunks)| == chunks;
        assert before == Reached(m, reach, chunks)[..chunks - 1] == whole;
      }
    }
  }

  /** What the caller of a Nim publish takes for success: the result of the last fragment. */
  predicate NimReportsSuccess(reach: nat -> int, chunks: nat)
    requires chunks >= 1
  {
    reach(chunks - 1) > 0
  }

  /** Two fragments of which the first reaches nobody: success is reported for half a message. */
  lemma NimReportsHalfAMessage(m: Message)
    requires Sendable(Nim, m)
    ensures var reach := (k: nat) => if k == 0 then 0 else 1;
            && NimReportsSuccess(reach, 2)
            && Reached(m, reach, 2) == [Payload(Nim, m, 1)] != FirstFragments(Nim, m, 2)
  {
    var reach := (k: nat) => if k == 0 then 0 else 1;
    assert Reached(m, reach, 1) == [];
  }

  lemma {:induction false} ReachedGrows(m: Message, reach: nat -> int, n: nat, n': nat)
    requires Sendable(Nim, m) && n <= n'
    ensures |Reached(m, reach, n)| <= |Reached(m, reach, n')|
  {
    if n < n' {
      ReachedGrows(m, reach, n, n' - 1);
    }
  }

  /** The fragments a publish reports on are the last one only. So a reported success means that
      the message went out, and a reported failure that nothing did, exactly when a message is
      one fragment. */
  lemma NimReportIsTrueIff(m: Message, chunks: nat)
    requires Sendable(Nim, m) && chunks >= 1
    ensures (forall reach :: NimReportsSuccess(reach, chunks) ==> Reached(m, reach, chunks) == FirstFragments(Nim, m, chunks))
            <==> chunks == 1
    ensures (forall reach :: !NimReportsSuccess(reach, chunks) ==> Reached(m, reach, chunks) == [])
            <==> chunks == 1
  {
    if chunks == 1 {
      forall reach: nat -> int
        ensures Reached(m, reach, 1) == if NimReportsSuccess(reach, 1) then FirstFragments(Nim, m, 1) else []
      {
        assert Reached(m, reach, 0) == [];
      }
    } else {
      var lastOnly := (k: nat) => if k == chunks - 1 then 1 else 0;
      var firstOnly := (k: nat) => if k == 0 then 1 else 0;
      NimSendsAllIff(m, lastOnly, chunks);
      ReachedGrows(m, firstOnly, 1, chunks);
      assert NimReportsSuccess(lastOnly, chunks) && lastOnly(0) == 0;
      assert !NimReportsSuccess(firstOnly, chunks) && |Reached(m, firstOnly, 1)| == 1;
    }
  }

  lemma RemainderIsSmall(n: nat, c: nat)
    requires c > 0
    ensures n - c < c * (n / c) <= n
  {
  }

  lemma EightMore(c: nat, len: nat)
    ensures c * (8 + len) == 8 * c + c * len
  {
  }

  /** A completed Rust publish puts at most the requested size on the wire and loses less than
      one byte per fragment to the division. */
  lemma RustBytesOnTheWire(m: Message, msgSize: nat, chunks: nat)
    requires chunks > 0 && m.len == msgSize / chunks && Sendable(Rust, m)
    ensures msgSize - chunks < TotalBytes(FirstFragments(Rust, m, chunks)) <= msgSize
  {
    FragmentBytes(Rust, m, chunks);
    RemainderIsSmall(msgSize, chunks);
  }

  /** Go pays eight extra bytes for every fragment. */
  lemma GoBytesOnTheWire(m: Message, msgSize: nat, chunks: nat)
    requires chunks > 0 && m.len == 8 + msgSize / chunks && Sendable(Go, m)
    ensures TotalBytes(FirstFragments(Go, m, chunks)) == 8 * chunks + chunks * (msgSize / chunks)
  {
    FragmentBytes(Go, m, chunks);
    EightMore(chunks, msgSize / chunks);
  }
}
