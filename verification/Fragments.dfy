/** The wire image of one fragment, shared by the three test nodes: a little-endian header,
    zero filler and one byte stamped with the fragment number. */
module Fragments {
  import opened Common
  import opened Arithmetic
  import opened Bytes

  datatype Impl = Rust | Go | Nim

  /** What a publisher fixes before its fragment loop. `id` is only written by the Nim node;
      `len` is the length of one whole fragment. */
  datatype Message = Message(ts: U64, id: U64, len: nat)

  function HeaderLength(impl: Impl): nat {
    if impl.Nim? then 16 else 8
  }

  function Header(impl: Impl, m: Message): (h: seq<Byte>)
    ensures |h| == HeaderLength(impl)
  {
    if impl.Nim? then ToLittleEndian(m.ts, 8) + ToLittleEndian(m.id, 8) else ToLittleEndian(m.ts, 8)
  }

  /** The byte that carries the fragment number. */
  function StampIndex(impl: Impl): nat {
    if impl.Nim? then 16 else 10
  }

  /** Messages the node's publish routine can send without a bounds failure. Only Rust guards
      the stamp with a length test; the other two index it unconditionally. */
  predicate Sendable(impl: Impl, m: Message) {
    match impl
    case Rust => HeaderLength(impl) <= m.len && m.id == 0
    case Go => StampIndex(impl) < m.len && m.id == 0
    case Nim => StampIndex(impl) < m.len
  }

  function Payload(impl: Impl, m: Message, k: nat): (p: seq<Byte>)
    requires Sendable(impl, m)
    ensures |p| == m.len
  {
    var h := Header(impl, m);
    seq(m.len, i requires 0 <= i < m.len =>
      if i < |h| then h[i] else if i == StampIndex(impl) then k % 256 else 0)
  }

  /** Behind the header a fragment is zero, except for its number in byte 10, or 16 for Nim. */
  lemma PayloadBytes(impl: Impl, m: Message, k: nat, i: nat)
    requires Sendable(impl, m) && (if impl.Nim? then 16 else 8) <= i < m.len
    ensures Payload(impl, m, k)[i] == if i == (if impl.Nim? then 16 else 10) then k % 256 else 0
  {
    assert i >= HeaderLength(impl) == |Header(impl, m)|;
    assert i == StampIndex(impl) <==> i == if impl.Nim? then 16 else 10;
  }

  /** The stamp never overlaps the header. */
  lemma HeaderIsPrefix(impl: Impl, m: Message, k: nat)
    requires Sendable(impl, m)
    ensures Payload(impl, m, k)[..HeaderLength(impl)] == Header(impl, m)
  {
  }

  /** The receiver reads back what the publisher wrote, whatever the fragment number. */
  lemma HeaderRoundTrip(impl: Impl, m: Message, k: nat)
    requires Sendable(impl, m)
    ensures |Payload(impl, m, k)| >= HeaderLength(impl)
    ensures Word(Payload(impl, m, k), 0) == m.ts
    ensures impl.Nim? ==> Word(Payload(impl, m, k), 8) == m.id
  {
    var p, h := Payload(impl, m, k), Header(impl, m);
    HeaderIsPrefix(impl, m, k);
    assert p[0..8] == p[..HeaderLength(impl)][..8];
    assert h[..8] == ToLittleEndian(m.ts, 8);
    Word64(m.ts);
    if impl.Nim? {
      assert p[8..16] == p[..HeaderLength(impl)][8..16];
      assert h[8..16] == ToLittleEndian(m.id, 8);
      Word64(m.id);
    }
  }

  /** One message never produces the bytes of another. */
  lemma PayloadNamesMessage(impl: Impl, m: Message, k: nat, m': Message, k': nat)
    requires Sendable(impl, m) && Sendable(impl, m')
    requires Payload(impl, m, k) == Payload(impl, m', k')
    ensures m == m'
  {
    HeaderRoundTrip(impl, m, k);
    HeaderRoundTrip(impl, m', k');
  }

  /** Whether the stamp really lands inside a fragment of this message. */
  predicate Stamped(impl: Impl, m: Message) {
    StampIndex(impl) < m.len
  }

  lemma PayloadNamesFragment(impl: Impl, m: Message, k: nat, k': nat)
    requires Sendable(impl, m)
    ensures Payload(impl, m, k) == Payload(impl, m, k') <==> (Stamped(impl, m) ==> k % 256 == k' % 256)
  {
    var p, p' := Payload(impl, m, k), Payload(impl, m, k');
    if Stamped(impl, m) {
      assert p[StampIndex(impl)] == k % 256;
      assert p'[StampIndex(impl)] == k' % 256;
    }
  }

  // ----- how many different payloads a message has -----

  function Payloads(impl: Impl, m: Message, chunks: nat): set<seq<Byte>>
    requires Sendable(impl, m)
  {
    set k: nat | 0 <= k < chunks :: Payload(impl, m, k)
  }

  /** After how many fragments the payloads of a message start to repeat. */
  function Period(impl: Impl, m: Message): nat {
    if Stamped(impl, m) then 256 else 1
  }

  lemma RepeatsAfterPeriod(impl: Impl, m: Message, k: nat)
    requires Sendable(impl, m)
    ensures Payload(impl, m, k) in Payloads(impl, m, k) <==> Period(impl, m) <= k
  {
    if Period(impl, m) <= k {
      var j: nat := k - Period(impl, m);
      PayloadNamesFragment(impl, m, k, j);
      assert Payload(impl, m, j) in Payloads(impl, m, k);
    } else if Payload(impl, m, k) in Payloads(impl, m, k) {
      var j: nat :| j < k && Payload(impl, m, k) == Payload(impl, m, j);
      PayloadNamesFragment(impl, m, k, j);
    }
  }

  lemma NextPayload(impl: Impl, m: Message, n: nat)
    requires Sendable(impl, m)
    ensures Payloads(impl, m, n + 1) == Payloads(impl, m, n) + {Payload(impl, m, n)}
  {
  }

  /** With a stamp the payloads wrap around after 256 fragments; without one they are all equal. */
  lemma {:induction false} DistinctPayloads(impl: Impl, m: Message, chunks: nat)
    requires Sendable(impl, m)
    ensures |Payloads(impl, m, chunks)| == Min(chunks, Period(impl, m))
  {
    if chunks == 0 {
      assert Payloads(impl, m, 0) == {};
    } else {
      DistinctPayloads(impl, m, chunks - 1);
      RepeatsAfterPeriod(impl, m, chunks - 1);
      NextPayload(impl, m, chunks - 1);
    }
  }

  /** All fragments of the message differ: the exact condition for it to be reassembled. */
  predicate Whole(impl: Impl, m: Message, chunks: nat) {
    chunks == 1 || (chunks <= 256 && Stamped(impl, m))
  }

  lemma WholeIffAllDifferent(impl: Impl, m: Message, chunks: nat)
    requires Sendable(impl, m) && chunks >= 1
    ensures Whole(impl, m, chunks) <==> |Payloads(impl, m, chunks)| == chunks
  {
    DistinctPayloads(impl, m, chunks);
  }

  // ----- byte totals -----

  function TotalBytes(ps: seq<seq<Byte>>): nat {
    if ps == [] then 0 else TotalBytes(ps[..|ps| - 1]) + |ps[|ps| - 1]|
  }

  /** The first n fragments, in the order of the publish loop. */
  function FirstFragments(impl: Impl, m: Message, n: nat): (ps: seq<seq<Byte>>)
    requires Sendable(impl, m)
    ensures |ps| == n
  {
    seq(n, k requires 0 <= k < n => Payload(impl, m, k))
  }

  lemma NextFragment(impl: Impl, m: Message, n: nat)
    requires Sendable(impl, m)
    ensures FirstFragments(impl, m, n + 1) == FirstFragments(impl, m, n) + [Payload(impl, m, n)]
  {
  }

  lemma {:induction false} FragmentBytes(impl: Impl, m: Message, n: nat)
    requires Sendable(impl, m)
    ensures TotalBytes(FirstFragments(impl, m, n)) == n * m.len
  {
    if n > 0 {
      FragmentBytes(impl, m, n - 1);
      NextFragment(impl, m, n - 1);
      assert FirstFragments(impl, m, n)[..n - 1] == FirstFragments(impl, m, n - 1);
      assert TotalBytes(FirstFragments(impl, m, n)) == (n - 1) * m.len + m.len;
      NextMultiple(n - 1, m.len);
    }
  }
}
