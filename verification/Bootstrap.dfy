/** The bootstrap dialers of the Nim nodes: retries with a doubling, capped pause. Times are
    seconds. */
module Bootstrap {
  import opened Common

  type Address = string
  type PeerId = string

  const ATTEMPTS: nat := 10
  const DIAL_TIMEOUT: nat := 10
  const MAX_BACKOFF: nat := 30
  const RESOLVE_ATTEMPTS: nat := 20
  const RESOLVE_PAUSE: nat := 5

  datatype Outcome = Connected(peer: PeerId) | Failed | Cancelled

  /** What the network does: the outcome and the duration of attempt k at candidate i. */
  datatype World = World(outcome: (nat, nat) -> Outcome, duration: (nat, nat) -> nat)

  /** A dial is cut off by its timeout. */
  ghost predicate InTime(w: World) {
    forall i, k :: w.duration(i, k) <= DIAL_TIMEOUT
  }

  datatype Bootstrapped = Bootstrapped(peer: PeerId, address: Address)

  datatype Result = Ok(bootstraps: seq<Bootstrapped>) | Err | Raised

  // ----- one candidate -----

  function PowerOfTwo(n: nat): nat {
    if n == 0 then 1 else 2 * PowerOfTwo(n - 1)
  }

  /** The pause after the k-th failed attempt. */
  function Wait(k: nat): nat
    requires k >= 1
  {
    Min(PowerOfTwo(k - 1), MAX_BACKOFF)
  }

  /** The pauses after the first n failures, together. */
  function Waits(n: nat): nat {
    if n == 0 then 0 else Waits(n - 1) + Wait(n)
  }

  lemma BackoffDoubles(k: nat)
    requires k >= 1
    ensures Wait(1) == 1
    ensures Wait(k + 1) == Min(Wait(k) * 2, MAX_BACKOFF)
  {
    assert PowerOfTwo(k) == 2 * PowerOfTwo(k - 1);
  }

  lemma TenWaits()
    ensures Waits(10) == 181
  {
    assert Waits(3) == 7;
    assert Wait(4) == 8 && Wait(5) == 16 && Wait(6) == 30 by {
      assert PowerOfTwo(3) == 8 && PowerOfTwo(4) == 16 && PowerOfTwo(5) == 32;
    }
    assert Wait(7) == 30 by { BackoffDoubles(6); }
    assert Wait(8) == 30 by { BackoffDoubles(7); }
    assert Wait(9) == 30 by { BackoffDoubles(8); }
    assert Wait(10) == 30 by { BackoffDoubles(9); }
    assert Waits(6) == 7 + 8 + 16 + 30;
    assert Waits(8) == 61 + 30 + 30;
    assert Waits(10) == 121 + 30 + 30;
  }

  lemma {:induction false} WaitsGrow(m: nat, n: nat)
    requires m <= n
    ensures Waits(m) <= Waits(n)
  {
    if m < n {
      WaitsGrow(m, n - 1);
    }
  }

  predicate Retried(w: World, catchesCancel: bool, i: nat, k: nat) {
    w.outcome(i, k).Failed? || (catchesCancel && w.outcome(i, k).Cancelled?)
  }

  /** First attempt at candidate i that is decided, or ATTEMPTS + 1. An error always leads to
      another attempt; a cancellation does so only in the dialer that catches it. */
  ghost predicate DecidedAt(w: World, catchesCancel: bool, i: nat, k: nat) {
    && 1 <= k <= ATTEMPTS + 1
    && (forall a: nat :: 1 <= a < k ==> Retried(w, catchesCancel, i, a))
    && (k <= ATTEMPTS ==> !Retried(w, catchesCancel, i, k))
  }

  /** Time spent inside the first n dials of candidate i. */
  function DialTime(w: World, i: nat, n: nat): nat {
    if n == 0 then 0 else DialTime(w, i, n - 1) + w.duration(i, n)
  }

  /** Dials and pauses of a candidate that was decided at attempt k. */
  function CandidateTime(w: World, i: nat, k: nat): nat
    requires k >= 1
  {
    DialTime(w, i, k - 1) + Waits(k - 1) + if k <= ATTEMPTS then w.duration(i, k) else 0
  }

  lemma {:induction false} DialTimeBound(w: World, i: nat, n: nat)
    requires InTime(w)
    ensures DialTime(w, i, n) <= DIAL_TIMEOUT * n
    ensures DialTime(w, i, n) == DIAL_TIMEOUT * n <==> forall a: nat :: 1 <= a <= n ==> w.duration(i, a) == 10
  {
    if n > 0 {
      DialTimeBound(w, i, n - 1);
    }
  }

  lemma CandidateTimeFits(w: World, i: nat, k: nat)
    requires InTime(w) && 1 <= k <= ATTEMPTS + 1
    ensures CandidateTime(w, i, k) <= 281
    ensures k <= ATTEMPTS ==> CandidateTime(w, i, k) < 281
  {
    TenWaits();
    DialTimeBound(w, i, Min(k, ATTEMPTS));
    WaitsGrow(k - 1, ATTEMPTS);
    if k <= ATTEMPTS {
      WaitsGrow(k - 1, ATTEMPTS - 1);
      assert Waits(ATTEMPTS) == Waits(ATTEMPTS - 1) + Wait(ATTEMPTS);
    }
  }

  /** A candidate costs at most 281 seconds, and exactly that when all ten dials time out. */
  lemma CandidateTimeBound(w: World, i: nat, k: nat)
    requires InTime(w) && 1 <= k <= ATTEMPTS + 1
    ensures CandidateTime(w, i, k) <= 281
    ensures CandidateTime(w, i, k) == 281 <==> k == 11 && forall a: nat :: 1 <= a <= 10 ==> w.duration(i, a) == 10
  {
    CandidateTimeFits(w, i, k);
    TenWaits();
    DialTimeBound(w, i, ATTEMPTS);
  }

  /** The attempt that decides candidate i connects, or is cancelled and passed on. */
  ghost predicate Answers(w: World, catchesCancel: bool, i: nat, k: nat) {
    DecidedAt(w, catchesCancel, i, k) && k <= ATTEMPTS && w.outcome(i, k).Connected?
  }

  ghost predicate Raises(w: World, catchesCancel: bool, i: nat) {
    exists k: nat :: DecidedAt(w, catchesCancel, i, k) && k <= ATTEMPTS && w.outcome(i, k).Cancelled?
  }

  /** The peer candidate i answers with, if it answers before it is given up. */
  ghost function Answer(w: World, catchesCancel: bool, i: nat): Option<PeerId> {
    if exists k: nat :: Answers(w, catchesCancel, i, k) then
      var k: nat :| Answers(w, catchesCancel, i, k);
      Some(w.outcome(i, k).peer)
    else None
  }

  lemma FirstDecided(w: World, catchesCancel: bool, i: nat) returns (k: nat)
    ensures DecidedAt(w, catchesCancel, i, k)
  {
    k := 1;
    while k <= ATTEMPTS && Retried(w, catchesCancel, i, k)
      invariant 1 <= k <= ATTEMPTS + 1
      invariant forall a: nat :: 1 <= a < k ==> Retried(w, catchesCancel, i, a)
    {
      k := k + 1;
    }
  }

  lemma DecidedOnce(w: World, catchesCancel: bool, i: nat, k: nat, k': nat)
    requires DecidedAt(w, catchesCancel, i, k) && DecidedAt(w, catchesCancel, i, k')
    ensures k == k'
  {
  }

  lemma AnswerOf(w: World, catchesCancel: bool, i: nat, k: nat)
    requires DecidedAt(w, catchesCancel, i, k)
    ensures Answer(w, catchesCancel, i) ==
            if k <= ATTEMPTS && w.outcome(i, k).Connected? then Some(w.outcome(i, k).peer) else None
    ensures Raises(w, catchesCancel, i) <==> k <= ATTEMPTS && w.outcome(i, k).Cancelled?
  {
    if k <= ATTEMPTS && w.outcome(i, k).Connected? {
      assert Answers(w, catchesCancel, i, k);
    }
    if exists k': nat :: Answers(w, catchesCancel, i, k') {
      var k': nat :| Answers(w, catchesCancel, i, k') && Answer(w, catchesCancel, i) == Some(w.outcome(i, k').peer);
      DecidedOnce(w, catchesCancel, i, k, k');
    }
    if Raises(w, catchesCancel, i) {
      var k': nat :| DecidedAt(w, catchesCancel, i, k') && k' <= ATTEMPTS && w.outcome(i, k').Cancelled?;
      DecidedOnce(w, catchesCancel, i, k, k');
    }
  }

  /** Among the ten attempts at candidate i the k-th is the first that neither failed nor, in the
      dialer that catches it, was cancelled. */
  ghost predicate FirstToCount(w: World, catchesCancel: bool, i: nat, k: nat) {
    && 1 <= k <= 10
    && (forall a: nat :: 1 <= a < k ==> w.outcome(i, a).Failed? || (catchesCancel && w.outcome(i, a).Cancelled?))
    && !w.outcome(i, k).Failed? && !(catchesCancel && w.outcome(i, k).Cancelled?)
  }

  /** In terms of the network alone: a candidate answers with the peer of that attempt, or raises
      if it was cancelled. */
  lemma AnswerIff(w: World, catchesCancel: bool, i: nat, peer: PeerId)
    ensures Answer(w, catchesCancel, i) == Some(peer) <==>
            exists k: nat :: FirstToCount(w, catchesCancel, i, k) && w.outcome(i, k) == Connected(peer)
    ensures Raises(w, catchesCancel, i) <==>
            exists k: nat :: FirstToCount(w, catchesCancel, i, k) && w.outcome(i, k) == Cancelled
  {
    var k := FirstDecided(w, catchesCancel, i);
    AnswerOf(w, catchesCancel, i, k);
    forall a: nat | 1 <= a < k ensures w.outcome(i, a).Failed? || (catchesCancel && w.outcome(i, a).Cancelled?) {
      assert Retried(w, catchesCancel, i, a);
    }
    assert k <= ATTEMPTS ==> FirstToCount(w, catchesCancel, i, k);
    forall k': nat | FirstToCount(w, catchesCancel, i, k') ensures k' == k {
      assert forall a: nat :: 1 <= a < k' ==> Retried(w, catchesCancel, i, a);
      assert DecidedAt(w, catchesCancel, i, k');
      DecidedOnce(w, catchesCancel, i, k, k');
    }
  }

  /** The inner retry loop, for both dialers: `elapsed` covers dials and pauses. */
  method DialCandidate(w: World, catchesCancel: bool, i: nat)
    returns (peer: Option<PeerId>, raised: bool, elapsed: nat, ghost decided: nat)
    requires InTime(w)
    ensures peer == Answer(w, catchesCancel, i)
    ensures raised <==> Raises(w, catchesCancel, i)
    ensures DecidedAt(w, catchesCancel, i, decided) && elapsed == CandidateTime(w, i, decided)
    ensures elapsed <= 281
  {
    var backoff := 1;
    var attempt := 1;
    peer, raised, elapsed := None, false, 0;
    while attempt <= ATTEMPTS && Retried(w, catchesCancel, i, attempt)
      invariant 1 <= attempt <= ATTEMPTS + 1
      invariant forall a: nat :: 1 <= a < attempt ==> Retried(w, catchesCancel, i, a)
      invariant backoff == Wait(attempt)
      invariant elapsed == DialTime(w, i, attempt - 1) + Waits(attempt - 1)
    {
      elapsed := elapsed + w.duration(i, attempt) + backoff;
      BackoffDoubles(attempt);
      backoff := Min(backoff * 2, MAX_BACKOFF);
      attempt := attempt + 1;
    }
    if attempt <= ATTEMPTS {
      elapsed := elapsed + w.duration(i, attempt);
      if w.outcome(i, attempt).Connected? {
        peer := Some(w.outcome(i, attempt).peer);
      } else {
        raised := true;
      }
    }
    decided := attempt;
    CandidateTimeFits(w, i, attempt);
    AnswerOf(w, catchesCancel, i, attempt);
  }

  // ----- all candidates -----

  /** The answering candidates among the first n, in order. */
  ghost function Answering(w: World, catchesCancel: bool, addrs: seq<Address>, n: nat): seq<Bootstrapped>
    requires n <= |addrs|
  {
    if n == 0 then []
    else Answering(w, catchesCancel, addrs, n - 1) +
         match Answer(w, catchesCancel, n - 1)
         case Some(peer) => [Bootstrapped(peer, addrs[n - 1])]
         case None => []
  }

  /** connectToBootstraps, after the service has been resolved to `addrs`. `tried` is how many
      candidates were dialled. */
  method ConnectToBootstraps(w: World, addrs: seq<Address>, maxConnections: int)
    returns (r: Result, tried: nat, elapsed: nat)
    requires InTime(w)
    ensures maxConnections <= 0 ==> r == Err && tried == 0
    ensures tried <= |addrs| && elapsed <= 281 * tried
    ensures maxConnections > 0 ==>
              var found := Answering(w, true, addrs, tried);
              && |found| <= maxConnections
              && (tried < |addrs| ==> |found| == maxConnections)
              && r == if found == [] then Err else Ok(found)
  {
    tried, elapsed := 0, 0;
    if maxConnections <= 0 {
      return Err, tried, elapsed;
    }
    var bootstraps: seq<Bootstrapped> := [];
    while tried < |addrs|
      invariant tried <= |addrs| && elapsed <= 281 * tried
      invariant bootstraps == Answering(w, true, addrs, tried) && |bootstraps| <= maxConnections
    {
      if |bootstraps| >= maxConnections {
        break;
      }
      var peer, raised, time, _ := DialCandidate(w, true, tried);
      if peer.Some? {
        bootstraps := bootstraps + [Bootstrapped(peer.value, addrs[tried])];
      }
      elapsed := elapsed + time;
      tried := tried + 1;
    }
    r := if bootstraps == [] then Err else Ok(bootstraps);
  }

  predicate Unresolved(resolve: nat -> Option<seq<Address>>, k: nat) {
    resolve(k) == None || resolve(k) == Some([])
  }

  ghost predicate FirstResolved(resolve: nat -> Option<seq<Address>>, k: nat) {
    && 1 <= k <= RESOLVE_ATTEMPTS
    && (forall a: nat :: 1 <= a < k ==> Unresolved(resolve, a))
    && !Unresolved(resolve, k)
  }

  /** The resolve stage of the regression node: a pause after every try that yields nothing. */
  method ResolveBootstrapAddrs(resolve: nat -> Option<seq<Address>>) returns (addrs: seq<Address>, paused: nat)
    ensures addrs == [] <==> forall k: nat :: 1 <= k <= 20 ==> resolve(k) == None || resolve(k) == Some([])
    ensures addrs != [] ==>
              exists k: nat :: FirstResolved(resolve, k) && resolve(k) == Some(addrs) && paused == RESOLVE_PAUSE * (k - 1)
    ensures addrs == [] ==> paused == 100
  {
    addrs, paused := [], 0;
    for attempt := 1 to RESOLVE_ATTEMPTS + 1
      invariant addrs == [] && paused == RESOLVE_PAUSE * (attempt - 1)
      invariant forall k: nat :: 1 <= k < attempt ==> Unresolved(resolve, k)
    {
      match resolve(attempt) {
        case None =>
        case Some(found) =>
          addrs := found;
          if addrs != [] {
            assert FirstResolved(resolve, attempt);
            return;
          }
      }
      paused := paused + RESOLVE_PAUSE;
    }
    forall k: nat | 1 <= k <= 20 ensures resolve(k) == None || resolve(k) == Some([]) {
      assert Unresolved(resolve, k);
    }
  }

  /** The dial stage of the regression node: no cap on the number of bootstraps. */
  method DialAll(w: World, addrs: seq<Address>) returns (r: Result, elapsed: nat)
    requires InTime(w)
    ensures elapsed <= 281 * |addrs|
    ensures r.Raised? <==> exists i: nat :: i < |addrs| && Raises(w, false, i)
    ensures !r.Raised? ==>
              var found := Answering(w, false, addrs, |addrs|);
              r == if found == [] then Err else Ok(found)
  {
    var bootstraps: seq<Bootstrapped> := [];
    elapsed := 0;
    for i := 0 to |addrs|
      invariant elapsed <= 281 * i
      invariant bootstraps == Answering(w, false, addrs, i)
      invariant forall j: nat :: j < i ==> !Raises(w, false, j)
    {
      var peer, raised, time, _ := DialCandidate(w, false, i);
      elapsed := elapsed + time;
      if raised {
        return Raised, elapsed;
      }
      if peer.Some? {
        bootstraps := bootstraps + [Bootstrapped(peer.value, addrs[i])];
      }
    }
    r := if bootstraps == [] then Err else Ok(bootstraps);
  }

  /** connectToBootstrap of the regression node: resolve with up to twenty tries, then dial every
      candidate. A cancellation is passed on to the caller. `elapsed` covers the pauses and the
      dials. */
  method ConnectToBootstrap(w: World, resolve: nat -> Option<seq<Address>>)
    returns (r: Result, addrs: seq<Address>, elapsed: nat)
    requires InTime(w)
    ensures elapsed <= 100 + 281 * |addrs|
    ensures addrs == [] <==> forall k: nat :: 1 <= k <= 20 ==> resolve(k) == None || resolve(k) == Some([])
    ensures addrs != [] ==> exists k: nat :: FirstResolved(resolve, k) && resolve(k) == Some(addrs)
    ensures r.Raised? <==> exists i: nat :: i < |addrs| && Raises(w, false, i)
    ensures !r.Raised? ==>
              var found := Answering(w, false, addrs, |addrs|);
              r == if found == [] then Err else Ok(found)
  {
    addrs, elapsed := ResolveBootstrapAddrs(resolve);
    if addrs == [] {
      r := Err;
    } else {
      var dialling;
      r, dialling := DialAll(w, addrs);
      elapsed := elapsed + dialling;
    }
  }

  /** The answering candidates keep their order: the j-th one is the candidate at an index that
      grows with j, and every candidate left out gave no answer. */
  lemma {:induction false} AnsweringIsInOrder(w: World, catchesCancel: bool, addrs: seq<Address>, n: nat)
    returns (index: seq<nat>)
    requires n <= |addrs|
    ensures var found := Answering(w, catchesCancel, addrs, n);
            && |index| == |found|
            && (forall j, j' :: 0 <= j < j' < |index| ==> index[j] < index[j'])
            && (forall j :: 0 <= j < |index| ==>
                  && index[j] < n
                  && found[j].address == addrs[index[j]]
                  && Answer(w, catchesCancel, index[j]) == Some(found[j].peer))
            && (forall i: nat :: i < n && i !in index ==> Answer(w, catchesCancel, i) == None)
  {
    index := [];
    if n > 0 {
      index := AnsweringIsInOrder(w, catchesCancel, addrs, n - 1);
      if Answer(w, catchesCancel, n - 1).Some? {
        index := index + [n - 1];
      }
    }
  }

  /** None of the allowed attempts at candidate i would connect. */
  ghost predicate NoAnswer(w: World, i: nat) {
    forall k: nat :: 1 <= k <= ATTEMPTS ==> !w.outcome(i, k).Connected?
  }

  lemma SilentIff(w: World, i: nat)
    ensures NoAnswer(w, i) <==> Answer(w, true, i) == None
  {
    var k := FirstDecided(w, true, i);
    AnswerOf(w, true, i, k);
    if k <= ATTEMPTS {
      assert w.outcome(i, k).Connected?;
    } else {
      forall a: nat | 1 <= a <= ATTEMPTS ensures !w.outcome(i, a).Connected? {
        assert Retried(w, true, i, a);
      }
    }
  }

  /** Nothing is returned exactly when no attempt at any of the candidates connects. */
  lemma NoneAnswersIff(w: World, addrs: seq<Address>, n: nat)
    requires n <= |addrs|
    ensures Answering(w, true, addrs, n) == []
            <==> forall i: nat :: i < n ==> NoAnswer(w, i)
  {
    var index := AnsweringIsInOrder(w, true, addrs, n);
    forall i: nat | i < n ensures NoAnswer(w, i) <==> Answer(w, true, i) == None {
      SilentIff(w, i);
    }
    if Answering(w, true, addrs, n) != [] {
      assert Answer(w, true, index[0]).Some?;
    }
  }
}
