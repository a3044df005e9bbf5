/** How a node picks and dials its initial gossipsub peers. */
module Dialing {
  import opened Common

  // ----- the pool of candidates in the simulator -----

  ghost predicate IsShuffle(shuffle: seq<int> -> seq<int>) {
    forall s :: multiset(shuffle(s)) == multiset(s)
  }

  lemma TwiceIsTwo(s: seq<int>, i: nat, j: nat)
    requires i < j < |s| && s[i] == s[j]
    ensures multiset(s)[s[i]] >= 2
  {
    assert s == s[..j] + s[j..];
    assert s[..j][i] == s[i] && s[j..][0] == s[i];
    assert s[i] in multiset(s[..j]) && s[i] in multiset(s[j..]);
  }

  lemma {:induction false} OnceIsOne(s: seq<int>, x: int)
    requires forall j, k :: 0 <= j < k < |s| ==> s[j] != s[k]
    ensures multiset(s)[x] <= 1
  {
    if s != [] {
      var front, last := s[..|s| - 1], s[|s| - 1];
      OnceIsOne(front, x);
      assert s == front + [last];
      assert last !in front;
    }
  }

  lemma ShuffleKeeps(numbers: seq<int>, shuffled: seq<int>)
    requires multiset(shuffled) == multiset(numbers)
    requires forall j, k :: 0 <= j < k < |numbers| ==> numbers[j] != numbers[k]
    ensures |shuffled| == |numbers|
    ensures forall id :: id in shuffled <==> id in numbers
    ensures forall i, j :: 0 <= i < j < |shuffled| ==> shuffled[i] != shuffled[j]
  {
    assert |multiset(shuffled)| == |multiset(numbers)|;
    forall id ensures id in shuffled <==> id in numbers {
      assert id in multiset(shuffled) <==> id in multiset(numbers);
    }
    forall i, j | 0 <= i < j < |shuffled| ensures shuffled[i] != shuffled[j] {
      if shuffled[i] == shuffled[j] {
        TwiceIsTwo(shuffled, i, j);
        OnceIsOne(numbers, shuffled[i]);
      }
    }
  }

  /** The pod numbers to try: everyone but the node itself, shuffled, cut to twice the target. */
  method BuildPool(networkSize: nat, myId: int, connectTo: int, shuffle: seq<int> -> seq<int>)
    returns (pool: seq<int>, ghost others: seq<int>)
    requires IsShuffle(shuffle)
    ensures forall j, k :: 0 <= j < k < |others| ==> others[j] < others[k]
    ensures forall id :: id in others <==> 0 <= id < networkSize && id != myId
    ensures |shuffle(others)| == |others|
    ensures pool == shuffle(others)[..Max(0, Min(2 * connectTo, |others|))]
    ensures forall id :: id in pool ==> 0 <= id < networkSize && id != myId
    ensures forall i, j :: 0 <= i < j < |pool| ==> pool[i] != pool[j]
    ensures |pool| == Max(0, Min(2 * connectTo, if 0 <= myId < networkSize then networkSize - 1 else networkSize))
  {
    var numbers: seq<int> := [];
    for i := 0 to networkSize
      invariant forall id :: id in numbers <==> 0 <= id < i && id != myId
      invariant forall j :: 0 <= j < |numbers| ==> numbers[j] < i
      invariant forall j, k :: 0 <= j < k < |numbers| ==> numbers[j] < numbers[k]
      invariant |numbers| == if 0 <= myId < i then i - 1 else i
    {
      if i != myId {
        numbers := numbers + [i];
      }
    }
    var shuffled := shuffle(numbers);
    ShuffleKeeps(numbers, shuffled);
    others := numbers;
    var limit := Max(0, Min(connectTo * 2, |shuffled|));
    pool := shuffled[..limit];
    forall id | id in pool ensures 0 <= id < networkSize && id != myId {
      assert id in shuffled;
    }
  }

  /** The pool holds enough pods for the target exactly when the target is below the network
      size, the check that the Rust and Nim nodes make at start-up and the Go node does not. */
  lemma PoolIsEnoughIff(networkSize: nat, myId: int, connectTo: nat)
    requires 0 <= myId < networkSize
    ensures Max(0, Min(2 * connectTo, networkSize - 1)) >= connectTo <==> connectTo < networkSize
  {
  }

  // ----- the dial loops -----

  function Successes(dials: seq<bool>): nat {
    if dials == [] then 0 else Successes(dials[..|dials| - 1]) + if dials[|dials| - 1] then 1 else 0
  }

  lemma {:induction false} SuccessesAreCounted(dials: seq<bool>)
    ensures Successes(dials) == multiset(dials)[true]
  {
    if dials != [] {
      SuccessesAreCounted(dials[..|dials| - 1]);
      assert dials == dials[..|dials| - 1] + [dials[|dials| - 1]];
    }
  }

  lemma SuccessesNext(dials: seq<bool>, n: nat)
    requires n < |dials|
    ensures Successes(dials[..n + 1]) == Successes(dials[..n]) + if dials[n] then 1 else 0
  {
    assert dials[..n + 1][..n] == dials[..n];
  }

  /** `tried` dials were made: all of them, or just enough for `quota` successes. */
  ghost predicate ShortestPrefix(dials: seq<bool>, quota: int, tried: nat, connected: nat) {
    && tried <= |dials|
    && connected == Successes(dials[..tried])
    && (forall n :: 0 <= n < tried ==> Successes(dials[..n]) < quota)
    && (tried < |dials| ==> connected >= quota)
  }

  lemma {:induction false} SuccessesGrow(dials: seq<bool>, n: nat, m: nat)
    requires n <= m <= |dials|
    ensures Successes(dials[..n]) <= Successes(dials[..m]) <= Successes(dials[..n]) + (m - n)
  {
    if n < m {
      SuccessesGrow(dials, n, m - 1);
      SuccessesNext(dials, m - 1);
    }
  }

  /** Stopping after the shortest sufficient prefix reaches the quota, or every success there is. */
  lemma PrefixReaches(dials: seq<bool>, quota: int, tried: nat, connected: nat)
    requires ShortestPrefix(dials, quota, tried, connected)
    ensures connected == Min(Successes(dials), Max(quota, 0))
  {
    assert dials[..|dials|] == dials;
    SuccessesGrow(dials, tried, |dials|);
    if tried > 0 {
      SuccessesNext(dials, tried - 1);
      assert Successes(dials[..tried - 1]) < quota;
    }
  }

  /** Go: the loop breaks when `connected > connectTo`. */
  method DialGo(connectTo: int, dials: seq<bool>) returns (connected: nat, tried: nat)
    ensures ShortestPrefix(dials, connectTo + 1, tried, connected)
    ensures connected == Min(Successes(dials), Max(connectTo + 1, 0))
  {
    connected, tried := 0, 0;
    while tried < |dials|
      invariant tried <= |dials|
      invariant connected == Successes(dials[..tried])
      invariant forall n :: 0 <= n < tried ==> Successes(dials[..n]) < connectTo + 1
    {
      if connected > connectTo {
        break;
      }
      SuccessesNext(dials, tried);
      if dials[tried] {
        connected := connected + 1;
      }
      tried := tried + 1;
    }
    PrefixReaches(dials, connectTo + 1, tried, connected);
  }

  /** The target of the Rust loop after the cast to u32. */
  function AsU32(n: nat): (u: nat)
    ensures u < 0x1_0000_0000 && (n - u) % 0x1_0000_0000 == 0
    ensures n < 0x1_0000_0000 ==> u == n
  {
    n % 0x1_0000_0000
  }

  /** Rust: the same break test, on the target cast to u32; no connection at all is an error. */
  method DialRust(connectTo: nat, dials: seq<bool>) returns (r: Option<nat>, tried: nat)
    ensures r.None? <==> Successes(dials) == 0
    ensures ShortestPrefix(dials, AsU32(connectTo) + 1, tried, if r.Some? then r.value else 0)
    ensures r.Some? ==> r.value == Min(Successes(dials), AsU32(connectTo) + 1)
  {
    var connected := 0;
    tried := 0;
    while tried < |dials|
      invariant tried <= |dials|
      invariant connected == Successes(dials[..tried])
      invariant forall n :: 0 <= n < tried ==> Successes(dials[..n]) < AsU32(connectTo) + 1
    {
      if connected > AsU32(connectTo) {
        break;
      }
      SuccessesNext(dials, tried);
      if dials[tried] {
        connected := connected + 1;
      }
      tried := tried + 1;
    }
    PrefixReaches(dials, AsU32(connectTo) + 1, tried, connected);
    r := if connected == 0 then None else Some(connected);
  }

  /** Nim: the loop breaks when `connected >= connectTo`. */
  method DialNim(connectTo: int, dials: seq<bool>) returns (r: Option<nat>, tried: nat)
    ensures r.None? <==> Successes(dials) == 0 || connectTo <= 0
    ensures ShortestPrefix(dials, connectTo, tried, if r.Some? then r.value else 0)
    ensures r.Some? ==> r.value == Min(Successes(dials), connectTo)
  {
    var connected := 0;
    tried := 0;
    while tried < |dials|
      invariant tried <= |dials|
      invariant connected == Successes(dials[..tried])
      invariant forall n :: 0 <= n < tried ==> Successes(dials[..n]) < connectTo
    {
      if connected >= connectTo {
        break;
      }
      SuccessesNext(dials, tried);
      if dials[tried] {
        connected := connected + 1;
      }
      tried := tried + 1;
    }
    PrefixReaches(dials, connectTo, tried, connected);
    r := if connected == 0 then None else Some(connected);
  }

  // ----- from the pool to the target -----

  function Flatten<A>(lists: seq<seq<A>>): seq<A> {
    if lists == [] then [] else Flatten(lists[..|lists| - 1]) + lists[|lists| - 1]
  }

  lemma {:induction false} FlattenIsLong<A>(lists: seq<seq<A>>)
    requires forall i :: 0 <= i < |lists| ==> |lists[i]| >= 1
    ensures |Flatten(lists)| >= |lists|
  {
    if lists != [] {
      FlattenIsLong(lists[..|lists| - 1]);
    }
  }

  lemma {:induction false} AllSucceed(dials: seq<bool>)
    requires forall i :: 0 <= i < |dials| ==> dials[i]
    ensures Successes(dials) == |dials|
  {
    if dials != [] {
      AllSucceed(dials[..|dials| - 1]);
    }
  }

  /** When every pod of the pool resolves to some address and every dial works, Nim and Go nodes
      reach the target, and a Rust node does exactly if the target survives the cast to u32.
      results[i] are the dial outcomes of the addresses of pod i. */
  lemma TargetIsReached(networkSize: nat, myId: int, connectTo: nat, results: seq<seq<bool>>, dials: seq<bool>)
    requires 0 <= myId < networkSize && connectTo < networkSize
    requires |results| == Max(0, Min(2 * connectTo, networkSize - 1))
    requires forall i :: 0 <= i < |results| ==> |results[i]| >= 1
    requires multiset(dials) == multiset(Flatten(results)) && forall i :: 0 <= i < |dials| ==> dials[i]
    ensures Min(Successes(dials), connectTo) == connectTo
    ensures Min(Successes(dials), connectTo + 1) >= connectTo
    ensures Min(Successes(dials), AsU32(connectTo) + 1) >= connectTo <==> connectTo < 0x1_0000_0000
  {
    PoolIsEnoughIff(networkSize, myId, connectTo);
    FlattenIsLong(results);
    AllSucceed(dials);
    assert |multiset(dials)| == |multiset(Flatten(results))|;
  }

  /** A target of 2^32 is cast to zero, and one connection is enough for it. */
  lemma RustStopsAtOne(dials: seq<bool>, tried: nat, connected: nat)
    requires dials != [] && forall i :: 0 <= i < |dials| ==> dials[i]
    requires ShortestPrefix(dials, AsU32(0x1_0000_0000) + 1, tried, connected)
    ensures connected == tried == 1
  {
    AllSucceed(dials);
    PrefixReaches(dials, AsU32(0x1_0000_0000) + 1, tried, connected);
    AllSucceed(dials[..tried]);
  }
}
