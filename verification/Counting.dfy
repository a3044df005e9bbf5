/** Specification of the per-key fragment counters: what a sequence of accepted keys leaves in
    the table and in the completion log, with and without eviction. */
module Counting {
  import opened Common
  import opened Arithmetic

  /** `table` is the counter map, `log` the keys of the completed messages in order. */
  datatype Tally = Tally(table: map<int, nat>, log: seq<int>)

  /** One accepted fragment of key t. The evicting node forgets a key when it completes. */
  function Count(evict: bool, chunks: int, s: Tally, t: int): Tally {
    var n := Get(s.table, t, 0) + 1;
    if n < chunks then Tally(s.table[t := n], s.log)
    else if evict then Tally(s.table - {t}, s.log + [t])
    else Tally(s.table[t := n], s.log + [t])
  }

  function Run(evict: bool, chunks: int, keys: seq<int>): Tally {
    if keys == [] then Tally(map[], [])
    else Count(evict, chunks, Run(evict, chunks, keys[..|keys| - 1]), keys[|keys| - 1])
  }

  /** How often t occurs. */
  function Occurrences(keys: seq<int>, t: int): nat {
    multiset(keys)[t]
  }

  /** A fragment count of zero or less behaves like one. */
  function Needed(chunks: int): (c: nat)
    ensures c >= 1
  {
    if chunks < 1 then 1 else chunks
  }

  lemma SplitLast(keys: seq<int>, t: int)
    requires keys != []
    ensures Occurrences(keys, t) ==
            Occurrences(keys[..|keys| - 1], t) + if keys[|keys| - 1] == t then 1 else 0
  {
    assert keys == keys[..|keys| - 1] + [keys[|keys| - 1]];
  }

  lemma RunSnoc(evict: bool, chunks: int, keys: seq<int>, t: int)
    ensures Run(evict, chunks, keys + [t]) == Count(evict, chunks, Run(evict, chunks, keys), t)
    ensures forall u :: Occurrences(keys + [t], u) == Occurrences(keys, u) + if u == t then 1 else 0
  {
    assert (keys + [t])[..|keys|] == keys;
  }

  // ----- closed forms -----

  /** deliveries == needed * completions + pending, for one key of an evicting tally. */
  ghost predicate Conserved(chunks: int, s: Tally, t: int, deliveries: nat) {
    && deliveries == Needed(chunks) * Occurrences(s.log, t) + Get(s.table, t, 0)
    && Get(s.table, t, 0) < Needed(chunks)
    && (t in s.table <==> Get(s.table, t, 0) > 0)
  }

  lemma CountConserves(chunks: int, s: Tally, last: int, t: int, deliveries: nat)
    requires Conserved(chunks, s, t, deliveries)
    ensures Conserved(chunks, Count(true, chunks, s, last), t, deliveries + if last == t then 1 else 0)
  {
    var after := Count(true, chunks, s, last);
    NextProduct(Needed(chunks), Occurrences(s.log, t));
    if after.log != s.log {
      assert Occurrences(after.log, t) == Occurrences(s.log, t) + if t == last then 1 else 0;
    }
  }

  /** Conservation with eviction: every delivery of t is part of a completion or still pending,
      and a key is in the table exactly while something is pending. */
  lemma {:induction false} EvictingCounts(chunks: int, keys: seq<int>, t: int)
    ensures var s := Run(true, chunks, keys);
            && Occurrences(keys, t) == Needed(chunks) * Occurrences(s.log, t) + Get(s.table, t, 0)
            && Get(s.table, t, 0) < Needed(chunks)
            && (t in s.table <==> Get(s.table, t, 0) > 0)
  {
    if keys != [] {
      var front, last := keys[..|keys| - 1], keys[|keys| - 1];
      EvictingCounts(chunks, front, t);
      SplitLast(keys, t);
      CountConserves(chunks, Run(true, chunks, front), last, t, Occurrences(front, t));
    }
  }

  lemma PendingIsSmall(chunks: int, keys: seq<int>, t: int)
    ensures Get(Run(true, chunks, keys).table, t, 0) < Needed(chunks)
  {
    EvictingCounts(chunks, keys, t);
  }

  /** The pair of completions and pending fragments is the quotient and remainder. */
  lemma EvictingQuotient(chunks: int, keys: seq<int>, t: int)
    ensures var s := Run(true, chunks, keys);
            && Occurrences(s.log, t) == Occurrences(keys, t) / Needed(chunks)
            && Get(s.table, t, 0) == Occurrences(keys, t) % Needed(chunks)
  {
    EvictingCounts(chunks, keys, t);
    var s := Run(true, chunks, keys);
    DivisionIsUnique(Occurrences(keys, t), Needed(chunks), Occurrences(s.log, t), Get(s.table, t, 0));
  }

  /** Without eviction every delivery from the Needed-th on completes the message again. */
  lemma {:induction false} KeepingCounts(chunks: int, keys: seq<int>, t: int)
    ensures var s := Run(false, chunks, keys);
            && Get(s.table, t, 0) == Occurrences(keys, t)
            && (t in s.table <==> t in keys)
            && Occurrences(s.log, t) ==
               (if Occurrences(keys, t) < Needed(chunks) then 0 else Occurrences(keys, t) - Needed(chunks) + 1)
  {
    if keys != [] {
      KeepingCounts(chunks, keys[..|keys| - 1], t);
      SplitLast(keys, t);
      assert keys == keys[..|keys| - 1] + [keys[|keys| - 1]];
    }
  }

  // ----- order does not matter -----

  lemma SameForKey(evict: bool, chunks: int, keys: seq<int>, keys': seq<int>, t: int)
    requires multiset(keys) == multiset(keys')
    ensures var s, s' := Run(evict, chunks, keys), Run(evict, chunks, keys');
            && (t in s.table <==> t in s'.table)
            && Get(s.table, t, 0) == Get(s'.table, t, 0)
            && Occurrences(s.log, t) == Occurrences(s'.log, t)
  {
    if evict {
      EvictingQuotient(chunks, keys, t);
      EvictingQuotient(chunks, keys', t);
      EvictingCounts(chunks, keys, t);
      EvictingCounts(chunks, keys', t);
    } else {
      KeepingCounts(chunks, keys, t);
      KeepingCounts(chunks, keys', t);
      assert t in keys <==> t in multiset(keys);
      assert t in keys' <==> t in multiset(keys');
    }
  }

  /** The final table and the multiset of completed keys depend only on how often each key came. */
  lemma OrderIsIrrelevant(evict: bool, chunks: int, keys: seq<int>, keys': seq<int>)
    requires multiset(keys) == multiset(keys')
    ensures Run(evict, chunks, keys).table == Run(evict, chunks, keys').table
    ensures multiset(Run(evict, chunks, keys).log) == multiset(Run(evict, chunks, keys').log)
  {
    var s, s' := Run(evict, chunks, keys), Run(evict, chunks, keys');
    forall t: int ensures t in s.table <==> t in s'.table {
      SameForKey(evict, chunks, keys, keys', t);
    }
    forall t: int ensures Get(s.table, t, 0) == Get(s'.table, t, 0) {
      SameForKey(evict, chunks, keys, keys', t);
    }
    assert s.table.Keys == s'.table.Keys;
    forall t | t in s.table ensures s.table[t] == s'.table[t] {
      assert Get(s.table, t, 0) == Get(s'.table, t, 0);
    }
    assert s.table == s'.table;
    forall t: int ensures multiset(s.log)[t] == multiset(s'.log)[t] {
      SameForKey(evict, chunks, keys, keys', t);
    }
    assert multiset(s.log) == multiset(s'.log);
  }

  // ----- keys do not interfere -----

  function Only(keys: seq<int>, t: int): (r: seq<int>) {
    if keys == [] then []
    else Only(keys[..|keys| - 1], t) + if keys[|keys| - 1] == t then [t] else []
  }

  function OnlyEntry(table: map<int, nat>, t: int): map<int, nat> {
    if t in table then map[t := table[t]] else map[]
  }

  /** The part of a tally that concerns key t. */
  function OnlyKey(s: Tally, t: int): Tally {
    Tally(OnlyEntry(s.table, t), Only(s.log, t))
  }

  lemma OnlySnoc(keys: seq<int>, last: int, t: int)
    ensures Only(keys + [last], t) == Only(keys, t) + if last == t then [t] else []
  {
    assert (keys + [last])[..|keys|] == keys;
  }

  lemma EntryAfterUpdate(table: map<int, nat>, u: int, n: nat, t: int)
    ensures OnlyEntry(table[u := n], t) == if u == t then OnlyEntry(table, t)[t := n] else OnlyEntry(table, t)
    ensures OnlyEntry(table - {u}, t) == if u == t then OnlyEntry(table, t) - {t} else OnlyEntry(table, t)
  {
  }

  lemma CountOwnKey(evict: bool, chunks: int, s: Tally, t: int)
    ensures OnlyKey(Count(evict, chunks, s, t), t) == Count(evict, chunks, OnlyKey(s, t), t)
  {
    var n := Get(s.table, t, 0) + 1;
    OnlySnoc(s.log, t, t);
    EntryAfterUpdate(s.table, t, n, t);
    assert Get(OnlyEntry(s.table, t), t, 0) + 1 == n;
  }

  lemma CountOtherKey(evict: bool, chunks: int, s: Tally, last: int, t: int)
    requires last != t
    ensures OnlyKey(Count(evict, chunks, s, last), t) == OnlyKey(s, t)
  {
    OnlySnoc(s.log, last, t);
    EntryAfterUpdate(s.table, last, Get(s.table, last, 0) + 1, t);
  }

  /** What one key leaves behind is the same whatever else was interleaved with it. */
  lemma {:induction false} KeysDoNotInterfere(evict: bool, chunks: int, keys: seq<int>, t: int)
    ensures OnlyKey(Run(evict, chunks, keys), t) == Run(evict, chunks, Only(keys, t))
  {
    if keys != [] {
      var front, last := keys[..|keys| - 1], keys[|keys| - 1];
      KeysDoNotInterfere(evict, chunks, front, t);
      if last == t {
        CountOwnKey(evict, chunks, Run(evict, chunks, front), t);
        RunSnoc(evict, chunks, Only(front, t), t);
      } else {
        CountOtherKey(evict, chunks, Run(evict, chunks, front), last, t);
        assert Only(keys, t) == Only(front, t);
      }
    }
  }

  // ----- evicting against keeping -----

  /** Traces on which no key is delivered more often than it takes to complete it. */
  ghost predicate NoSurplus(chunks: int, keys: seq<int>) {
    forall t :: Occurrences(keys, t) <= Needed(chunks)
  }

  lemma PendingBelowNeeded(chunks: int, keys: seq<int>, t: int)
    requires Occurrences(keys, t) < Needed(chunks)
    ensures Get(Run(true, chunks, keys).table, t, 0) == Occurrences(keys, t)
  {
    EvictingQuotient(chunks, keys, t);
    DivisionIsUnique(Occurrences(keys, t), Needed(chunks), 0, Occurrences(keys, t));
  }

  lemma {:induction false} SameLog(chunks: int, keys: seq<int>)
    requires NoSurplus(chunks, keys) || Needed(chunks) == 1
    ensures Run(true, chunks, keys).log == Run(false, chunks, keys).log
  {
    if keys != [] {
      var front, last := keys[..|keys| - 1], keys[|keys| - 1];
      forall t ensures Occurrences(front, t) <= Occurrences(keys, t) {
        SplitLast(keys, t);
      }
      SameLog(chunks, front);
      SplitLast(keys, last);
      if Needed(chunks) > 1 {
        PendingBelowNeeded(chunks, front, last);
        KeepingCounts(chunks, front, last);
      }
    }
  }

  lemma QuotientFallsBehind(n: nat, c: nat, q: nat, r: nat)
    requires n == c * q + r && r < c && n > c > 1
    ensures q < n - c + 1
  {
    if q >= 2 {
      NextProduct(c, q - 1);
      MonotoneProduct(q - 1, 2, c);
      assert c * (q - 1) == (q - 1) * c;
    }
  }

  lemma SurplusChangesLog(chunks: int, keys: seq<int>, t: int)
    requires Occurrences(keys, t) > Needed(chunks) > 1
    ensures Occurrences(Run(true, chunks, keys).log, t) < Occurrences(Run(false, chunks, keys).log, t)
  {
    EvictingCounts(chunks, keys, t);
    KeepingCounts(chunks, keys, t);
    var s := Run(true, chunks, keys);
    QuotientFallsBehind(Occurrences(keys, t), Needed(chunks), Occurrences(s.log, t), Get(s.table, t, 0));
  }

  /** Evicting and keeping log the same completions exactly when nothing is delivered in surplus. */
  lemma SameLogIff(chunks: int, keys: seq<int>)
    ensures Run(true, chunks, keys).log == Run(false, chunks, keys).log
            <==> NoSurplus(chunks, keys) || Needed(chunks) == 1
  {
    if NoSurplus(chunks, keys) || Needed(chunks) == 1 {
      SameLog(chunks, keys);
    } else {
      var t :| Occurrences(keys, t) > Needed(chunks);
      SurplusChangesLog(chunks, keys, t);
    }
  }
}
