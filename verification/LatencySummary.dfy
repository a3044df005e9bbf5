/** The latency summary for large messages: rounding to hops, counting per message and hop, and
    the per-message report, whose loops run over hash tables in an arbitrary order. */
module LatencySummary {
  import opened Arithmetic
  import opened Common

  type MessageId = string

  const HOP: nat := 100
  const FIRST_PRINTED: nat := 1
  const LAST_PRINTED: nat := 54

  /** An input line: None in the third column stands for text that is not all digits. `last` is
      the last field. */
  datatype Row = Row(column3: Option<nat>, last: nat, msg: MessageId)

  /** int(x / hop + 0.5): the hop a latency is closest to. */
  function Hop(x: nat): nat {
    (2 * x + HOP) / (2 * HOP)
  }

  function Rounded(x: nat): nat {
    Hop(x) * HOP
  }

  lemma RoundingError(x: nat)
    ensures 2 * x <= 2 * Rounded(x) + HOP <= 2 * x + 2 * HOP
    ensures Rounded(x) / HOP == Hop(x)
  {
  }

  type Key = (MessageId, nat)

  function KeyOf(row: Row): Key
    requires row.column3.Some?
  {
    (row.msg, Rounded(row.column3.value))
  }

  // ----- reference definitions over the input rows -----

  predicate Selected(row: Row, m: MessageId, keys: set<Key>) {
    row.column3.Some? && row.msg == m && KeyOf(row) in keys
  }

  /** Accepted rows of message m whose key is in `keys`. */
  function CountRows(rows: seq<Row>, m: MessageId, keys: set<Key>): nat {
    if rows == [] then 0
    else CountRows(rows[..|rows| - 1], m, keys) + if Selected(rows[|rows| - 1], m, keys) then 1 else 0
  }

  /** Sum of the rounded latencies of those rows. */
  function SumRounded(rows: seq<Row>, m: MessageId, keys: set<Key>): nat {
    if rows == [] then 0
    else SumRounded(rows[..|rows| - 1], m, keys) +
         if Selected(rows[|rows| - 1], m, keys) then Rounded(rows[|rows| - 1].column3.value) else 0
  }

  predicate Of(row: Row, m: MessageId) {
    row.column3.Some? && row.msg == m
  }

  /** Number of accepted rows of message m, their total latency, and how many round to a hop. */
  function Received(rows: seq<Row>, m: MessageId): nat {
    if rows == [] then 0 else Received(rows[..|rows| - 1], m) + if Of(rows[|rows| - 1], m) then 1 else 0
  }

  function TotalLatency(rows: seq<Row>, m: MessageId): nat {
    if rows == [] then 0
    else TotalLatency(rows[..|rows| - 1], m) + if Of(rows[|rows| - 1], m) then rows[|rows| - 1].column3.value else 0
  }

  function AtHop(rows: seq<Row>, m: MessageId, hop: nat): nat {
    if rows == [] then 0
    else AtHop(rows[..|rows| - 1], m, hop) +
         if Of(rows[|rows| - 1], m) && Hop(rows[|rows| - 1].column3.value) == hop then 1 else 0
  }

  ghost predicate IsMaximum(rows: seq<Row>, m: MessageId, max: nat) {
    && (forall i :: 0 <= i < |rows| && Of(rows[i], m) ==> rows[i].last <= max)
    && (max == 0 || exists i :: 0 <= i < |rows| && Of(rows[i], m) && rows[i].last == max)
  }

  /** The accepted rows of message m. */
  function Accepted(rows: seq<Row>, m: MessageId): set<int> {
    set i | 0 <= i < |rows| && rows[i].column3.Some? && rows[i].msg == m
  }

  /** Those of them with 100 * hop - 50 <= latency < 100 * hop + 50. */
  function Around(rows: seq<Row>, m: MessageId, hop: nat): set<int> {
    set i | i in Accepted(rows, m) && 100 * hop <= rows[i].column3.value + 50 < 100 * hop + 100
  }

  lemma AcceptedNext(front: seq<Row>, row: Row, m: MessageId)
    ensures Accepted(front + [row], m) == Accepted(front, m) + if Of(row, m) then {|front|} else {}
  {
    var rows := front + [row];
    assert forall i :: 0 <= i < |front| ==> rows[i] == front[i];
  }

  lemma AroundNext(front: seq<Row>, row: Row, m: MessageId, hop: nat)
    ensures Around(front + [row], m, hop) ==
            Around(front, m, hop) + if Of(row, m) && Hop(row.column3.value) == hop then {|front|} else {}
  {
    var rows := front + [row];
    AcceptedNext(front, row, m);
    assert forall i :: 0 <= i < |front| ==> rows[i] == front[i];
    assert Of(row, m) ==> (Hop(row.column3.value) == hop <==> 100 * hop <= row.column3.value + 50 < 100 * hop + 100);
  }

  /** The recursive counts are the numbers of those rows. */
  lemma {:induction false} RowsAreCounted(rows: seq<Row>, m: MessageId, hop: nat)
    ensures Received(rows, m) == |Accepted(rows, m)|
    ensures AtHop(rows, m, hop) == |Around(rows, m, hop)|
  {
    if rows == [] {
      assert Accepted(rows, m) == {} && Around(rows, m, hop) == {};
    } else {
      var front, row := rows[..|rows| - 1], rows[|rows| - 1];
      RowsAreCounted(front, m, hop);
      AcceptedNext(front, row, m);
      AroundNext(front, row, m, hop);
      assert rows == front + [row];
    }
  }

  /** The total grows by the latency of every row that is accepted for the message. */
  lemma LatencyOfOneMore(rows: seq<Row>, row: Row, m: MessageId)
    ensures TotalLatency([], m) == 0
    ensures TotalLatency(rows + [row], m) ==
            TotalLatency(rows, m) + if row.column3.Some? && row.msg == m then row.column3.value else 0
  {
    assert (rows + [row])[..|rows|] == rows;
  }

  // ----- reading the rows -----

  /** lat_arr, msg_arr and max_msg_latency after the rows. */
  ghost predicate Tabulated(rows: seq<Row>, latArr: map<Key, nat>, msgArr: set<MessageId>, maxLatency: map<MessageId, nat>) {
    && (forall k :: k in latArr ==> k.1 % HOP == 0 && k.0 in msgArr)
    && (forall m, hop: nat :: Get(latArr, (m, hop * HOP), 0) == AtHop(rows, m, hop))
    && (forall m :: m in msgArr <==> Received(rows, m) > 0)
    && (forall m :: m in maxLatency <==> m in msgArr)
    && (forall m :: m in maxLatency ==> IsMaximum(rows, m, maxLatency[m]))
    && (forall i :: 0 <= i < |rows| && rows[i].column3.Some? ==> KeyOf(rows[i]) in latArr)
  }

  lemma TabulateRow(rows: seq<Row>, row: Row, m: MessageId, hop: nat)
    ensures AtHop(rows + [row], m, hop) == AtHop(rows, m, hop) + if Of(row, m) && Hop(row.column3.value) == hop then 1 else 0
    ensures Received(rows + [row], m) == Received(rows, m) + if Of(row, m) then 1 else 0
  {
    assert (rows + [row])[..|rows|] == rows;
  }

  lemma NewMaximum(rows: seq<Row>, row: Row, m: MessageId, max: nat)
    requires IsMaximum(rows, m, max)
    ensures IsMaximum(rows + [row], m, if Of(row, m) && max < row.last then row.last else max)
  {
    var longer := rows + [row];
    assert longer[|rows|] == row;
    assert forall i :: 0 <= i < |rows| ==> longer[i] == rows[i];
    if max != 0 && !(Of(row, m) && max < row.last) {
      var i :| 0 <= i < |rows| && Of(rows[i], m) && rows[i].last == max;
      assert longer[i].last == max;
    }
  }

  lemma CountTabulated(before: seq<Row>, row: Row, latArr: map<Key, nat>, latArr': map<Key, nat>, m: MessageId, hop: nat)
    requires Get(latArr, (m, hop * HOP), 0) == AtHop(before, m, hop)
    requires row.column3.None? ==> latArr' == latArr
    requires row.column3.Some? ==>
               latArr' == latArr[KeyOf(row) := Get(latArr, KeyOf(row), 0) + 1]
    ensures Get(latArr', (m, hop * HOP), 0) == AtHop(before + [row], m, hop)
  {
    TabulateRow(before, row, m, hop);
    if row.column3.Some? {
      RoundingError(row.column3.value);
      assert KeyOf(row) == (m, hop * HOP) <==> Of(row, m) && Hop(row.column3.value) == hop;
    }
  }

  lemma {:induction false} NoneReceived(rows: seq<Row>, m: MessageId)
    requires Received(rows, m) == 0
    ensures forall i :: 0 <= i < |rows| ==> !Of(rows[i], m)
  {
    if rows != [] {
      NoneReceived(rows[..|rows| - 1], m);
    }
  }

  lemma MaximumTabulated(before: seq<Row>, row: Row, msgArr: set<MessageId>,
                         maxLatency: map<MessageId, nat>, maxLatency': map<MessageId, nat>, m: MessageId)
    requires forall u :: u in msgArr <==> Received(before, u) > 0
    requires forall u :: u in maxLatency <==> u in msgArr
    requires forall u :: u in maxLatency ==> IsMaximum(before, u, maxLatency[u])
    requires row.column3.None? ==> maxLatency' == maxLatency
    requires row.column3.Some? ==>
               var max := Get(maxLatency, row.msg, 0);
               maxLatency' == maxLatency[row.msg := if max < row.last then row.last else max]
    requires m in maxLatency'
    ensures IsMaximum(before + [row], m, maxLatency'[m])
  {
    if m in maxLatency {
      NewMaximum(before, row, m, maxLatency[m]);
    } else {
      NoneReceived(before, m);
      NewMaximum(before, row, m, 0);
    }
  }

  lemma RowTabulated(before: seq<Row>, row: Row,
                     latArr: map<Key, nat>, msgArr: set<MessageId>, maxLatency: map<MessageId, nat>,
                     latArr': map<Key, nat>, msgArr': set<MessageId>, maxLatency': map<MessageId, nat>)
    requires Tabulated(before, latArr, msgArr, maxLatency)
    requires row.column3.None? ==> latArr' == latArr && msgArr' == msgArr && maxLatency' == maxLatency
    requires row.column3.Some? ==>
               var key, max := KeyOf(row), Get(maxLatency, row.msg, 0);
               && latArr' == latArr[key := Get(latArr, key, 0) + 1]
               && msgArr' == msgArr + {row.msg}
               && maxLatency' == maxLatency[row.msg := if max < row.last then row.last else max]
    ensures Tabulated(before + [row], latArr', msgArr', maxLatency')
  {
    var rows := before + [row];
    forall m, hop: nat
      ensures Get(latArr', (m, hop * HOP), 0) == AtHop(rows, m, hop)
    {
      CountTabulated(before, row, latArr, latArr', m, hop);
    }
    forall m ensures m in msgArr' <==> Received(rows, m) > 0 {
      TabulateRow(before, row, m, 0);
    }
    forall m | m in maxLatency' ensures IsMaximum(rows, m, maxLatency'[m]) {
      MaximumTabulated(before, row, msgArr, maxLatency, maxLatency', m);
    }
    forall i | 0 <= i < |rows| && rows[i].column3.Some? ensures KeyOf(rows[i]) in latArr' {
      if i < |before| {
        assert KeyOf(before[i]) in latArr;
      }
    }
    forall k | k in latArr' ensures k.1 % HOP == 0 && k.0 in msgArr' {
      if k !in latArr {
        RoundingError(row.column3.value);
      }
    }
  }

  /** The pattern action for one line. */
  method ReadRow(ghost before: seq<Row>, row: Row, latArr: map<Key, nat>, msgArr: set<MessageId>, maxLatency: map<MessageId, nat>)
    returns (latArr': map<Key, nat>, msgArr': set<MessageId>, maxLatency': map<MessageId, nat>)
    requires Tabulated(before, latArr, msgArr, maxLatency)
    ensures Tabulated(before + [row], latArr', msgArr', maxLatency')
  {
    latArr', msgArr', maxLatency' := latArr, msgArr, maxLatency;
    if row.column3.Some? {
      var max := Get(maxLatency, row.msg, 0);
      maxLatency' := maxLatency[row.msg := if max < row.last then row.last else max];
      var key := KeyOf(row);
      latArr' := latArr[key := Get(latArr, key, 0) + 1];
      msgArr' := msgArr + {row.msg};
    }
    RowTabulated(before, row, latArr, msgArr, maxLatency, latArr', msgArr', maxLatency');
  }

  method ReadRows(rows: seq<Row>)
    returns (latArr: map<Key, nat>, msgArr: set<MessageId>, maxLatency: map<MessageId, nat>)
    ensures Tabulated(rows, latArr, msgArr, maxLatency)
    ensures forall m, i :: m in maxLatency && 0 <= i < |rows| && rows[i].column3.Some? && rows[i].msg == m ==>
              rows[i].last <= maxLatency[m]
    ensures forall m :: m in maxLatency && maxLatency[m] > 0 ==>
              exists i :: 0 <= i < |rows| && rows[i].column3.Some? && rows[i].msg == m && rows[i].last == maxLatency[m]
  {
    latArr, msgArr, maxLatency := map[], {}, map[];
    for n := 0 to |rows|
      invariant Tabulated(rows[..n], latArr, msgArr, maxLatency)
    {
      assert rows[..n + 1] == rows[..n] + [rows[n]];
      latArr, msgArr, maxLatency := ReadRow(rows[..n], rows[n], latArr, msgArr, maxLatency);
    }
    assert rows[..|rows|] == rows;
    forall m | m in maxLatency ensures IsMaximum(rows, m, maxLatency[m]) {
    }
  }

  // ----- the report of one message -----

  lemma SameHop(row: Row, m: MessageId, k: Key)
    requires Of(row, m) && k.0 == m && k.1 % HOP == 0
    ensures KeyOf(row) == k <==> Hop(row.column3.value) == k.1 / HOP
    ensures KeyOf(row) == k ==> Rounded(row.column3.value) == k.1
  {
    RoundingError(row.column3.value);
  }

  /** Visiting one more table key adds its rows, and only those of the reported message. */
  lemma {:induction false} VisitKey(rows: seq<Row>, m: MessageId, keys: set<Key>, k: Key)
    requires k !in keys && k.1 % HOP == 0
    ensures CountRows(rows, m, keys + {k}) ==
            CountRows(rows, m, keys) + if k.0 == m then AtHop(rows, m, k.1 / HOP) else 0
    ensures SumRounded(rows, m, keys + {k}) ==
            SumRounded(rows, m, keys) + if k.0 == m then AtHop(rows, m, k.1 / HOP) * k.1 else 0
  {
    if rows != [] {
      var front, row := rows[..|rows| - 1], rows[|rows| - 1];
      VisitKey(front, m, keys, k);
      if Of(row, m) && k.0 == m {
        SameHop(row, m, k);
        NextMultiple(AtHop(front, m, k.1 / HOP), k.1);
      }
    }
  }

  lemma {:induction false} NoKeys(rows: seq<Row>, m: MessageId)
    ensures CountRows(rows, m, {}) == 0 && SumRounded(rows, m, {}) == 0
  {
    if rows != [] {
      NoKeys(rows[..|rows| - 1], m);
    }
  }

  /** With every key visited the counts are those of all accepted rows of the message, and the
      rounded sum is within half a hop per row of the true one. */
  lemma {:induction false} AllKeys(rows: seq<Row>, m: MessageId, keys: set<Key>)
    requires forall i :: 0 <= i < |rows| && rows[i].column3.Some? ==> KeyOf(rows[i]) in keys
    ensures CountRows(rows, m, keys) == Received(rows, m)
    ensures 2 * TotalLatency(rows, m) <= 2 * SumRounded(rows, m, keys) + HOP * Received(rows, m)
    ensures 2 * SumRounded(rows, m, keys) <= 2 * TotalLatency(rows, m) + HOP * Received(rows, m)
  {
    if rows != [] {
      var row := rows[|rows| - 1];
      AllKeys(rows[..|rows| - 1], m, keys);
      if Of(row, m) {
        RoundingError(row.column3.value);
      }
    }
  }

  /** The table holds, under each key, the number of rows with that message and hop. */
  ghost predicate Counts(rows: seq<Row>, latArr: map<Key, nat>) {
    forall k: Key :: k in latArr ==> k.1 % HOP == 0 && latArr[k] == AtHop(rows, k.0, k.1 / HOP)
  }

  lemma TabulatedCounts(rows: seq<Row>, latArr: map<Key, nat>, msgArr: set<MessageId>, maxLatency: map<MessageId, nat>)
    requires Tabulated(rows, latArr, msgArr, maxLatency)
    ensures Counts(rows, latArr)
  {
    forall k: Key | k in latArr ensures latArr[k] == AtHop(rows, k.0, k.1 / HOP) {
      var hop: nat := k.1 / HOP;
      assert k == (k.0, hop * HOP);
    }
  }

  ghost predicate SpreadOf(rows: seq<Row>, m: MessageId, keys: set<Key>, spread: map<nat, nat>) {
    forall hop: nat :: Get(spread, hop, 0) == if (m, hop * HOP) in keys then AtHop(rows, m, hop) else 0
  }

  lemma SpreadAfter(rows: seq<Row>, m: MessageId, keys: set<Key>, spread: map<nat, nat>, k: Key)
    requires SpreadOf(rows, m, keys, spread) && k.0 == m && k.1 % HOP == 0
    ensures SpreadOf(rows, m, keys + {k}, spread[k.1 / HOP := AtHop(rows, m, k.1 / HOP)])
  {
    assert k == (m, k.1 / HOP * HOP);
  }

  lemma SpreadUnchanged(rows: seq<Row>, m: MessageId, keys: set<Key>, spread: map<nat, nat>, k: Key)
    requires SpreadOf(rows, m, keys, spread) && k.0 != m
    ensures SpreadOf(rows, m, keys + {k}, spread)
  {
  }

  /** The loop over all table keys, in an arbitrary order. */
  method WalkTable(ghost rows: seq<Row>, latArr: map<Key, nat>, m: MessageId)
    returns (latency: nat, sumRx: nat, spread: map<nat, nat>)
    requires Counts(rows, latArr)
    ensures sumRx == CountRows(rows, m, latArr.Keys) && latency == SumRounded(rows, m, latArr.Keys)
    ensures SpreadOf(rows, m, latArr.Keys, spread)
  {
    latency, sumRx := 0, 0;
    spread := map[1 := 0, 2 := 0, 3 := 0, 4 := 0, 5 := 0, 6 := 0, 7 := 0, 8 := 0, 9 := 0,
                  10 := 0, 11 := 0, 12 := 0, 13 := 0, 14 := 0, 15 := 0, 16 := 0, 17 := 0, 18 := 0];
    var rest := latArr.Keys;
    ghost var done := {};
    NoKeys(rows, m);
    while rest != {}
      invariant done + rest == latArr.Keys && done !! rest
      invariant sumRx == CountRows(rows, m, done) && latency == SumRounded(rows, m, done)
      invariant SpreadOf(rows, m, done, spread)
      decreases rest
    {
      var key: Key :| key in rest;
      VisitKey(rows, m, done, key);
      if key.0 == m {
        SpreadAfter(rows, m, done, spread, key);
        sumRx := sumRx + latArr[key];
        latency := latency + latArr[key] * key.1;
        spread := spread[key.1 / HOP := latArr[key]];
      } else {
        SpreadUnchanged(rows, m, done, spread, key);
      }
      rest, done := rest - {key}, done + {key};
    }
    assert done == latArr.Keys;
  }

  lemma Grows(x: real, y: real, count: real)
    requires count > 0.0 && x < y
    ensures x * count < y * count
  {
  }

  lemma HalfHopApart(x: real, y: real, count: real)
    requires count > 0.0 && 2.0 * x <= 2.0 * y + HOP as real * count
    ensures x / count <= y / count + HOP as real / 2.0
  {
    var a, b := x / count, y / count + HOP as real / 2.0;
    assert a * count == x;
    assert b * count == y / count * count + HOP as real / 2.0 * count;
    assert y / count * count == y;
    assert a * count <= b * count;
    if a > b {
      Grows(b, a, count);
    }
  }

  lemma AverageError(latency: nat, total: nat, n: nat)
    requires n > 0
    requires 2 * total <= 2 * latency + HOP * n && 2 * latency <= 2 * total + HOP * n
    ensures var mean, average := total as real / n as real, latency as real / n as real;
            mean - HOP as real / 2.0 <= average <= mean + HOP as real / 2.0
  {
    HalfHopApart(latency as real, total as real, n as real);
    HalfHopApart(total as real, latency as real, n as real);
  }

  /** One line of the report. Whatever order the table is walked in, the count is the number of
      accepted rows, the spread is the exact histogram over hops, and the average is within half
      a hop of the mean latency. */
  method Report(ghost rows: seq<Row>, latArr: map<Key, nat>, msgArr: set<MessageId>, ghost maxLatency: map<MessageId, nat>, m: MessageId)
    returns (sumRx: nat, average: real, spread: map<nat, nat>)
    requires Tabulated(rows, latArr, msgArr, maxLatency) && m in msgArr
    ensures sumRx == Received(rows, m) > 0
    ensures forall hop: nat :: Get(spread, hop, 0) == AtHop(rows, m, hop)
    ensures var mean := TotalLatency(rows, m) as real / Received(rows, m) as real;
            mean - HOP as real / 2.0 <= average <= mean + HOP as real / 2.0
  {
    var latency;
    TabulatedCounts(rows, latArr, msgArr, maxLatency);
    latency, sumRx, spread := WalkTable(rows, latArr, m);
    AllKeys(rows, m, latArr.Keys);
    forall hop: nat ensures Get(spread, hop, 0) == AtHop(rows, m, hop) {
      assert (m, hop * HOP) !in latArr ==> AtHop(rows, m, hop) == 0;
    }
    average := latency as real / sumRx as real;
    AverageError(latency, TotalLatency(rows, m), sumRx);
  }

  // ----- what is printed -----

  /** The spread columns that the report prints. */
  function Printed(spread: map<nat, nat>, last: nat): nat {
    if last == 0 then 0 else Printed(spread, last - 1) + Get(spread, last, 0)
  }

  function PrintedRows(rows: seq<Row>, m: MessageId, last: nat): nat {
    if rows == [] then 0
    else PrintedRows(rows[..|rows| - 1], m, last) +
         if Of(rows[|rows| - 1], m) && FIRST_PRINTED <= Hop(rows[|rows| - 1].column3.value) <= last then 1 else 0
  }

  lemma {:induction false} OneMoreColumn(rows: seq<Row>, m: MessageId, last: nat)
    requires last >= FIRST_PRINTED
    ensures PrintedRows(rows, m, last) == PrintedRows(rows, m, last - 1) + AtHop(rows, m, last)
  {
    if rows != [] {
      OneMoreColumn(rows[..|rows| - 1], m, last);
    }
  }

  lemma {:induction false} NoColumns(rows: seq<Row>, m: MessageId)
    ensures PrintedRows(rows, m, 0) == 0
  {
    if rows != [] {
      NoColumns(rows[..|rows| - 1], m);
    }
  }

  lemma {:induction false} ColumnsCountRows(rows: seq<Row>, m: MessageId, spread: map<nat, nat>, last: nat)
    requires forall hop: nat :: Get(spread, hop, 0) == AtHop(rows, m, hop)
    ensures Printed(spread, last) == PrintedRows(rows, m, last)
  {
    if last == 0 {
      NoColumns(rows, m);
    } else {
      ColumnsCountRows(rows, m, spread, last - 1);
      OneMoreColumn(rows, m, last);
    }
  }

  ghost predicate InPrintedRange(row: Row) {
    row.column3.Some? && FIRST_PRINTED <= Hop(row.column3.value) <= LAST_PRINTED
  }

  lemma {:induction false} PrintedRowsAreAllIff(rows: seq<Row>, m: MessageId)
    ensures PrintedRows(rows, m, LAST_PRINTED) <= Received(rows, m)
    ensures PrintedRows(rows, m, LAST_PRINTED) == Received(rows, m)
            <==> forall i :: 0 <= i < |rows| && Of(rows[i], m) ==> InPrintedRange(rows[i])
  {
    if rows != [] {
      var front := rows[..|rows| - 1];
      PrintedRowsAreAllIff(front, m);
      assert forall i :: 0 <= i < |front| ==> front[i] == rows[i];
    }
  }

  /** The printed columns start at hop 1 and end at hop 54: they add up to the reported count
      exactly when no latency of the message rounds to hop 0 or beyond the last column. */
  lemma PrintedSpreadIsCompleteIff(rows: seq<Row>, m: MessageId, spread: map<nat, nat>)
    requires forall hop: nat :: Get(spread, hop, 0) == AtHop(rows, m, hop)
    ensures Printed(spread, LAST_PRINTED) == Received(rows, m)
            <==> forall i :: 0 <= i < |rows| && Of(rows[i], m) ==> 50 <= rows[i].column3.value < 5450
  {
    ColumnsCountRows(rows, m, spread, LAST_PRINTED);
    PrintedRowsAreAllIff(rows, m);
    assert forall i :: 0 <= i < |rows| && Of(rows[i], m) ==>
      (InPrintedRange(rows[i]) <==> 50 <= rows[i].column3.value < 5450);
  }
}
