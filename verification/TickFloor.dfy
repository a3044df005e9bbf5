/** The lsquic tick-floor patch: the engine timer re-arms itself, and only a positive floor makes
    the clock of a discrete-event simulator advance. Times are microseconds. */
module TickFloor {
  import opened Common
  import opened Arithmetic

  /** LSQUIC_TICK_FLOOR_US after parsing: unparsable and negative settings mean no floor. */
  function TickFloorUs(parsed: Option<int>): nat {
    match parsed
    case None => 0
    case Some(v) => if v < 0 then 0 else v
  }

  /** How a tick re-arms the timer: re-entered while the engine is processing, or afterwards,
      with the engine's time to its next tick. */
  datatype Rearm = Reentrant | Advance(diff: int)

  /** The moment the unpatched code sets the timer to. */
  function Stock(granularity: nat, now: int, r: Rearm): int {
    match r
    case Reentrant => now
    case Advance(diff) => now + if diff < 0 then granularity else diff
  }

  /** The patched moment: the stock one, but at least the floor away. */
  function Armed(floor: nat, granularity: nat, now: int, r: Rearm): int {
    var stock := Stock(granularity, now, r);
    if stock < now + floor then now + floor else stock
  }

  class QuicContext {
    const tickFloorUs: nat
    const granularity: nat        // LSQUIC_DF_CLOCK_GRANULARITY
    var hasTimer: bool
    var tickTimeout: Option<int>  // moment the timer is set to

    constructor (parsed: Option<int>, granularity: nat)
      ensures this.granularity == granularity
      ensures tickFloorUs == if parsed.Some? && parsed.value > 0 then parsed.value else 0
      ensures hasTimer && tickTimeout == None
    {
      tickFloorUs := TickFloorUs(parsed);
      this.granularity := granularity;
      hasTimer, tickTimeout := true, None;
    }

    method RearmReentrant(now: int)
      modifies this`tickTimeout
      ensures !hasTimer ==> tickTimeout == old(tickTimeout)
      ensures hasTimer ==> tickTimeout == Some(now + tickFloorUs)
      ensures hasTimer ==> tickTimeout == Some(Armed(tickFloorUs, granularity, now, Reentrant))
    {
      if hasTimer {
        if tickFloorUs > 0 {
          tickTimeout := Some(now + tickFloorUs);
        } else {
          tickTimeout := Some(now);
        }
      }
    }

    /** `adv` is None when the engine has no next tick. */
    method RearmAfterProcessing(now: int, adv: Option<int>)
      modifies this`tickTimeout
      ensures adv.None? ==> tickTimeout == old(tickTimeout)
      ensures adv.Some? && adv.value >= 0 ==> tickTimeout == Some(now + Max(adv.value, tickFloorUs))
      ensures adv.Some? && adv.value < 0 ==> tickTimeout == Some(now + Max(granularity, tickFloorUs))
      ensures adv.Some? ==> tickTimeout == Some(Armed(tickFloorUs, granularity, now, Advance(adv.value)))
    {
      if adv.None? {
        return;
      }
      var deltaUs := if adv.value < 0 then granularity else adv.value;
      if deltaUs < tickFloorUs {
        deltaUs := tickFloorUs;
      }
      tickTimeout := Some(now + deltaUs);
    }
  }

  /** Without a floor the patch changes nothing; with one it never arms earlier than stock. */
  lemma NoFloorIsStock(floor: nat, granularity: nat)
    ensures floor == 0 <==> forall now, r :: Armed(floor, granularity, now, r) == Stock(granularity, now, r)
    ensures forall now, r :: Armed(floor, granularity, now, r) >= Stock(granularity, now, r)
  {
    if floor > 0 {
      assert Armed(floor, granularity, 0, Reentrant) != Stock(granularity, 0, Reentrant);
    }
  }

  /** A tick at t leads to a tick at t': some re-arm happens at or after t, and the timer does
      not fire before the moment it was set to. */
  ghost predicate Follows(floor: nat, granularity: nat, t: int, t': int) {
    exists now, r :: t <= now && Armed(floor, granularity, now, r) <= t'
  }

  lemma FollowsIff(floor: nat, granularity: nat, t: int, t': int)
    ensures Follows(floor, granularity, t, t') <==> t' >= t + floor
  {
    assert Armed(floor, granularity, t, Reentrant) == t + floor;
  }

  ghost predicate IsTickRun(floor: nat, granularity: nat, ts: seq<int>) {
    ts != [] && forall k :: 0 < k < |ts| ==> Follows(floor, granularity, ts[k - 1], ts[k])
  }

  /** The k-th tick is at least k floors after the first. */
  lemma {:induction false} TicksAreSpaced(floor: nat, granularity: nat, ts: seq<int>, k: nat)
    requires IsTickRun(floor, granularity, ts) && k < |ts|
    ensures ts[k] >= ts[0] + k * floor
  {
    if k > 0 {
      TicksAreSpaced(floor, granularity, ts, k - 1);
      assert Follows(floor, granularity, ts[k - 1], ts[k]);
      assert k * floor == (k - 1) * floor + floor;
    }
  }

  /** With a floor, more than (horizon - start) / floor further ticks pass any horizon. */
  lemma HorizonIsPassed(floor: nat, granularity: nat, ts: seq<int>, horizon: int)
    requires floor > 0 && IsTickRun(floor, granularity, ts) && ts[0] <= horizon
    requires |ts| - 1 > (horizon - ts[0]) / floor
    ensures ts[|ts| - 1] > horizon
  {
    var k := |ts| - 1;
    TicksAreSpaced(floor, granularity, ts, k);
    var q := (horizon - ts[0]) / floor;
    NextMultiple(q, floor);
    MonotoneProduct(floor, q + 1, k);
    assert floor * k == k * floor && floor * (q + 1) == (q + 1) * floor;
  }

  function Stuck(t: int, n: nat): (ts: seq<int>)
    ensures |ts| == n
  {
    seq(n, _ => t)
  }

  /** Without a floor there are runs of every length that never leave their first instant. */
  lemma StuckIsARun(granularity: nat, t: int, n: nat)
    requires n > 0
    ensures IsTickRun(0, granularity, Stuck(t, n))
  {
    assert Armed(0, granularity, t, Reentrant) == t;
  }

  /** Every run that starts at t and is longer than n has passed the horizon. */
  ghost predicate PassesWithin(floor: nat, granularity: nat, t: int, horizon: int, n: nat) {
    forall ts :: IsTickRun(floor, granularity, ts) && ts[0] == t && |ts| > n ==> ts[|ts| - 1] > horizon
  }

  /** Simulated time is bound to advance exactly when the floor is positive. */
  lemma TimeAdvancesIffFloor(floor: nat, granularity: nat, t: int, horizon: int)
    requires t <= horizon
    ensures floor > 0 <==> exists n: nat :: PassesWithin(floor, granularity, t, horizon, n)
  {
    if floor > 0 {
      var n := (horizon - t) / floor + 1;
      forall ts | IsTickRun(floor, granularity, ts) && ts[0] == t && |ts| > n ensures ts[|ts| - 1] > horizon {
        HorizonIsPassed(floor, granularity, ts, horizon);
      }
      assert PassesWithin(floor, granularity, t, horizon, n);
    } else {
      forall n: nat ensures !PassesWithin(floor, granularity, t, horizon, n) {
        StuckIsARun(granularity, t, n + 1);
        var ts := Stuck(t, n + 1);
        assert ts[0] == t && ts[|ts| - 1] == t;
      }
    }
  }
}
