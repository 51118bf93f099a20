/** The noise gate with hold-open hysteresis (`GateOpen` and the timer part of
    `OnUpdate` in OVRLipSyncNode.cs). Levels are decibel values; turning the
    audio energy into decibels is not part of this model, so the level is an
    input. */
module Gate {

  /** The answer of one gate query and the hold timer it leaves behind. */
  datatype GateCheck = GateCheck(open: bool, timer: real)

  /** A level at or above the threshold opens the gate and reloads the hold
      timer; a quieter level keeps the timer and leaves the gate open only while
      the timer is still positive. */
  function GateOpen(levelDb: real, thresholdDb: real, holdOpen: real, timer: real): (r: GateCheck)
    ensures levelDb >= thresholdDb ==> r.open && r.timer == holdOpen
    ensures levelDb < thresholdDb ==> r.timer == timer && (r.open <==> timer > 0.0)
  {
    if levelDb >= thresholdDb then GateCheck(true, holdOpen)
    else GateCheck(timer > 0.0, timer)
  }

  /** One frame of the host clock: a positive timer runs down by the frame time
      (and may end below zero), a timer that is not positive is reset to 0. */
  function Tick(timer: real, delta: real): (r: real)
    ensures timer > 0.0 ==> r == timer - delta
    ensures timer <= 0.0 ==> r == 0.0
  {
    if timer > 0.0 then timer - delta else 0.0
  }

  /** Several frames in a row. */
  function Ticks(timer: real, deltas: seq<real>): real
    decreases |deltas|
  {
    if |deltas| == 0 then timer else Ticks(Tick(timer, deltas[0]), deltas[1..])
  }

  function Sum(deltas: seq<real>): real
    decreases |deltas|
  {
    if |deltas| == 0 then 0.0 else deltas[0] + Sum(deltas[1..])
  }

  /** Frame times are never negative. */
  predicate NonNegative(deltas: seq<real>)
  {
    forall i :: 0 <= i < |deltas| ==> deltas[i] >= 0.0
  }

  lemma {:induction false} SumNonNegative(deltas: seq<real>)
    requires NonNegative(deltas)
    ensures Sum(deltas) >= 0.0
    decreases |deltas|
  {
    if |deltas| > 0 {
      SumNonNegative(deltas[1..]);
    }
  }

  /** A timer that is not positive stays not positive, whatever frames follow. */
  lemma {:induction false} TicksStayClosed(timer: real, deltas: seq<real>)
    requires timer <= 0.0
    ensures Ticks(timer, deltas) <= 0.0
    decreases |deltas|
  {
    if |deltas| > 0 {
      TicksStayClosed(Tick(timer, deltas[0]), deltas[1..]);
    }
  }

  /** While the elapsed time is below the timer, the timer has run down by
      exactly the elapsed time; once the elapsed time reaches the timer, the
      timer is no longer positive. */
  lemma {:induction false} TicksRunDown(timer: real, deltas: seq<real>)
    requires NonNegative(deltas)
    ensures Sum(deltas) < timer ==> Ticks(timer, deltas) == timer - Sum(deltas)
    ensures Sum(deltas) >= timer ==> Ticks(timer, deltas) <= 0.0
    decreases |deltas|
  {
    if |deltas| > 0 {
      var t := Tick(timer, deltas[0]);
      SumNonNegative(deltas[1..]);
      if timer > 0.0 {
        TicksRunDown(t, deltas[1..]);
      } else {
        TicksStayClosed(t, deltas[1..]);
      }
    }
  }

  /** Hysteresis: after a loud query, a quiet query made some frames later
      finds the gate open exactly when the frames so far add up to less than
      the hold time. */
  lemma HoldOpenHysteresis(thresholdDb: real, holdOpen: real, timer: real,
                           loudDb: real, quietDb: real, deltas: seq<real>)
    requires loudDb >= thresholdDb && quietDb < thresholdDb
    requires NonNegative(deltas)
    ensures var loaded := GateOpen(loudDb, thresholdDb, holdOpen, timer).timer;
      GateOpen(quietDb, thresholdDb, holdOpen, Ticks(loaded, deltas)).open <==> Sum(deltas) < holdOpen
  {
    TicksRunDown(holdOpen, deltas);
  }

  /** What the node does to the gate: a frame of the host clock, or a query
      made when the outputs are read. */
  datatype GateEvent = Frame(delta: real) | Query(levelDb: real)

  /** The answers to the queries of an event sequence, in order. */
  function Run(events: seq<GateEvent>, thresholdDb: real, holdOpen: real, timer: real): seq<bool>
    decreases |events|
  {
    if |events| == 0 then []
    else match events[0]
      case Frame(delta) => Run(events[1..], thresholdDb, holdOpen, Tick(timer, delta))
      case Query(levelDb) =>
        var g := GateOpen(levelDb, thresholdDb, holdOpen, timer);
        [g.open] + Run(events[1..], thresholdDb, holdOpen, g.timer)
  }

  /** The answers a gate without memory would give: the threshold test alone. */
  function Instantaneous(events: seq<GateEvent>, thresholdDb: real): seq<bool>
    decreases |events|
  {
    if |events| == 0 then []
    else match events[0]
      case Frame(_) => Instantaneous(events[1..], thresholdDb)
      case Query(levelDb) => [levelDb >= thresholdDb] + Instantaneous(events[1..], thresholdDb)
  }

  /** With a zero hold time (and no time left from before) the gate answers
      exactly the instantaneous threshold test. */
  lemma {:induction false} ZeroHoldIsInstantaneous(events: seq<GateEvent>, thresholdDb: real, timer: real)
    requires timer <= 0.0
    ensures Run(events, thresholdDb, 0.0, timer) == Instantaneous(events, thresholdDb)
    decreases |events|
  {
    if |events| > 0 {
      match events[0]
      case Frame(delta) =>
        ZeroHoldIsInstantaneous(events[1..], thresholdDb, Tick(timer, delta));
      case Query(levelDb) =>
        ZeroHoldIsInstantaneous(events[1..], thresholdDb, GateOpen(levelDb, thresholdDb, 0.0, timer).timer);
    }
  }
}
