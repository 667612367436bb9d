// The stability detector: a threshold-and-dwell state machine advanced once
// per polling tick on the latest weight, which fires a single "trigger the
// camera" event per truck visit.

module Stability {

  /** Below this weight (kg) the truck has left and the detector re-arms. */
  const DepartureThreshold: real := 100.0
  /** Above this weight (kg) a tick counts towards stability. */
  const EntryThreshold: real := 500.0
  /** The detector fires once the count of qualifying ticks exceeds this. */
  const StabilityTicks: int := 10

  /** The two refs the tick reads and writes. */
  datatype DetectorState = DetectorState(stabilityCount: int, hasTriggered: bool)

  /** The state after a reset, and at start-up. */
  const Armed := DetectorState(0, false)

  /** What one tick does: the new state and whether it triggered the camera. */
  datatype TickOutcome = TickOutcome(state: DetectorState, fired: bool)

  /**
   * The states reachable from start-up: the count never passes
   * `StabilityTicks + 1`, and the detector has triggered exactly when the
   * count has passed `StabilityTicks`.
   */
  predicate Valid(s: DetectorState)
  {
    0 <= s.stabilityCount <= StabilityTicks + 1 &&
    (s.hasTriggered <==> s.stabilityCount > StabilityTicks)
  }

  /** A tick on which the count goes up: a heavy load, not yet triggered, no transaction in flight. */
  predicate Qualifies(s: DetectorState, weight: real, isProcessing: bool)
  {
    weight > EntryThreshold && !s.hasTriggered && !isProcessing
  }

  /** One tick of the detector, as a function of the state before it. */
  function Step(s: DetectorState, weight: real, isProcessing: bool): (r: TickOutcome)
    ensures weight < DepartureThreshold ==> r == TickOutcome(Armed, false)
    ensures r.fired ==> Qualifies(s, weight, isProcessing) && r.state.hasTriggered &&
                        r.state.stabilityCount > StabilityTicks
  {
    if weight < DepartureThreshold then TickOutcome(Armed, false)
    else if Qualifies(s, weight, isProcessing) then
      var count := s.stabilityCount + 1;
      if count > StabilityTicks then TickOutcome(DetectorState(count, true), true)
      else TickOutcome(DetectorState(count, s.hasTriggered), false)
    else TickOutcome(s, false)
  }

  /**
   * The rules of one tick from a reachable state: a light load re-arms; only a
   * qualifying tick changes the state, by one more count; every other tick
   * (between the thresholds, already triggered, or processing) changes nothing;
   * and the tick fires exactly when it is the qualifying tick that takes the
   * count past `StabilityTicks`. The new state is reachable again.
   */
  lemma StepRules(s: DetectorState, weight: real, isProcessing: bool)
    requires Valid(s)
    ensures var r := Step(s, weight, isProcessing);
      Valid(r.state) &&
      (weight < DepartureThreshold ==> r.state == Armed && !r.fired) &&
      (weight >= DepartureThreshold && Qualifies(s, weight, isProcessing) ==>
        r.state.stabilityCount == s.stabilityCount + 1) &&
      (weight >= DepartureThreshold && !Qualifies(s, weight, isProcessing) ==>
        r.state == s && !r.fired) &&
      (r.fired <==> weight >= DepartureThreshold && Qualifies(s, weight, isProcessing) &&
                    s.stabilityCount == StabilityTicks) &&
      (r.fired ==> !s.hasTriggered && r.state.hasTriggered)
  {
  }

  /** A reading the detector sees on one tick. */
  datatype Reading = Reading(weight: real, isProcessing: bool)

  /** Whether each tick of a trace fires, starting from `s`. */
  function Fires(s: DetectorState, trace: seq<Reading>): (fires: seq<bool>)
    ensures |fires| == |trace|
    decreases |trace|
  {
    if |trace| == 0 then []
    else
      var r := Step(s, trace[0].weight, trace[0].isProcessing);
      [r.fired] + Fires(r.state, trace[1..])
  }

  /** The state after a whole trace, starting from `s`. */
  function Final(s: DetectorState, trace: seq<Reading>): DetectorState
    decreases |trace|
  {
    if |trace| == 0 then s
    else Final(Step(s, trace[0].weight, trace[0].isProcessing).state, trace[1..])
  }

  /** Every tick keeps the detector in a reachable state. */
  lemma {:induction false} RunKeepsValid(s: DetectorState, trace: seq<Reading>)
    requires Valid(s)
    ensures Valid(Final(s, trace))
    decreases |trace|
  {
    if |trace| > 0 {
      StepRules(s, trace[0].weight, trace[0].isProcessing);
      RunKeepsValid(Step(s, trace[0].weight, trace[0].isProcessing).state, trace[1..]);
    }
  }

  /** The truck stays on the scale: no tick has a weight below the departure threshold. */
  predicate StaysOn(trace: seq<Reading>)
  {
    forall i :: 0 <= i < |trace| ==> trace[i].weight >= DepartureThreshold
  }

  /**
   * Once triggered, the detector fires no more and keeps its state for as long
   * as the weight stays at or above the departure threshold, whatever the
   * weight does above it and whatever the processing gate says.
   */
  lemma {:induction false} NoRefireUntilDeparture(s: DetectorState, trace: seq<Reading>)
    requires Valid(s) && s.hasTriggered
    requires StaysOn(trace)
    ensures forall i :: 0 <= i < |trace| ==> !Fires(s, trace)[i]
    ensures Final(s, trace) == s
    decreases |trace|
  {
    if |trace| > 0 {
      assert trace[0].weight >= DepartureThreshold;
      assert StaysOn(trace[1..]) by {
        forall i | 0 <= i < |trace[1..]| ensures trace[1..][i].weight >= DepartureThreshold {
          assert trace[1..][i] == trace[i + 1];
        }
      }
      NoRefireUntilDeparture(s, trace[1..]);
    }
  }

  /** One visit (no departure in between) triggers the camera at most once. */
  lemma {:induction false} AtMostOneFirePerVisit(s: DetectorState, trace: seq<Reading>)
    requires Valid(s)
    requires StaysOn(trace)
    ensures forall i, j :: 0 <= i < j < |trace| ==> !(Fires(s, trace)[i] && Fires(s, trace)[j])
    decreases |trace|
  {
    if |trace| > 0 {
      var r := Step(s, trace[0].weight, trace[0].isProcessing);
      StepRules(s, trace[0].weight, trace[0].isProcessing);
      var rest := trace[1..];
      assert StaysOn(rest) by {
        forall i | 0 <= i < |rest| ensures rest[i].weight >= DepartureThreshold {
          assert rest[i] == trace[i + 1];
        }
      }
      var fires := Fires(s, trace);
      assert fires == [r.fired] + Fires(r.state, rest);
      if r.fired {
        NoRefireUntilDeparture(r.state, rest);
      } else {
        AtMostOneFirePerVisit(r.state, rest);
      }
      forall i, j | 0 <= i < j < |trace| ensures !(fires[i] && fires[j]) {
        assert fires[j] == Fires(r.state, rest)[j - 1];
        if i > 0 {
          assert fires[i] == Fires(r.state, rest)[i - 1];
        }
      }
    }
  }

  /** Every tick of the trace qualifies: heavy load and no transaction in flight. */
  predicate Sustained(trace: seq<Reading>)
  {
    forall i :: 0 <= i < |trace| ==> trace[i].weight > EntryThreshold && !trace[i].isProcessing
  }

  /**
   * A sustained heavy load on an armed detector fires exactly once, on the
   * tick that brings the count past `StabilityTicks`, however long the load
   * stays afterwards.
   */
  lemma {:induction false} SustainedLoadFiresOnce(s: DetectorState, trace: seq<Reading>)
    requires Valid(s) && !s.hasTriggered
    requires Sustained(trace)
    ensures forall i :: 0 <= i < |trace| ==>
      (Fires(s, trace)[i] <==> i == StabilityTicks - s.stabilityCount)
    decreases |trace|
  {
    if |trace| > 0 {
      var r := Step(s, trace[0].weight, trace[0].isProcessing);
      StepRules(s, trace[0].weight, trace[0].isProcessing);
      var rest := trace[1..];
      assert Sustained(rest) by {
        forall i | 0 <= i < |rest| ensures rest[i].weight > EntryThreshold && !rest[i].isProcessing {
          assert rest[i] == trace[i + 1];
        }
      }
      var fires := Fires(s, trace);
      assert fires == [r.fired] + Fires(r.state, rest);
      if r.fired {
        assert StaysOn(rest) by {
          forall i | 0 <= i < |rest| ensures rest[i].weight >= DepartureThreshold {
            assert rest[i] == trace[i + 1];
          }
        }
        NoRefireUntilDeparture(r.state, rest);
      } else {
        SustainedLoadFiresOnce(r.state, rest);
      }
      forall i | 0 <= i < |trace| ensures fires[i] <==> i == StabilityTicks - s.stabilityCount {
        if i > 0 {
          assert fires[i] == Fires(r.state, rest)[i - 1];
        }
      }
    }
  }

  /** From start-up (or after a departure), the camera is triggered on the eleventh qualifying tick. */
  lemma FiresOnEleventhTick(trace: seq<Reading>)
    requires Sustained(trace)
    ensures forall i :: 0 <= i < |trace| ==> (Fires(Armed, trace)[i] <==> i == 10)
  {
    SustainedLoadFiresOnce(Armed, trace);
  }

  /** The detector's refs, advanced in place once per polling tick. */
  class Detector {
    var stabilityCount: int
    var hasTriggered: bool

    function State(): DetectorState
      reads this
    {
      DetectorState(stabilityCount, hasTriggered)
    }

    constructor ()
      ensures State() == Armed
    {
      stabilityCount := 0;
      hasTriggered := false;
    }

    /**
     * One polling tick on the latest weight, with the processing gate as the
     * tick sees it; `fired` is whether it triggers the camera.
     */
    method Tick(currentWeight: real, isProcessing: bool) returns (fired: bool)
      requires Valid(State())
      modifies this
      ensures Valid(State())
      ensures TickOutcome(State(), fired) == Step(old(State()), currentWeight, isProcessing)
    {
      fired := false;
      StepRules(State(), currentWeight, isProcessing);
      if currentWeight < DepartureThreshold {
        hasTriggered := false;
        stabilityCount := 0;
        return;
      }
      if currentWeight > EntryThreshold && !hasTriggered && !isProcessing {
        stabilityCount := stabilityCount + 1;
        if stabilityCount > StabilityTicks {
          hasTriggered := true;
          fired := true;
        }
      }
    }
  }
}
