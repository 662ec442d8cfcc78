/**
 * The rotary encoder: a position counter and an active-low push switch.
 * Each poll turns the change of position into a direction in {-1, 0, +1}
 * and the switch level into a click that fires once per press.
 */
module Encoder {
  import opened Wrappers

  /** What the encoder remembers between polls. */
  datatype EncoderState = EncoderState(lastPosition: int, lastSwitch: bool)

  /** At start-up the position is 0 and the switch reads high (released). */
  const Initial: EncoderState := EncoderState(0, true)

  /** What one poll reports: the direction of rotation and whether the switch was just pressed. */
  datatype Report = Report(rotation: int, clicked: bool)

  /** The report of a poll that saw nothing. */
  const Quiet: Report := Report(0, false)

  /** The sign of an integer. */
  function Sign(d: int): (s: int)
    ensures s == -1 || s == 0 || s == 1
    ensures s > 0 <==> d > 0
    ensures s < 0 <==> d < 0
  {
    if d > 0 then 1 else if d < 0 then -1 else 0
  }

  /**
   * One poll of an enabled encoder. `position` and `level` are the two
   * hardware reads, in that order; None is a read that failed, which ends the
   * poll with what had been decided so far.
   */
  function Poll(s: EncoderState, position: Option<int>, level: Option<bool>): (r: (Report, EncoderState))
    // a failed position read: nothing is reported and nothing changes
    ensures position.None? ==> r == (Quiet, s)
    // the direction is the sign of the change, and the stored position follows the read
    ensures position.Some? ==> r.0.rotation == Sign(position.value - s.lastPosition)
    ensures position.Some? ==> r.1.lastPosition == position.value
    ensures r.1.lastPosition != s.lastPosition ==> r.0.rotation != 0
    // a click is a falling edge of the switch level
    ensures r.0.clicked <==> position.Some? && level.Some? && !level.value && s.lastSwitch
    // the stored level follows every level that was read
    ensures r.1.lastSwitch == if position.Some? && level.Some? then level.value else s.lastSwitch
  {
    match position
    case None => (Quiet, s)
    case Some(pos) =>
      var rotation := if pos > s.lastPosition then 1 else if pos < s.lastPosition then -1 else 0;
      var last := if pos != s.lastPosition then pos else s.lastPosition;
      match level
      case None => (Report(rotation, false), EncoderState(last, s.lastSwitch))
      case Some(sw) =>
        if !sw && s.lastSwitch then (Report(rotation, true), EncoderState(last, sw))
        else if sw && !s.lastSwitch then (Report(rotation, false), EncoderState(last, sw))
        else (Report(rotation, false), EncoderState(last, s.lastSwitch))
  }

  /** A poll in which both reads succeeded. */
  datatype Reading = Reading(position: int, level: bool)

  /** The reports of successive polls of an enabled encoder, starting from state `s`. */
  function Run(s: EncoderState, readings: seq<Reading>): (reports: seq<Report>)
    ensures |reports| == |readings|
    decreases |readings|
  {
    if readings == [] then []
    else
      var (report, next) := Poll(s, Some(readings[0].position), Some(readings[0].level));
      [report] + Run(next, readings[1..])
  }

  /** The reading taken just before poll `i`: the starting state for the first poll. */
  function Previous(s: EncoderState, readings: seq<Reading>, i: nat): Reading
    requires i < |readings|
  {
    if i == 0 then Reading(s.lastPosition, s.lastSwitch) else readings[i - 1]
  }

  /**
   * Across a run, each direction is the sign of the change since the previous
   * poll, and a click is reported exactly at a high-to-low change of the level.
   */
  lemma {:induction false} RunIsEdgeDetection(s: EncoderState, readings: seq<Reading>, i: nat)
    requires i < |readings|
    ensures Run(s, readings)[i].rotation == Sign(readings[i].position - Previous(s, readings, i).position)
    ensures Run(s, readings)[i].clicked <==> !readings[i].level && Previous(s, readings, i).level
    decreases i
  {
    if i > 0 {
      var next := Poll(s, Some(readings[0].position), Some(readings[0].level)).1;
      assert next == EncoderState(readings[0].position, readings[0].level);
      RunIsEdgeDetection(next, readings[1..], i - 1);
      assert Run(s, readings)[i] == Run(next, readings[1..])[i - 1];
    }
  }

  /** Holding the switch down for any number of polls clicks once, on the first of them. */
  lemma SustainedPressClicksOnce(s: EncoderState, readings: seq<Reading>)
    requires s.lastSwitch && readings != []
    requires forall i :: 0 <= i < |readings| ==> !readings[i].level
    ensures Run(s, readings)[0].clicked
    ensures forall i :: 0 < i < |readings| ==> !Run(s, readings)[i].clicked
  {
    RunIsEdgeDetection(s, readings, 0);
    forall i | 0 < i < |readings| ensures !Run(s, readings)[i].clicked {
      RunIsEdgeDetection(s, readings, i);
    }
  }

  /** The switch going high, low, low, high clicks on the second poll only. */
  lemma ReleasePressPressRelease()
    ensures var reports := Run(Initial, [Reading(0, true), Reading(0, false), Reading(0, false), Reading(0, true)]);
            [reports[0].clicked, reports[1].clicked, reports[2].clicked, reports[3].clicked]
              == [false, true, false, false]
  {
    var readings := [Reading(0, true), Reading(0, false), Reading(0, false), Reading(0, true)];
    RunIsEdgeDetection(Initial, readings, 0);
    RunIsEdgeDetection(Initial, readings, 1);
    RunIsEdgeDetection(Initial, readings, 2);
    RunIsEdgeDetection(Initial, readings, 3);
  }

  /** The encoder object; a failed hardware set-up leaves it disabled for good. */
  class EncoderController {
    const enabled: bool
    var lastPosition: int
    var lastSwitchState: bool

    function State(): EncoderState
      reads this
    {
      EncoderState(lastPosition, lastSwitchState)
    }

    constructor (available: bool)
      ensures enabled == available && State() == Initial
    {
      enabled := available;
      lastPosition := 0;
      lastSwitchState := true;
    }

    /**
     * One poll. A disabled encoder reports (0, false) and keeps its state; an
     * enabled one reports and moves to what Poll says.
     */
    method Update(position: Option<int>, level: Option<bool>) returns (rotation: int, buttonPressed: bool)
      modifies this
      ensures !enabled ==> rotation == 0 && !buttonPressed && State() == old(State())
      ensures enabled ==> (Report(rotation, buttonPressed), State()) == Poll(old(State()), position, level)
    {
      if !enabled {
        return 0, false;
      }
      rotation := 0;
      buttonPressed := false;
      if position.None? {
        return;
      }
      var currentPosition := position.value;
      if currentPosition > lastPosition {
        rotation := 1;
        lastPosition := currentPosition;
      } else if currentPosition < lastPosition {
        rotation := -1;
        lastPosition := currentPosition;
      }
      if level.None? {
        return;
      }
      var currentSwitch := level.value;
      if !currentSwitch && lastSwitchState {
        buttonPressed := true;
        lastSwitchState := currentSwitch;
      } else if currentSwitch && !lastSwitchState {
        lastSwitchState := currentSwitch;
      }
    }
  }
}
