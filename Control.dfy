/**
 * One pass of the firmware's main loop: redraw the clock when it is due,
 * scan the matrix and send the key of every accepted press, then poll the
 * encoder, turning rotation into volume steps and a click into mute.
 * Output and display requests are returned, in order, as events.
 */
module Control {
  import opened Wrappers
  import opened Debounce
  import opened Matrix
  import opened Encoder
  import opened Keymap
  import opened Display

  const DEBOUNCE_MS: nat := 20
  const ENCODER_ENABLED: bool := true

  /** The text shown as the last key on the status view. */
  datatype Label = KeyName(key: Keycode) | Text(text: string)

  /** What one tick asks of the outside world: a key sent to the host, or a display view. */
  datatype Event = Write(key: Keycode) | ShowTime | ShowStatus(layer: int, value: int, lastKey: Label)

  /** The events for the accepted presses, in scan order, sent on `layer` with the counter at `value`. */
  function PressEvents(keymap: seq<Layer>, layer: nat, value: int, presses: seq<Key>): (events: seq<Event>)
    requires WellFormed(keymap) && forall i :: 0 <= i < |presses| ==> OnMatrix(presses[i])
    ensures |events| == if layer < |keymap| then 2 * |presses| else 0
    ensures ShowTime !in events
    decreases |presses|
  {
    if presses == [] then []
    else
      var front := PressEvents(keymap, layer, value, presses[..|presses| - 1]);
      match Resolve(keymap, layer, presses[|presses| - 1])
      case None => front
      case Some(key) => front + [Write(key), ShowStatus(layer, value, KeyName(key))]
  }

  /** The encoder counter after a poll reporting `rotation`. */
  function ValueAfter(value: int, rotation: int): int
  {
    if rotation > 0 then value + 1 else if rotation < 0 then value - 1 else value
  }

  /** The events for an encoder poll, with the counter at `value` before it. */
  function EncoderEvents(report: Report, value: int): seq<Event>
  {
    (if report.rotation > 0 then [Write(AUDIO_VOL_UP)]
     else if report.rotation < 0 then [Write(AUDIO_VOL_DOWN)]
     else [])
    + (if report.clicked then [Write(AUDIO_MUTE), ShowStatus(0, ValueAfter(value, report.rotation), Text("MUTE"))]
       else [])
  }

  /** What the main loop gets from the encoder this tick. */
  function EncoderReport(enabled: bool, s: EncoderState, position: Option<int>, level: Option<bool>): Report
  {
    if ENCODER_ENABLED && enabled then Poll(s, position, level).0 else Quiet
  }

  /** A press was sent this tick: there was one and its layer is in the keymap. */
  predicate KeySent(keymap: seq<Layer>, layer: nat, presses: seq<Key>)
  {
    layer < |keymap| && presses != []
  }

  /** The display update time after a tick. */
  function TimerAfter(lastUpdate: int, now: int, keySent: bool, clicked: bool): int
  {
    if keySent || clicked then now - REWIND_MS else AfterClock(lastUpdate, now)
  }

  /** All events of one tick, in the order the loop produces them. */
  function TickEvents(lastUpdate: int, now: int, keymap: seq<Layer>, layer: nat, value: int,
                      presses: seq<Key>, report: Report): seq<Event>
    requires WellFormed(keymap) && forall i :: 0 <= i < |presses| ==> OnMatrix(presses[i])
  {
    (if ClockDue(lastUpdate, now) then [ShowTime] else [])
    + PressEvents(keymap, layer, value, presses)
    + EncoderEvents(report, value)
  }

  // ---------------------------------------------------------------------------
  // Properties of a tick
  // ---------------------------------------------------------------------------

  /** A tick renders the clock exactly when it is due, and then before anything else. */
  lemma ClockRenderedIffDue(lastUpdate: int, now: int, keymap: seq<Layer>, layer: nat, value: int,
                            presses: seq<Key>, report: Report)
    requires WellFormed(keymap) && forall i :: 0 <= i < |presses| ==> OnMatrix(presses[i])
    ensures (ShowTime in TickEvents(lastUpdate, now, keymap, layer, value, presses, report))
              <==> ClockDue(lastUpdate, now)
    ensures ClockDue(lastUpdate, now) ==> TickEvents(lastUpdate, now, keymap, layer, value, presses, report)[0] == ShowTime
  {
    var events := TickEvents(lastUpdate, now, keymap, layer, value, presses, report);
    var keys := PressEvents(keymap, layer, value, presses);
    var enc := EncoderEvents(report, value);
    assert ShowTime !in enc;
    if !ClockDue(lastUpdate, now) {
      assert events == keys + enc;
    }
  }

  /** The keys a list of events sends to the host, in order. */
  function Writes(events: seq<Event>): seq<Keycode>
    decreases |events|
  {
    if events == [] then []
    else Writes(events[..|events| - 1])
         + (if events[|events| - 1].Write? then [events[|events| - 1].key] else [])
  }

  lemma {:induction false} WritesConcat(a: seq<Event>, b: seq<Event>)
    ensures Writes(a + b) == Writes(a) + Writes(b)
    decreases |b|
  {
    if b == [] {
      assert a + b == a;
    } else {
      var front := b[..|b| - 1];
      assert (a + b)[..|a + b| - 1] == a + front;
      assert (a + b)[|a + b| - 1] == b[|b| - 1];
      WritesConcat(a, front);
    }
  }

  lemma WritesOne(e: Event)
    ensures Writes([e]) == if e.Write? then [e.key] else []
  {
    assert [e][..0] == [];
  }

  /** A key followed by a status view adds just that key to what is sent. */
  lemma WritesKeyThenStatus(before: seq<Event>, key: Keycode, status: Event)
    requires status.ShowStatus?
    ensures Writes(before + [Write(key), status]) == Writes(before) + [key]
  {
    assert [Write(key), status] == [Write(key)] + [status];
    WritesConcat(before, [Write(key), status]);
    WritesConcat([Write(key)], [status]);
    WritesOne(Write(key));
    WritesOne(status);
  }

  /** The layer's entry for each press, in the order given. */
  function Lookups(keymap: seq<Layer>, layer: nat, presses: seq<Key>): (keys: seq<Keycode>)
    requires WellFormed(keymap) && layer < |keymap| && forall i :: 0 <= i < |presses| ==> OnMatrix(presses[i])
    ensures |keys| == |presses|
    ensures forall i :: 0 <= i < |presses| ==> keys[i] == keymap[layer][KeyIndex(presses[i])]
    decreases |presses|
  {
    if presses == [] then []
    else Lookups(keymap, layer, presses[..|presses| - 1]) + [keymap[layer][KeyIndex(presses[|presses| - 1])]]
  }

  /**
   * The keys sent for the presses of a tick: when the layer is in the keymap,
   * the layer's entry for each press, once each and in scan order; otherwise none.
   */
  lemma {:induction false} PressWritesAreLookups(keymap: seq<Layer>, layer: nat, value: int, presses: seq<Key>)
    requires WellFormed(keymap) && forall i :: 0 <= i < |presses| ==> OnMatrix(presses[i])
    ensures Writes(PressEvents(keymap, layer, value, presses))
         == if layer < |keymap| then Lookups(keymap, layer, presses) else []
    decreases |presses|
  {
    if presses != [] {
      var front := presses[..|presses| - 1];
      PressWritesAreLookups(keymap, layer, value, front);
      var before := PressEvents(keymap, layer, value, front);
      if layer < |keymap| {
        var key := keymap[layer][KeyIndex(presses[|presses| - 1])];
        var status := ShowStatus(layer, value, KeyName(key));
        assert PressEvents(keymap, layer, value, presses) == before + [Write(key), status];
        WritesKeyThenStatus(before, key, status);
      } else {
        assert PressEvents(keymap, layer, value, presses) == before;
      }
    }
  }

  /**
   * The events of a tick's presses, pair by pair: each press sends its
   * layer's entry and then shows the status view with the layer, the
   * counter and that key as the last key.
   */
  lemma {:induction false} PressEventsPaired(keymap: seq<Layer>, layer: nat, value: int, presses: seq<Key>)
    requires WellFormed(keymap) && layer < |keymap| && forall i :: 0 <= i < |presses| ==> OnMatrix(presses[i])
    ensures var events := PressEvents(keymap, layer, value, presses);
            forall i :: 0 <= i < |presses| ==>
              events[2 * i] == Write(keymap[layer][KeyIndex(presses[i])]) &&
              events[2 * i + 1] == ShowStatus(layer, value, KeyName(keymap[layer][KeyIndex(presses[i])]))
    decreases |presses|
  {
    if presses != [] {
      var n := |presses| - 1;
      var front := presses[..n];
      PressEventsPaired(keymap, layer, value, front);
      var before := PressEvents(keymap, layer, value, front);
      var key := keymap[layer][KeyIndex(presses[n])];
      var events := before + [Write(key), ShowStatus(layer, value, KeyName(key))];
      assert PressEvents(keymap, layer, value, presses) == events;
      assert |before| == 2 * n;
      forall i | 0 <= i < |presses|
        ensures events[2 * i] == Write(keymap[layer][KeyIndex(presses[i])])
        ensures events[2 * i + 1] == ShowStatus(layer, value, KeyName(keymap[layer][KeyIndex(presses[i])]))
      {
        if i < n {
          assert front[i] == presses[i];
          assert events[2 * i] == before[2 * i] && events[2 * i + 1] == before[2 * i + 1];
        }
      }
    }
  }

  /**
   * The display requests of an encoder poll: a click, and only a click, ends
   * the events with the mute key and then the status view on layer 0 with the
   * counter after this poll's rotation and the text "MUTE"; no clock view.
   */
  lemma EncoderStatus(report: Report, value: int)
    ensures var events := EncoderEvents(report, value);
            && ShowTime !in events
            && (report.clicked <==> exists e :: e in events && e.ShowStatus?)
            && (report.clicked ==>
                  |events| >= 2 && events[|events| - 2] == Write(AUDIO_MUTE)
                  && events[|events| - 1] == ShowStatus(0, ValueAfter(value, report.rotation), Text("MUTE")))
  {
    var events := EncoderEvents(report, value);
    if report.clicked {
      assert events[|events| - 1] in events;
    }
  }

  /** The keys an encoder poll sends: volume up or down for a rotation, then mute for a click. */
  lemma EncoderWrites(report: Report, value: int)
    ensures Writes(EncoderEvents(report, value))
         == (if report.rotation > 0 then [AUDIO_VOL_UP] else if report.rotation < 0 then [AUDIO_VOL_DOWN] else [])
            + (if report.clicked then [AUDIO_MUTE] else [])
  {
    var turn: seq<Event> := if report.rotation > 0 then [Write(AUDIO_VOL_UP)]
                            else if report.rotation < 0 then [Write(AUDIO_VOL_DOWN)] else [];
    var status := ShowStatus(0, ValueAfter(value, report.rotation), Text("MUTE"));
    var click: seq<Event> := if report.clicked then [Write(AUDIO_MUTE), status] else [];
    assert EncoderEvents(report, value) == turn + click;
    WritesConcat(turn, click);
    if turn != [] { WritesOne(turn[0]); }
    if click != [] {
      assert click == [Write(AUDIO_MUTE)] + [status];
      WritesConcat([Write(AUDIO_MUTE)], [status]);
      WritesOne(Write(AUDIO_MUTE));
      WritesOne(status);
    }
  }

  /** A clock view in front of the key and encoder events sends nothing of its own. */
  lemma WritesAfterClock(clock: seq<Event>, keys: seq<Event>, enc: seq<Event>)
    requires clock == [] || clock == [ShowTime]
    ensures Writes(clock + keys + enc) == Writes(keys) + Writes(enc)
  {
    WritesConcat(clock + keys, enc);
    WritesConcat(clock, keys);
    if clock != [] {
      WritesOne(ShowTime);
    }
    assert Writes(clock) == [];
  }

  /**
   * Everything a tick sends to the host: the keymap entries of its presses
   * (when the layer exists), then what the encoder poll sends.
   */
  lemma TickWrites(lastUpdate: int, now: int, keymap: seq<Layer>, layer: nat, value: int,
                   presses: seq<Key>, report: Report)
    requires WellFormed(keymap) && forall i :: 0 <= i < |presses| ==> OnMatrix(presses[i])
    ensures Writes(TickEvents(lastUpdate, now, keymap, layer, value, presses, report))
         == (if layer < |keymap| then Lookups(keymap, layer, presses) else [])
            + Writes(EncoderEvents(report, value))
  {
    var clock: seq<Event> := if ClockDue(lastUpdate, now) then [ShowTime] else [];
    WritesAfterClock(clock, PressEvents(keymap, layer, value, presses), EncoderEvents(report, value));
    PressWritesAreLookups(keymap, layer, value, presses);
  }

  /**
   * After a tick that sent a key or saw a click, the clock view returns at
   * the first tick 200 ms or more after this one; and no tick leaves a clock
   * render still due at its own time.
   */
  lemma TimerAfterTick(lastUpdate: int, now: int, keySent: bool, clicked: bool, t: int)
    ensures keySent || clicked ==>
              (ClockDue(TimerAfter(lastUpdate, now, keySent, clicked), t) <==> t >= now + 200)
    ensures !ClockDue(TimerAfter(lastUpdate, now, keySent, clicked), now)
  {
    if keySent || clicked {
      RevertDelay(now, t);
    }
  }

  /** Rotation moves the counter by its sign: one step per poll, whatever the distance turned. */
  lemma CounterFollowsRotation(s: EncoderState, position: int, level: Option<bool>, value: int)
    ensures ValueAfter(value, Poll(s, Some(position), level).0.rotation) == value + Sign(position - s.lastPosition)
  {
  }

  /** The encoder counter along a run of polls, starting from `value`: element k is the value after poll k. */
  function Counter(value: int, reports: seq<Report>): (values: seq<int>)
    ensures |values| == |reports|
    decreases |reports|
  {
    if reports == [] then []
    else
      var next := ValueAfter(value, reports[0].rotation);
      [next] + Counter(next, reports[1..])
  }

  /** Positions 0, 1, 1, 2 turn into directions 0, +1, 0, +1 and counter values 0, 1, 1, 2. */
  lemma EncoderScenario()
    ensures var reports := Run(Initial, [Reading(0, true), Reading(1, true), Reading(1, true), Reading(2, true)]);
            [reports[0].rotation, reports[1].rotation, reports[2].rotation, reports[3].rotation] == [0, 1, 0, 1]
            && Counter(0, reports) == [0, 1, 1, 2]
  {
    var readings := [Reading(0, true), Reading(1, true), Reading(1, true), Reading(2, true)];
    RunIsEdgeDetection(Initial, readings, 0);
    RunIsEdgeDetection(Initial, readings, 1);
    RunIsEdgeDetection(Initial, readings, 2);
    RunIsEdgeDetection(Initial, readings, 3);
    var reports := Run(Initial, readings);
    assert Counter(0, reports) == [0] + Counter(0, reports[1..]);
    assert Counter(0, reports[1..]) == [1] + Counter(1, reports[2..]);
    assert Counter(1, reports[2..]) == [1] + Counter(1, reports[3..]);
    assert Counter(1, reports[3..]) == [2] + Counter(2, reports[4..]);
  }

  // ---------------------------------------------------------------------------
  // The loop state
  // ---------------------------------------------------------------------------

  /** The state the main loop carries from one tick to the next. */
  class ControlLoop {
    const scanner: MatrixScanner
    const encoder: EncoderController
    const keymap: seq<Layer>
    var currentLayer: nat
    var currentEncoderValue: int
    var lastKeyPressed: Option<Label>
    var lastTimeUpdate: int

    ghost predicate Valid()
      reads scanner, scanner.keyStates, scanner.lastPressTime, scanner.colOut
    {
      scanner.Valid() && scanner.ColumnsLow() &&
      scanner.numRows == MATRIX_ROWS && scanner.numCols == MATRIX_COLS && scanner.debounceMs == DEBOUNCE_MS &&
      WellFormed(keymap)
    }

    /**
     * The loop as it is entered: a fresh 3 x 3 scanner, an encoder whose
     * set-up succeeded or not, layer 0, counter 0, and the clock timer at
     * `start`.
     */
    constructor (keys: seq<Layer>, encoderAvailable: bool, start: int)
      requires WellFormed(keys)
      ensures Valid() && fresh(scanner) && fresh(scanner.keyStates) && fresh(scanner.lastPressTime)
      ensures fresh(scanner.colOut) && fresh(encoder)
      ensures keymap == keys && encoder.enabled == encoderAvailable && encoder.State() == Initial
      ensures forall r, c :: 0 <= r < MATRIX_ROWS && 0 <= c < MATRIX_COLS ==> scanner.cells[r][c] == Released
      ensures scanner.pinLog == []
      ensures currentLayer == 0 && currentEncoderValue == 0 && lastKeyPressed == None && lastTimeUpdate == start
    {
      scanner := new MatrixScanner(MATRIX_ROWS, MATRIX_COLS, DEBOUNCE_MS);
      encoder := new EncoderController(encoderAvailable);
      keymap := keys;
      currentLayer := 0;
      currentEncoderValue := 0;
      lastKeyPressed := None;
      lastTimeUpdate := start;
    }

    /**
     * Sends the key of every press on the current layer, in order, showing a
     * status view after each and rewinding the clock timer to `now` minus the
     * rewind. Nothing is sent when the layer is not in the keymap.
     */
    method SendPresses(pressed: seq<Key>, now: int) returns (events: seq<Event>)
      requires WellFormed(keymap) && forall i :: 0 <= i < |pressed| ==> OnMatrix(pressed[i])
      modifies this`lastTimeUpdate, this`lastKeyPressed
      ensures events == PressEvents(keymap, currentLayer, currentEncoderValue, pressed)
      ensures lastTimeUpdate == if KeySent(keymap, currentLayer, pressed) then now - REWIND_MS
                                else old(lastTimeUpdate)
      ensures lastKeyPressed == if KeySent(keymap, currentLayer, pressed)
                                then Some(KeyName(keymap[currentLayer][KeyIndex(pressed[|pressed| - 1])]))
                                else old(lastKeyPressed)
    {
      events := [];
      var i := 0;
      while i < |pressed|
        invariant 0 <= i <= |pressed|
        invariant events == PressEvents(keymap, currentLayer, currentEncoderValue, pressed[..i])
        invariant lastTimeUpdate == if KeySent(keymap, currentLayer, pressed[..i]) then now - REWIND_MS
                                    else old(lastTimeUpdate)
        invariant lastKeyPressed == if KeySent(keymap, currentLayer, pressed[..i])
                                    then Some(KeyName(keymap[currentLayer][KeyIndex(pressed[i - 1])]))
                                    else old(lastKeyPressed)
      {
        assert pressed[..i + 1][..i] == pressed[..i];
        var resolved := Resolve(keymap, currentLayer, pressed[i]);
        if resolved.Some? {
          var key := resolved.value;
          events := events + [Write(key)];
          lastKeyPressed := Some(KeyName(key));
          events := events + [ShowStatus(currentLayer, currentEncoderValue, KeyName(key))];
          lastTimeUpdate := now - REWIND_MS;
        }
        i := i + 1;
      }
      assert pressed[..|pressed|] == pressed;
    }

    /**
     * Scans the matrix at `scanNow` and sends the key of every accepted
     * press on the current layer, in scan order.
     */
    method ScanKeys(now: int, scanNow: int, raw: seq<seq<bool>>) returns (events: seq<Event>, ghost presses: seq<Key>)
      requires Valid() && IsGrid(raw, MATRIX_ROWS, MATRIX_COLS)
      modifies this`lastTimeUpdate, this`lastKeyPressed
      modifies scanner, scanner.keyStates, scanner.lastPressTime, scanner.colOut
      ensures Valid()
      ensures presses == ScanPresses(old(scanner.cells), raw, scanNow, scanner.debounceMs, scanner.numCols)
      ensures forall i :: 0 <= i < |presses| ==> OnMatrix(presses[i])
      ensures events == PressEvents(keymap, currentLayer, currentEncoderValue, presses)
      ensures lastTimeUpdate == if KeySent(keymap, currentLayer, presses) then now - REWIND_MS
                                else old(lastTimeUpdate)
      ensures lastKeyPressed == if KeySent(keymap, currentLayer, presses)
                                then Some(KeyName(keymap[currentLayer][KeyIndex(presses[|presses| - 1])]))
                                else old(lastKeyPressed)
      ensures scanner.ScannedFrom(old(scanner.cells), raw, scanNow)
    {
      ghost var cells0 := scanner.cells;
      var pressed := scanner.Scan(raw, scanNow);
      presses := pressed;
      ScanPressesInBounds(cells0, raw, scanNow, scanner.debounceMs, scanner.numCols);
      events := SendPresses(pressed, now);
    }

    /**
     * Polls the encoder: volume up or down and a counter step for a rotation,
     * mute and a status view for a click, which also rewinds the clock timer.
     */
    method HandleEncoder(position: Option<int>, level: Option<bool>, now: int) returns (events: seq<Event>)
      modifies this`currentEncoderValue, this`lastTimeUpdate, encoder
      ensures var report := EncoderReport(encoder.enabled, old(encoder.State()), position, level);
              events == EncoderEvents(report, old(currentEncoderValue)) &&
              currentEncoderValue == ValueAfter(old(currentEncoderValue), report.rotation) &&
              lastTimeUpdate == if report.clicked then now - REWIND_MS else old(lastTimeUpdate)
      ensures encoder.enabled ==> encoder.State() == Poll(old(encoder.State()), position, level).1
      ensures !encoder.enabled ==> encoder.State() == old(encoder.State())
    {
      events := [];
      var rotation, buttonPressed := encoder.Update(position, level);
      if rotation > 0 {
        events := events + [Write(AUDIO_VOL_UP)];
        currentEncoderValue := currentEncoderValue + 1;
      } else if rotation < 0 {
        events := events + [Write(AUDIO_VOL_DOWN)];
        currentEncoderValue := currentEncoderValue - 1;
      }
      if buttonPressed {
        events := events + [Write(AUDIO_MUTE)];
        events := events + [ShowStatus(0, currentEncoderValue, Text("MUTE"))];
        lastTimeUpdate := now - REWIND_MS;
      }
    }

    /**
     * One pass of the main loop. `now` is the loop's clock read at the top of
     * the pass and `scanNow` the scanner's own read; `raw` is the matrix
     * reads, and `position` and `level` the encoder reads (None for a read
     * that failed).
     */
    method Tick(now: int, scanNow: int, raw: seq<seq<bool>>, position: Option<int>, level: Option<bool>)
      returns (out: seq<Event>, ghost presses: seq<Key>, ghost report: Report)
      requires Valid() && IsGrid(raw, MATRIX_ROWS, MATRIX_COLS)
      modifies this, scanner, scanner.keyStates, scanner.lastPressTime, scanner.colOut, encoder
      ensures Valid()
      // the presses the scan accepted and what the encoder poll reported
      ensures presses == ScanPresses(old(scanner.cells), raw, scanNow, scanner.debounceMs, scanner.numCols)
      ensures forall i :: 0 <= i < |presses| ==> OnMatrix(presses[i])
      ensures report == EncoderReport(encoder.enabled, old(encoder.State()), position, level)
      // the events, and the loop's own state
      ensures out == TickEvents(old(lastTimeUpdate), now, keymap, currentLayer, old(currentEncoderValue), presses, report)
      ensures currentLayer == old(currentLayer)
      ensures currentEncoderValue == ValueAfter(old(currentEncoderValue), report.rotation)
      ensures lastTimeUpdate == TimerAfter(old(lastTimeUpdate), now, KeySent(keymap, currentLayer, presses), report.clicked)
      ensures lastKeyPressed == if KeySent(keymap, currentLayer, presses)
                                then Some(KeyName(keymap[currentLayer][KeyIndex(presses[|presses| - 1])]))
                                else old(lastKeyPressed)
      // the scanner's and the encoder's new state
      ensures scanner.ScannedFrom(old(scanner.cells), raw, scanNow)
      ensures ENCODER_ENABLED && encoder.enabled ==> encoder.State() == Poll(old(encoder.State()), position, level).1
      ensures !(ENCODER_ENABLED && encoder.enabled) ==> encoder.State() == old(encoder.State())
    {
      out := [];
      if now - lastTimeUpdate >= REFRESH_MS {
        out := [ShowTime];
        lastTimeUpdate := now;
      }
      var keyEvents;
      keyEvents, presses := ScanKeys(now, scanNow, raw);
      out := out + keyEvents;
      report := Quiet;
      if ENCODER_ENABLED {
        report := EncoderReport(encoder.enabled, encoder.State(), position, level);
        var encoderEvents := HandleEncoder(position, level, now);
        out := out + encoderEvents;
      }
    }
  }
}
