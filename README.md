# IceDeck V2 firmware: a verified model of the scan, encoder and main loop

IceDeck V2 is a 3 x 3 macro pad with a rotary encoder and a small display.
Its firmware has three cooperating parts, all in `Firmware/main.py`:

- a **matrix scanner** that drives one column at a time, reads every row and
  debounces each cell. It reports only newly accepted presses, in
  column-major order;
- an **encoder controller** that turns the encoder position into a direction
  in {-1, 0, +1}, and the active-low push switch into one click per press;
- the **main loop**. On each pass it:
  - redraws the clock once a second has passed;
  - sends the keymap entry of every press;
  - turns encoder rotation into volume up or down, which also moves a counter;
  - turns a click into mute;
  - after a key or a click, shows a status view for a while before the clock
    returns.

The model follows the program's structure, one module per concern:

| module | what it holds |
|---|---|
| `Wrappers` | `Option`, for hardware reads that may fail |
| `Debounce` | the per-cell debounce rule as a pure `Step`, cell histories, and what debounce guarantees over time |
| `Matrix` | the list of accepted presses, the pin-operation log and its drive discipline, and the `MatrixScanner` class: two `array2` tables and the column outputs, updated in place by `Scan` |
| `Encoder` | the pure `Poll` of one encoder read, runs of polls, and the `EncoderController` class with its mutable `lastPosition`/`lastSwitchState` |
| `Keymap` | key codes as opaque names, the flat index `row * 3 + col`, the layer guard, and the firmware's own keymap |
| `Display` | the clock-refresh timer: a 1000 ms refresh interval and an 800 ms rewind after a key or click |
| `Control` | the events one loop pass produces, and the `ControlLoop` class whose `Tick` method is one pass of the loop |

Time is integer milliseconds. The scanner's time is `scanNow`, its own clock
read. The loop's time `now` is read once at the top of the pass and used for
the clock check and for every rewind. A pass's hardware reads come in as
parameters:
- `raw[r][c]` is what row `r` reads while column `c` is driven;
- `position` and `level` are the encoder reads, `None` for a read that raised.

A pass returns its outputs as a sequence of `Event`s:
- `Write(key)`, a key sent to the host;
- `ShowTime`, the clock view;
- `ShowStatus(layer, value, label)`, the status view.

The scanner's class also keeps two ghost fields:
- `cells`, the two tables seen as one grid of `Cell`s;
- `pinLog`, the sequence of column writes and row reads of the last scan. The
  drive discipline is stated over this log.

Where the code and the comments or design notes differ, the model follows the code:

- A release clears a cell's state but does not update `last_press_time`
  (`Firmware/main.py:112-115`). So a release does not restart the debounce
  window. A cell pressed at 25 ms, released at 46 ms and pressed again at
  50 ms has all three transitions accepted (`Debounce.ReleaseThenRepressWithinWindow`).
  What debounce does guarantee is that two accepted presses of the same cell
  are more than the window apart (`Debounce.PressesSeparated`).
- After a key or a click the timer is set to `now - 800 ms`
  (`Firmware/main.py:366`, `389`). The clock therefore returns at the first
  pass at least 200 ms later, not "after 2 seconds" as the comment at
  `Firmware/main.py:365` says (`Display.RevertDelay`, `Control.TimerAfterTick`).
- Every cell's press time starts at 0 (`Firmware/main.py:81`). A press must
  come more than the window after that time to be accepted, so with the
  20 ms window a press first sampled at or before 20 ms of the clock is
  dropped, and it is only accepted once a later scan sees it still held
  (`Debounce.HeldAcceptedOnce`). The worked example
  `Debounce.HeldPressAcceptedOnce` therefore starts at 25 ms rather than at 0.

## Model

| member | source | states |
|---|---|---|
| `Debounce.Step` | Firmware/main.py:105-115 | A cell's state flips exactly when the reading differs from it and more than the window (strict) has passed since the last accepted press. It flips to the reading. The press time changes only on an accepted press, and then to the scan time. A reading that agrees, or one inside the window, leaves the cell as it was, with nothing queued. The press time never decreases. |
| `Debounce.LastPressMonotone` | Firmware/main.py:105-115 | Along any sequence of scans of one cell, the recorded press time never decreases. This holds whatever the clock does. |
| `Debounce.PressesSeparated` | Firmware/main.py:105-110 | Two presses accepted on one cell were sampled more than the debounce window apart, whatever readings came in between. |
| `Debounce.ReleaseThenRepressWithinWindow` | Firmware/main.py:112-115 | A release does not refresh the press time. Press at 25 ms, release at 46 ms, press at 50 ms with a 20 ms window: all three are accepted. |
| `Debounce.HeldPressAcceptedOnce` | Firmware/main.py:105-110 | A press held across two scans (25 ms, 30 ms) of a fresh cell is accepted once, at the first. The cell then stays pressed with press time 25. |
| `Debounce.HeldWithinWindow` | Firmware/main.py:105-115 | A held reading that differs from the cell leaves the cell exactly as it was at every scan inside the window since the last accepted press. |
| `Debounce.HeldAtMostOnce` | Firmware/main.py:105-115 | Once the cell's state agrees with a held reading, every later scan leaves the cell exactly as it is, so the transition is not accepted again. |
| `Debounce.HeldAcceptedOnce` | Firmware/main.py:105-115 | A raw transition held stable is accepted exactly once. The cell is unchanged up to the first scan more than the window after its last accepted press. That scan flips it to the reading; a press records that scan's time and a release keeps the old time. From then on the cell never changes. |
| `Matrix.ColumnPressesFacts` | Firmware/main.py:101-110 | A column's presses are exactly the cells of that column whose press is accepted, listed top to bottom. |
| `Matrix.ScanPressesFacts` | Firmware/main.py:93-110 | A key is in a scan's result if and only if it is in bounds and a press of it is accepted. The result is in strict column-major order. |
| `Matrix.ScanPressesInBounds` | Firmware/main.py:93-110 | Every entry of a scan's result has row < rows and col < cols. |
| `Matrix.ScanOrderDistinct` | Firmware/main.py:93-110 | A list in scan order holds no key twice, so a scan reports each key at most once. |
| `Matrix.ScanPinsDiscipline` | Firmware/main.py:93-118 | At every point of a scan's pin log at most one column is driven. Every row read happens while its own column, and only it, is driven. At the end no column is driven. |
| `Matrix.ScanPinsReadsEveryCell` | Firmware/main.py:93-102 | A scan reads cell (r, c) exactly when r < rows and c < cols. |
| `Matrix.MatrixScanner.constructor` | Firmware/main.py:56-81 | The tables have the given dimensions. Every cell starts released with press time 0, every column output low, and the log empty. |
| `Matrix.MatrixScanner.Debounce` | Firmware/main.py:102-115 | Updates the two tables in place for one cell: that cell takes one `Step` and no other cell changes. The result is whether `Step` accepted a press. |
| `Matrix.MatrixScanner.ReadRows` | Firmware/main.py:100-115 | Requires the column outputs to match the log, with column c and no other driven, so every row read happens on a real output of exactly column c. Reads and debounces each row top to bottom. Only column c's cells change, each by one `Step`. The column's accepted presses come back top to bottom, the log grows by the row reads, and no output changes. |
| `Matrix.MatrixScanner.ScanColumn` | Firmware/main.py:93-118 | Drives column c, reads and debounces each row, then releases the column. Only column c's cells change, each by one `Step`. The column's accepted presses come back top to bottom. The log grows by drive, reads, release. The outputs match the log before and after, and the column ends low with the other outputs unchanged. |
| `Matrix.MatrixScanner.Scan` | Firmware/main.py:85-120 | Entered with every column low, as set-up and every earlier scan leave them. The result is the column-major list of accepted presses of the old state. Every cell takes exactly one `Step` on its reading. The pin log is that of a full pass, the outputs match it, and every column ends low. |
| `Encoder.Poll` | Firmware/main.py:153-169 | A failed position read reports (0, false) and changes nothing. Otherwise the direction is the sign of the change and the stored position becomes the read (so a zero change keeps it). A click is reported exactly on a high-to-low switch level. The stored level follows every level read. |
| `Encoder.RunIsEdgeDetection` | Firmware/main.py:155-169 | Across successive polls, each direction is the sign of the change since the previous poll. A click is reported exactly where the level goes from high to low. |
| `Encoder.SustainedPressClicksOnce` | Firmware/main.py:164-169 | Holding the switch low for any number of polls clicks on the first poll only. |
| `Encoder.ReleasePressPressRelease` | Firmware/main.py:164-169 | Levels high, low, low, high from the start-up state give clicks false, true, false, false. |
| `Encoder.EncoderController.constructor` | Firmware/main.py:129-143 | The encoder is enabled exactly when set-up succeeded. It starts at position 0 with the switch released. |
| `Encoder.EncoderController.Update` | Firmware/main.py:145-174 | A disabled encoder returns (0, false) and keeps its state. An enabled one returns `Poll`'s report and moves to `Poll`'s state. |
| `Keymap.KeyIndex` | Firmware/main.py:353 | The flat index `row * 3 + col` of an on-matrix key is below 9, and row and column can be read back from it. |
| `Keymap.KeyIndexInjective` | Firmware/main.py:353 | Distinct keys map to distinct layer entries. |
| `Keymap.KeymapLayout` | Firmware/main.py:292-302 | The firmware's keymap is one layer of nine keys. The centre key is the empty key, the corner key the Discord shortcut, and layer 1 resolves nothing. |
| `Display.AfterClock` | Firmware/main.py:343-346 | With no key or click in the pass, the timer never moves back, and it never leaves a render still due at the pass's own time. It moves, to the pass time, only when a render was due (1000 ms or more since the last update). |
| `Display.RevertDelay` | Firmware/main.py:365-366 | After the 800 ms rewind at time t, a render is due exactly at passes at or after t + 200 ms. |
| `Display.RendersSpaced` | Firmware/main.py:343-346 | Over passes without keys or clicks, two clock renders are at least 1000 ms apart. |
| `Display.RenderWithinInterval` | Firmware/main.py:343-346 | Over such passes with a non-decreasing clock, a pass 1000 ms or more after a pass i renders if no pass since i has rendered. |
| `Control.PressEvents` | Firmware/main.py:351-366 | A pass's presses yield exactly two events each when the layer exists, and none otherwise. None of them is a clock view. |
| `Control.PressEventsPaired` | Firmware/main.py:351-364 | When the layer exists, press i yields event 2i, which sends the layer's entry for that key, then event 2i+1, the status view with the layer, the counter and that key as the last key. |
| `Control.ClockRenderedIffDue` | Firmware/main.py:343-346 | A pass shows the clock if and only if a render is due, and then as its first event. |
| `Control.PressWritesAreLookups` | Firmware/main.py:351-358 | The keys sent for a pass's presses are the layer's entries at each key's flat index, once each in scan order, when the layer exists. When the layer is not in the keymap, nothing is sent. |
| `Control.EncoderWrites` | Firmware/main.py:369-389 | An encoder poll sends volume up for a positive direction, volume down for a negative one, and then mute for a click. |
| `Control.EncoderStatus` | Firmware/main.py:372-389 | An encoder poll shows a status view if and only if it clicked. A click ends the events with mute and then the status view on layer 0 with the counter after this poll's rotation and the text "MUTE". A poll never shows the clock. |
| `Control.TickWrites` | Firmware/main.py:341-389 | Everything a pass sends to the host: the keymap entries of its presses (if the layer exists), then what the encoder poll sends. |
| `Control.TimerAfterTick` | Firmware/main.py:343-389 | After a pass with a key sent or a click, the clock returns exactly at passes 200 ms or more later. No pass leaves a clock render still due at its own time. |
| `Control.CounterFollowsRotation` | Firmware/main.py:372-382 | The encoder counter moves by the sign of the position change: exactly one step per poll, whatever the distance turned. |
| `Control.EncoderScenario` | Firmware/main.py:369-382 | Positions 0, 1, 1, 2 give directions 0, +1, 0, +1 and counter values 0, 1, 1, 2. |
| `Control.ControlLoop.constructor` | Firmware/main.py:309-339 | A 3 x 3 scanner with a 20 ms window, all cells released, every column low and an empty pin log. An encoder enabled or not, layer 0, counter 0, no last key, and the timer at the start time. |
| `Control.ControlLoop.SendPresses` | Firmware/main.py:351-366 | The events are those of `PressEvents`. If a key was sent, the timer is rewound to `now - 800` and the last key is that of the final press. Otherwise neither changes. |
| `Control.ControlLoop.HandleEncoder` | Firmware/main.py:369-389 | The events are those of the poll's report. The counter moves by the direction, a click rewinds the timer, and the encoder moves to `Poll`'s state. |
| `Control.ControlLoop.ScanKeys` | Firmware/main.py:349-366 | Scans the matrix and sends its presses. The presses are the scan's accepted presses, all on the matrix. The events are their key and status events. The scanner's new state is that of `Scan`. |
| `Control.ControlLoop.Tick` | Firmware/main.py:341-392 | One pass: events are the clock view if due, then the press events, then the encoder events. The layer stays. The counter follows the direction, and the timer, the last key and the scanner's and encoder's new state are as stated. |

## Left out

- Hardware set-up (`digitalio`, `rotaryio`, pins, pulls) is not modelled; the reads a pass makes are parameters.
- A row-pin read that raises inside `scan` is not modelled. `scan` has no handler, so in the source the exception leaves `main()`, is caught at `Firmware/main.py:403-406`, a traceback is printed and the firmware stops for good. The column driven at `Firmware/main.py:95` then stays high, because `Firmware/main.py:118` never runs. The model's row reads always succeed.
- `time.sleep` (settling delay, start-up pause, loop delay), the endless `while True`, `KeyboardInterrupt` handling and every `print` are outside the model: they do not affect state.
- `time.monotonic()` returns floating-point seconds; the model uses integer milliseconds, which makes the comparisons with 1.0 s and 0.8 s exact.
- `DisplayController` drawing (PIL, SSD1306, fonts) and `show_startup` are not modelled; the model records only which view is requested with which layer, value and label.
- `keyboard.write` and the KMK key objects are opaque: a key is known by its name, and the label `f"{key}"` is that key.
- `Firmware/kb.py` is not part of this model: it only holds static keymap data.
- The global `last_update_time` (`Firmware/main.py:321`) is never read, and `DISPLAY_ENABLED` is never consulted; both are left out.
- A keymap layer shorter than nine entries would make the source raise `IndexError`; the model requires every layer to have nine entries (`Keymap.WellFormed`), which the firmware's keymap meets.
- `Encoder.EncoderController.constructor`: whether the hardware set-up succeeded is a parameter. The model sets the two fields even when it failed, where the source leaves them unset. They are never read when the encoder is disabled.
- `Control.ControlLoop.Tick`: the scanner's own clock read is a separate parameter. It is not tied to the loop's clock read, because the two are distinct `time.monotonic()` calls in the source.
