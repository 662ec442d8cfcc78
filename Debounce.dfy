/**
 * The per-cell debounce rule of the matrix scanner.
 *
 * Each key of the matrix keeps a debounced logical state and the time of its
 * last accepted PRESS. A raw reading that differs from the logical state is
 * accepted only once more than the debounce window has passed since that
 * time; otherwise it is dropped for this pass (it is not queued). Accepting a
 * press records the scan time; accepting a release leaves the recorded time
 * as it is.
 */
module Debounce {

  /** The stored state of one matrix cell. */
  datatype Cell = Cell(pressed: bool, lastPress: int)

  /** The state every cell starts in. */
  const Released: Cell := Cell(false, 0)

  /** More than `window` milliseconds have passed since the last accepted press. */
  predicate Elapsed(c: Cell, now: int, window: nat)
  {
    now - c.lastPress > window
  }

  /** This pass accepts a press of the cell. */
  predicate PressAccepted(c: Cell, reading: bool, now: int, window: nat)
  {
    reading && !c.pressed && Elapsed(c, now, window)
  }

  /** This pass accepts a release of the cell. */
  predicate ReleaseAccepted(c: Cell, reading: bool, now: int, window: nat)
  {
    !reading && c.pressed && Elapsed(c, now, window)
  }

  /** One debounce decision for one cell, given the row read and the scan time. */
  function Step(c: Cell, reading: bool, now: int, window: nat): (r: Cell)
    // the logical state flips exactly when the reading disagrees and the window has passed
    ensures r.pressed != c.pressed <==> reading != c.pressed && Elapsed(c, now, window)
    ensures r.pressed != c.pressed ==> r.pressed == reading
    // only an accepted press moves the recorded time, and it moves it to the scan time
    ensures r.lastPress != c.lastPress ==> PressAccepted(c, reading, now, window)
    ensures PressAccepted(c, reading, now, window) ==> r.lastPress == now
    // a reading that agrees, or one inside the window, changes nothing
    ensures reading == c.pressed || !Elapsed(c, now, window) ==> r == c
    // the recorded time never moves backwards, whatever the clock does
    ensures r.lastPress >= c.lastPress
  {
    if reading && !c.pressed then
      if now - c.lastPress > window then Cell(true, now) else c
    else if !reading && c.pressed then
      if now - c.lastPress > window then Cell(false, c.lastPress) else c
    else
      c
  }

  /** One row read of one cell, taken at a scan time. */
  datatype Sample = Sample(reading: bool, now: int)

  /**
   * The states a cell passes through over successive scans: element k is the
   * state before sample k, and the last element the state after all of them.
   */
  function History(c: Cell, samples: seq<Sample>, window: nat): (h: seq<Cell>)
    ensures |h| == |samples| + 1 && h[0] == c
    decreases |samples|
  {
    if samples == [] then [c]
    else
      var before := History(c, samples[..|samples| - 1], window);
      var s := samples[|samples| - 1];
      before + [Step(before[|before| - 1], s.reading, s.now, window)]
  }

  /** Consecutive states of a history are related by one Step. */
  lemma {:induction false} HistoryStep(c: Cell, samples: seq<Sample>, window: nat, k: nat)
    requires k < |samples|
    ensures History(c, samples, window)[k + 1]
         == Step(History(c, samples, window)[k], samples[k].reading, samples[k].now, window)
    decreases |samples|
  {
    var n := |samples|;
    var front := samples[..n - 1];
    if k < n - 1 {
      HistoryStep(c, front, window, k);
      assert front[k] == samples[k];
    }
  }

  /** The recorded press time never decreases along a history. */
  lemma {:induction false} LastPressMonotone(c: Cell, samples: seq<Sample>, window: nat, i: nat, j: nat)
    requires i <= j <= |samples|
    ensures History(c, samples, window)[i].lastPress <= History(c, samples, window)[j].lastPress
    decreases j - i
  {
    if i < j {
      LastPressMonotone(c, samples, window, i + 1, j);
      HistoryStep(c, samples, window, i);
    }
  }

  /**
   * Debounce of presses: two presses accepted on one cell were sampled more
   * than the window apart, however the cell was read in between.
   */
  lemma PressesSeparated(c: Cell, samples: seq<Sample>, window: nat, i: nat, j: nat)
    requires i < j < |samples|
    requires PressAccepted(History(c, samples, window)[i], samples[i].reading, samples[i].now, window)
    requires PressAccepted(History(c, samples, window)[j], samples[j].reading, samples[j].now, window)
    ensures samples[j].now - samples[i].now > window
  {
    var h := History(c, samples, window);
    HistoryStep(c, samples, window, i);
    assert h[i + 1].lastPress == samples[i].now;
    LastPressMonotone(c, samples, window, i + 1, j);
  }

  /**
   * A release does not restart the window: a cell pressed at 25 ms, released
   * at 46 ms and pressed again at 50 ms has all three transitions accepted,
   * the last two only 4 ms apart with a 20 ms window.
   */
  lemma ReleaseThenRepressWithinWindow()
    ensures var samples := [Sample(true, 25), Sample(false, 46), Sample(true, 50)];
            var h := History(Released, samples, 20);
            h[1] == Cell(true, 25) && h[2] == Cell(false, 25) && h[3] == Cell(true, 50)
  {
    var samples := [Sample(true, 25), Sample(false, 46), Sample(true, 50)];
    HistoryStep(Released, samples, 20, 0);
    HistoryStep(Released, samples, 20, 1);
    HistoryStep(Released, samples, 20, 2);
  }

  /**
   * A reading that disagrees with the logical state and has outlasted the
   * window is accepted on the next scan, and a reading that agrees with the
   * new state leaves it there: so a press held from 25 ms to 30 ms on a fresh
   * cell is accepted once, at 25 ms.
   */
  lemma HeldPressAcceptedOnce()
    ensures var samples := [Sample(true, 25), Sample(true, 30)];
            var h := History(Released, samples, 20);
            PressAccepted(h[0], true, 25, 20) && !PressAccepted(h[1], true, 30, 20) && h[2] == Cell(true, 25)
  {
    var samples := [Sample(true, 25), Sample(true, 30)];
    HistoryStep(Released, samples, 20, 0);
    HistoryStep(Released, samples, 20, 1);
  }
  /** Every sample reads `b`: the key is held in one position throughout. */
  predicate Held(samples: seq<Sample>, b: bool)
  {
    forall m :: 0 <= m < |samples| ==> samples[m].reading == b
  }

  /**
   * A held reading that disagrees with the cell changes nothing while the
   * window has not passed since the cell's last accepted press.
   */
  lemma {:induction false} HeldWithinWindow(c: Cell, samples: seq<Sample>, window: nat, b: bool, k: nat)
    requires Held(samples, b) && c.pressed != b && k <= |samples|
    requires forall m :: 0 <= m < k ==> !Elapsed(c, samples[m].now, window)
    ensures History(c, samples, window)[k] == c
    decreases k
  {
    if k > 0 {
      HeldWithinWindow(c, samples, window, b, k - 1);
      HistoryStep(c, samples, window, k - 1);
    }
  }

  /** Once a cell's state agrees with a held reading, it stays exactly as it is. */
  lemma {:induction false} HeldAtMostOnce(c: Cell, samples: seq<Sample>, window: nat, b: bool, i: nat, j: nat)
    requires Held(samples, b) && i < j <= |samples|
    requires History(c, samples, window)[i + 1].pressed == b
    ensures History(c, samples, window)[j] == History(c, samples, window)[i + 1]
    decreases j
  {
    if j > i + 1 {
      HeldAtMostOnce(c, samples, window, b, i, j - 1);
      HistoryStep(c, samples, window, j - 1);
    }
  }

  /**
   * A raw transition held stable is accepted exactly once: a reading `b` that
   * disagrees with the cell and is held is ignored by every scan inside the
   * window, accepted by the first scan more than the window after the last
   * accepted press (a press recording that scan's time, a release keeping the
   * old one), and never accepted again.
   */
  lemma HeldAcceptedOnce(c: Cell, samples: seq<Sample>, window: nat, b: bool, k: nat)
    requires Held(samples, b) && c.pressed != b && k < |samples|
    requires forall m :: 0 <= m < k ==> !Elapsed(c, samples[m].now, window)
    requires Elapsed(c, samples[k].now, window)
    ensures forall m :: 0 <= m <= k ==> History(c, samples, window)[m] == c
    ensures forall m :: k < m <= |samples| ==>
              History(c, samples, window)[m] == Cell(b, if b then samples[k].now else c.lastPress)
  {
    var h := History(c, samples, window);
    forall m | 0 <= m <= k
      ensures h[m] == c
    {
      HeldWithinWindow(c, samples, window, b, m);
    }
    HistoryStep(c, samples, window, k);
    forall m | k < m <= |samples|
      ensures h[m] == Cell(b, if b then samples[k].now else c.lastPress)
    {
      HeldAtMostOnce(c, samples, window, b, k, m);
    }
  }
}
