/**
 * When the display shows the clock. The clock is redrawn once a refresh
 * interval has passed since the last update time; any key press or encoder
 * click moves that time back by a fixed rewind, so the status view it drew
 * stays up until the refresh interval minus the rewind has passed.
 * Times are milliseconds.
 */
module Display {

  const REFRESH_MS: int := 1000
  const REWIND_MS: int := 800

  /** A clock render is due at `now`. */
  predicate ClockDue(lastUpdate: int, now: int)
  {
    now - lastUpdate >= REFRESH_MS
  }

  /**
   * The update time after a tick in which nothing was pressed or clicked:
   * it never moves back, and it never leaves a render still due at that tick.
   */
  function AfterClock(lastUpdate: int, now: int): (t: int)
    ensures ClockDue(lastUpdate, now) ==> t == now
    ensures !ClockDue(lastUpdate, now) ==> t == lastUpdate
    ensures t >= lastUpdate
    ensures !ClockDue(t, now)
  {
    if now - lastUpdate >= REFRESH_MS then now else lastUpdate
  }

  /**
   * After a press or click at `now`, the clock comes back at the first tick at
   * or after `now` + 200 ms (not two seconds later).
   */
  lemma RevertDelay(now: int, t: int)
    ensures ClockDue(now - REWIND_MS, t) <==> t >= now + 200
  {
  }

  /** The update times over idle ticks at `times`: element k is the one before tick k. */
  function UpdateTimes(lastUpdate: int, times: seq<int>): (u: seq<int>)
    ensures |u| == |times| + 1 && u[0] == lastUpdate
    decreases |times|
  {
    if times == [] then [lastUpdate]
    else
      var before := UpdateTimes(lastUpdate, times[..|times| - 1]);
      before + [AfterClock(before[|before| - 1], times[|times| - 1])]
  }

  /** Tick k of an idle run renders the clock. */
  predicate RendersAt(lastUpdate: int, times: seq<int>, k: nat)
    requires k < |times|
  {
    ClockDue(UpdateTimes(lastUpdate, times)[k], times[k])
  }

  lemma {:induction false} UpdateTimesStep(lastUpdate: int, times: seq<int>, k: nat)
    requires k < |times|
    ensures UpdateTimes(lastUpdate, times)[k + 1] == AfterClock(UpdateTimes(lastUpdate, times)[k], times[k])
    decreases |times|
  {
    var front := times[..|times| - 1];
    if k < |times| - 1 {
      UpdateTimesStep(lastUpdate, front, k);
      assert front[k] == times[k];
    }
  }

  lemma {:induction false} UpdateTimesMonotone(lastUpdate: int, times: seq<int>, i: nat, j: nat)
    requires i <= j <= |times|
    ensures UpdateTimes(lastUpdate, times)[i] <= UpdateTimes(lastUpdate, times)[j]
    decreases j - i
  {
    if i < j {
      UpdateTimesStep(lastUpdate, times, i);
      UpdateTimesMonotone(lastUpdate, times, i + 1, j);
    }
  }

  /** Two clock renders of an idle run are at least a refresh interval apart. */
  lemma RendersSpaced(lastUpdate: int, times: seq<int>, i: nat, j: nat)
    requires i < j < |times|
    requires RendersAt(lastUpdate, times, i) && RendersAt(lastUpdate, times, j)
    ensures times[j] - times[i] >= REFRESH_MS
  {
    UpdateTimesStep(lastUpdate, times, i);
    UpdateTimesMonotone(lastUpdate, times, i + 1, j);
  }

  /** The run's clock is sorted and starts no earlier than the update time. */
  predicate Clocked(lastUpdate: int, times: seq<int>)
  {
    (|times| > 0 ==> lastUpdate <= times[0]) &&
    forall i, j :: 0 <= i <= j < |times| ==> times[i] <= times[j]
  }

  /** Over idle ticks whose clock is sorted, the update time never runs ahead of the tick. */
  lemma {:induction false} UpdateTimeBehindClock(lastUpdate: int, times: seq<int>, k: nat)
    requires Clocked(lastUpdate, times) && k < |times|
    ensures UpdateTimes(lastUpdate, times)[k] <= times[k]
    decreases k
  {
    if k > 0 {
      UpdateTimeBehindClock(lastUpdate, times, k - 1);
      UpdateTimesStep(lastUpdate, times, k - 1);
    }
  }

  /**
   * The clock does not stall: if no tick from i up to j renders and tick j
   * comes a refresh interval or more after tick i, tick j renders.
   */
  lemma {:induction false} RenderWithinInterval(lastUpdate: int, times: seq<int>, i: nat, j: nat)
    requires Clocked(lastUpdate, times) && i <= j < |times|
    requires times[j] - times[i] >= REFRESH_MS
    requires forall k :: i <= k < j ==> !RendersAt(lastUpdate, times, k)
    ensures RendersAt(lastUpdate, times, j)
  {
    var u := UpdateTimes(lastUpdate, times);
    var k := i;
    while k < j
      invariant i <= k <= j
      invariant u[k] == u[i]
    {
      assert !RendersAt(lastUpdate, times, k);
      UpdateTimesStep(lastUpdate, times, k);
      k := k + 1;
    }
    UpdateTimeBehindClock(lastUpdate, times, i);
  }
}
