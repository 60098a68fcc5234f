/** The game clock. Clock keeps the elapsed time and the run flag in static
    fields; a Swing timer calls `actionPerformed` every 100 ms, which is
    `Tick` here. */
module Clock {
  import opened Conversions

  const MAX_INT64: int := 0x7FFF_FFFF_FFFF_FFFF

  /** The elapsed time after one timer event: 100 ms more while running. */
  function TickTime(t: Int64, running: bool): (r: Int64)
    ensures running && t + 100 <= MAX_INT64 ==> r == t + 100
    ensures !running ==> r == t
  {
    if running then Wrap64(t + 100) else t
  }

  /** The elapsed time after `n` timer events with the run flag held fixed. */
  function Ticks(t: Int64, running: bool, n: nat): Int64
    decreases n
  {
    if n == 0 then t else Ticks(TickTime(t, running), running, n - 1)
  }

  /** While running, n events add exactly 100 ms each (as long as a long holds it). */
  lemma {:induction false} RunningTicks(t: Int64, n: nat)
    requires t + 100 * n <= MAX_INT64
    ensures Ticks(t, true, n) == t + 100 * n
    decreases n
  {
    if n > 0 {
      RunningTicks(t + 100, n - 1);
    }
  }

  /** While paused, no number of events changes the time. */
  lemma {:induction false} PausedTicks(t: Int64, n: nat)
    ensures Ticks(t, false, n) == t
    decreases n
  {
    if n > 0 {
      PausedTicks(t, n - 1);
    }
  }

  class Clock {
    /** capturedTime_, in milliseconds. */
    var capturedTime: Int64
    /** isGoTime_: whether ticks advance the time. */
    var isGoTime: bool

    /** The classes' initial static state: no time elapsed, paused. */
    constructor()
      ensures capturedTime == 0 && !isGoTime
    {
      capturedTime := 0;
      isGoTime := false;
    }

    /** ClockActions.actionPerformed; the display update is left out. */
    method Tick()
      modifies this
      ensures capturedTime == TickTime(old(capturedTime), old(isGoTime))
      ensures isGoTime == old(isGoTime)
    {
      if isGoTime {
        capturedTime := Wrap64(capturedTime + 100);
      } else if !isGoTime {
      }
    }

    function GoTime(): bool
      reads this
    {
      isGoTime
    }

    function CurrentTime(): Int64
      reads this
    {
      capturedTime
    }

    method SetGoTime(status: bool)
      modifies this
      ensures GoTime() == status
      ensures capturedTime == old(capturedTime)
    {
      isGoTime := status;
    }

    method SetCurrentTime(time: Int64)
      modifies this
      ensures CurrentTime() == time
      ensures isGoTime == old(isGoTime)
    {
      capturedTime := time;
    }
  }
}
