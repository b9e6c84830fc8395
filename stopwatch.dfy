/**
  The stopwatch the plugin times repeats with, in whole milliseconds.
  Host time is an explicit `Advance`: the elapsed count only grows while
  the stopwatch runs.
 */
module Timing {

  class Stopwatch {
    var elapsedMs: nat
    var isRunning: bool

    /** A new stopwatch is stopped at zero. */
    constructor ()
      ensures elapsedMs == 0 && !isRunning
    {
      elapsedMs := 0;
      isRunning := false;
    }

    /** Stop and clear. */
    method Reset()
      modifies this
      ensures elapsedMs == 0 && !isRunning
    {
      elapsedMs := 0;
      isRunning := false;
    }

    /** Clear and start counting again. */
    method Restart()
      modifies this
      ensures elapsedMs == 0 && isRunning
    {
      elapsedMs := 0;
      isRunning := true;
    }

    /** `dt` milliseconds of host time pass. */
    method Advance(dt: nat)
      modifies this
      ensures isRunning == old(isRunning)
      ensures elapsedMs == if isRunning then old(elapsedMs) + dt else old(elapsedMs)
    {
      if isRunning {
        elapsedMs := elapsedMs + dt;
      }
    }
  }
}
