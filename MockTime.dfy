/** The deterministic clock the gates are driven by. `GetDelay` does not sleep:
    it advances `now` by exactly the requested span and counts the call. A
    cancellation observed inside the delay throws before anything changes. */
module Clock {

  class MockTime {
    var now: int
    var delayCount: nat

    constructor (origin: int)
      ensures now == origin && delayCount == 0
    {
      now := origin;
      delayCount := 0;
    }

    /** Reads the clock. */
    method GetNow() returns (t: int)
      ensures t == now
    {
      t := now;
    }

    /** Moves the clock by `span` ticks without counting a delay. */
    method AddTime(span: int)
      modifies this
      ensures now == old(now) + span && delayCount == old(delayCount)
    {
      now := now + span;
    }

    /** Waits `span` ticks; `cancelled` says whether the cancellation hook throws first. */
    method GetDelay(span: int, cancelled: bool) returns (completed: bool)
      modifies this
      ensures completed == !cancelled
      ensures completed ==> now == old(now) + span && delayCount == old(delayCount) + 1
      ensures !completed ==> now == old(now) && delayCount == old(delayCount)
    {
      if cancelled {
        completed := false;
        return;
      }
      delayCount := delayCount + 1;
      now := now + span;
      completed := true;
    }
  }
}
