/** Concrete runs of the bounded stack and of the count-by-interval gate, driven by the
    mock clock, with the outcomes the library's unit tests expect stated as postconditions. */
module Scenarios {
  import opened Common
  import opened Stacks
  import opened Clock
  import opened Disposal
  import opened CountByInterval

  /** Five `AddFirst`s fill a stack of five; a `Push` then puts its element first, keeps five
      elements and leaves 1 last, the 0 added first having been dropped. */
  method PushOnFullStack(element: int) returns (first: int, size: nat, last: int)
    ensures first == element && size == 5 && last == 1
  {
    var s := new LimitedSizeStack<int>(5);
    for i := 0 to 5
      invariant |s.items| == i && forall j :: 0 <= j < i ==> s.items[j] == i - 1 - j
    {
      s.AddFirst(i);
    }
    PushAtCapacity(s.items, element, 5);
    s.Push(element);
    first, size, last := s.items[0], s.Count(), s.items[4];
  }

  /** A placeholder pushed and then stamped is the stamp pushed. */
  lemma StampPushed(h: seq<Entry>, y: Entry, n: int)
    requires n >= 1
    ensures PushSeq(h, None, n)[0 := y] == PushSeq(h, y, n)
  {
  }

  /** One full cycle on a gate with nothing in flight: wait, then dispose the handle at once.
      The history gains the clock's time after the wait, latest first. */
  method SetUpSaturated(g: CountByIntervalAwaitableConstraint)
    requires g.Valid() && g.available == g.count
    modifies g, g.timeStamps, g.time
    ensures g.Valid() && g.available == g.count
    ensures g.timeStamps.items == PushSeq(old(g.timeStamps.items), Some(g.time.now), g.count)
    ensures var h, now := old(g.timeStamps.items), old(g.time.now);
            if WindowCount(h, now - g.timeSpan) < g.count then
              g.time.now == now && g.time.delayCount == old(g.time.delayCount)
            else
              && h[g.count - 1].Some?
              && g.time.now == h[g.count - 1].value + g.timeSpan
              && g.time.delayCount == old(g.time.delayCount) + 1
  {
    var r, requested, handle := g.WaitForReadiness(NotCancelled);
    var fired, overRelease := g.Release(handle);
    StampPushed(old(g.timeStamps.items), Some(g.time.now), g.count);
  }

  /** The first wait on a fresh gate is admitted without asking the clock for a delay. */
  method FirstWaitDoesNotDelay(origin: int) returns (r: Acquire, delays: nat)
    ensures r == Admitted && delays == 0
  {
    var time := new MockTime(origin);
    var g := new CountByIntervalAwaitableConstraint(1, 100 * TicksPerMillisecond, time);
    var requested, handle;
    r, requested, handle := g.WaitForReadiness(NotCancelled);
    delays := time.delayCount;
  }

  /** With N = 1, a second wait cannot complete before the first handle is disposed, and can afterwards. */
  method BlockedUntilDisposed(origin: int) returns (r1: Acquire, r2: Acquire, r3: Acquire)
    ensures r1 == Admitted && r2 == Blocked && r3 == Admitted
  {
    var time := new MockTime(origin);
    var g := new CountByIntervalAwaitableConstraint(1, 100 * TicksPerMillisecond, time);
    var q1, h1;
    r1, q1, h1 := g.WaitForReadiness(NotCancelled);
    var q2, h2;
    r2, q2, h2 := g.WaitForReadiness(NotCancelled);
    var fired, overRelease := g.Release(h1);
    var q3, h3;
    r3, q3, h3 := g.WaitForReadiness(NotCancelled);
  }

  /** A wait with a token cancelled at any stage before the delay throws, and the next wait is not blocked. */
  method CancelledDoesNotBlock(origin: int, stage: Cancel) returns (r1: Acquire, r2: Acquire)
    requires stage == AtCapacity || stage == AtDelayLock || stage == AtListLock
    ensures r1 == Cancelled && r2 == Admitted
  {
    var time := new MockTime(origin);
    var g := new CountByIntervalAwaitableConstraint(1, 100 * TicksPerMillisecond, time);
    var q1, h1, q2, h2;
    r1, q1, h1 := g.WaitForReadiness(stage);
    r2, q2, h2 := g.WaitForReadiness(NotCancelled);
  }

  /** With N = 1 after one full cycle, a wait whose token is cancelled inside the delay throws,
      and a next wait whose delay completes is admitted after that delay instead of being blocked.
      This is a fact about the gate, not the library test's run: that test keeps its throwing delay
      hook in place, so its second wait throws inside the delay too (see `CancelledDuringDelayTwice`). */
  method CancelledDuringDelayDoesNotBlock(origin: int) returns (r1: Acquire, r2: Acquire, delays: nat)
    ensures r1 == Cancelled && r2 == Admitted && delays == 1
  {
    var time := new MockTime(origin);
    var g := new CountByIntervalAwaitableConstraint(1, 100 * TicksPerMillisecond, time);
    SetUpSaturated(g);
    var q1, h1, q2, h2;
    r1, q1, h1 := g.WaitForReadiness(DuringDelay);
    r2, q2, h2 := g.WaitForReadiness(NotCancelled);
    delays := time.delayCount;
  }

  /** The library test's own run: with N = 1 after one full cycle, the delay hook cancels and throws
      on every call, so both the wait given the cancellable token and the next one, given none, throw
      inside the delay before it counts. Neither is blocked, and no delay completes. */
  method CancelledDuringDelayTwice(origin: int) returns (r1: Acquire, r2: Acquire, delays: nat)
    ensures r1 == Cancelled && r2 == Cancelled && r2 != Blocked && delays == 0
  {
    var time := new MockTime(origin);
    var g := new CountByIntervalAwaitableConstraint(1, 100 * TicksPerMillisecond, time);
    SetUpSaturated(g);
    var q1, h1, q2, h2;
    r1, q1, h1 := g.WaitForReadiness(DuringDelay);
    r2, q2, h2 := g.WaitForReadiness(DuringDelay);
    delays := time.delayCount;
  }

  /** With N = 1 and T = 100 ms, one full cycle, then `elapsed` ticks on the clock, then a wait:
      before 100 ms have passed the wait asks for exactly one delay and ends at origin + 100 ms;
      from 100 ms on it asks for none. */
  method WaitAfterOneCycle(origin: int, elapsed: int) returns (r: Acquire, delays: nat, now: int)
    requires elapsed >= 0
    ensures r == Admitted
    ensures elapsed < 100 * TicksPerMillisecond ==> delays == 1 && now == origin + 100 * TicksPerMillisecond
    ensures elapsed >= 100 * TicksPerMillisecond ==> delays == 0 && now == origin + elapsed
  {
    var time := new MockTime(origin);
    var g := new CountByIntervalAwaitableConstraint(1, 100 * TicksPerMillisecond, time);
    SetUpSaturated(g);
    time.AddTime(elapsed);
    var requested, handle;
    r, requested, handle := g.WaitForReadiness(NotCancelled);
    delays, now := time.delayCount, time.now;
  }

  /** The time recorded by the `w`-th full cycle (counting from 0) on a gate of five per second
      whose clock moves only by the gate's own delays: every fifth cycle from the fifth on waits one second. */
  function CycleStamp(origin: int, w: int): int
  {
    origin + (w / 5) * TicksPerSecond
  }

  /** The history after `i` such cycles: the last min(i, 5) stamps, latest first. */
  ghost predicate AfterCycles(h: seq<Entry>, origin: int, i: nat)
  {
    && |h| == (if i < 5 then i else 5)
    && forall j :: 0 <= j < |h| ==> h[j] == Some(CycleStamp(origin, i - 1 - j))
  }

  /** The clock after `i` such cycles. */
  function ClockAfter(origin: int, i: nat): int
  {
    if i == 0 then origin else CycleStamp(origin, i - 1)
  }

  /** After `i` cycles the next wait finds the window full exactly when `i` is a positive multiple of
      five; the oldest entry then equals the clock. */
  lemma {:induction false} FullEveryFifth(h: seq<Entry>, origin: int, i: nat)
    requires AfterCycles(h, origin, i)
    ensures var now := ClockAfter(origin, i);
            (WindowCount(h, now - TicksPerSecond) >= 5 <==> i >= 5 && i % 5 == 0)
            && (i >= 5 && i % 5 == 0 ==> h[4] == Some(now))
  {
    var now := ClockAfter(origin, i);
    var target := now - TicksPerSecond;
    if i >= 5 && i % 5 == 0 {
      forall j | 0 <= j < 5
        ensures h[j] == Some(now)
      {
        assert (i - 1 - j) / 5 == (i - 1) / 5;
      }
      assert forall j :: 0 <= j < 5 ==> Counts(h[j], target);
    } else if i >= 5 {
      var m := i % 5;
      assert (i - 1 - m) / 5 == (i - 1) / 5 - 1;
      assert h[m] == Some(target);
    }
  }

  /** One more cycle extends the history and the clock as `AfterCycles` and `ClockAfter` predict. */
  lemma {:induction false} CycleStep(h: seq<Entry>, origin: int, i: nat)
    requires AfterCycles(h, origin, i)
    ensures AfterCycles(PushSeq(h, Some(ClockAfter(origin, i + 1)), 5), origin, i + 1)
  {
    var r := PushSeq(h, Some(ClockAfter(origin, i + 1)), 5);
    forall j | 0 <= j < |r|
      ensures r[j] == Some(CycleStamp(origin, i - j))
    {
      if j > 0 {
        assert r[j] == h[j - 1];
      }
    }
  }

  /** Delays asked for by `i` such cycles. */
  function DelaysAfter(i: nat): nat
  {
    if i == 0 then 0 else (i - 1) / 5
  }

  /** The clock and the delay count move exactly at the cycles that find the window full. */
  lemma EpochStep(origin: int, i: nat)
    ensures var full := i >= 5 && i % 5 == 0;
            && ClockAfter(origin, i + 1) == ClockAfter(origin, i) + (if full then TicksPerSecond else 0)
            && DelaysAfter(i + 1) == DelaysAfter(i) + (if full then 1 else 0)
            && DelaysAfter(i + 1) == i / 5
  {
  }

  /** `k` full cycles on a gate of five per second, then a wait: the waits ask for one delay at every
      positive multiple of five, so `k / 5` in all. In particular the last wait delays exactly when k >= 5
      for k below 10, the range the library's own test covers. */
  method CyclesThenWait(g: CountByIntervalAwaitableConstraint, k: nat) returns (delays: nat)
    requires g.Valid() && g.available == g.count == 5 && g.timeSpan == TicksPerSecond
    requires g.timeStamps.items == []
    modifies g, g.timeStamps, g.time
    ensures delays == g.time.delayCount - old(g.time.delayCount) == k / 5
  {
    ghost var origin := g.time.now;
    var d0 := g.time.delayCount;
    for i := 0 to k
      invariant g.Valid() && g.available == 5
      invariant AfterCycles(g.timeStamps.items, origin, i)
      invariant g.time.now == ClockAfter(origin, i)
      invariant g.time.delayCount == d0 + DelaysAfter(i)
    {
      FullEveryFifth(g.timeStamps.items, origin, i);
      CycleStep(g.timeStamps.items, origin, i);
      EpochStep(origin, i);
      SetUpSaturated(g);
    }
    FullEveryFifth(g.timeStamps.items, origin, k);
    EpochStep(origin, k);
    var r, requested, handle := g.WaitForReadiness(NotCancelled);
    delays := g.time.delayCount - d0;
  }

  /** N = 5, T = 1 s on a fresh gate: after `k` full cycles the next wait asks for `k / 5` delays in all. */
  method LimitIsBasedOnCount(origin: int, k: nat) returns (delays: nat)
    ensures delays == k / 5
    ensures k < 10 ==> (delays == 1 <==> k >= 5)
  {
    var time := new MockTime(origin);
    var g := new CountByIntervalAwaitableConstraint(5, TicksPerSecond, time);
    delays := CyclesThenWait(g, k);
  }

  /** The same through a clone taken after four cycles on the original: the clone shares the clock but
      starts with an empty history, so the original's four admissions do not count against it. */
  method CloneLimitIsBasedOnCount(origin: int, k: nat) returns (delays: nat)
    ensures delays == k / 5
    ensures k < 10 ==> (delays == 1 <==> k >= 5)
  {
    var time := new MockTime(origin);
    var g := new CountByIntervalAwaitableConstraint(5, TicksPerSecond, time);
    for i := 0 to 4
      invariant g.Valid() && g.available == 5 && g.time == time
      invariant time.now == origin && time.delayCount == 0
      invariant |g.timeStamps.items| == i
    {
      SetUpSaturated(g);
    }
    var c := g.Clone();
    var ownDelays := CyclesThenWait(c, k);
    delays := time.delayCount;
  }
}
