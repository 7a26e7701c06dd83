/** The older sliding-window gate, which stamps an admission when it is granted
    rather than when it ends. One lock (`_Semaphore`, a SemaphoreSlim(1, 1))
    guards the whole wait; as each call is modelled as one atomic step, the lock
    is free whenever a call starts.

    The gate's promise is spacing: each new stamp is at least `timeSpan` after the
    stamp `count` admissions earlier, so no window of length `timeSpan` holds more
    than `count` admissions. The model keeps every stamp ever pushed in the ghost
    log `admissions` (oldest first), of which the history is the most recent part. */
module CallCountByInterval {
  import opened Common
  import opened Stacks
  import opened Clock
  import opened Disposal

  /** The number of stamps the scan walks over: the longest prefix strictly later than `target`. */
  function RecentCount(h: seq<int>, target: int): (c: nat)
    ensures c <= |h|
    ensures forall i :: 0 <= i < c ==> h[i] > target
    ensures c < |h| ==> h[c] <= target
  {
    if h == [] || h[0] <= target then 0 else 1 + RecentCount(h[1..], target)
  }

  /** The walk over the linked list: `element` advances while its stamp is inside the window, `last` trails it. */
  method Scan(h: seq<int>, target: int) returns (count: nat, last: int)
    ensures count == RecentCount(h, target)
    ensures last == count - 1
  {
    count := 0;
    var element := 0;
    last := -1;
    while element < |h| && h[element] > target
      invariant 0 <= element <= |h|
      invariant count == element && last == element - 1
      invariant forall i :: 0 <= i < element ==> h[i] > target
    {
      last := element;
      element := element + 1;
      count := count + 1;
    }
  }

  ghost predicate Descending(h: seq<int>)
  {
    forall i, j :: 0 <= i < j < |h| ==> h[i] >= h[j]
  }

  /** Every admission is at least `span` after the admission `n` places before it. */
  ghost predicate Spaced(log: seq<int>, n: int, span: int)
  {
    forall i :: 0 < n <= i < |log| ==> log[i] >= log[i - n] + span
  }

  /** The stamp an admission records: the clock reading, or, when the window is full,
      the moment the oldest stamp leaves it. */
  function NextStamp(h: seq<int>, n: int, span: int, now: int): (s: int)
    requires 0 < n && |h| <= n
    ensures s >= now
    ensures |h| == n ==> s >= h[n - 1] + span || exists i :: 0 <= i < n && h[i] <= now - span
  {
    if RecentCount(h, now - span) < n then now
    else h[n - 1] + span
  }

  /** The most recent part of an ascending log is descending. */
  lemma RecentIsDescending(h: seq<int>, log: seq<int>, n: int)
    requires IsRecent(h, log, n) && Ascending(log)
    ensures Descending(h)
  {
    forall i, j | 0 <= i < j < |h|
      ensures h[i] >= h[j]
    {
      assert h[i] == log[|log| - 1 - i] && h[j] == log[|log| - 1 - j];
    }
  }

  /** With the window's worth of stamps in the history, the next stamp is at least `span` after the oldest. */
  lemma NextStampAfterOldest(h: seq<int>, log: seq<int>, n: int, span: int, now: int)
    requires 0 < n && IsRecent(h, log, n) && Ascending(log) && |log| >= n
    ensures NextStamp(h, n, span, now) >= log[|log| - n] + span
  {
    RecentIsDescending(h, log, n);
    assert |h| == n && h[n - 1] == log[|log| - n];
    var c := RecentCount(h, now - span);
    if c < n {
      assert h[n - 1] <= h[c] <= now - span;
    }
  }

  /** The spacing step: under a clock no earlier than every stamp, the next stamp keeps the log
      ascending and is at least `span` after the stamp `n` admissions earlier. */
  lemma {:induction false} NextStampKeepsSpacing(h: seq<int>, log: seq<int>, n: int, span: int, now: int)
    requires 0 < n && IsRecent(h, log, n)
    requires Ascending(log) && Spaced(log, n, span)
    requires |log| > 0 ==> log[|log| - 1] <= now
    ensures var log' := log + [NextStamp(h, n, span, now)];
            Ascending(log') && Spaced(log', n, span)
  {
    var s := NextStamp(h, n, span, now);
    var log' := log + [s];
    if |log| >= n {
      NextStampAfterOldest(h, log, n, span, now);
    }
    forall i, j | 0 <= i < j < |log'|
      ensures log'[i] <= log'[j]
    {
      if j < |log| {
        assert log'[i] == log[i] && log'[j] == log[j];
      } else {
        assert log'[i] == log[i] <= log[|log| - 1];
      }
    }
    forall i | n <= i < |log'|
      ensures log'[i] >= log'[i - n] + span
    {
      if i < |log| {
        assert log'[i] == log[i] && log'[i - n] == log[i - n];
      }
    }
  }

  /** The first position of an ascending log whose stamp is later than `lo`. */
  ghost function FirstAfter(log: seq<int>, lo: int): (a: nat)
    ensures a <= |log|
    ensures forall i :: 0 <= i < a ==> log[i] <= lo
    ensures a < |log| ==> log[a] > lo
  {
    if log == [] || log[0] > lo then 0 else 1 + FirstAfter(log[1..], lo)
  }

  /** The positions of the admissions inside the window (lo, lo + span]. */
  ghost function InWindow(log: seq<int>, lo: int, span: int): set<int>
  {
    set i | 0 <= i < |log| && lo < log[i] <= lo + span
  }

  /** A set of positions confined to `n` consecutive integers has at most `n` members. */
  lemma {:induction false} ConfinedSize(w: set<int>, a: int, n: nat)
    requires forall i :: i in w ==> a <= i < a + n
    ensures |w| <= n
  {
    if n == 0 {
      assert forall i :: i !in w;
      assert w == {};
    } else {
      ConfinedSize(w - {a + n - 1}, a, n - 1);
    }
  }

  /** The rate limit itself: in an ascending, spaced log, any window of length `span` holds at most `n` admissions. */
  lemma AtMostNPerWindow(log: seq<int>, n: int, span: int, lo: int)
    requires n > 0 && Ascending(log) && Spaced(log, n, span)
    ensures |InWindow(log, lo, span)| <= n
  {
    var a := FirstAfter(log, lo);
    var w := InWindow(log, lo, span);
    forall i | a + n <= i < |log|
      ensures log[i] >= log[a] + span
    {
      assert log[i] >= log[i - n] + span;
      assert log[i - n] >= log[a];
    }
    ConfinedSize(w, a, n);
  }

  /** Outcome of a wait that throws. */
  datatype Fault = Cancelled | SemaphoreFull

  /** Where the cancellation token is first seen cancelled: never, on entry (taking the lock), or inside the clock's delay. */
  datatype Cancel = NotCancelled | AtLock | DuringDelay

  class CallCountByIntervalAwaitableConstraint {
    const count: int
    const timeSpan: int
    const timeStamps: LimitedSizeStack<int>
    const time: MockTime
    /** Every stamp pushed so far, oldest first. */
    ghost var admissions: seq<int>

    /** The history is the most recent `count` stamps of the log, latest first. */
    ghost predicate Valid()
      reads this, timeStamps
    {
      && count > 0 && timeSpan > 0
      && timeStamps.maxSize == count
      && IsRecent(timeStamps.items, admissions, count)
    }

    /** The rate-limit guarantee, which holds as long as the clock never reads earlier than a stamp. */
    ghost predicate Disciplined()
      reads this, time
    {
      && Ascending(admissions)
      && Spaced(admissions, count, timeSpan)
      && (|admissions| > 0 ==> admissions[|admissions| - 1] <= time.now)
    }

    /** The constructor past its argument checks (see `Create`). */
    constructor (count: int, timeSpan: int, time: MockTime)
      requires CheckArguments(count, timeSpan) == None
      ensures Valid() && Disciplined() && fresh(timeStamps)
      ensures this.count == count && this.timeSpan == timeSpan && this.time == time
      ensures timeStamps.items == [] && admissions == []
    {
      this.count := count;
      this.timeSpan := timeSpan;
      this.time := time;
      timeStamps := new LimitedSizeStack<int>(count);
      admissions := [];
    }

    /** `new CallCountByIntervalAwaitableConstraint(count, timeSpan, time)`: throws ArgumentException for a
        non-positive count or time span, and otherwise gives a gate with an empty history. */
    static method Create(count: int, timeSpan: int, time: MockTime)
      returns (r: Result<CallCountByIntervalAwaitableConstraint, ArgumentError>)
      ensures r.Failure? <==> count <= 0 || timeSpan <= 0
      ensures r.Failure? ==> CheckArguments(count, timeSpan) == Some(r.error)
      ensures r.Success? ==> && fresh(r.value) && fresh(r.value.timeStamps) && r.value.Valid()
                             && r.value.Disciplined()
                             && r.value.count == count && r.value.timeSpan == timeSpan && r.value.time == time
                             && r.value.timeStamps.items == []
    {
      var err := CheckArguments(count, timeSpan);
      if err.Some? {
        return Failure(err.value);
      }
      var g := new CallCountByIntervalAwaitableConstraint(count, timeSpan, time);
      return Success(g);
    }

    /** A cancelled token makes taking the lock throw inside the `try`; the `catch` then releases a lock
        nobody holds, and a SemaphoreSlim(1, 1) at its maximum answers with SemaphoreFullException,
        which is what the caller sees instead of the cancellation. */
    method WaitForReadiness(cancel: Cancel) returns (fault: Option<Fault>, requested: Option<int>, handle: DisposeAction?)
      requires Valid()
      modifies this, timeStamps, time
      ensures Valid()
      ensures (handle != null) == (fault == None)
      ensures handle != null ==> fresh(handle) && handle.Valid() && handle.armed && handle.invocations == 0
      ensures fault == Some(SemaphoreFull) <==> cancel == AtLock
      ensures cancel == NotCancelled ==> fault == None
      ensures fault.Some? ==> timeStamps.items == old(timeStamps.items) && admissions == old(admissions)
      ensures fault == None ==>
                var stamp := NextStamp(old(timeStamps.items), count, timeSpan, old(time.now));
                && timeStamps.items == PushSeq(old(timeStamps.items), stamp, count)
                && admissions == old(admissions) + [stamp]
                && time.now == stamp
      ensures cancel != AtLock ==>
                var h, now := old(timeStamps.items), old(time.now);
                if RecentCount(h, now - timeSpan) < count then
                  fault == None && requested == None && time.now == now && time.delayCount == old(time.delayCount)
                else
                  && RecentCount(h, now - timeSpan) == |h| == count
                  && requested == Some(h[count - 1] + timeSpan - now) && requested.value > 0
                  && (cancel == DuringDelay ==>
                        fault == Some(Cancelled) && time.now == now && time.delayCount == old(time.delayCount))
                  && (cancel == NotCancelled ==> time.delayCount == old(time.delayCount) + 1)
      ensures cancel == AtLock ==> requested == None && unchanged(time)
      ensures fault.Some? ==> time.now == old(time.now)
    {
      requested, handle := None, null;
      if cancel == AtLock {
        return Some(SemaphoreFull), requested, handle;
      }
      ghost var h, log, now0 := timeStamps.items, admissions, time.now;
      var now := time.GetNow();
      var target := now - timeSpan;
      var c, last := Scan(timeStamps.items, target);
      if c >= count {
        assert c == |h| == count && last == count - 1;
        var timeToWait := timeStamps.items[last] + timeSpan - now;
        now := now + timeToWait;
        requested := Some(timeToWait);
        var completed := time.GetDelay(timeToWait, cancel == DuringDelay);
        if !completed {
          return Some(Cancelled), requested, handle;
        }
      }
      assert now == NextStamp(h, count, timeSpan, now0) && now == time.now;
      PushKeepsRecent(h, log, now, count);
      timeStamps.Push(now);
      admissions := admissions + [now];
      handle := new DisposeAction(true);
      fault := None;
    }

    /** Waits in a row, the clock moving forward by `gaps[i]` before the `i`-th and the token given by
        `cancels[i]`: every admission keeps the log ascending and spaced, so no window of length
        `timeSpan` ever holds more than `count` admissions. Waits with no cancellation are all
        admitted, and waits whose token is cancelled on entry none. */
    method WaitRepeatedly(gaps: seq<nat>, cancels: seq<Cancel>) returns (admitted: nat)
      requires Valid() && Disciplined() && |gaps| == |cancels|
      modifies this, timeStamps, time
      ensures Valid() && Disciplined()
      ensures |admissions| == |old(admissions)| + admitted && admissions[..|old(admissions)|] == old(admissions)
      ensures forall lo :: |InWindow(admissions, lo, timeSpan)| <= count
      ensures (forall i :: 0 <= i < |cancels| ==> cancels[i] == NotCancelled) ==> admitted == |gaps|
      ensures (forall i :: 0 <= i < |cancels| ==> cancels[i] == AtLock) ==> admitted == 0
    {
      admitted := 0;
      for i := 0 to |gaps|
        invariant Valid() && Disciplined()
        invariant |admissions| == |old(admissions)| + admitted && admissions[..|old(admissions)|] == old(admissions)
        invariant (forall j :: 0 <= j < |cancels| ==> cancels[j] == NotCancelled) ==> admitted == i
        invariant (forall j :: 0 <= j < |cancels| ==> cancels[j] == AtLock) ==> admitted == 0
      {
        var ok := WaitAfter(gaps[i], cancels[i]);
        if ok {
          admitted := admitted + 1;
        }
      }
      forall lo
        ensures |InWindow(admissions, lo, timeSpan)| <= count
      {
        AtMostNPerWindow(admissions, count, timeSpan, lo);
      }
    }

    /** One wait after the clock has moved forward by `gap`: an admission appends one stamp to the log and keeps it ascending and spaced. */
    method WaitAfter(gap: nat, cancel: Cancel) returns (admitted: bool)
      requires Valid() && Disciplined()
      modifies this, timeStamps, time
      ensures Valid() && Disciplined()
      ensures admitted ==> |admissions| == |old(admissions)| + 1 && admissions[..|old(admissions)|] == old(admissions)
      ensures !admitted ==> admissions == old(admissions)
      ensures cancel == NotCancelled ==> admitted
      ensures cancel == AtLock ==> !admitted
    {
      time.AddTime(gap);
      ghost var h, log, now := timeStamps.items, admissions, time.now;
      NextStampKeepsSpacing(h, log, count, timeSpan, now);
      var fault, requested, handle := WaitForReadiness(cancel);
      admitted := fault == None;
      if admitted {
        assert time.now == NextStamp(h, count, timeSpan, now);
        assert admissions == log + [time.now];
        assert admissions[..|log|] == log;
      } else {
        assert admissions == log && time.now == now;
      }
      assert Ascending(admissions) && Spaced(admissions, count, timeSpan);
    }

    /** Disposing a handle issued by this gate: the first disposal runs the release hook, which reads
        the standard wall clock (`standardNow`), not the injected clock, and hands that time to the
        empty `OnEnded(now)` hook (`hooked`). The hook cannot throw, so the handle is spent, and
        nothing touches the history, the log or the injected clock. */
    method Release(handle: DisposeAction, standardNow: int) returns (fired: bool, hooked: Option<int>)
      requires handle.Valid()
      modifies handle
      ensures handle.Valid()
      ensures fired == old(handle.armed) && !handle.armed
      ensures hooked.Some? <==> fired
      ensures hooked.Some? ==> hooked.value == standardNow
      ensures timeStamps.items == old(timeStamps.items) && admissions == old(admissions)
      ensures time.now == old(time.now) && time.delayCount == old(time.delayCount)
    {
      fired := handle.Dispose(false);
      hooked := None;
      if fired {
        hooked := Some(standardNow);
      }
    }

    /** A gate with the same count, time span and clock, and an empty history. */
    method Clone() returns (c: CallCountByIntervalAwaitableConstraint)
      requires Valid()
      ensures fresh(c) && fresh(c.timeStamps) && c.Valid() && c.Disciplined()
      ensures c.count == count && c.timeSpan == timeSpan && c.time == time
      ensures c.timeStamps.items == []
    {
      c := new CallCountByIntervalAwaitableConstraint(count, timeSpan, time);
    }
  }
}
