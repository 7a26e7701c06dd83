/** The sliding-window gate that admits at most `count` operations per `timeSpan`.
    Its history holds, most recent first, one entry per admission: `None` (a
    null DateTime?) while the admission is still running, and the release time
    once it has ended.

    The three semaphores of the original become one counter: `available` is the
    free count of the capacity semaphore (initially `count`), and the delay and
    list semaphores, which are only ever held inside one call, disappear because
    each call is modelled as one atomic step. A call that would wait on the
    capacity semaphore reports `Blocked` and changes nothing. */
module CountByInterval {
  import opened Common
  import opened Stacks
  import opened Clock
  import opened Disposal

  /** A history entry: `None` for an admission still in flight, `Some(t)` for one released at tick `t`. */
  type Entry = Option<int>

  /** An entry still counts against the window whose start is `target`: it is in flight, or it was released strictly after `target`. */
  predicate Counts(e: Entry, target: int)
  {
    e.None? || e.value > target
  }

  /** The number of history entries the scan walks over: the longest prefix whose entries all count against the window. */
  function WindowCount(h: seq<Entry>, target: int): (c: nat)
    ensures c <= |h|
    ensures forall i :: 0 <= i < c ==> Counts(h[i], target)
    ensures c < |h| ==> !Counts(h[c], target)
  {
    if h == [] || !Counts(h[0], target) then 0 else 1 + WindowCount(h[1..], target)
  }

  /** The gate's bookkeeping invariant: exactly the first `k` entries are placeholders. */
  ghost predicate PlaceholderPrefix(h: seq<Entry>, k: int)
  {
    && 0 <= k <= |h|
    && (forall i :: 0 <= i < k ==> h[i].None?)
    && (forall i :: k <= i < |h| ==> h[i].Some?)
  }

  /** The history after a release while `k` admissions are in flight: the oldest placeholder
      gets the release time, or, with no placeholder left, the time is pushed. */
  ghost function AfterRelease(h: seq<Entry>, k: int, now: int, n: int): seq<Entry>
    requires 0 <= k <= |h|
  {
    if k > 0 then h[k - 1 := Some(now)] else PushSeq(h, Some(now), n)
  }

  /** The walk over the linked list: `element` advances while its entry counts, `last` trails it. */
  method Scan(h: seq<Entry>, target: int) returns (count: nat, last: int)
    ensures count == WindowCount(h, target)
    ensures last == count - 1
  {
    count := 0;
    var element := 0;
    last := -1;
    while element < |h| && Counts(h[element], target)
      invariant 0 <= element <= |h|
      invariant count == element && last == element - 1
      invariant forall i :: 0 <= i < element ==> Counts(h[i], target)
    {
      last := element;
      element := element + 1;
      count := count + 1;
    }
  }

  /** The scan always walks over every placeholder. */
  lemma ScanCoversPlaceholders(h: seq<Entry>, k: int, target: int)
    requires PlaceholderPrefix(h, k)
    ensures WindowCount(h, target) >= k
  {
  }

  /** What the original asserts on the saturated path: when fewer than `n` admissions are in flight and
      the scan reaches `n`, it consumed the whole history, the oldest entry is a release time, and
      the delay until that entry leaves the window is strictly positive. */
  lemma SaturatedScan(h: seq<Entry>, k: int, n: int, now: int, span: int)
    requires PlaceholderPrefix(h, k) && k < n && |h| <= n
    requires WindowCount(h, now - span) >= n
    ensures WindowCount(h, now - span) == |h| == n
    ensures h[n - 1].Some? && h[n - 1].value + span - now > 0
  {
  }

  /** Pushing a placeholder while fewer than `n` admissions are in flight evicts, if anything, a release time. */
  lemma PushPlaceholder(h: seq<Entry>, k: int, n: int)
    requires PlaceholderPrefix(h, k) && k < n && |h| <= n
    ensures |PushSeq(h, None, n)| <= n
    ensures PlaceholderPrefix(PushSeq(h, None, n), k + 1)
  {
    var r := PushSeq(h, None, n);
    forall i | 1 <= i < |r|
      ensures r[i] == h[i - 1]
    {
    }
  }

  /** A release overwrites the oldest placeholder (or pushes when there is none) and keeps the invariant, with one fewer placeholder. */
  lemma ReleaseKeepsPrefix(h: seq<Entry>, k: int, now: int, n: int)
    requires PlaceholderPrefix(h, k) && |h| <= n
    ensures k > 0 ==> ReplaceLastSeq(h, None, Some(now)) == AfterRelease(h, k, now, n)
    ensures None in h <==> k > 0
    ensures |AfterRelease(h, k, now, n)| <= n
    ensures PlaceholderPrefix(AfterRelease(h, k, now, n), if k > 0 then k - 1 else 0)
  {
    if k > 0 {
      var i := FindLast(h, None);
      assert h[k - 1] == None;
      assert i == k - 1;
    } else {
      var r := PushSeq(h, Some(now), n);
      forall i | 1 <= i < |r|
        ensures r[i] == h[i - 1]
      {
      }
    }
  }

  /** Outcome of a wait. */
  datatype Acquire = Admitted | Blocked | Cancelled

  /** Where the cancellation token is first seen cancelled: never, on entry (the capacity
      semaphore), while taking the delay or list semaphore, inside the clock's delay, or when
      re-taking the list semaphore after the delay. */
  datatype Cancel = NotCancelled | AtCapacity | AtDelayLock | AtListLock | DuringDelay | AtRelock

  class CountByIntervalAwaitableConstraint {
    const count: int
    const timeSpan: int
    const timeStamps: LimitedSizeStack<Entry>
    const time: MockTime
    /** The free count of the capacity semaphore. */
    var available: int

    /** `count - available` admissions are in flight, each with a placeholder at the front of the
        history, and the history never holds more than `count` entries. */
    ghost predicate Valid()
      reads this, timeStamps
    {
      && count > 0 && timeSpan > 0
      && timeStamps.maxSize == count
      && |timeStamps.items| <= count
      && 0 <= available <= count
      && PlaceholderPrefix(timeStamps.items, count - available)
    }

    function InFlight(): int
      reads this
    {
      count - available
    }

    /** The constructor past its argument checks (see `Create`). */
    constructor (count: int, timeSpan: int, time: MockTime)
      requires CheckArguments(count, timeSpan) == None
      ensures Valid() && fresh(timeStamps)
      ensures this.count == count && this.timeSpan == timeSpan && this.time == time
      ensures timeStamps.items == [] && available == count
    {
      this.count := count;
      this.timeSpan := timeSpan;
      this.time := time;
      timeStamps := new LimitedSizeStack<Entry>(count);
      available := count;
    }

    /** `new CountByIntervalAwaitableConstraint(count, timeSpan, time)`: throws ArgumentException for a
        non-positive count or time span, and otherwise gives a gate with an empty history. */
    static method Create(count: int, timeSpan: int, time: MockTime)
      returns (r: Result<CountByIntervalAwaitableConstraint, ArgumentError>)
      ensures r.Failure? <==> count <= 0 || timeSpan <= 0
      ensures r.Failure? ==> CheckArguments(count, timeSpan) == Some(r.error)
      ensures r.Success? ==> && fresh(r.value) && fresh(r.value.timeStamps) && r.value.Valid()
                             && r.value.count == count && r.value.timeSpan == timeSpan && r.value.time == time
                             && r.value.timeStamps.items == [] && r.value.available == count
    {
      var err := CheckArguments(count, timeSpan);
      if err.Some? {
        return Failure(err.value);
      }
      var g := new CountByIntervalAwaitableConstraint(count, timeSpan, time);
      return Success(g);
    }

    method WaitForReadiness(cancel: Cancel) returns (r: Acquire, requested: Option<int>, handle: DisposeAction?)
      requires Valid()
      modifies this, timeStamps, time
      ensures Valid()
      ensures (handle != null) == (r == Admitted)
      ensures handle != null ==> fresh(handle) && handle.Valid() && handle.armed && handle.invocations == 0
      // a wait that does not succeed gives back every slot it took and records nothing
      ensures r != Admitted ==> timeStamps.items == old(timeStamps.items) && available == old(available)
      // a successful wait takes one slot and records one placeholder
      ensures r == Admitted ==>
                timeStamps.items == PushSeq(old(timeStamps.items), None, count) && available == old(available) - 1
      ensures r == Blocked <==> cancel != AtCapacity && old(available) == 0
      ensures cancel == AtCapacity || old(available) == 0 || cancel == AtDelayLock || cancel == AtListLock
              ==> r != Admitted && requested == None && unchanged(time)
      ensures cancel != AtCapacity && old(available) > 0 && cancel != AtDelayLock && cancel != AtListLock ==>
              InWindow(old(timeStamps.items), old(time.now), old(time.delayCount), cancel, r, requested, time.now, time.delayCount)
    {
      requested, handle := None, null;
      if cancel == AtCapacity {
        return Cancelled, requested, handle;
      }
      if available == 0 {
        return Blocked, requested, handle;
      }
      available := available - 1;
      if cancel == AtDelayLock || cancel == AtListLock {
        available := available + 1;
        return Cancelled, requested, handle;
      }
      r, requested, handle := WaitInWindow(cancel);
    }

    /** What a wait that holds all three semaphores does, in terms of the history `h` and the clock
        (`now`, `delays`) it starts from and the clock it leaves (`now'`, `delays'`). */
    ghost predicate InWindow(h: seq<Entry>, now: int, delays: nat, cancel: Cancel,
                             r: Acquire, requested: Option<int>, now': int, delays': nat)
      reads this
    {
      if WindowCount(h, now - timeSpan) < count then
        // fast path: admitted at once, no delay requested
        r == Admitted && requested == None && now' == now && delays' == delays
      else
        // saturated: wait until the oldest release time leaves the window
        && count > 0 && WindowCount(h, now - timeSpan) == |h| == count && h[count - 1].Some?
        && requested == Some(h[count - 1].value + timeSpan - now) && requested.value > 0
        && (cancel == DuringDelay ==> r == Cancelled && now' == now && delays' == delays)
        && (cancel != DuringDelay ==>
              && now' == h[count - 1].value + timeSpan
              && delays' == delays + 1
              && (r == Admitted <==> cancel != AtRelock))
    }

    /** The wait past its three semaphores: scans the history and, at capacity, asks the clock for
        the delay until the oldest release time leaves the window. A cancellation gives the capacity slot back. */
    method WaitInWindow(cancel: Cancel) returns (r: Acquire, requested: Option<int>, handle: DisposeAction?)
      requires count > 0 && timeSpan > 0 && timeStamps.maxSize == count && |timeStamps.items| <= count
      requires 0 <= available < count && PlaceholderPrefix(timeStamps.items, count - available - 1)
      requires cancel != AtCapacity && cancel != AtDelayLock && cancel != AtListLock
      modifies this, timeStamps, time
      ensures Valid() && time.now >= old(time.now)
      ensures (handle != null) == (r == Admitted) && r != Blocked
      ensures handle != null ==> fresh(handle) && handle.Valid() && handle.armed && handle.invocations == 0
      ensures r != Admitted ==> timeStamps.items == old(timeStamps.items) && available == old(available) + 1
      ensures r == Admitted ==> timeStamps.items == PushSeq(old(timeStamps.items), None, count) && available == old(available)
      ensures InWindow(old(timeStamps.items), old(time.now), old(time.delayCount), cancel, r, requested, time.now, time.delayCount)
    {
      requested, handle := None, null;
      var now := time.GetNow();
      var target := now - timeSpan;
      var c, last := Scan(timeStamps.items, target);
      if c >= count {
        SaturatedScan(timeStamps.items, count - available - 1, count, now, timeSpan);
        assert c == |timeStamps.items| && last >= 0 && timeStamps.items[last].Some?;
        var timeToWait := timeStamps.items[last].value + timeSpan - now;
        requested := Some(timeToWait);
        var completed := time.GetDelay(timeToWait, cancel == DuringDelay);
        if !completed || cancel == AtRelock {
          available := available + 1;
          return Cancelled, requested, handle;
        }
      }
      handle := Admit();
      r := Admitted;
    }

    /** The admission once the capacity slot is taken: a placeholder goes on the front of the history
        and a fresh handle is issued. */
    method Admit() returns (handle: DisposeAction)
      requires count > 0 && timeSpan > 0 && timeStamps.maxSize == count && |timeStamps.items| <= count
      requires 0 <= available < count && PlaceholderPrefix(timeStamps.items, count - available - 1)
      modifies timeStamps
      ensures Valid()
      ensures timeStamps.items == PushSeq(old(timeStamps.items), None, count)
      ensures fresh(handle) && handle.Valid() && handle.armed && handle.invocations == 0
    {
      PushPlaceholder(timeStamps.items, count - available - 1, count);
      timeStamps.Push(None);
      handle := new DisposeAction(true);
    }

    /** The release bookkeeping run by the handle: stamp the oldest placeholder with the clock's
        time (or push the time when no placeholder is left), pass that time to the `OnEnded(now)`
        hook, and release one capacity slot. Releasing a capacity semaphore that is already full
        throws SemaphoreFullException after the history has been updated; `overRelease` reports it. */
    method OnEnded() returns (stamped: int, overRelease: bool)
      requires Valid()
      modifies this, timeStamps
      ensures Valid()
      ensures stamped == time.now
      ensures timeStamps.items == AfterRelease(old(timeStamps.items), old(InFlight()), stamped, count)
      ensures overRelease <==> old(InFlight()) == 0
      ensures available == if overRelease then old(available) else old(available) + 1
    {
      ghost var h, k := timeStamps.items, InFlight();
      var now := time.GetNow();
      ReleaseKeepsPrefix(h, k, now, count);
      var replaced := timeStamps.ReplaceLast(None, Some(now));
      if !replaced {
        assert k == 0 && timeStamps.items == h;
        timeStamps.Push(Some(now));
      }
      stamped := now;
      if available == count {
        overRelease := true;
      } else {
        available := available + 1;
        overRelease := false;
      }
    }

    /** Disposing a handle issued by this gate: when the handle still holds its action, the release
        bookkeeping runs. An over-release throws SemaphoreFullException out of the action, so the handle
        keeps it and the next disposal runs the bookkeeping again. */
    method Release(handle: DisposeAction) returns (fired: bool, overRelease: bool)
      requires Valid() && handle.Valid()
      modifies this, timeStamps, handle
      ensures Valid() && handle.Valid()
      ensures fired == old(handle.armed)
      ensures overRelease <==> fired && old(InFlight()) == 0
      ensures handle.armed == overRelease
      ensures !fired ==> timeStamps.items == old(timeStamps.items) && available == old(available)
      ensures fired ==> timeStamps.items == AfterRelease(old(timeStamps.items), old(InFlight()), time.now, count)
                        && available == (if overRelease then old(available) else old(available) + 1)
    {
      fired := handle.Dispose(available == count);
      overRelease := false;
      if fired {
        var stamped;
        stamped, overRelease := OnEnded();
      }
    }

    /** A gate with the same count, time span and clock, and an empty history. */
    method Clone() returns (c: CountByIntervalAwaitableConstraint)
      requires Valid()
      ensures fresh(c) && fresh(c.timeStamps) && c.Valid()
      ensures c.count == count && c.timeSpan == timeSpan && c.time == time
      ensures c.timeStamps.items == [] && c.available == c.count
    {
      c := new CountByIntervalAwaitableConstraint(count, timeSpan, time);
    }
  }
}
