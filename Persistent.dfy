/** The count-by-interval gate that can save its own state: it is seeded with the
    timestamps a previous run saved, and each release pushes the release time and
    hands that same time to a save action.

    This class derives from an older revision of the count-by-interval gate than
    the one in CountByInterval.dfy: its history holds plain DateTime stamps, and one
    single-slot semaphore (`_Semafore`) is held from the wait until the release.
    That older base class is not part of this model; only the slot it takes
    (`TakeSlot`) stands in for its wait. The save action is modelled by the list of
    times it has received, `saved`, oldest first. */
module Persistent {
  import opened Common
  import opened Stacks
  import opened Clock
  import opened Disposal

  /** The history after pushing every element of `xs`, in order, onto an empty stack with cap `n`. */
  function SeedSeq(xs: seq<int>, n: int): seq<int>
  {
    if xs == [] then [] else PushSeq(SeedSeq(xs[..|xs| - 1], n), xs[|xs| - 1], n)
  }

  /** Seeding keeps the last min(n, |xs|) initial stamps, the last one listed first. */
  lemma {:induction false} SeedIsRecent(xs: seq<int>, n: int)
    requires n >= 1
    ensures IsRecent(SeedSeq(xs, n), xs, n)
  {
    if xs != [] {
      var init := xs[..|xs| - 1];
      SeedIsRecent(init, n);
      PushKeepsRecent(SeedSeq(init, n), init, xs[|xs| - 1], n);
      assert init + [xs[|xs| - 1]] == xs;
    }
  }

  /** Two ascending logs joined where the first ends no later than the second starts stay ascending. */
  lemma AscendingJoin(a: seq<int>, b: seq<int>)
    requires Ascending(a) && Ascending(b)
    requires a != [] && b != [] ==> a[|a| - 1] <= b[0]
    ensures Ascending(a + b)
  {
    var ab := a + b;
    forall i, j | 0 <= i < j < |ab|
      ensures ab[i] <= ab[j]
    {
      if i < |a| && |a| <= j {
        assert ab[i] <= a[|a| - 1] <= b[0] <= b[j - |a|];
      }
    }
  }

  class PersistentCountByIntervalAwaitableConstraint {
    const count: int
    const timeSpan: int
    const timeStamps: LimitedSizeStack<int>
    const time: MockTime
    /** Whether the base class's single-slot semaphore is free. */
    var slotFree: bool
    /** Every time handed to the save action, oldest first. */
    var saved: seq<int>
    /** Every stamp pushed onto the history, seeds included, oldest first. */
    ghost var pushed: seq<int>

    /** The history is the most recent `count` stamps pushed, latest first. */
    ghost predicate Valid()
      reads this, timeStamps
    {
      && count > 0 && timeSpan > 0
      && timeStamps.maxSize == count
      && IsRecent(timeStamps.items, pushed, count)
    }

    /** The saved times are in order and none is later than the clock; kept by a clock that never runs backwards. */
    ghost predicate SavedInOrder()
      reads this, time
    {
      Ascending(saved) && (saved != [] ==> saved[|saved| - 1] <= time.now)
    }

    /** The constructor past the base class's argument checks (see `Create`): a null list of
        initial stamps leaves the history empty, otherwise each is pushed in order. */
    constructor (count: int, timeSpan: int, time: MockTime, initialTimeStamps: Option<seq<int>>)
      requires CheckArguments(count, timeSpan) == None
      ensures Valid() && SavedInOrder() && fresh(timeStamps)
      ensures this.count == count && this.timeSpan == timeSpan && this.time == time
      ensures slotFree && saved == []
      ensures pushed == (if initialTimeStamps.None? then [] else initialTimeStamps.value)
      ensures timeStamps.items == SeedSeq(pushed, count)
    {
      this.count := count;
      this.timeSpan := timeSpan;
      this.time := time;
      timeStamps := new LimitedSizeStack<int>(count);
      slotFree := true;
      saved := [];
      pushed := [];
      new;
      if initialTimeStamps.None? {
        return;
      }
      var xs := initialTimeStamps.value;
      var i := 0;
      while i < |xs|
        invariant 0 <= i <= |xs|
        invariant pushed == xs[..i]
        invariant timeStamps.items == SeedSeq(pushed, count)
        invariant slotFree && saved == []
      {
        assert xs[..i + 1][..i] == xs[..i];
        timeStamps.Push(xs[i]);
        pushed := pushed + [xs[i]];
        i := i + 1;
      }
      assert xs[..i] == xs;
      SeedIsRecent(pushed, count);
    }

    /** `new PersistentCountByIntervalAwaitableConstraint(...)`: the base constructor throws
        ArgumentException for a non-positive count or time span before any stamp is pushed. */
    static method Create(count: int, timeSpan: int, time: MockTime, initialTimeStamps: Option<seq<int>>)
      returns (r: Result<PersistentCountByIntervalAwaitableConstraint, ArgumentError>)
      ensures r.Failure? <==> count <= 0 || timeSpan <= 0
      ensures r.Failure? ==> CheckArguments(count, timeSpan) == Some(r.error)
      ensures r.Success? ==> && fresh(r.value) && fresh(r.value.timeStamps) && r.value.Valid()
                             && r.value.count == count && r.value.timeSpan == timeSpan && r.value.time == time
                             && r.value.slotFree && r.value.saved == []
                             && r.value.timeStamps.items
                                == SeedSeq(if initialTimeStamps.None? then [] else initialTimeStamps.value, count)
    {
      var err := CheckArguments(count, timeSpan);
      if err.Some? {
        return Failure(err.value);
      }
      var g := new PersistentCountByIntervalAwaitableConstraint(count, timeSpan, time, initialTimeStamps);
      return Success(g);
    }

    /** Stand-in for the inherited wait: it takes the single slot, or reports that it cannot. */
    method TakeSlot() returns (entered: bool)
      modifies this
      ensures entered == old(slotFree) && !slotFree
      ensures saved == old(saved) && pushed == old(pushed)
    {
      entered := slotFree;
      slotFree := false;
    }

    /** The release: reads the clock, pushes that time, hands the same time to the save action
        once, and frees the slot. `saveThrows` says whether the save action throws; the exception
        then skips freeing the slot. `overRelease` says that the slot was already free, which a
        SemaphoreSlim(1, 1) answers with SemaphoreFullException after the save. */
    method OnEnded(saveThrows: bool) returns (now: int, overRelease: bool)
      requires Valid()
      modifies this, timeStamps
      ensures Valid()
      ensures now == time.now
      ensures timeStamps.items == PushSeq(old(timeStamps.items), now, count)
      ensures pushed == old(pushed) + [now]
      ensures saved == old(saved) + [now]
      ensures saveThrows ==> slotFree == old(slotFree) && !overRelease
      ensures !saveThrows ==> slotFree && overRelease == old(slotFree)
      ensures old(SavedInOrder()) ==> SavedInOrder()
    {
      now := time.GetNow();
      PushKeepsRecent(timeStamps.items, pushed, now, count);
      timeStamps.Push(now);
      pushed := pushed + [now];
      saved := saved + [now];
      overRelease := false;
      if saveThrows {
        return;
      }
      overRelease := slotFree;
      slotFree := true;
    }

    /** Disposing a handle issued by this gate: when the handle still holds its action, the release
        runs. An exception out of the save action, or an over-release, leaves the action in the
        handle, so the next disposal pushes and saves again. */
    method Release(handle: DisposeAction, saveThrows: bool) returns (fired: bool)
      requires Valid() && handle.Valid()
      modifies this, timeStamps, handle
      ensures Valid() && handle.Valid()
      ensures fired == old(handle.armed)
      ensures handle.armed == (fired && (saveThrows || old(slotFree)))
      ensures fired ==> && saved == old(saved) + [time.now] && pushed == old(pushed) + [time.now]
                        && slotFree == (saveThrows ==> old(slotFree))
      ensures !fired ==> && saved == old(saved) && pushed == old(pushed) && slotFree == old(slotFree)
                         && timeStamps.items == old(timeStamps.items)
      ensures old(SavedInOrder()) ==> SavedInOrder()
    {
      fired := handle.Dispose(saveThrows || slotFree);
      if fired {
        var now, overRelease := OnEnded(saveThrows);
      }
    }

    /** `m` acquire/release cycles, with the clock moving forward by `gaps[i]` before the `i`-th:
        each cycle saves exactly one time, no earlier than the clock at the start, and the
        saved list stays in order. */
    method Cycles(gaps: seq<nat>)
      requires Valid() && slotFree
      modifies this, timeStamps, time
      ensures Valid() && slotFree
      ensures time.now >= old(time.now)
      ensures |saved| == |old(saved)| + |gaps| && saved[..|old(saved)|] == old(saved)
      ensures forall i :: |old(saved)| <= i < |saved| ==> old(time.now) <= saved[i] <= time.now
      ensures pushed == old(pushed) + saved[|old(saved)|..]
      ensures old(SavedInOrder()) ==> SavedInOrder()
    {
      ghost var before := SavedInOrder();
      var k := 0;
      while k < |gaps|
        invariant 0 <= k <= |gaps|
        invariant Valid() && slotFree
        invariant time.now >= old(time.now)
        invariant |saved| == |old(saved)| + k && saved[..|old(saved)|] == old(saved)
        invariant forall i :: |old(saved)| <= i < |saved| ==> old(time.now) <= saved[i] <= time.now
        invariant pushed == old(pushed) + saved[|old(saved)|..]
        invariant before ==> SavedInOrder()
      {
        time.AddTime(gaps[k]);
        var entered := TakeSlot();
        var handle := new DisposeAction(true);
        var fired := Release(handle, false);
        k := k + 1;
      }
    }
  }

  /** A save action that throws on the first disposal leaves the slot held and the action in the handle:
      the second disposal runs the release again, so the same time is pushed and saved twice. */
  method SaveThrowsThenRetry(origin: int) returns (first: bool, second: bool, log: seq<int>, history: seq<int>)
    ensures first && second && log == [origin, origin] && history == [origin, origin]
  {
    var time := new MockTime(origin);
    var c := new PersistentCountByIntervalAwaitableConstraint(2, 200 * TicksPerMillisecond, time, None);
    var entered := c.TakeSlot();
    var handle := new DisposeAction(true);
    first := c.Release(handle, true);
    second := c.Release(handle, false);
    log, history := c.saved, c.timeStamps.items;
  }

  /** Five cycles on a fresh gate with no initial state (N = 1, T = 200 ms) save five times, in order. */
  method WithoutInitialState(origin: int, gaps: seq<nat>) returns (log: seq<int>)
    requires |gaps| == 5
    ensures |log| == 5 && Ascending(log)
    ensures forall i :: 0 <= i < |log| ==> log[i] >= origin
  {
    var time := new MockTime(origin);
    var c := new PersistentCountByIntervalAwaitableConstraint(1, 200 * TicksPerMillisecond, time, None);
    c.Cycles(gaps);
    log := c.saved;
  }

  /** Seeding N = 7, T = 1 s with an ordered two-stamp log that the save action then appends to:
      after five cycles the log holds seven times, in order, and the history is the whole log, latest first. */
  method WithInitialState(origin: int, initial: seq<int>, gaps: seq<nat>) returns (log: seq<int>, history: seq<int>)
    requires |initial| == 2 && Ascending(initial) && initial[1] <= origin
    requires |gaps| == 5
    ensures |log| == 7 && Ascending(log) && log[..2] == initial
    ensures IsRecent(history, log, 7) && |history| == 7
  {
    var time := new MockTime(origin);
    var c := new PersistentCountByIntervalAwaitableConstraint(7, TicksPerSecond, time, Some(initial));
    c.Cycles(gaps);
    AscendingJoin(initial, c.saved);
    log := initial + c.saved;
    history := c.timeStamps.items;
    assert c.pushed == log;
  }
}
