# RateLimiter in Dafny

A model of the core of RateLimiter, a C# library that limits how often an action runs:
"at most N operations per time span T". The library keeps each limit's recent timestamps
in a bounded, most-recent-first list. It admits an operation at once while the window
holds fewer than N entries. Otherwise it asks a clock for a delay until the oldest entry
leaves the window.

The model has these parts:

- `Stacks` (LimitedSizeStack.dfy): the bounded linked list `LimitedSizeStack<T>`. It is a
  class whose node values are a `seq` field, with `Push` and `ReplaceLast` as methods.
  Pure functions (`PushSeq`, `FindLast`, `ReplaceLastSeq`) specify those methods.
- `Clock` (MockTime.dfy): the deterministic clock the gates run against. Time is a count
  of .NET ticks. `GetDelay` advances the clock by exactly the span it is given and counts
  the call. A cancellation seen inside the delay throws before anything changes.
- `Disposal` (DisposeAction.dfy): the release handle. It forgets its action once the action
  has returned; an action that throws stays stored and runs again on the next `Dispose`.
  Whether an action throws is a parameter of `Dispose`.
- `CountByInterval` (CountByInterval.dfy): the main gate. Its history holds a placeholder
  (a null `DateTime?`) per admission still running and a release time per admission that
  has ended. The three semaphores become one counter, `available`, and each call is one
  atomic step. The class invariant is the one behind the original's `Debug.Assert`s:
  placeholders form a prefix of the history, and their number is the number of
  admissions in flight.
- `CallCountByInterval` (CallCountByInterval.dfy): the older gate, which stamps an
  admission when it is granted. A ghost log of every stamp shows that each stamp is at
  least T after the stamp N admissions earlier. It follows that no window of length T
  holds more than N admissions. This holds as long as the clock never reads earlier than
  a stamp already recorded.
- `Persistent` (Persistent.dfy): the gate that is seeded from saved timestamps and
  reports each release time to a save action.
- `Composition` (Composition.dfy): constraints as values, the `Compose` extension, and the
  composite that holds a one-slot semaphore. The composite records the calls it makes on
  its two members as a trace.
- `Limiting` (TimeLimiter.dfy): the `TimeLimiter` facade. `Perform` is a function from
  "which calls throw" to the calls made and how the call ends. `Compose` is a loop proved
  equal to a left fold.
- `Scenarios` (Scenarios.dfy): runs of the stack and the gate that mirror the library's
  unit tests, with the expected outcomes as postconditions.

Cancellation is a parameter that names the stage at which the token is first seen to be
cancelled. A wait on a semaphore that has no free slot does not complete. The model
reports such a wait as `Blocked` and leaves the state unchanged.

The call-count gate's handling of a cancelled token is modelled as written. When the
token is already cancelled, the wait for the lock throws inside the `try`. The `catch`
then releases a `SemaphoreSlim(1, 1)` that nobody holds, and its
`SemaphoreFullException` replaces the cancellation. `WaitForReadiness` reports this as
`Fault.SemaphoreFull`.

## Model

| member | source | states |
|---|---|---|
| Common.CheckArguments | RateLimiter/CountByIntervalAwaitableConstraint.cs:44-48 | construction is rejected exactly when count <= 0 (checked first) or the time span is not positive |
| Clock.MockTime.GetDelay | RateLimiter.Tests/XUnitTestProject1/MockTime.cs:25-31 | a delay that completes advances the clock by exactly the span and counts one call; a cancelled one changes nothing |
| Clock.MockTime.AddTime | RateLimiter.Tests/XUnitTestProject1/MockTime.cs:20-23 | moves the clock by the span without counting a delay |
| Stacks.FindLast | RateLimiter/LimitedSizeStack.cs:42-44 | -1 exactly when the value is absent; otherwise a position holding the value with no later occurrence |
| Stacks.LimitedSizeStack.constructor | RateLimiter/LimitedSizeStack.cs:18-21 | a new stack is empty and has the given cap |
| Stacks.LimitedSizeStack.AddFirst | RateLimiter/LimitedSizeStack.cs:29 | adds the element at the front whatever the count |
| Stacks.LimitedSizeStack.RemoveLast | RateLimiter/LimitedSizeStack.cs:32 | drops the tail element of a non-empty list |
| Stacks.LimitedSizeStack.Push | RateLimiter/LimitedSizeStack.cs:27-33 | the new contents are the pushed element followed by the old ones, with the tail dropped when the cap is exceeded |
| Stacks.LimitedSizeStack.ReplaceLast | RateLimiter/LimitedSizeStack.cs:40-47 | returns true exactly when the value occurs, and the contents become the old ones with the tail-most occurrence overwritten |
| Stacks.PushPutsFirst | RateLimiter/LimitedSizeStack.cs:29 | after a push the pushed element is first, whether or not the stack was full |
| Stacks.PushBelowCapacity | RateLimiter/LimitedSizeStack.cs:29-32 | below the cap a push grows the stack by one and keeps every old element, in order, behind the new one |
| Stacks.PushAtCapacity | RateLimiter/LimitedSizeStack.cs:31-32 | on a full stack a push keeps the count at the cap and drops exactly the old last element |
| Stacks.PushBound | RateLimiter/LimitedSizeStack.cs:27-33 | a push leaves the count within the cap if and only if it was within the cap before |
| Stacks.ReplaceLastAbsent | RateLimiter/LimitedSizeStack.cs:42-44 | replacing a value that does not occur leaves the list unchanged |
| Stacks.ReplaceLastPresent | RateLimiter/LimitedSizeStack.cs:42-46 | replacing a value that occurs overwrites its tail-most occurrence and nothing else |
| Stacks.PushKeepsRecent | RateLimiter/LimitedSizeStack.cs:27-33 | a stack holding the most recent min(N, k) of k pushed values keeps that property through one more push |
| Disposal.DisposeAction.constructor | RateLimiter/DisposeAction.cs:9-12 | a new handle is armed exactly when its action is not null, and nothing has been invoked yet |
| Disposal.DisposeAction.Dispose | RateLimiter/DisposeAction.cs:14-20 | reports that the action ran exactly when it was still stored; the action is cleared only when it returns, so one that throws stays stored; at most one invocation completes, and a null action never runs |
| Disposal.DisposeTwice | RateLimiterTest/DisposeActionTest.cs:27-34 | disposing twice invokes the action exactly once: the first disposal fires and the second does not |
| Disposal.DisposeAfterThrow | RateLimiter/DisposeAction.cs:16-19 | an action that throws on the first disposal runs again on the second |
| Disposal.DisposeNull | RateLimiter/DisposeAction.cs:16 | a handle built around a null action never invokes anything |
| CountByInterval.WindowCount | RateLimiter/CountByIntervalAwaitableConstraint.cs:92 | the count is the length of the longest history prefix whose entries are placeholders or strictly later than the window start |
| CountByInterval.Scan | RateLimiter/CountByIntervalAwaitableConstraint.cs:88-97 | the loop's count is the window count, and its last node is the one before the first entry outside the window |
| CountByInterval.ScanCoversPlaceholders | RateLimiter/CountByIntervalAwaitableConstraint.cs:92 | the scan always walks over every placeholder |
| CountByInterval.SaturatedScan | RateLimiter/CountByIntervalAwaitableConstraint.cs:108-111 | when the scan reaches N with fewer than N admissions in flight, it consumed the whole history, the oldest entry is a release time, and the requested delay is strictly positive |
| CountByInterval.PushPlaceholder | RateLimiter/CountByIntervalAwaitableConstraint.cs:101 | pushing a placeholder with fewer than N in flight keeps the history within N and the placeholders a prefix, one more of them |
| CountByInterval.ReleaseKeepsPrefix | RateLimiter/CountByIntervalAwaitableConstraint.cs:144-147 | a release overwrites the oldest placeholder when there is one (and only then is there a null to find), otherwise pushes the time, and keeps the invariant with one fewer placeholder |
| CountByInterval.CountByIntervalAwaitableConstraint.constructor | RateLimiter/CountByIntervalAwaitableConstraint.cs:42-55 | a new gate has the given count, span and clock, an empty history and every capacity slot free |
| CountByInterval.CountByIntervalAwaitableConstraint.Create | RateLimiter/CountByIntervalAwaitableConstraint.cs:42-55 | construction fails exactly for a non-positive count or time span, and otherwise yields a valid gate with an empty history |
| CountByInterval.CountByIntervalAwaitableConstraint.WaitForReadiness | RateLimiter/CountByIntervalAwaitableConstraint.cs:66-87 | a token cancelled at the capacity semaphore, or while taking the delay or list semaphore, throws and gives back every slot taken; with no capacity slot free the wait blocks and changes nothing; otherwise the rest of the wait behaves as `InWindow` describes; the placeholder invariant is kept |
| CountByInterval.CountByIntervalAwaitableConstraint.WaitInWindow | RateLimiter/CountByIntervalAwaitableConstraint.cs:88-126 | below N the wait is admitted at once, without a delay, and pushes a placeholder; at N the scan covered the whole history, the delay oldest + T - now is requested and is positive, and the clock ends at oldest + T; a cancellation inside or after the delay gives the capacity slot back and records nothing |
| CountByInterval.CountByIntervalAwaitableConstraint.Admit | RateLimiter/CountByIntervalAwaitableConstraint.cs:99-104 | an admission pushes one placeholder, keeps the placeholder invariant and issues an armed handle |
| CountByInterval.CountByIntervalAwaitableConstraint.OnEnded | RateLimiter/CountByIntervalAwaitableConstraint.cs:140-151 | the release stamps the oldest placeholder with the clock's time (or pushes the time) and frees one capacity slot, reporting a release with nothing in flight |
| CountByInterval.CountByIntervalAwaitableConstraint.Release | RateLimiter/CountByIntervalAwaitableConstraint.cs:140-151 | a disposal runs the release bookkeeping exactly when the handle still holds it; an over-release throws out of the action and leaves it in the handle, every other release spends it |
| CountByInterval.CountByIntervalAwaitableConstraint.Clone | RateLimiter/CountByIntervalAwaitableConstraint.cs:135-138 | the clone has the same count, span and clock and an empty history |
| CallCountByInterval.RecentCount | RateLimiter/CallCountByIntervalAwaitableConstraint.cs:72 | the count is the length of the longest history prefix strictly later than the window start |
| CallCountByInterval.Scan | RateLimiter/CallCountByIntervalAwaitableConstraint.cs:68-77 | the loop's count is that prefix length, and its last node is the one before the first stamp outside the window |
| CallCountByInterval.NextStamp | RateLimiter/CallCountByIntervalAwaitableConstraint.cs:79-87 | the recorded stamp is never earlier than the clock reading, and on a full history it is T after the oldest stamp unless some stamp already left the window |
| CallCountByInterval.RecentIsDescending | RateLimiter/CallCountByIntervalAwaitableConstraint.cs:87 | the most recent part of an ascending stamp log is most-recent-first |
| CallCountByInterval.NextStampAfterOldest | RateLimiter/CallCountByIntervalAwaitableConstraint.cs:79-87 | with a full history the next stamp is at least T after the stamp N admissions earlier |
| CallCountByInterval.NextStampKeepsSpacing | RateLimiter/CallCountByIntervalAwaitableConstraint.cs:68-87 | under a clock no earlier than every stamp, the next stamp keeps the log ascending and at least T after the stamp N admissions earlier |
| CallCountByInterval.AtMostNPerWindow | RateLimiter/CallCountByIntervalAwaitableConstraint.cs:68-87 | in an ascending log so spaced, every window of length T holds at most N admissions |
| CallCountByInterval.CallCountByIntervalAwaitableConstraint.constructor | RateLimiter/CallCountByIntervalAwaitableConstraint.cs:39-51 | a new gate has the given count, span and clock and an empty history |
| CallCountByInterval.CallCountByIntervalAwaitableConstraint.Create | RateLimiter/CallCountByIntervalAwaitableConstraint.cs:39-51 | construction fails exactly for a non-positive count or time span |
| CallCountByInterval.CallCountByIntervalAwaitableConstraint.WaitForReadiness | RateLimiter/CallCountByIntervalAwaitableConstraint.cs:62-97 | below N the clock reading is pushed without a delay; at N the delay last + T - now is requested and the computed last + T is pushed; a wait with no cancellation is always admitted; a cancelled delay records nothing; a token cancelled on entry ends in SemaphoreFull; the history stays the most recent N stamps, and after an admission the clock reads the pushed stamp |
| CallCountByInterval.CallCountByIntervalAwaitableConstraint.WaitAfter | RateLimiter/CallCountByIntervalAwaitableConstraint.cs:62-97 | one wait after the clock moved forward: an admission appends exactly one stamp to the log, a failed wait appends none, a wait with no cancellation is admitted, one cancelled on entry is not, and the log stays ascending and spaced |
| CallCountByInterval.CallCountByIntervalAwaitableConstraint.WaitRepeatedly | RateLimiter/CallCountByIntervalAwaitableConstraint.cs:62-97 | over any run of waits under a clock that never runs backwards, the log only grows, stays ascending and spaced, and no window of length T ever holds more than N admissions; with no cancellations every wait is admitted |
| CallCountByInterval.CallCountByIntervalAwaitableConstraint.Release | RateLimiter/CallCountByIntervalAwaitableConstraint.cs:108-119 | only the first disposal runs the hook, which gets the standard clock's reading rather than the injected clock's; the history, the log and the injected clock are untouched |
| CallCountByInterval.CallCountByIntervalAwaitableConstraint.Clone | RateLimiter/CallCountByIntervalAwaitableConstraint.cs:103-106 | the clone has the same count, span and clock and an empty history |
| Persistent.SeedIsRecent | RateLimiter/PersistentCountByIntervalAwaitableConstraint.cs:29-32 | seeding by repeated pushes leaves the last min(N, k) initial stamps, the last one first |
| Persistent.PersistentCountByIntervalAwaitableConstraint.constructor | RateLimiter/PersistentCountByIntervalAwaitableConstraint.cs:21-33 | a null initial list leaves the history empty; otherwise the history is the seeding of the initial stamps in order |
| Persistent.PersistentCountByIntervalAwaitableConstraint.Create | RateLimiter/PersistentCountByIntervalAwaitableConstraint.cs:21-33 | construction fails exactly for a non-positive count or time span, before any stamp is pushed |
| Persistent.PersistentCountByIntervalAwaitableConstraint.OnEnded | RateLimiter/PersistentCountByIntervalAwaitableConstraint.cs:38-44 | a release pushes the clock's time and hands that same time to the save action; it frees the slot unless the save action throws; the saved list stays in order |
| Persistent.PersistentCountByIntervalAwaitableConstraint.Release | RateLimiter/PersistentCountByIntervalAwaitableConstraint.cs:38-44 | a disposal saves one time exactly when the handle still holds its action; a throwing save action or an over-release leaves the action in the handle, otherwise it is spent |
| Persistent.PersistentCountByIntervalAwaitableConstraint.Cycles | RateLimiterTest/PersistentCountByIntervalAwaitableConstraintTest.cs:22-25 | m acquire/release cycles save exactly m times, each no earlier than the clock at the start, and keep the saved list in order under a forward-moving clock |
| Persistent.WithoutInitialState | RateLimiterTest/PersistentCountByIntervalAwaitableConstraintTest.cs:14-28 | five cycles on an unseeded gate save five times, in ascending order |
| Persistent.WithInitialState | RateLimiterTest/PersistentCountByIntervalAwaitableConstraintTest.cs:30-44 | seeded with an ordered two-entry log that it then appends to, five cycles leave seven ascending entries, and the history is the whole log |
| Persistent.SaveThrowsThenRetry | RateLimiter/PersistentCountByIntervalAwaitableConstraint.cs:38-44 | a save action that throws leaves the handle armed, so a second disposal pushes and saves the same time again |
| Composition.ComposeKeepsBoth | RateLimiter.Tests/AwaitableConstraintExtensionTests.cs:36-41 | composing keeps both operands, and returns the receiver itself exactly when both operands are the same constraint |
| Composition.RoundsOccurrences | RateLimiter/ComposedAwaitableConstraint.cs:18-29 | k failure-free rounds wait on and execute each member exactly k times |
| Composition.AtMostOneOutstanding | RateLimiter/ComposedAwaitableConstraint.cs:10-29 | along a failure-free run each member has been waited on as often as it has been executed, plus one while the slot is held |
| Composition.ComposedAwaitableConstraint.constructor | RateLimiter/ComposedAwaitableConstraint.cs:12-16 | a new composite has its slot free and has made no calls |
| Composition.ComposedAwaitableConstraint.AsConstraint | RateLimiter/ComposedAwaitableConstraint.cs:12-16 | the composite stands for a composed constraint containing both members |
| Composition.ComposedAwaitableConstraint.WaitForReadiness | RateLimiter/ComposedAwaitableConstraint.cs:18-22 | with the slot held the call cannot complete and changes nothing; otherwise it takes the slot and waits on each member exactly once, failing when either member's wait fails, with the slot still held |
| Composition.ComposedAwaitableConstraint.Execute | RateLimiter/ComposedAwaitableConstraint.cs:24-29 | executes the first member then the second, then frees the slot; a throw from the first skips the second, a throw from either keeps the slot held, and freeing a free slot throws SemaphoreFull |
| Composition.WaitCallsEachMemberOnce | RateLimiterTest/ComposedAwaitableConstraintTest.cs:23-30 | a wait on a fresh composite waits on each member exactly once |
| Composition.SecondWaitBlocks | RateLimiterTest/ComposedAwaitableConstraintTest.cs:32-38 | a second wait cannot complete while the first admission is outstanding |
| Composition.ExecuteUnblocks | RateLimiterTest/ComposedAwaitableConstraintTest.cs:40-47 | after Execute, which executes each member once, the next wait completes |
| Limiting.ComposeAll | RateLimiter/TimeLimiter.cs:46-54 | the fold yields no constraint exactly for an empty list |
| Limiting.TimeLimiter.Perform | RateLimiter/TimeLimiter.cs:23-31 | the calls start with the wait and end with exactly one Execute; the work runs exactly when the wait succeeds; the result is the work's own result exactly when nothing throws; an Execute failure replaces any other; a null constraint throws without any call |
| Limiting.TimeLimiter.PerformAction | RateLimiter/TimeLimiter.cs:13-21 | the overload without a result sequences the calls as the generic one and returns exactly when nothing throws |
| Limiting.TimeLimiter.Compose | RateLimiter/TimeLimiter.cs:46-54 | the loop's result wraps the left fold of the constraints |
| Limiting.TimeLimiter.GetFromMaxCountByInterval | RateLimiter/TimeLimiter.cs:41-44 | fails exactly as the gate's constructor does, and otherwise wraps a count-by-interval gate with the given count and span |
| Limiting.PerformOrder | RateLimiterTest/RateLimiterTest.cs:25-64 | the calls are wait, work, execute whether the work returns or throws, and the work's exception reaches the caller |
| Limiting.PerformAfterFailedWait | RateLimiter/TimeLimiter.cs:14-20 | a failing wait skips the work but Execute still runs, and the wait's exception reaches the caller |
| Limiting.ComposeNone | RateLimiter/TimeLimiter.cs:48-53 | composing no constraints wraps a null constraint |
| Limiting.ComposeSingle | RateLimiter/TimeLimiter.cs:50-51 | a single constraint composes to itself |
| Limiting.ComposeThree | RateLimiter/TimeLimiter.cs:46-54 | three constraints compose as compose(compose(a, b), c) |
| Limiting.ComposeSame | RateLimiter.Tests/AwaitableConstraintExtensionTests.cs:36-41 | a constraint listed twice composes to itself |
| Limiting.ComposeKeepsAll | RateLimiter/TimeLimiter.cs:46-54 | every constraint passed to Compose is part of the result |
| Limiting.PerformOnComposite | RateLimiter/TimeLimiter.cs:13-21 | Perform on a live composite frees its slot on every path, even when a member's wait or the work throws, completing one protocol round, and ends as the trace function predicts |
| Scenarios.PushOnFullStack | RateLimiter.Tests/LimitedSizeStackTest.cs:29-54 | on a stack filled with 0..4, a push puts its element first, keeps five elements and leaves 1 last |
| Scenarios.SetUpSaturated | RateLimiter.Tests/CountByIntervalAwaitableConstraintTest.cs:207-212 | a full cycle with nothing in flight pushes the clock's time after the wait and moves the clock only when the window was full |
| Scenarios.FirstWaitDoesNotDelay | RateLimiter.Tests/CountByIntervalAwaitableConstraintTest.cs:46-51 | the first wait on a fresh gate is admitted without a delay |
| Scenarios.BlockedUntilDisposed | RateLimiter.Tests/CountByIntervalAwaitableConstraintTest.cs:53-73 | with N = 1 a second wait is blocked until the first handle is disposed, and admitted afterwards |
| Scenarios.CancelledDoesNotBlock | RateLimiter.Tests/CountByIntervalAwaitableConstraintTest.cs:75-97 | a wait cancelled before the delay throws, and the next wait is admitted |
| Scenarios.CancelledDuringDelayDoesNotBlock | RateLimiter/CountByIntervalAwaitableConstraint.cs:111-126 | a wait cancelled inside the delay throws and gives its slot back, so a next wait whose delay completes is admitted after one delay (a stronger run than the library test's, whose second wait also throws) |
| Scenarios.CancelledDuringDelayTwice | RateLimiter.Tests/CountByIntervalAwaitableConstraintTest.cs:99-136 | the test's own run, where the delay hook throws on every call: the cancelled wait throws, and the next wait is not blocked (it throws inside the delay too), with no delay completed |
| Scenarios.WaitAfterOneCycle | RateLimiter.Tests/CountByIntervalAwaitableConstraintTest.cs:138-160 | N = 1, T = 100 ms: after one cycle and less than 100 ms, exactly one delay and the clock ends at origin + 100 ms; after 100 ms or more, no delay |
| Scenarios.CyclesThenWait | RateLimiter.Tests/CountByIntervalAwaitableConstraintTest.cs:199-205 | k cycles and a wait on a gate of five per second ask for k / 5 delays |
| Scenarios.LimitIsBasedOnCount | RateLimiter.Tests/CountByIntervalAwaitableConstraintTest.cs:162-177 | N = 5, T = 1 s: after k cycles the total delays are k / 5, so for the tested k the next wait delays exactly once if and only if k >= 5 |
| Scenarios.CloneLimitIsBasedOnCount | RateLimiter.Tests/CountByIntervalAwaitableConstraintTest.cs:179-197 | the same on a clone taken after four cycles: the original's admissions do not count against the clone |

## Left out

- Real concurrency: `SemaphoreSlim.WaitAsync`, `Task.WhenAll` and interleavings of async calls. Each call is one atomic step. A wait that cannot take a semaphore reports `Blocked` instead of waiting.
- CountByInterval.CountByIntervalAwaitableConstraint.WaitForReadiness: a wait blocked on the capacity semaphore is reported as `Blocked` rather than resumed later, and a wait that enters with nothing free never sees the delay or list semaphores held, because no other call is in progress.
- The wall clock: `RateLimiter/TimeSystem.cs` (`DateTime.Now`, `Task.Delay`) is replaced by the mock clock. The `TotalMilliseconds <= 0` checks become `ticks <= 0`, which is equivalent. The standard clock's reading in the call-count gate's release hook is a parameter.
- `DateTime` range limits: adding a span near `DateTime.MaxValue` throws in .NET, but ticks are unbounded here.
- The mock clock's `GetNowCount` and the `OnDelay` hook, other than the cancellation it is used for.
- Awaiter plumbing (`RateLimiter/TimeLimiterAwaiter.cs`, `RateLimiter/TimeLimiterExtension.cs`), the example application, and the interfaces, which are only signatures.
- The binding between a handle and the gate that issued it: the model passes the handle back to the gate's `Release`.
- Persistent.PersistentCountByIntervalAwaitableConstraint.TakeSlot: the class derives from an older revision of the count-by-interval gate, whose wait is not part of this model. `TakeSlot` only takes the single slot that the release frees. The scan and delay of that older wait are not modelled.
- The save action is any `Action<DateTime>`; the model records the times passed to it, and whether it throws is a parameter of the release.
- Composition.Compose: the `Compose` extension method is not part of this model. It is defined by the behaviour its tests fix: a constraint composed with itself is itself, and otherwise the result is a new composite.
- Object identity is value equality: two composites of the same members are equal here, although they are distinct objects in .NET. `GetFromMaxCountByInterval` takes the new gate's identity as a parameter.
- Null elements in the array passed to `TimeLimiter.Compose`, and a null array: the model takes a sequence of constraints.
- Composition.ComposedAwaitableConstraint.WaitForReadiness: a member whose `WaitForReadiness` throws synchronously, before returning a task, would stop the second member's call. The model starts both waits and reports a failure through the combined task.
- Composition.ComposedAwaitableConstraint: the members' own behaviour is abstract. Each member call is recorded in the trace, and flags say whether it fails.
- Limiting.TimeLimiter.Perform: exceptions are identified only by where they come from (wait, work, execute, null reference), not by type.
