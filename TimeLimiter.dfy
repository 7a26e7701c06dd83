/** The rate limiter users call: it wraps one constraint (possibly a composite) and runs
    each piece of work between the constraint's `WaitForReadiness()` and `Execute()`.

    `Perform` is straight-line try/finally code, so it is described by the calls it makes
    (`Run.trace`) and how it ends (`Run.outcome`), given which of the calls throw. */
module Limiting {
  import opened Common
  import opened Composition

  /** A call made while performing: on the constraint, or the work itself. */
  datatype Event = Wait | Work | Execute

  /** Where an exception that escapes `Perform` comes from. */
  datatype Failure = WaitFailed | WorkFailed | ExecuteFailed | NullReference

  datatype Outcome<T> = Returned(value: T) | Threw(failure: Failure)

  datatype Run<T> = Run(trace: seq<Event>, outcome: Outcome<T>)

  /** One step of the `Compose` loop: the first constraint is taken as it is, each later one
      is composed onto the accumulator. */
  function Step(current: Option<Constraint>, c: Constraint): Option<Constraint>
  {
    if current.None? then Some(c) else Some(Compose(current.value, c))
  }

  /** The left fold the `Compose` loop computes. */
  function ComposeAll(cs: seq<Constraint>): (r: Option<Constraint>)
    ensures r.None? <==> cs == []
  {
    if cs == [] then None else Step(ComposeAll(cs[..|cs| - 1]), cs[|cs| - 1])
  }

  datatype TimeLimiter = TimeLimiter(constraint: Option<Constraint>)
  {
    /** `Perform<T>`: waits, runs the work and returns its result; `Execute` runs in the `finally`,
        so it follows every exit once the constraint is there, and an exception it throws replaces
        the one in flight. A null constraint fails on the wait and again in the `finally`.
        `work` is the work's result, `None` when it throws. */
    function Perform<T>(waitThrows: bool, work: Option<T>, executeThrows: bool): (r: Run<T>)
      ensures r.trace == [] <==> constraint.None?
      ensures constraint.None? ==> r.outcome == Threw(NullReference)
      ensures constraint.Some? ==> && r.trace[0] == Wait
                                   && r.trace[|r.trace| - 1] == Execute
                                   && Execute !in r.trace[..|r.trace| - 1]
      ensures Work in r.trace <==> constraint.Some? && !waitThrows
      ensures r.outcome.Returned? <==> constraint.Some? && !waitThrows && work.Some? && !executeThrows
      ensures r.outcome.Returned? ==> work == Some(r.outcome.value)
      ensures r.outcome == Threw(ExecuteFailed) <==> constraint.Some? && executeThrows
      ensures r.outcome == Threw(WorkFailed) <==> constraint.Some? && !waitThrows && work.None? && !executeThrows
      ensures r.outcome == Threw(WaitFailed) <==> constraint.Some? && waitThrows && !executeThrows
    {
      if constraint.None? then Run([], Threw(NullReference))
      else
        var tried :=
          if waitThrows then Run([Wait], Threw(WaitFailed))
          else if work.None? then Run([Wait, Work], Threw(WorkFailed))
          else Run([Wait, Work], Returned(work.value));
        Run(tried.trace + [Execute], if executeThrows then Threw(ExecuteFailed) else tried.outcome)
    }

    /** The overload for work without a result: the same sequencing, with `()` as the result. */
    function PerformAction(waitThrows: bool, workThrows: bool, executeThrows: bool): (r: Run<()>)
      ensures r == Perform(waitThrows, if workThrows then None else Some(()), executeThrows)
      ensures r.outcome.Returned? <==> constraint.Some? && !waitThrows && !workThrows && !executeThrows
    {
      Perform(waitThrows, if workThrows then None else Some(()), executeThrows)
    }

    /** `TimeLimiter.Compose(params constraints)`: the loop over the array, which leaves the
        accumulator null when the array is empty. */
    static method Compose(constraints: seq<Constraint>) returns (limiter: TimeLimiter)
      ensures limiter.constraint == ComposeAll(constraints)
    {
      var current: Option<Constraint> := None;
      for i := 0 to |constraints|
        invariant current == ComposeAll(constraints[..i])
      {
        assert constraints[..i + 1][..i] == constraints[..i];
        current := Step(current, constraints[i]);
      }
      assert constraints[..|constraints|] == constraints;
      limiter := TimeLimiter(current);
    }

    /** `GetFromMaxCountByInterval`: wraps a new count-by-interval gate, whose constructor throws
        ArgumentException for a non-positive count or time span. `id` is the new gate's identity. */
    static function GetFromMaxCountByInterval(maxCount: int, timeSpan: int, id: nat): (r: Result<TimeLimiter, ArgumentError>)
      ensures r.Failure? <==> maxCount <= 0 || timeSpan <= 0
      ensures r.Failure? ==> CheckArguments(maxCount, timeSpan) == Some(r.error)
      ensures r.Success? ==> r.value.constraint == Some(CountByIntervalGate(id, maxCount, timeSpan))
    {
      var err := CheckArguments(maxCount, timeSpan);
      if err.Some? then Failure(err.value)
      else Success(TimeLimiter(Some(CountByIntervalGate(id, maxCount, timeSpan))))
    }
  }

  /** Both overloads make the calls in the order wait, work, execute, whether the work returns or throws,
      and the work's exception reaches the caller unless `Execute` throws. */
  lemma PerformOrder(c: Constraint, workThrows: bool, executeThrows: bool)
    ensures var r := TimeLimiter(Some(c)).PerformAction(false, workThrows, executeThrows);
            r.trace == [Wait, Work, Execute]
            && (workThrows && !executeThrows ==> r.outcome == Threw(WorkFailed))
  {
  }

  /** A failing wait skips the work, but `Execute` still runs. */
  lemma PerformAfterFailedWait<T>(c: Constraint, work: Option<T>)
    ensures var r := TimeLimiter(Some(c)).Perform(true, work, false);
            r.trace == [Wait, Execute] && r.outcome == Threw(WaitFailed)
  {
  }

  lemma ComposeNone()
    ensures ComposeAll([]) == None
  {
  }

  lemma ComposeSingle(a: Constraint)
    ensures ComposeAll([a]) == Some(a)
  {
    assert [a][..0] == [];
  }

  /** Three constraints fold from the left. */
  lemma ComposeThree(a: Constraint, b: Constraint, c: Constraint)
    ensures ComposeAll([a, b, c]) == Some(Compose(Compose(a, b), c))
  {
    assert [a, b, c][..2] == [a, b];
    assert [a, b][..1] == [a];
    ComposeSingle(a);
  }

  /** A constraint listed twice in a row composes to itself. */
  lemma ComposeSame(a: Constraint)
    ensures ComposeAll([a, a]) == Some(a)
  {
    assert [a, a][..1] == [a];
    ComposeSingle(a);
  }

  lemma {:induction false} WithinTransitive(x: Constraint, y: Constraint, z: Constraint)
    requires Within(x, y) && Within(y, z)
    ensures Within(x, z)
  {
    if y != z {
      if Within(y, z.first) {
        WithinTransitive(x, y, z.first);
      } else {
        WithinTransitive(x, y, z.second);
      }
    }
  }

  /** No constraint passed to `Compose` is lost: each is part of the composed result. */
  lemma {:induction false} ComposeKeepsAll(cs: seq<Constraint>)
    requires cs != []
    ensures forall i :: 0 <= i < |cs| ==> Within(cs[i], ComposeAll(cs).value)
  {
    var init, last := cs[..|cs| - 1], cs[|cs| - 1];
    var r := ComposeAll(cs).value;
    if init == [] {
      assert r == last;
    } else {
      ComposeKeepsAll(init);
      var prev := ComposeAll(init).value;
      ComposeKeepsBoth(prev, last);
      forall i | 0 <= i < |cs|
        ensures Within(cs[i], r)
      {
        if i < |init| {
          assert cs[i] == init[i];
          WithinTransitive(cs[i], prev, r);
        }
      }
    }
  }

  /** `Perform` on a live composite whose slot is free (with the slot held the wait would never
      complete): the members' waits fail or not as the flags say, the work may throw, and no member's
      `Execute` throws. The `finally` frees the slot on every path, completing one protocol round. */
  method PerformOnComposite(c: ComposedAwaitableConstraint, firstWaitFails: bool, secondWaitFails: bool, workThrows: bool)
    returns (outcome: Outcome<()>)
    requires c.slotFree && c.Protocol()
    modifies c
    ensures c.slotFree && c.Protocol() && c.rounds == old(c.rounds) + 1
    ensures c.trace == old(c.trace) + [WaitOn(First), WaitOn(Second), ExecuteOn(First), ExecuteOn(Second)]
    ensures outcome == TimeLimiter(Some(c.AsConstraint())).PerformAction(firstWaitFails || secondWaitFails, workThrows, false).outcome
  {
    var waited := c.WaitForReadiness(firstWaitFails, secondWaitFails);
    if waited == Faulted {
      outcome := Threw(WaitFailed);
    } else if workThrows {
      outcome := Threw(WorkFailed);
    } else {
      outcome := Returned(());
    }
    var fault := c.Execute(false, false);
  }
}
