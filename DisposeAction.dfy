/** The release handle returned by a successful wait: an `IDisposable` that runs
    its stored action on `Dispose` and forgets it once the action has returned. The
    stored action is represented by whether it is still present (`armed`, i.e.
    `_Act != null`); whoever holds the handle runs the action when `Dispose` reports
    that it fired. An action that throws leaves `_Act` set, so the next `Dispose`
    runs it again. */
module Disposal {

  class DisposeAction {
    /** `_Act != null` */
    var armed: bool
    /** How many times the stored action has been invoked. */
    var invocations: nat
    /** How many of those invocations threw. */
    ghost var failures: nat
    /** Whether the handle was built with a non-null action. */
    const hasAction: bool

    /** An action runs to completion at most once over the handle's life, never when it was null,
        and it stays stored until it has completed. */
    ghost predicate Valid()
      reads this
    {
      && invocations + (if armed then 1 else 0) == (if hasAction then 1 else 0) + failures
      && (!hasAction ==> !armed && invocations == 0)
    }

    constructor (hasAction: bool)
      ensures Valid()
      ensures this.hasAction == hasAction && armed == hasAction && invocations == 0 && failures == 0
    {
      this.hasAction := hasAction;
      armed := hasAction;
      invocations := 0;
      failures := 0;
    }

    /** `throws` says whether the stored action, if it runs, throws. */
    method Dispose(throws: bool) returns (fired: bool)
      requires Valid()
      modifies this
      ensures Valid()
      ensures fired == old(armed)
      ensures armed == (fired && throws)
      ensures invocations == old(invocations) + (if fired then 1 else 0)
      ensures failures == old(failures) + (if fired && throws then 1 else 0)
      ensures invocations <= 1 + failures && (!hasAction ==> invocations == 0)
    {
      fired := armed;
      if armed {
        invocations := invocations + 1;
        if throws {
          failures := failures + 1;
          return;
        }
      }
      armed := false;
    }
  }

  /** Disposing a fresh handle twice invokes its action exactly once. */
  method DisposeTwice() returns (first: bool, second: bool, invocations: nat)
    ensures first && !second && invocations == 1
  {
    var d := new DisposeAction(true);
    first := d.Dispose(false);
    second := d.Dispose(false);
    invocations := d.invocations;
  }

  /** An action that throws on the first disposal is still stored, and the second disposal runs it again. */
  method DisposeAfterThrow() returns (first: bool, second: bool, invocations: nat)
    ensures first && second && invocations == 2
  {
    var d := new DisposeAction(true);
    first := d.Dispose(true);
    second := d.Dispose(false);
    invocations := d.invocations;
  }

  /** A handle built around a null action never invokes anything. */
  method DisposeNull(throws: bool) returns (fired: bool, invocations: nat)
    ensures !fired && invocations == 0
  {
    var d := new DisposeAction(false);
    fired := d.Dispose(throws);
    invocations := d.invocations;
  }
}
