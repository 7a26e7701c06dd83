/** Constraints written against the two-call interface (`WaitForReadiness()` then
    `Execute()`), and the composite that makes two of them act as one.

    A constraint is described by a value: an opaque member standing for any
    implementation (a test double, say), a count-by-interval gate, or the composite
    of two constraints. `id` stands for the object's identity, so two distinct
    objects carry distinct ids. */
module Composition {
  import opened Common

  datatype Constraint =
    | Member(id: nat)
    | CountByIntervalGate(id: nat, count: int, timeSpan: int)
    | Composed(first: Constraint, second: Constraint)

  /** The `Compose` extension: a constraint composed with itself is itself; otherwise the
      result is a new composite of the two, the receiver first. */
  function Compose(a: Constraint, b: Constraint): Constraint
  {
    if a == b then a else Composed(a, b)
  }

  /** `c` is `whole` or one of the constraints it is composed of, at any depth. */
  predicate Within(c: Constraint, whole: Constraint)
  {
    c == whole || (whole.Composed? && (Within(c, whole.first) || Within(c, whole.second)))
  }

  /** Composition loses neither operand, and adds a composite exactly when the operands differ. */
  lemma ComposeKeepsBoth(a: Constraint, b: Constraint)
    ensures Within(a, Compose(a, b)) && Within(b, Compose(a, b))
    ensures Compose(a, b) == a <==> a == b
  {
    if a != b {
      assert Depth(Compose(a, b)) > Depth(a);
    }
  }

  /** How deeply composites are nested. */
  function Depth(c: Constraint): nat
  {
    if c.Composed? then 1 + (if Depth(c.first) < Depth(c.second) then Depth(c.second) else Depth(c.first)) else 0
  }

  /** A member of the composite: the first or the second constructor argument. */
  datatype Position = First | Second

  /** A call the composite makes on one of its members. */
  datatype Call = WaitOn(position: Position) | ExecuteOn(position: Position)

  /** The calls a wait makes once it holds the slot. */
  const PendingWait: seq<Call> := [WaitOn(First), WaitOn(Second)]

  /** The calls of one failure-free round: both waits, then both executes. */
  const Round: seq<Call> := PendingWait + [ExecuteOn(First), ExecuteOn(Second)]

  /** The calls made by `k` complete wait/execute rounds without failures. */
  function Rounds(k: nat): (r: seq<Call>)
    ensures |r| == 4 * k
  {
    if k == 0 then [] else Rounds(k - 1) + Round
  }

  /** How often `call` occurs in `trace`. */
  function Occurrences(trace: seq<Call>, call: Call): (n: nat)
    ensures n <= |trace|
  {
    if trace == [] then 0
    else Occurrences(trace[..|trace| - 1], call) + (if trace[|trace| - 1] == call then 1 else 0)
  }

  lemma {:induction false} OccurrencesAppend(s: seq<Call>, t: seq<Call>, call: Call)
    ensures Occurrences(s + t, call) == Occurrences(s, call) + Occurrences(t, call)
  {
    if t != [] {
      var t' := t[..|t| - 1];
      OccurrencesAppend(s, t', call);
      assert (s + t)[..|s + t| - 1] == s + t';
      assert (s + t)[|s + t| - 1] == t[|t| - 1];
      assert Occurrences(t, call) == Occurrences(t', call) + (if t[|t| - 1] == call then 1 else 0);
    } else {
      assert s + t == s;
    }
  }

  /** A pending wait has waited on each member once and executed none; a round has done each once. */
  lemma RoundCounts(p: Position)
    ensures Occurrences(PendingWait, WaitOn(p)) == 1 && Occurrences(PendingWait, ExecuteOn(p)) == 0
    ensures Occurrences(Round, WaitOn(p)) == 1 && Occurrences(Round, ExecuteOn(p)) == 1
  {
    var r3 := PendingWait + [ExecuteOn(First)];
    assert Round[..3] == r3;
    assert r3[..2] == PendingWait;
    assert PendingWait[..1] == [WaitOn(First)];
    assert [WaitOn(First)][..0] == [];
  }

  /** In `k` rounds each member is waited on `k` times and executed `k` times. */
  lemma {:induction false} RoundsOccurrences(k: nat, p: Position)
    ensures Occurrences(Rounds(k), WaitOn(p)) == k
    ensures Occurrences(Rounds(k), ExecuteOn(p)) == k
  {
    if k > 0 {
      RoundsOccurrences(k - 1, p);
      RoundCounts(p);
      OccurrencesAppend(Rounds(k - 1), Round, WaitOn(p));
      OccurrencesAppend(Rounds(k - 1), Round, ExecuteOn(p));
    }
  }

  /** At most one admission is outstanding: along a failure-free run each member has been
      waited on exactly as often as it has been executed, plus one while the slot is held. */
  lemma AtMostOneOutstanding(trace: seq<Call>, k: nat, held: bool, p: Position)
    requires trace == Rounds(k) + (if held then PendingWait else [])
    ensures Occurrences(trace, WaitOn(p)) == Occurrences(trace, ExecuteOn(p)) + (if held then 1 else 0)
  {
    RoundsOccurrences(k, p);
    RoundCounts(p);
    var pending := if held then PendingWait else [];
    OccurrencesAppend(Rounds(k), pending, WaitOn(p));
    OccurrencesAppend(Rounds(k), pending, ExecuteOn(p));
  }

  /** How a call to the composite's `WaitForReadiness` ends. */
  datatype WaitOutcome =
    | Ready     // both members' waits completed
    | Blocked   // the slot is held by an earlier wait: the call cannot complete
    | Faulted   // a member's wait failed; Task.WhenAll rethrows it and the slot stays held

  /** Why the composite's `Execute` throws. */
  datatype ExecuteFault =
    | FirstThrew      // the first member's Execute threw: the second is never executed, the slot stays held
    | SecondThrew     // the second member's Execute threw: the slot stays held
    | SemaphoreFull   // both members executed, but the slot was already free

  class ComposedAwaitableConstraint {
    const first: Constraint
    const second: Constraint
    /** Whether the SemaphoreSlim(1, 1) is free. */
    var slotFree: bool
    /** Every call made on the members, in order. */
    var trace: seq<Call>
    /** Completed failure-free rounds, used to state the protocol. */
    ghost var rounds: nat

    /** The failure-free protocol: whole rounds, then the two waits of an admission still outstanding. */
    ghost predicate Protocol()
      reads this
    {
      trace == Rounds(rounds) + (if slotFree then [] else PendingWait)
    }

    constructor (first: Constraint, second: Constraint)
      ensures this.first == first && this.second == second
      ensures slotFree && trace == [] && Protocol()
    {
      this.first := first;
      this.second := second;
      slotFree := true;
      trace := [];
      rounds := 0;
    }

    /** The value this composite stands for. */
    function AsConstraint(): (c: Constraint)
      ensures c.Composed? && Within(first, c) && Within(second, c)
    {
      Composed(first, second)
    }

    /** Takes the slot, then starts both members' waits and awaits them together. The flags
        say whether each member's wait fails. */
    method WaitForReadiness(firstFails: bool, secondFails: bool) returns (r: WaitOutcome)
      modifies this
      ensures r == Blocked <==> !old(slotFree)
      ensures r == Blocked ==> slotFree == old(slotFree) && trace == old(trace)
      ensures r != Blocked ==> && !slotFree && trace == old(trace) + PendingWait
                               && (r == Faulted <==> firstFails || secondFails)
      ensures rounds == old(rounds)
      ensures old(Protocol()) ==> Protocol()
    {
      if !slotFree {
        return Blocked;
      }
      slotFree := false;
      trace := trace + [WaitOn(First)] + [WaitOn(Second)];
      assert trace == old(trace) + PendingWait;
      r := if firstFails || secondFails then Faulted else Ready;
    }

    /** Executes the first member, then the second, then frees the slot. The flags say whether
        each member's Execute throws; a throw skips everything after it. */
    method Execute(firstThrows: bool, secondThrows: bool) returns (fault: Option<ExecuteFault>)
      modifies this
      ensures fault == Some(FirstThrew) <==> firstThrows
      ensures fault == Some(SecondThrew) <==> !firstThrows && secondThrows
      ensures fault == Some(SemaphoreFull) <==> !firstThrows && !secondThrows && old(slotFree)
      ensures fault == None <==> !firstThrows && !secondThrows && !old(slotFree)
      ensures firstThrows ==> trace == old(trace) + [ExecuteOn(First)] && slotFree == old(slotFree)
      ensures !firstThrows ==> trace == old(trace) + [ExecuteOn(First), ExecuteOn(Second)]
      ensures !firstThrows && secondThrows ==> slotFree == old(slotFree)
      ensures !firstThrows && !secondThrows ==> slotFree
      ensures old(Protocol()) && !old(slotFree) && !firstThrows && !secondThrows ==> Protocol() && rounds == old(rounds) + 1
    {
      trace := trace + [ExecuteOn(First)];
      if firstThrows {
        return Some(FirstThrew);
      }
      trace := trace + [ExecuteOn(Second)];
      if secondThrows {
        return Some(SecondThrew);
      }
      if slotFree {
        return Some(SemaphoreFull);
      }
      slotFree := true;
      rounds := rounds + 1;
      fault := None;
    }
  }

  /** A fresh composite waits on each member exactly once. */
  method WaitCallsEachMemberOnce(a: Constraint, b: Constraint) returns (r: WaitOutcome, trace: seq<Call>)
    ensures r == Ready && trace == [WaitOn(First), WaitOn(Second)]
  {
    var c := new ComposedAwaitableConstraint(a, b);
    r := c.WaitForReadiness(false, false);
    trace := c.trace;
  }

  /** A second wait cannot complete while the first admission is outstanding. */
  method SecondWaitBlocks(a: Constraint, b: Constraint) returns (r1: WaitOutcome, r2: WaitOutcome)
    ensures r1 == Ready && r2 == Blocked
  {
    var c := new ComposedAwaitableConstraint(a, b);
    r1 := c.WaitForReadiness(false, false);
    r2 := c.WaitForReadiness(false, false);
  }

  /** After `Execute` the next wait completes, and `Execute` executed each member exactly once. */
  method ExecuteUnblocks(a: Constraint, b: Constraint) returns (fault: Option<ExecuteFault>, executed: seq<Call>, r: WaitOutcome)
    ensures fault == None && r == Ready
    ensures executed == [ExecuteOn(First), ExecuteOn(Second)]
  {
    var c := new ComposedAwaitableConstraint(a, b);
    var r1 := c.WaitForReadiness(false, false);
    var before := |c.trace|;
    fault := c.Execute(false, false);
    executed := c.trace[before..];
    r := c.WaitForReadiness(false, false);
  }
}
