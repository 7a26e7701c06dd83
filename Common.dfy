/** Shared vocabulary: optional values, results, and time measured in ticks.
    A .NET DateTime or TimeSpan is a count of 100-nanosecond ticks; the model
    keeps that count as an unbounded integer. */
module Common {

  /** A value that may be missing; `None` plays the role of a C# `null`. */
  datatype Option<+T> = None | Some(value: T)

  /** The outcome of an operation that can throw. */
  datatype Result<+T, +E> = Success(value: T) | Failure(error: E)

  /** Ticks in one millisecond and in one second (TimeSpan.TicksPerMillisecond, TicksPerSecond). */
  const TicksPerMillisecond: int := 10_000
  const TicksPerSecond: int := 10_000_000

  /** The reasons the gates' constructors throw ArgumentException, named after the offending parameter. */
  datatype ArgumentError = CountNotPositive | TimeSpanNotPositive

  /** The argument checks shared by every count-by-interval constructor: `count` is
      checked first, then `timeSpan`. */
  function CheckArguments(count: int, timeSpan: int): (r: Option<ArgumentError>)
    ensures r == None <==> count > 0 && timeSpan > 0
    ensures r == Some(CountNotPositive) <==> count <= 0
    ensures r == Some(TimeSpanNotPositive) <==> count > 0 && timeSpan <= 0
  {
    if count <= 0 then Some(CountNotPositive)
    else if timeSpan <= 0 then Some(TimeSpanNotPositive)
    else None
  }

  /** A log of ticks in non-decreasing order, oldest first. */
  ghost predicate Ascending(log: seq<int>)
  {
    forall i, j :: 0 <= i < j < |log| ==> log[i] <= log[j]
  }
}
