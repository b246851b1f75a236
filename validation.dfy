/** The argument check every public calculation runs before computing anything. */
module Validation {

  datatype Option<T> = None | Some(value: T)

  /** The causes the check reports, in the order the checks run. */
  datatype ArgError =
    | NegativeTime
    | EmptyTimestamps
    | StartAfterFirstTimestamp
    | EndBeforeLastTimestamp
    | ValuesLengthMismatch
    | ExceptionsLengthMismatch
    | UnorderedTimestamps

  /** What a public calculation returns: a value, or the cause the argument check failed with. */
  datatype Result<T> = Ok(value: T) | Err(cause: ArgError)

  /** Timestamps never decrease; equal neighbours are allowed. */
  predicate NonDecreasing(ts: seq<int>)
  {
    forall i :: 0 < i < |ts| ==> ts[i - 1] <= ts[i]
  }

  /** A further timestamp keeps the order exactly when it is not before the last one. */
  lemma NonDecreasingAppend(ts: seq<int>, e: int)
    requires |ts| > 0
    ensures NonDecreasing(ts + [e]) <==> NonDecreasing(ts) && ts[|ts| - 1] <= e
  {
    if NonDecreasing(ts + [e]) {
      forall i | 0 < i < |ts|
        ensures ts[i - 1] <= ts[i]
      {
        assert (ts + [e])[i - 1] <= (ts + [e])[i];
      }
      assert (ts + [e])[|ts| - 1] <= (ts + [e])[|ts|];
    }
  }

  /** Every condition the check demands, stated as one conjunction. */
  predicate ValidArguments(start: int, end: int, ts: seq<int>, vs: seq<int>, exceptions: Option<seq<bool>>)
  {
    && 0 <= start && 0 <= end
    && |ts| > 0
    && start <= ts[0]
    && ts[|ts| - 1] <= end
    && |vs| == |ts|
    && (exceptions.Some? ==> |exceptions.value| == |ts|)
    && NonDecreasing(ts)
  }

  /** A further sample at the window end that repeats the last reading keeps the arguments valid exactly when they were. */
  lemma ValidArgumentsAppend(start: int, end: int, ts: seq<int>, vs: seq<int>)
    requires |ts| == |vs| > 0
    ensures ValidArguments(start, end, ts + [end], vs + [vs[|vs| - 1]], None)
      <==> ValidArguments(start, end, ts, vs, None)
  {
    NonDecreasingAppend(ts, end);
  }

  /**
   * The cause of the first failing check, or None when the arguments are valid.
   * `exceptions` is None where the caller passes no exception array.
   */
  function ArgumentsError(start: int, end: int, ts: seq<int>, vs: seq<int>, exceptions: Option<seq<bool>>): (r: Option<ArgError>)
    ensures r.None? <==> ValidArguments(start, end, ts, vs, exceptions)
    ensures r == Some(NegativeTime) <==> start < 0 || end < 0
    ensures r == Some(UnorderedTimestamps) ==> exists i :: 0 < i < |ts| && ts[i] < ts[i - 1]
  {
    if start < 0 || end < 0 then Some(NegativeTime)
    else if |ts| == 0 then Some(EmptyTimestamps)
    else if start > ts[0] then Some(StartAfterFirstTimestamp)
    else if end < ts[|ts| - 1] then Some(EndBeforeLastTimestamp)
    else if |ts| != |vs| then Some(ValuesLengthMismatch)
    else if exceptions.Some? && |ts| != |exceptions.value| then Some(ExceptionsLengthMismatch)
    else if !NonDecreasing(ts) then Some(UnorderedTimestamps)
    else None
  }

  /** The check as the source runs it: a chain of early returns and a scan over neighbouring timestamps. */
  method CheckArguments(start: int, end: int, ts: seq<int>, vs: seq<int>, exceptions: Option<seq<bool>>)
    returns (err: Option<ArgError>)
    ensures err == ArgumentsError(start, end, ts, vs, exceptions)
  {
    if start < 0 || end < 0 {
      return Some(NegativeTime);
    }
    if |ts| <= 0 {
      return Some(EmptyTimestamps);
    }
    if start > ts[0] {
      return Some(StartAfterFirstTimestamp);
    }
    if end < ts[|ts| - 1] {
      return Some(EndBeforeLastTimestamp);
    }
    if |ts| != |vs| {
      return Some(ValuesLengthMismatch);
    }
    if exceptions.Some? {
      if |ts| != |exceptions.value| {
        return Some(ExceptionsLengthMismatch);
      }
    }
    for i := 0 to |ts|
      invariant forall k :: 0 < k < i ==> ts[k - 1] <= ts[k]
    {
      if i < 1 {
        continue;
      }
      if ts[i] < ts[i - 1] {
        return Some(UnorderedTimestamps);
      }
    }
    return None;
  }
}
