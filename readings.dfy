/**
 * Positions in the series of counter readings that the SLA passes and the state
 * classifier key on: where the `open` flag clears, and where the trailing run of
 * non-positive readings (the open end) begins.
 */
module Readings {

  /** Every reading from `i` to the end is non-positive: sample `i` lies in the open end. */
  predicate OpenFrom(vs: seq<int>, i: nat)
  {
    forall k :: i <= k < |vs| ==> vs[k] <= 0
  }

  /** Index of the first positive reading, or |vs| when there is none. */
  function FirstPositive(vs: seq<int>): (p: nat)
    ensures p <= |vs|
    ensures forall k :: 0 <= k < p ==> vs[k] <= 0
    ensures p < |vs| ==> vs[p] > 0
    decreases |vs|
  {
    if |vs| == 0 then 0
    else if vs[0] > 0 then 0
    else 1 + FirstPositive(vs[1..])
  }

  /**
   * Index of the first positive reading of a sample that is not an exception,
   * or |vs| when there is none: exception samples never clear the `open` flag.
   */
  function FirstCountable(vs: seq<int>, exc: seq<bool>): (p: nat)
    requires |exc| == |vs|
    ensures p <= |vs|
    ensures forall k :: 0 <= k < p ==> exc[k] || vs[k] <= 0
    ensures p < |vs| ==> !exc[p] && vs[p] > 0
    decreases |vs|
  {
    if |vs| == 0 then 0
    else if !exc[0] && vs[0] > 0 then 0
    else 1 + FirstCountable(vs[1..], exc[1..])
  }

  /**
   * Start of the maximal trailing run of non-positive readings: the open end is
   * exactly the samples from this index on.
   */
  function TrailStart(vs: seq<int>): (t: nat)
    ensures t <= |vs|
    ensures OpenFrom(vs, t)
    ensures t > 0 ==> vs[t - 1] > 0
    ensures forall i :: 0 <= i <= |vs| ==> (OpenFrom(vs, i) <==> t <= i)
    ensures forall i :: 0 <= i < |vs| && vs[i] > 0 ==> i < t
    decreases |vs|
  {
    if |vs| == 0 then 0
    else if vs[|vs| - 1] > 0 then |vs|
    else TrailStart(vs[..|vs| - 1])
  }

  /**
   * A further reading moves the first positive reading only when there was none:
   * it stays where it was, or lies at or after the old end of the series.
   */
  lemma {:induction false} FirstPositiveAppend(vs: seq<int>, v: int)
    ensures FirstPositive(vs) < |vs| ==> FirstPositive(vs + [v]) == FirstPositive(vs)
    ensures FirstPositive(vs) == |vs| ==> FirstPositive(vs + [v]) >= |vs|
    decreases |vs|
  {
    if |vs| > 0 && vs[0] <= 0 {
      assert (vs + [v])[1..] == vs[1..] + [v];
      FirstPositiveAppend(vs[1..], v);
    }
  }

  /** A further positive reading closes the open end; a non-positive one extends it. */
  lemma TrailStartAppend(vs: seq<int>, v: int)
    ensures TrailStart(vs + [v]) == if v > 0 then |vs| + 1 else TrailStart(vs)
  {
    assert (vs + [v])[..|vs|] == vs;
  }

  /** Without exceptions the flag clears where it does for SLA 1: at the first positive reading. */
  lemma FirstCountableWithoutExceptions(vs: seq<int>, exc: seq<bool>)
    requires |exc| == |vs|
    requires forall k :: 0 <= k < |exc| ==> !exc[k]
    ensures FirstCountable(vs, exc) == FirstPositive(vs)
  {
  }
}
