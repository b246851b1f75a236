/**
 * The four availability accumulators. Each validates its arguments, reconstructs
 * the intervals, adjusts the counts by its policy, appends an uncounted trailing
 * interval when the window ends after the last sample, and sums both columns.
 * The result is the pair (counted uptime, elapsed time) whose quotient is the
 * availability.
 */
module Availability {
  import opened Sums
  import opened Validation
  import opened Readings
  import opened Spread

  /** The numerator and denominator of the availability ratio. */
  datatype Ratio = Ratio(counted: int, elapsed: int)

  /**
   * The shared finishing step: when the window ends after the last sample, an
   * interval of the remaining span is appended with nothing counted, then both
   * columns are summed. The trailing interval adds nothing to the numerator.
   */
  function Finish(counted: seq<int>, deltas: seq<int>, end: int, last: int): (r: Ratio)
    requires |counted| == |deltas|
    ensures r.counted == Sum(counted)
    ensures r.elapsed == Sum(deltas) + (if end > last then end - last else 0)
  {
    var gap := end - last;
    if gap > 0 then
      SumAppend(counted, 0);
      SumAppend(deltas, gap);
      Ratio(Sum(counted + [0]), Sum(deltas + [gap]))
    else
      Ratio(Sum(counted), Sum(deltas))
  }

  /**
   * On validated input, counts bounded by their spans give a ratio whose
   * denominator is the whole window and whose numerator lies between 0 and it.
   */
  lemma FinishWithinWindow(start: int, end: int, ts: seq<int>, counted: seq<int>)
    requires |ts| > 0 && |counted| == |ts| && Ordered(start, ts) && ts[|ts| - 1] <= end
    requires forall k :: 0 <= k < |counted| ==> 0 <= counted[k] <= Deltas(start, ts)[k]
    ensures var r := Finish(counted, Deltas(start, ts), end, ts[|ts| - 1]);
      0 <= r.counted <= r.elapsed && r.elapsed == end - start
  {
    DeltasTelescope(start, ts);
    SumNonNegative(counted);
    SumMonotone(counted, Deltas(start, ts));
  }

  // ---------------------------------------------------------------------------
  // Connectivity (SNMP) availability: presence-based intervals.

  /** An interval counts in full when its sample has a positive reading, and not at all otherwise. */
  function PresenceCounts(start: int, ts: seq<int>, vs: seq<int>): (c: seq<int>)
    requires |ts| == |vs|
    ensures |c| == |ts|
    ensures forall i :: 0 <= i < |c| ==> c[i] == (if vs[i] > 0 then Deltas(start, ts)[i] else 0)
  {
    seq(|ts|, i requires 0 <= i < |ts| => if vs[i] <= 0 then 0 else DeltaAt(start, ts, i))
  }

  function SnmpAvailability(start: int, end: int, ts: seq<int>, vs: seq<int>): (r: Result<Ratio>)
    ensures r.Err? <==> !ValidArguments(start, end, ts, vs, None)
    ensures r.Ok? ==> 0 <= r.value.counted <= r.value.elapsed == end - start
  {
    match ArgumentsError(start, end, ts, vs, None)
    case Some(e) => Err(e)
    case None =>
      var c := PresenceCounts(start, ts, vs);
      FinishWithinWindow(start, end, ts, c);
      Ok(Finish(c, Deltas(start, ts), end, ts[|ts| - 1]))
  }

  // ---------------------------------------------------------------------------
  // Uptime availability: the spread counts unchanged.

  function UptimeAvailability(start: int, end: int, ts: seq<int>, vs: seq<int>): (r: Result<Ratio>)
    ensures r.Err? <==> !ValidArguments(start, end, ts, vs, None)
    ensures r.Ok? ==> 0 <= r.value.counted <= r.value.elapsed == end - start
    ensures r.Ok? ==> r.value.counted <= Sum(FirstPass(start, ts, vs))
  {
    match ArgumentsError(start, end, ts, vs, None)
    case Some(e) => Err(e)
    case None =>
      var c := SpreadCounts(start, ts, vs);
      SpreadBounds(start, ts, vs);
      FinishWithinWindow(start, end, ts, c);
      Ok(Finish(c, Deltas(start, ts), end, ts[|ts| - 1]))
  }

  // ---------------------------------------------------------------------------
  // SLA 1: device state combined with connectivity.

  /**
   * The forward pass with the `open` flag: nothing counts until the first
   * positive reading; afterwards a non-positive reading whose spread count is
   * positive (device up, connectivity down) counts nothing, and every other
   * interval counts its full span.
   */
  function OpenForward(c: seq<int>, d: seq<int>, vs: seq<int>): (r: seq<int>)
    requires |c| == |d| == |vs|
    ensures |r| == |vs|
    ensures forall i :: 0 <= i < |r| ==> r[i] == 0 || r[i] == d[i]
    ensures forall i :: 0 <= i < |r| && i < FirstPositive(vs) ==> r[i] == 0
    ensures forall i :: 0 <= i < |r| && vs[i] > 0 ==> r[i] == d[i]
  {
    seq(|vs|, i requires 0 <= i < |vs| =>
      if i < FirstPositive(vs) then 0
      else if vs[i] <= 0 && c[i] > 0 then 0
      else d[i])
  }

  /** The backward pass: the trailing run of non-positive readings counts nothing. */
  function CloseOpenEnd(c: seq<int>, vs: seq<int>): (r: seq<int>)
    requires |c| == |vs|
    ensures |r| == |vs|
    ensures forall i :: 0 <= i < |r| ==> r[i] == if OpenFrom(vs, i) then 0 else c[i]
  {
    var t := TrailStart(vs);
    seq(|vs|, i requires 0 <= i < |vs| => if t <= i then 0 else c[i])
  }

  /**
   * The SLA 1 counts after both passes, given the spread counts `c` and spans `d`:
   * every interval counts nothing or its full span, and nothing before the first
   * positive reading counts.
   */
  function Sla1Counts(c: seq<int>, d: seq<int>, vs: seq<int>): (r: seq<int>)
    requires |c| == |d| == |vs|
    ensures |r| == |vs|
    ensures forall i :: 0 <= i < |r| ==> r[i] == 0 || r[i] == d[i]
    ensures forall i :: 0 <= i < |r| && i < FirstPositive(vs) ==> r[i] == 0
  {
    CloseOpenEnd(OpenForward(c, d, vs), vs)
  }

  /**
   * The rest of the SLA 1 policy: a positive reading counts its full span, the
   * open end counts nothing, and in between a non-positive reading counts nothing
   * when its spread count is positive (device up, connectivity down),
   * and its full span otherwise.
   */
  lemma Sla1Rules(c: seq<int>, d: seq<int>, vs: seq<int>)
    requires |c| == |d| == |vs|
    ensures forall i :: 0 <= i < |vs| && vs[i] > 0 ==> Sla1Counts(c, d, vs)[i] == d[i]
    ensures forall i :: 0 <= i < |vs| && OpenFrom(vs, i) ==> Sla1Counts(c, d, vs)[i] == 0
    ensures forall i :: FirstPositive(vs) < i < |vs| && vs[i] <= 0 && !OpenFrom(vs, i) ==>
      Sla1Counts(c, d, vs)[i] == (if c[i] > 0 then 0 else d[i])
  {
    var t, f := TrailStart(vs), OpenForward(c, d, vs);
    forall i | 0 <= i < |vs|
      ensures vs[i] > 0 ==> Sla1Counts(c, d, vs)[i] == d[i]
      ensures OpenFrom(vs, i) ==> Sla1Counts(c, d, vs)[i] == 0
      ensures FirstPositive(vs) < i && vs[i] <= 0 && !OpenFrom(vs, i) ==>
        Sla1Counts(c, d, vs)[i] == (if c[i] > 0 then 0 else d[i])
    {
      assert CloseOpenEnd(f, vs)[i] == if t <= i then 0 else f[i];
      if vs[i] > 0 {
        assert i < t && i >= FirstPositive(vs);
      }
    }
  }

  function Sla1Availability(start: int, end: int, ts: seq<int>, vs: seq<int>): (r: Result<Ratio>)
    ensures r.Err? <==> !ValidArguments(start, end, ts, vs, None)
    ensures r.Ok? ==> 0 <= r.value.counted <= r.value.elapsed == end - start
  {
    match ArgumentsError(start, end, ts, vs, None)
    case Some(e) => Err(e)
    case None =>
      var d := Deltas(start, ts);
      var c := Sla1Counts(SpreadCounts(start, ts, vs), d, vs);
      FinishWithinWindow(start, end, ts, c);
      Ok(Finish(c, d, end, ts[|ts| - 1]))
  }

  /** On valid arguments SLA 1 is the finished ratio of its counts. */
  lemma Sla1AvailabilityOnValid(start: int, end: int, ts: seq<int>, vs: seq<int>)
    requires ValidArguments(start, end, ts, vs, None)
    ensures Sla1Availability(start, end, ts, vs) == Ok(Finish(
      Sla1Counts(SpreadCounts(start, ts, vs), Deltas(start, ts), vs), Deltas(start, ts), end, ts[|ts| - 1]))
  {
  }

  /** A further interval that closes the trailing gap moves that gap from the trailing interval into it. */
  lemma FinishAppend(k: seq<int>, d: seq<int>, end: int, last: int, k': seq<int>, d': seq<int>, x: int)
    requires |k| == |d| && last <= end
    requires k' == k + [x] && d' == d + [end - last]
    ensures Finish(k', d', end, end)
      == Ratio(Finish(k, d, end, last).counted + x, Finish(k, d, end, last).elapsed)
  {
    SumAppend(k, x);
    SumAppend(d, end - last);
  }

  /** A further sample leaves the forward pass over the earlier samples as it was. */
  lemma OpenForwardAppend(c: seq<int>, d: seq<int>, vs: seq<int>, x: int, g: int, v: int)
    requires |c| == |d| == |vs|
    ensures OpenForward(c + [x], d + [g], vs + [v])[..|vs|] == OpenForward(c, d, vs)
  {
    FirstPositiveAppend(vs, v);
    var f, f' := OpenForward(c, d, vs), OpenForward(c + [x], d + [g], vs + [v]);
    forall i | 0 <= i < |vs|
      ensures f'[i] == f[i]
    {
      assert (vs + [v])[i] == vs[i] && (c + [x])[i] == c[i] && (d + [g])[i] == d[i];
    }
  }

  /**
   * The backward pass over a series extended by a repeat of its last reading:
   * the earlier samples keep their result, and the new one keeps its count after
   * a positive reading and counts nothing after a non-positive one.
   */
  lemma CloseOpenEndRepeatedReading(f: seq<int>, f': seq<int>, vs: seq<int>)
    requires |f| == |vs| > 0 && |f'| == |vs| + 1 && f'[..|vs|] == f
    ensures CloseOpenEnd(f', vs + [vs[|vs| - 1]])
      == CloseOpenEnd(f, vs) + [if vs[|vs| - 1] > 0 then f'[|vs|] else 0]
  {
    var n, v := |vs|, vs[|vs| - 1];
    TrailStartAppend(vs, v);
    var t, t' := TrailStart(vs), TrailStart(vs + [v]);
    assert v > 0 ==> t == n;
    var r, r' := CloseOpenEnd(f, vs), CloseOpenEnd(f', vs + [v]);
    forall i | 0 <= i < n
      ensures r'[i] == r[i]
    {
      assert f'[i] == f'[..n][i];
    }
  }

  /**
   * A further interval (count 0, span g) whose reading repeats the last one:
   * the earlier intervals keep their SLA 1 counts, and the new one counts its
   * full span after a positive reading and nothing after a non-positive one.
   */
  lemma Sla1CountsRepeatedReading(c: seq<int>, d: seq<int>, vs: seq<int>, c': seq<int>, d': seq<int>)
    requires |c| == |d| == |vs| > 0
    requires |d'| == |d| + 1 && c' == c + [0] && d' == d + [d'[|d|]]
    ensures Sla1Counts(c', d', vs + [vs[|vs| - 1]])
      == Sla1Counts(c, d, vs) + [if vs[|vs| - 1] > 0 then d'[|d|] else 0]
  {
    var n, v, g := |vs|, vs[|vs| - 1], d'[|d|];
    OpenForwardAppend(c, d, vs, 0, g, v);
    var f' := OpenForward(c', d', vs + [v]);
    assert v > 0 ==> f'[n] == g by {
      assert (vs + [v])[n] == v;
    }
    CloseOpenEndRepeatedReading(OpenForward(c, d, vs), f', vs);
  }

  /** The SLA 1 counts of the spread reconstruction, extended by a repeat of the last reading at `e`. */
  lemma Sla1SpreadRepeatedReading(start: int, ts: seq<int>, vs: seq<int>, e: int)
    requires |ts| == |vs| > 0 && ts[|ts| - 1] <= e
    ensures Deltas(start, ts + [e]) == Deltas(start, ts) + [e - ts[|ts| - 1]]
    ensures Sla1Counts(SpreadCounts(start, ts + [e], vs + [vs[|vs| - 1]]), Deltas(start, ts + [e]), vs + [vs[|vs| - 1]])
      == Sla1Counts(SpreadCounts(start, ts, vs), Deltas(start, ts), vs)
        + [if vs[|vs| - 1] > 0 then e - ts[|ts| - 1] else 0]
  {
    SpreadRepeatedReading(start, ts, vs, e);
    Sla1CountsRepeatedReading(SpreadCounts(start, ts, vs), Deltas(start, ts), vs,
      SpreadCounts(start, ts + [e], vs + [vs[|vs| - 1]]), Deltas(start, ts + [e]));
  }

  /**
   * Appending a sample at the window end that repeats the last reading. The
   * arguments stay valid exactly when they were; the denominator stays end −
   * start; the numerator is unchanged after a non-positive last reading, and grows
   * by the whole trailing gap end − last timestamp after a positive one, because
   * the trailing interval counted nothing before and a positive reading counts
   * its full span.
   */
  lemma Sla1RepeatedReadingAtEnd(start: int, end: int, ts: seq<int>, vs: seq<int>)
    requires |ts| == |vs| > 0
    ensures ValidArguments(start, end, ts + [end], vs + [vs[|vs| - 1]], None)
      <==> ValidArguments(start, end, ts, vs, None)
    ensures var r, r' := Sla1Availability(start, end, ts, vs),
      Sla1Availability(start, end, ts + [end], vs + [vs[|vs| - 1]]);
      r.Ok? ==> (r'.Ok? && r'.value.elapsed == r.value.elapsed &&
        r'.value.counted == r.value.counted + (if vs[|vs| - 1] > 0 then end - ts[|ts| - 1] else 0))
  {
    ValidArgumentsAppend(start, end, ts, vs);
    if ValidArguments(start, end, ts, vs, None) {
      var ts', vs' := ts + [end], vs + [vs[|vs| - 1]];
      var d, d' := Deltas(start, ts), Deltas(start, ts');
      Sla1AvailabilityOnValid(start, end, ts, vs);
      Sla1AvailabilityOnValid(start, end, ts', vs');
      Sla1SpreadRepeatedReading(start, ts, vs, end);
      FinishAppend(Sla1Counts(SpreadCounts(start, ts, vs), d, vs), d, end, ts[|ts| - 1],
        Sla1Counts(SpreadCounts(start, ts', vs'), d', vs'), d', if vs[|vs| - 1] > 0 then end - ts[|ts| - 1] else 0);
    }
  }

  /**
   * Appending a repeat of a positive last reading at the window end raises SLA 1:
   * one reading of 5 at time 10 in the window [0, 20] gives 10/20, and the same
   * reading repeated at 20 gives 20/20.
   */
  lemma Sla1TrailingPositiveSampleRaises(ts: seq<int>, vs: seq<int>)
    requires ts == [10] && vs == [5]
    ensures Sla1Availability(0, 20, ts, vs) == Ok(Ratio(10, 20))
    ensures Sla1Availability(0, 20, ts + [20], vs + [5]) == Ok(Ratio(20, 20))
  {
    var d, c := Deltas(0, ts), SpreadCounts(0, ts, vs);
    assert d == [10] && c == [5] by {
      assert FirstPass(0, ts, vs) == [5];
      SpreadWithoutExcess(0, ts, vs);
    }
    assert Sla1Counts(c, d, vs) == [10] by {
      assert FirstPositive(vs) == 0 && TrailStart(vs) == 1;
    }
    assert Sum([10]) == 10 by {
      assert [10][..0] == [];
    }
    assert ArgumentsError(0, 20, ts, vs, None).None?;
    assert Sla1Availability(0, 20, ts, vs) == Ok(Finish([10], d, 20, 10));
    Sla1RepeatedReadingAtEnd(0, 20, ts, vs);
  }

  // ---------------------------------------------------------------------------
  // SLA 2: SLA 1 with exception (justified down-time) overrides.

  /**
   * The forward pass with exceptions: an exception sample counts its full span
   * and leaves the `open` flag alone; the others follow the SLA 1 rule, with the
   * flag clearing at the first positive reading of a non-exception sample.
   */
  function ExceptionForward(c: seq<int>, d: seq<int>, vs: seq<int>, exc: seq<bool>): (r: seq<int>)
    requires |c| == |d| == |vs| == |exc|
    ensures |r| == |vs|
    ensures forall i :: 0 <= i < |r| ==> r[i] == 0 || r[i] == d[i]
    ensures forall i :: 0 <= i < |r| && exc[i] ==> r[i] == d[i]
    ensures forall i :: 0 <= i < |r| && !exc[i] && vs[i] > 0 ==> r[i] == d[i]
  {
    seq(|vs|, i requires 0 <= i < |vs| =>
      if exc[i] then d[i]
      else if i < FirstCountable(vs, exc) then 0
      else if vs[i] <= 0 && c[i] > 0 then 0
      else d[i])
  }

  /** The backward pass with exceptions: the open end counts nothing except at exception samples. */
  function CloseOpenEndExcept(c: seq<int>, vs: seq<int>, exc: seq<bool>): (r: seq<int>)
    requires |c| == |vs| == |exc|
    ensures |r| == |vs|
    ensures forall i :: 0 <= i < |r| ==> r[i] == if OpenFrom(vs, i) && !exc[i] then 0 else c[i]
  {
    var t := TrailStart(vs);
    seq(|vs|, i requires 0 <= i < |vs| => if t <= i && !exc[i] then 0 else c[i])
  }

  /**
   * The SLA 2 counts after both passes, given the spread counts `c` and spans `d`:
   * every interval counts nothing or its full span, an exception sample always
   * counts its full span, and a non-exception sample before the first positive
   * reading of a non-exception sample counts nothing, whatever the exception
   * samples before it read.
   */
  function Sla2Counts(c: seq<int>, d: seq<int>, vs: seq<int>, exc: seq<bool>): (r: seq<int>)
    requires |c| == |d| == |vs| == |exc|
    ensures |r| == |vs|
    ensures forall i :: 0 <= i < |r| ==> r[i] == 0 || r[i] == d[i]
    ensures forall i :: 0 <= i < |r| && exc[i] ==> r[i] == d[i]
    ensures forall i :: 0 <= i < |r| && !exc[i] && i < FirstCountable(vs, exc) ==> r[i] == 0
  {
    CloseOpenEndExcept(ExceptionForward(c, d, vs, exc), vs, exc)
  }

  /**
   * The rest of the SLA 2 policy, for non-exception samples: the SLA 1 rules, with
   * the open end counting nothing but at its exception samples (which count in full).
   */
  lemma Sla2Rules(c: seq<int>, d: seq<int>, vs: seq<int>, exc: seq<bool>)
    requires |c| == |d| == |vs| == |exc|
    ensures forall i :: 0 <= i < |vs| && !exc[i] && vs[i] > 0 ==> Sla2Counts(c, d, vs, exc)[i] == d[i]
    ensures forall i :: 0 <= i < |vs| && !exc[i] && OpenFrom(vs, i) ==> Sla2Counts(c, d, vs, exc)[i] == 0
    ensures forall i :: FirstCountable(vs, exc) < i < |vs| && !exc[i] && vs[i] <= 0 && !OpenFrom(vs, i) ==>
      Sla2Counts(c, d, vs, exc)[i] == (if c[i] > 0 then 0 else d[i])
  {
    var t, f := TrailStart(vs), ExceptionForward(c, d, vs, exc);
    forall i | 0 <= i < |vs| && !exc[i]
      ensures vs[i] > 0 ==> Sla2Counts(c, d, vs, exc)[i] == d[i]
      ensures OpenFrom(vs, i) ==> Sla2Counts(c, d, vs, exc)[i] == 0
      ensures FirstCountable(vs, exc) < i && vs[i] <= 0 && !OpenFrom(vs, i) ==>
        Sla2Counts(c, d, vs, exc)[i] == (if c[i] > 0 then 0 else d[i])
    {
      assert CloseOpenEndExcept(f, vs, exc)[i] == if t <= i then 0 else f[i];
      if vs[i] > 0 {
        assert i < t && i >= FirstCountable(vs, exc);
      }
    }
  }

  function Sla2Availability(start: int, end: int, ts: seq<int>, vs: seq<int>, exc: seq<bool>): (r: Result<Ratio>)
    ensures r.Err? <==> !ValidArguments(start, end, ts, vs, Some(exc))
    ensures r.Ok? ==> 0 <= r.value.counted <= r.value.elapsed == end - start
  {
    match ArgumentsError(start, end, ts, vs, Some(exc))
    case Some(e) => Err(e)
    case None =>
      var d := Deltas(start, ts);
      var c := Sla2Counts(SpreadCounts(start, ts, vs), d, vs, exc);
      FinishWithinWindow(start, end, ts, c);
      Ok(Finish(c, d, end, ts[|ts| - 1]))
  }

  /** With every exception flag false, both SLA 2 passes produce exactly the SLA 1 counts. */
  lemma Sla2CountsWithoutExceptions(c: seq<int>, d: seq<int>, vs: seq<int>, exc: seq<bool>)
    requires |c| == |d| == |vs| == |exc|
    requires forall i :: 0 <= i < |exc| ==> !exc[i]
    ensures Sla2Counts(c, d, vs, exc) == Sla1Counts(c, d, vs)
  {
    FirstCountableWithoutExceptions(vs, exc);
    var f1, f2 := OpenForward(c, d, vs), ExceptionForward(c, d, vs, exc);
    forall i | 0 <= i < |vs| ensures f1[i] == f2[i] {
    }
    assert f1 == f2;
  }

  /** With every exception flag false, SLA 2 yields exactly the SLA 1 numerator and denominator. */
  lemma Sla2WithoutExceptions(start: int, end: int, ts: seq<int>, vs: seq<int>, exc: seq<bool>)
    requires |exc| == |ts|
    requires forall i :: 0 <= i < |exc| ==> !exc[i]
    ensures Sla2Availability(start, end, ts, vs, exc) == Sla1Availability(start, end, ts, vs)
  {
    assert ArgumentsError(start, end, ts, vs, Some(exc)) == ArgumentsError(start, end, ts, vs, None);
    if ArgumentsError(start, end, ts, vs, None).None? {
      Sla2CountsWithoutExceptions(SpreadCounts(start, ts, vs), Deltas(start, ts), vs, exc);
    }
  }

  /**
   * Exceptions placed only on samples with non-positive readings leave the
   * `open` flag where SLA 1 has it, so interval by interval SLA 2 counts at least
   * what SLA 1 counts.
   */
  lemma ExceptionCountsDominate(c: seq<int>, d: seq<int>, vs: seq<int>, exc: seq<bool>)
    requires |c| == |d| == |vs| == |exc|
    requires forall i :: 0 <= i < |d| ==> d[i] >= 0
    requires forall i :: 0 <= i < |exc| && exc[i] ==> vs[i] <= 0
    ensures forall i :: 0 <= i < |vs| ==> Sla1Counts(c, d, vs)[i] <= Sla2Counts(c, d, vs, exc)[i]
    ensures Sum(Sla1Counts(c, d, vs)) <= Sum(Sla2Counts(c, d, vs, exc))
  {
    assert FirstCountable(vs, exc) == FirstPositive(vs);
    var f1, f2 := OpenForward(c, d, vs), ExceptionForward(c, d, vs, exc);
    var one, two := Sla1Counts(c, d, vs), Sla2Counts(c, d, vs, exc);
    forall i | 0 <= i < |vs| ensures one[i] <= two[i] {
      if !exc[i] {
        assert f1[i] == f2[i];
      }
    }
    SumMonotone(one, two);
  }

  /**
   * Over the same window, SLA 2 with exceptions only on non-positive readings
   * (the samples SLA 1 may zero) fails exactly when SLA 1 does, has the same
   * denominator, and never a smaller numerator.
   */
  lemma ExceptionsNeverLowerSla1(start: int, end: int, ts: seq<int>, vs: seq<int>, exc: seq<bool>)
    requires |exc| == |ts|
    requires forall i :: 0 <= i < |exc| && i < |vs| && exc[i] ==> vs[i] <= 0
    ensures Sla1Availability(start, end, ts, vs).Ok? <==> Sla2Availability(start, end, ts, vs, exc).Ok?
    ensures Sla1Availability(start, end, ts, vs).Ok? ==>
      && Sla1Availability(start, end, ts, vs).value.elapsed == Sla2Availability(start, end, ts, vs, exc).value.elapsed
      && Sla1Availability(start, end, ts, vs).value.counted <= Sla2Availability(start, end, ts, vs, exc).value.counted
  {
    assert ArgumentsError(start, end, ts, vs, Some(exc)) == ArgumentsError(start, end, ts, vs, None);
    if ArgumentsError(start, end, ts, vs, None).None? {
      ExceptionCountsDominate(SpreadCounts(start, ts, vs), Deltas(start, ts), vs, exc);
    }
  }

  /** The interval counts behind ExceptionOnFirstPositiveKeepsOpen. */
  lemma ExceptionOnFirstPositiveCounts(c: seq<int>, d: seq<int>, vs: seq<int>, exc: seq<bool>)
    requires c == [5, 0, 7] && d == [10, 10, 10] && vs == [5, 0, 7] && exc == [true, false, false]
    ensures Sla1Counts(c, d, vs) == [10, 10, 10]
    ensures Sla2Counts(c, d, vs, exc) == [10, 0, 10]
  {
    assert TrailStart(vs) == 3;
    assert FirstPositive(vs) == 0;
    assert FirstCountable(vs, exc) == 2;
  }

  /**
   * An exception on the first positive reading does not clear the `open` flag, so
   * SLA 2 can fall below SLA 1: readings 5, 0, 7 every 10 units with the first
   * sample an exception count 20 of 30 under SLA 2 and 30 of 30 under SLA 1.
   */
  lemma ExceptionOnFirstPositiveKeepsOpen(ts: seq<int>, vs: seq<int>, exc: seq<bool>)
    requires ts == [10, 20, 30] && vs == [5, 0, 7] && exc == [true, false, false]
    ensures Sla1Availability(0, 30, ts, vs) == Ok(Ratio(30, 30))
    ensures Sla2Availability(0, 30, ts, vs, exc) == Ok(Ratio(20, 30))
  {
    var d, c := Deltas(0, ts), SpreadCounts(0, ts, vs);
    assert d == [10, 10, 10] && c == [5, 0, 7] by {
      assert FirstPass(0, ts, vs) == [5, 0, 7];
      SpreadWithoutExcess(0, ts, vs);
    }
    ExceptionOnFirstPositiveCounts(c, d, vs, exc);
    assert Sum([10, 0, 10]) == 20 && Sum([10, 10, 10]) == 30 by {
      assert [10, 0, 10][..2] == [10, 0] && [10, 0][..1] == [10] && [10][..0] == [];
      assert [10, 10, 10][..2] == [10, 10] && [10, 10][..1] == [10];
    }
    assert Finish([10, 10, 10], d, 30, 30) == Ratio(30, 30);
    assert Finish([10, 0, 10], d, 30, 30) == Ratio(20, 30);
    assert ArgumentsError(0, 30, ts, vs, None).None? by {
      assert NonDecreasing(ts);
    }
    assert Sla1Availability(0, 30, ts, vs) == Ok(Finish(Sla1Counts(c, d, vs), d, 30, 30));
    assert ArgumentsError(0, 30, ts, vs, Some(exc)).None?;
    assert Sla2Availability(0, 30, ts, vs, exc) == Ok(Finish(Sla2Counts(c, d, vs, exc), d, 30, 30));
  }

  // ---------------------------------------------------------------------------
  // The calculations as the source runs them.

  /** The running-sum loop every accumulator ends with. */
  method SumIntervals(counted: seq<int>, deltas: seq<int>) returns (r: Ratio)
    requires |counted| == |deltas|
    ensures r == Ratio(Sum(counted), Sum(deltas))
  {
    var sumCounted, sumDelta := 0, 0;
    for i := 0 to |counted|
      invariant sumCounted == Sum(counted[..i]) && sumDelta == Sum(deltas[..i])
    {
      SumPrefixStep(counted, i);
      SumPrefixStep(deltas, i);
      sumCounted := sumCounted + counted[i];
      sumDelta := sumDelta + deltas[i];
    }
    assert counted[..|counted|] == counted && deltas[..|deltas|] == deltas;
    r := Ratio(sumCounted, sumDelta);
  }

  method CalculateSNMPAvailability(start: int, end: int, ts: seq<int>, vs: seq<int>) returns (r: Result<Ratio>)
    ensures r == SnmpAvailability(start, end, ts, vs)
  {
    var err := CheckArguments(start, end, ts, vs, None);
    if err.Some? {
      return Err(err.value);
    }
    var counted, deltas := [], [];
    for i := 0 to |ts|
      invariant |counted| == |deltas| == i
      invariant forall k :: 0 <= k < i ==> deltas[k] == DeltaAt(start, ts, k)
      invariant forall k :: 0 <= k < i ==> counted[k] == (if vs[k] <= 0 then 0 else DeltaAt(start, ts, k))
    {
      if i == 0 {
        deltas := deltas + [ts[i] - start];
        if vs[i] <= 0 {
          counted := counted + [0];
        } else {
          counted := counted + [ts[i] - start];
        }
        continue;
      }
      deltas := deltas + [ts[i] - ts[i - 1]];
      if vs[i] <= 0 {
        counted := counted + [0];
      } else {
        counted := counted + [ts[i] - ts[i - 1]];
      }
    }
    assert deltas == Deltas(start, ts) && counted == PresenceCounts(start, ts, vs);
    var delta := end - ts[|ts| - 1];
    if delta > 0 {
      deltas := deltas + [delta];
      counted := counted + [0];
    }
    var ratio := SumIntervals(counted, deltas);
    return Ok(ratio);
  }

  method CalculateUptimeAvailability(start: int, end: int, ts: seq<int>, vs: seq<int>) returns (r: Result<Ratio>)
    ensures r == UptimeAvailability(start, end, ts, vs)
  {
    var err := CheckArguments(start, end, ts, vs, None);
    if err.Some? {
      return Err(err.value);
    }
    var deltas, counted := TransformToSpreadedUptime(start, ts, vs);
    var delta := end - ts[|ts| - 1];
    if delta > 0 {
      deltas := deltas + [delta];
      counted := counted + [0];
    }
    var ratio := SumIntervals(counted, deltas);
    return Ok(ratio);
  }

  /** The SLA 1 forward pass over the spread counts, with its `open` flag. */
  method OpenForwardPass(spread: seq<int>, deltas: seq<int>, vs: seq<int>) returns (counted: seq<int>)
    requires |spread| == |deltas| == |vs|
    ensures counted == OpenForward(spread, deltas, vs)
  {
    counted := spread;
    var open := true;
    for i := 0 to |vs|
      invariant |counted| == |vs|
      invariant open <==> i <= FirstPositive(vs)
      invariant forall k :: 0 <= k < i ==> counted[k] == OpenForward(spread, deltas, vs)[k]
      invariant forall k :: i <= k < |vs| ==> counted[k] == spread[k]
    {
      if open && vs[i] > 0 {
        open := false;
      }
      if open {
        counted := counted[i := 0];
        continue;
      }
      if vs[i] <= 0 && counted[i] > 0 {
        counted := counted[i := 0];
        continue;
      }
      counted := counted[i := deltas[i]];
    }
  }

  /** The SLA 1 backward pass: scanning from the last sample while readings are non-positive. */
  method CloseOpenEndPass(forward: seq<int>, vs: seq<int>) returns (counted: seq<int>)
    requires |forward| == |vs| > 0
    ensures counted == CloseOpenEnd(forward, vs)
  {
    counted := forward;
    var i := |vs| - 1;
    while vs[i] <= 0 && i >= 0
      invariant 0 <= i < |vs| && |counted| == |vs|
      invariant TrailStart(vs) <= i + 1
      invariant forall k :: 0 <= k <= i ==> counted[k] == forward[k]
      invariant forall k :: i < k < |vs| ==> counted[k] == 0
      decreases i
    {
      counted := counted[i := 0];
      if i == 0 {
        break;
      }
      i := i - 1;
    }
  }

  /** The SLA 2 forward pass: exception samples count in full and skip the `open` flag. */
  method ExceptionForwardPass(spread: seq<int>, deltas: seq<int>, vs: seq<int>, exceptions: seq<bool>)
    returns (counted: seq<int>)
    requires |spread| == |deltas| == |vs| == |exceptions|
    ensures counted == ExceptionForward(spread, deltas, vs, exceptions)
  {
    counted := spread;
    var open := true;
    for i := 0 to |vs|
      invariant |counted| == |vs|
      invariant open <==> i <= FirstCountable(vs, exceptions)
      invariant forall k :: 0 <= k < i ==> counted[k] == ExceptionForward(spread, deltas, vs, exceptions)[k]
      invariant forall k :: i <= k < |vs| ==> counted[k] == spread[k]
    {
      if exceptions[i] {
        counted := counted[i := deltas[i]];
        continue;
      }
      if open && vs[i] > 0 {
        open := false;
      }
      if open {
        counted := counted[i := 0];
        continue;
      }
      if vs[i] <= 0 && counted[i] > 0 {
        counted := counted[i := 0];
        continue;
      }
      counted := counted[i := deltas[i]];
    }
  }

  /** The SLA 2 backward pass: like SLA 1's, but exception samples keep their count. */
  method CloseOpenEndExceptPass(forward: seq<int>, vs: seq<int>, exceptions: seq<bool>) returns (counted: seq<int>)
    requires |forward| == |vs| == |exceptions| > 0
    ensures counted == CloseOpenEndExcept(forward, vs, exceptions)
  {
    counted := forward;
    var i := |vs| - 1;
    while vs[i] <= 0 && i >= 0
      invariant 0 <= i < |vs| && |counted| == |vs|
      invariant TrailStart(vs) <= i + 1
      invariant forall k :: 0 <= k <= i ==> counted[k] == forward[k]
      invariant forall k :: i < k < |vs| ==> counted[k] == (if exceptions[k] then forward[k] else 0)
      decreases i
    {
      if exceptions[i] {
        if i == 0 {
          break;
        }
        i := i - 1;
        continue;
      }
      counted := counted[i := 0];
      if i == 0 {
        break;
      }
      i := i - 1;
    }
  }

  method CalculateSLA1Availability(start: int, end: int, ts: seq<int>, vs: seq<int>) returns (r: Result<Ratio>)
    ensures r == Sla1Availability(start, end, ts, vs)
  {
    var err := CheckArguments(start, end, ts, vs, None);
    if err.Some? {
      return Err(err.value);
    }
    var deltas, counted := TransformToSpreadedUptime(start, ts, vs);
    counted := OpenForwardPass(counted, deltas, vs);
    // correcting the open end
    counted := CloseOpenEndPass(counted, vs);
    var delta := end - ts[|ts| - 1];
    if delta > 0 {
      deltas := deltas + [delta];
      counted := counted + [0];
    }
    var ratio := SumIntervals(counted, deltas);
    return Ok(ratio);
  }

  method CalculateSLA2Availability(start: int, end: int, ts: seq<int>, vs: seq<int>, exceptions: seq<bool>)
    returns (r: Result<Ratio>)
    ensures r == Sla2Availability(start, end, ts, vs, exceptions)
  {
    var err := CheckArguments(start, end, ts, vs, Some(exceptions));
    if err.Some? {
      return Err(err.value);
    }
    var deltas, counted := TransformToSpreadedUptime(start, ts, vs);
    counted := ExceptionForwardPass(counted, deltas, vs, exceptions);
    // correcting the open end
    counted := CloseOpenEndExceptPass(counted, vs, exceptions);
    var delta := end - ts[|ts| - 1];
    if delta > 0 {
      deltas := deltas + [delta];
      counted := counted + [0];
    }
    var ratio := SumIntervals(counted, deltas);
    return Ok(ratio);
  }
}
