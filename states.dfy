/** The per-sample state series: up, down, or open for the trailing run of non-positive readings. */
module StateSeries {
  import opened Validation
  import opened Readings
  import opened Spread

  /** The three state labels. */
  datatype State = Down | Up | Open
  {
    /** The label text the series carries. */
    function Name(): (r: string)
      ensures r == "down" <==> this == Down
      ensures r == "up" <==> this == Up
      ensures r == "open" <==> this == Open
    {
      match this
      case Down => "down"
      case Up => "up"
      case Open => "open"
    }
  }

  /** First labelling: up where the spread count is positive, down otherwise. */
  function Labels(spread: seq<int>): (r: seq<State>)
    ensures |r| == |spread|
    ensures forall i :: 0 <= i < |r| ==> r[i] != Open && (r[i] == Up <==> spread[i] > 0)
  {
    seq(|spread|, i requires 0 <= i < |spread| => if spread[i] > 0 then Up else Down)
  }

  /** The backward pass: every label in the open end becomes open. */
  function MarkOpenEnd(states: seq<State>, vs: seq<int>): (r: seq<State>)
    requires |states| == |vs|
    ensures |r| == |vs|
    ensures forall i :: 0 <= i < |r| ==> r[i] == if OpenFrom(vs, i) then Open else states[i]
  {
    var t := TrailStart(vs);
    seq(|vs|, i requires 0 <= i < |vs| => if t <= i then Open else states[i])
  }

  /**
   * The state series: one label per sample (no trailing entry). A sample is open
   * exactly when every reading from it to the end is non-positive; otherwise it is
   * up exactly when its spread count is positive. So nothing is open when the last
   * reading is positive.
   */
  function UptimeStates(start: int, end: int, ts: seq<int>, vs: seq<int>): (r: Result<seq<State>>)
    ensures r.Err? <==> !ValidArguments(start, end, ts, vs, None)
    ensures r.Ok? ==> |r.value| == |ts|
    ensures r.Ok? ==> forall i :: 0 <= i < |ts| ==> (r.value[i] == Open <==> OpenFrom(vs, i))
    ensures r.Ok? ==> forall i :: 0 <= i < |ts| && !OpenFrom(vs, i) ==>
      (r.value[i] == Up <==> SpreadCounts(start, ts, vs)[i] > 0)
    ensures r.Ok? && vs[|vs| - 1] > 0 ==> forall i :: 0 <= i < |ts| ==> r.value[i] != Open
  {
    match ArgumentsError(start, end, ts, vs, None)
    case Some(e) => Err(e)
    case None =>
      var labels := Labels(SpreadCounts(start, ts, vs));
      var states := MarkOpenEnd(labels, vs);
      assert forall i :: 0 <= i < |ts| ==> states[i] == if TrailStart(vs) <= i then Open else labels[i];
      Ok(states)
  }

  method GetUptimeStateSeriesData(start: int, end: int, ts: seq<int>, vs: seq<int>) returns (r: Result<seq<State>>)
    ensures r == UptimeStates(start, end, ts, vs)
  {
    var err := CheckArguments(start, end, ts, vs, None);
    if err.Some? {
      return Err(err.value);
    }
    var _, counted := TransformToSpreadedUptime(start, ts, vs);
    var states: seq<State> := [];
    for i := 0 to |counted|
      invariant |states| == i
      invariant forall k :: 0 <= k < i ==> states[k] == Labels(counted)[k]
    {
      if counted[i] > 0 {
        states := states + [Up];
        continue;
      }
      states := states + [Down];
    }
    assert states == Labels(counted);
    ghost var labels := states;
    var i := |ts| - 1;
    while vs[i] <= 0 && i >= 0
      invariant 0 <= i < |ts| && |states| == |ts|
      invariant TrailStart(vs) <= i + 1
      invariant forall k :: 0 <= k <= i ==> states[k] == labels[k]
      invariant forall k :: i < k < |ts| ==> states[k] == Open
      decreases i
    {
      states := states[i := Open];
      if i == 0 {
        break;
      }
      i := i - 1;
    }
    assert states == MarkOpenEnd(labels, vs);
    return Ok(states);
  }
}
