/**
 * Spread reconstruction: cumulative counter readings become per-interval pairs
 * (elapsed wall-clock time, counted uptime), and any interval that counted more
 * than its own span pushes the excess back into the interval before it.
 */
module Spread {
  import opened Sums
  import opened Validation

  /** The window starts no later than the first sample and timestamps never decrease. */
  predicate Ordered(start: int, ts: seq<int>)
  {
    (|ts| > 0 ==> start <= ts[0]) && NonDecreasing(ts)
  }

  /** Wall-clock span of interval `i`: from the window start, or from the previous sample. */
  function DeltaAt(start: int, ts: seq<int>, i: nat): (r: int)
    requires i < |ts|
  {
    if i == 0 then ts[0] - start else ts[i] - ts[i - 1]
  }

  function Deltas(start: int, ts: seq<int>): (d: seq<int>)
    ensures |d| == |ts|
    ensures Ordered(start, ts) ==> forall i :: 0 <= i < |d| ==> d[i] >= 0
  {
    seq(|ts|, i requires 0 <= i < |ts| => DeltaAt(start, ts, i))
  }

  /**
   * Counted uptime of interval `i` before redistribution: the first reading is
   * clamped to its interval, later ones count the counter's increase, and a
   * reset or flat reading counts nothing.
   */
  function FirstPassAt(start: int, ts: seq<int>, vs: seq<int>, i: nat): (r: int)
    requires i < |ts| == |vs|
  {
    if i == 0 then
      var delta := ts[0] - start;
      if vs[0] <= 0 then 0 else if vs[0] > delta then delta else vs[0]
    else if vs[i] - vs[i - 1] <= 0 then 0
    else vs[i] - vs[i - 1]
  }

  function FirstPass(start: int, ts: seq<int>, vs: seq<int>): (c: seq<int>)
    requires |ts| == |vs|
    ensures |c| == |ts|
    ensures forall i :: 0 < i < |c| ==> c[i] >= 0
    ensures Ordered(start, ts) && |ts| > 0 ==> 0 <= c[0] <= Deltas(start, ts)[0]
    ensures forall i :: 0 < i < |c| ==> (c[i] > 0 <==> vs[i] > vs[i - 1])
  {
    seq(|ts|, i requires 0 <= i < |ts| => FirstPassAt(start, ts, vs, i))
  }

  /**
   * The inner backward walk started at `j`: while interval `j` counts more than
   * its span, the excess OVERWRITES the count of interval `j - 1` and interval `j`
   * is clamped to its span; at index 0 the excess is clamped away.
   */
  function PushBack(c: seq<int>, d: seq<int>, j: nat): (r: seq<int>)
    requires |c| == |d| && j < |c|
    ensures |r| == |c|
    decreases j
  {
    if c[j] <= d[j] then c
    else if j == 0 then c[0 := d[0]]
    else PushBack(c[j - 1 := c[j] - d[j]][j := d[j]], d, j - 1)
  }

  /** The outer forward scan over intervals `i`, `i + 1`, ... of the redistribution. */
  function Redistribute(c: seq<int>, d: seq<int>, i: nat): (r: seq<int>)
    requires |c| == |d| && i <= |c|
    ensures |r| == |c|
    decreases |c| - i
  {
    if i == |c| then c else Redistribute(PushBack(c, d, i), d, i + 1)
  }

  /** The counted uptime per sample that the spread reconstruction returns. */
  function SpreadCounts(start: int, ts: seq<int>, vs: seq<int>): (c: seq<int>)
    requires |ts| == |vs|
    ensures |c| == |ts|
  {
    Redistribute(FirstPass(start, ts, vs), Deltas(start, ts), 0)
  }

  /** The spans telescope: together they cover the window start up to the last sample. */
  lemma {:induction false} DeltasTelescope(start: int, ts: seq<int>)
    requires |ts| > 0
    ensures Sum(Deltas(start, ts)) == ts[|ts| - 1] - start
    decreases |ts|
  {
    var n := |ts| - 1;
    if n > 0 {
      DeltasTelescope(start, ts[..n]);
      assert Deltas(start, ts)[..n] == Deltas(start, ts[..n]);
    }
  }

  /**
   * One backward walk keeps every count non-negative, leaves every interval up to
   * `j` within its span, touches nothing after `j`, and never increases the total.
   */
  lemma {:induction false} PushBackBounds(c: seq<int>, d: seq<int>, j: nat)
    requires |c| == |d| && j < |c|
    requires forall k :: 0 <= k < |d| ==> d[k] >= 0
    requires forall k :: 0 <= k < |c| ==> c[k] >= 0
    requires forall k :: 0 <= k < j ==> c[k] <= d[k]
    ensures forall k :: 0 <= k < |c| ==> PushBack(c, d, j)[k] >= 0
    ensures forall k :: 0 <= k <= j ==> PushBack(c, d, j)[k] <= d[k]
    ensures forall k :: j < k < |c| ==> PushBack(c, d, j)[k] == c[k]
    ensures Sum(PushBack(c, d, j)) <= Sum(c)
    decreases j
  {
    if c[j] <= d[j] {
    } else if j == 0 {
      SumUpdate(c, 0, d[0]);
    } else {
      var c1 := c[j - 1 := c[j] - d[j]];
      var c2 := c1[j := d[j]];
      SumUpdate(c, j - 1, c[j] - d[j]);
      SumUpdate(c1, j, d[j]);
      PushBackBounds(c2, d, j - 1);
    }
  }

  /** The whole redistribution from interval `i` on: every count ends in [0, span], the total never grows. */
  lemma {:induction false} RedistributeBounds(c: seq<int>, d: seq<int>, i: nat)
    requires |c| == |d| && i <= |c|
    requires forall k :: 0 <= k < |d| ==> d[k] >= 0
    requires forall k :: 0 <= k < |c| ==> c[k] >= 0
    requires forall k :: 0 <= k < i ==> c[k] <= d[k]
    ensures forall k :: 0 <= k < |c| ==> 0 <= Redistribute(c, d, i)[k] <= d[k]
    ensures Sum(Redistribute(c, d, i)) <= Sum(c)
    decreases |c| - i
  {
    if i < |c| {
      PushBackBounds(c, d, i);
      RedistributeBounds(PushBack(c, d, i), d, i + 1);
    }
  }

  /** When no interval counts more than its span, the redistribution changes nothing. */
  lemma {:induction false} RedistributeWithoutExcess(c: seq<int>, d: seq<int>, i: nat)
    requires |c| == |d| && i <= |c|
    requires forall k :: 0 <= k < |c| ==> c[k] <= d[k]
    ensures Redistribute(c, d, i) == c
    decreases |c| - i
  {
    if i < |c| {
      RedistributeWithoutExcess(c, d, i + 1);
    }
  }

  /**
   * On ordered input every reconstructed count lies between 0 and its interval's
   * span, and the redistribution never adds to what the first pass counted.
   */
  lemma SpreadBounds(start: int, ts: seq<int>, vs: seq<int>)
    requires |ts| == |vs| && Ordered(start, ts)
    ensures forall i :: 0 <= i < |ts| ==> 0 <= SpreadCounts(start, ts, vs)[i] <= Deltas(start, ts)[i]
    ensures Sum(SpreadCounts(start, ts, vs)) <= Sum(FirstPass(start, ts, vs))
  {
    RedistributeBounds(FirstPass(start, ts, vs), Deltas(start, ts), 0);
  }

  /** If the first pass left no interval over its span, the spread counts are the first-pass counts. */
  lemma SpreadWithoutExcess(start: int, ts: seq<int>, vs: seq<int>)
    requires |ts| == |vs|
    requires forall i :: 0 <= i < |ts| ==> FirstPass(start, ts, vs)[i] <= Deltas(start, ts)[i]
    ensures SpreadCounts(start, ts, vs) == FirstPass(start, ts, vs)
  {
    RedistributeWithoutExcess(FirstPass(start, ts, vs), Deltas(start, ts), 0);
  }

  /** A backward walk started before a trailing interval never reaches it. */
  lemma {:induction false} PushBackAppend(c: seq<int>, d: seq<int>, x: int, y: int, j: nat)
    requires |c| == |d| && j < |c|
    ensures PushBack(c + [x], d + [y], j) == PushBack(c, d, j) + [x]
    decreases j
  {
    var n := |c|;
    if c[j] <= d[j] {
    } else if j == 0 {
      assert (c + [x])[0 := d[0]] == c[0 := d[0]] + [x];
    } else {
      var c1 := c[j - 1 := c[j] - d[j]][j := d[j]];
      assert (c + [x])[j - 1 := c[j] - d[j]][j := d[j]] == c1 + [x];
      PushBackAppend(c1, d, x, y, j - 1);
    }
  }

  /**
   * A trailing interval that counts no more than its span leaves the
   * redistribution of the intervals before it unchanged and keeps its own count.
   */
  lemma {:induction false} RedistributeAppend(c: seq<int>, d: seq<int>, x: int, y: int, i: nat)
    requires |c| == |d| && i <= |c| && x <= y
    ensures Redistribute(c + [x], d + [y], i) == Redistribute(c, d, i) + [x]
    decreases |c| - i
  {
    if i < |c| {
      PushBackAppend(c, d, x, y, i);
      RedistributeAppend(PushBack(c, d, i), d, x, y, i + 1);
    } else {
      assert PushBack(c + [x], d + [y], i) == c + [x];
    }
  }

  /**
   * A further sample at `e` that repeats the last counter reading adds one
   * interval of span e − last timestamp that counts nothing, and leaves every
   * earlier span and reconstructed count as it was.
   */
  lemma SpreadRepeatedReading(start: int, ts: seq<int>, vs: seq<int>, e: int)
    requires |ts| == |vs| > 0 && ts[|ts| - 1] <= e
    ensures Deltas(start, ts + [e]) == Deltas(start, ts) + [e - ts[|ts| - 1]]
    ensures SpreadCounts(start, ts + [e], vs + [vs[|vs| - 1]]) == SpreadCounts(start, ts, vs) + [0]
  {
    var n := |ts|;
    var ts', vs' := ts + [e], vs + [vs[n - 1]];
    assert Deltas(start, ts') == Deltas(start, ts) + [e - ts[n - 1]] by {
      forall i | 0 <= i < n
        ensures Deltas(start, ts')[i] == Deltas(start, ts)[i]
      {
        assert DeltaAt(start, ts', i) == DeltaAt(start, ts, i);
      }
    }
    assert FirstPass(start, ts', vs') == FirstPass(start, ts, vs) + [0] by {
      forall i | 0 <= i < n
        ensures FirstPass(start, ts', vs')[i] == FirstPass(start, ts, vs)[i]
      {
        assert FirstPassAt(start, ts', vs', i) == FirstPassAt(start, ts, vs, i);
      }
      assert FirstPassAt(start, ts', vs', n) == 0;
    }
    RedistributeAppend(FirstPass(start, ts, vs), Deltas(start, ts), 0, e - ts[n - 1], 0);
  }

  /**
   * The excess overwrites the earlier interval's count instead of adding to it:
   * the counter reads 2 then 15 over two 10-unit intervals, the first pass counts
   * [2, 13], and the redistribution ends at [3, 10], below the first pass's total.
   */
  lemma SpreadOverwritesEarlierCount()
    ensures FirstPass(0, [10, 20], [2, 15]) == [2, 13]
    ensures SpreadCounts(0, [10, 20], [2, 15]) == [3, 10]
  {
    var c, d := FirstPass(0, [10, 20], [2, 15]), Deltas(0, [10, 20]);
    assert c == [2, 13] && d == [10, 10];
    assert PushBack(c, d, 0) == c;
    assert PushBack(c, d, 1) == [3, 10];
    assert PushBack([3, 10], d, 1) == [3, 10];
  }

  /**
   * The reconstruction as the source runs it: one forward pass appending spans
   * and first-pass counts, then the nested backward redistribution rewriting the
   * counts in place. The spans are never written by the redistribution.
   */
  method TransformToSpreadedUptime(start: int, ts: seq<int>, vs: seq<int>)
    returns (deltas: seq<int>, counted: seq<int>)
    requires |ts| == |vs|
    ensures deltas == Deltas(start, ts)
    ensures counted == SpreadCounts(start, ts, vs)
    ensures Ordered(start, ts) ==> forall i :: 0 <= i < |ts| ==> 0 <= counted[i] <= deltas[i]
  {
    deltas, counted := [], [];
    for i := 0 to |ts|
      invariant |deltas| == |counted| == i
      invariant forall k :: 0 <= k < i ==> deltas[k] == DeltaAt(start, ts, k)
      invariant forall k :: 0 <= k < i ==> counted[k] == FirstPassAt(start, ts, vs, k)
    {
      if i == 0 {
        var delta := ts[i] - start;
        deltas := deltas + [delta];
        if vs[i] <= 0 {
          counted := counted + [0];
        } else {
          if vs[i] > delta {
            counted := counted + [delta];
          } else {
            counted := counted + [vs[i]];
          }
        }
        continue;
      }
      var delta := ts[i] - ts[i - 1];
      deltas := deltas + [delta];
      if vs[i] - vs[i - 1] <= 0 {
        counted := counted + [0];
      } else {
        counted := counted + [vs[i] - vs[i - 1]];
      }
    }
    assert deltas == Deltas(start, ts);
    assert counted == FirstPass(start, ts, vs);

    ghost var first := counted;
    for i := 0 to |deltas|
      invariant |counted| == |deltas|
      invariant Redistribute(counted, deltas, i) == Redistribute(first, deltas, 0)
    {
      if counted[i] > deltas[i] {
        ghost var before := counted;
        var j := i;
        while counted[j] > deltas[j]
          invariant 0 <= j <= i && |counted| == |deltas|
          invariant PushBack(counted, deltas, j) == PushBack(before, deltas, i)
          decreases j
        {
          if j == 0 {
            if counted[j] > deltas[j] {
              counted := counted[j := deltas[j]];
            }
            break;
          }
          counted := counted[j - 1 := counted[j] - deltas[j]];
          counted := counted[j := deltas[j]];
          j := j - 1;
        }
        assert counted == PushBack(before, deltas, i);
      }
    }
    if Ordered(start, ts) {
      SpreadBounds(start, ts, vs);
    }
  }
}
