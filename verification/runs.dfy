/**
  The axis construction shared by the range and the bearing axes of
  `reindex_df_by_range_bearing` (xradial/dataframe.py): three stepped runs
  around the observed span `[lo, hi]`, concatenated.

    1. `arange(lo, 0, -step)[1:][::-1]`: the points below `lo` and above 0,
       ascending;
    2. `arange(lo, hi, step)`: the points from `lo` up to, not including, `hi`;
    3. `arange(hi, bound, step)`: the points from `hi` up to `bound`.
 */
module Runs {
  import opened Results
  import opened Axes

  function ThreeRuns(lo: real, hi: real, step: real, bound: real): (r: Result<seq<real>>)
    ensures r.Err? <==> step == 0.0
    ensures r.Err? ==> r.error == DivisionByZero
  {
    if step == 0.0 then Err(DivisionByZero)
    else Ok(Below(lo, step) + Arange(lo, hi, step).value + Arange(hi, bound, step).value)
  }

  /** The first run: `arange(lo, 0, -step)[1:][::-1]`. */
  function Below(lo: real, step: real): seq<real>
    requires step != 0.0
  {
    Reverse(DropFirst(Arange(lo, 0.0, -step).value))
  }

  /** Position `k` of the first run is position `|run| - k` of the
      downward `arange` it is cut from. */
  lemma BelowAt(lo: real, step: real, k: nat)
    requires step != 0.0
    requires k < |Below(lo, step)|
    ensures |Below(lo, step)| < |Arange(lo, 0.0, -step).value|
    ensures Below(lo, step)[k] == Arange(lo, 0.0, -step).value[|Below(lo, step)| - k]
  {
    var below := Arange(lo, 0.0, -step).value;
    assert |Below(lo, step)| == |below| - 1;
    assert DropFirst(below) == below[1..];
    assert Below(lo, step)[k] == below[1..][|below| - 2 - k];
  }

  /** Later points of `arange` lie further in the direction of the step. */
  lemma ArangeMonotone(start: real, stop: real, step: real, a: nat, b: nat)
    requires step != 0.0
    requires a < b < |Arange(start, stop, step).value|
    ensures step > 0.0 ==> Arange(start, stop, step).value[a] < Arange(start, stop, step).value[b]
    ensures step < 0.0 ==> Arange(start, stop, step).value[a] > Arange(start, stop, step).value[b]
  {
    var s := Arange(start, stop, step).value;
    assert s[a] == start + a as real * step && s[b] == start + b as real * step;
    if step > 0.0 {
      MulLess(a as real, b as real, step);
    } else {
      MulLess(a as real, b as real, -step);
    }
  }

  /** With a positive step the first run is increasing and lies strictly
      between 0 and `lo`. */
  lemma BelowBounds(lo: real, step: real)
    requires step > 0.0
    ensures Increasing(Below(lo, step))
    ensures forall k :: 0 <= k < |Below(lo, step)| ==> 0.0 < Below(lo, step)[k] < lo
  {
    var low := Below(lo, step);
    forall k | 0 <= k < |low| ensures 0.0 < low[k] < lo {
      BelowBetween(lo, step, k);
    }
    forall i, j | 0 <= i < j < |low| ensures low[i] < low[j] {
      BelowOrdered(lo, step, i, j);
    }
  }

  lemma BelowBetween(lo: real, step: real, k: nat)
    requires step > 0.0
    requires k < |Below(lo, step)|
    ensures 0.0 < Below(lo, step)[k] < lo
  {
    var n := |Below(lo, step)|;
    BelowAt(lo, step, k);
    ArangeMonotone(lo, 0.0, -step, 0, n - k);
  }

  lemma BelowOrdered(lo: real, step: real, i: nat, j: nat)
    requires step > 0.0
    requires i < j < |Below(lo, step)|
    ensures Below(lo, step)[i] < Below(lo, step)[j]
  {
    var n := |Below(lo, step)|;
    BelowAt(lo, step, i);
    BelowAt(lo, step, j);
    ArangeMonotone(lo, 0.0, -step, n - j, n - i);
  }

  /** With a positive step, `arange(start, stop, step)` is increasing and
      lies in `[start, stop)`. */
  lemma ArangeWithin(start: real, stop: real, step: real)
    requires step > 0.0
    ensures Increasing(Arange(start, stop, step).value)
    ensures forall k :: 0 <= k < |Arange(start, stop, step).value| ==>
      start <= Arange(start, stop, step).value[k] < stop
  {
    ArangeIncreasing(start, stop, step);
    var s := Arange(start, stop, step).value;
    forall k | 0 <= k < |s| ensures start <= s[k] {
      if k > 0 {
        StepsIncrease(0, k, step);
      }
    }
  }

  /** The point `k` steps from `base`. */
  function StepsFrom(base: real, step: real, k: int): real {
    base + k as real * step
  }

  /** `i * step < j * step` for `i < j` and a positive step. */
  lemma StepsIncrease(i: int, j: int, step: real)
    requires i < j && step > 0.0
    ensures i as real * step < j as real * step
  {
    MulLess(i as real, j as real, step);
  }

  lemma ArangeIncreasing(start: real, stop: real, step: real)
    requires step > 0.0
    ensures Increasing(Arange(start, stop, step).value)
  {
    var s := Arange(start, stop, step).value;
    forall i, j | 0 <= i < j < |s| ensures s[i] < s[j] {
      StepsIncrease(i, j, step);
    }
  }

  /** `arange` holds every point of its lattice that lies before `stop`. */
  lemma ArangeHolds(start: real, stop: real, step: real, k: nat)
    requires step > 0.0
    requires start + k as real * step < stop
    ensures k < |Arange(start, stop, step).value|
    ensures Arange(start, stop, step).value[k] == start + k as real * step
  {
    var s := Arange(start, stop, step).value;
    if k >= |s| {
      if k > |s| {
        StepsIncrease(|s|, k, step);
      }
    }
  }

  lemma IncreasingAppend(a: seq<real>, b: seq<real>)
    requires Increasing(a) && Increasing(b)
    requires forall i, j :: 0 <= i < |a| && 0 <= j < |b| ==> a[i] < b[j]
    ensures Increasing(a + b)
  {
  }

  /**
    With a positive step and `lo <= hi`, the three runs are strictly
    increasing, everything in them lies above 0 or at `lo` or above, and
    below `hi` or `bound`, whichever is larger.
   */
  lemma ThreeRunsIncreasing(lo: real, hi: real, step: real, bound: real)
    requires step > 0.0 && lo <= hi
    ensures Increasing(ThreeRuns(lo, hi, step, bound).value)
    ensures forall k :: 0 <= k < |ThreeRuns(lo, hi, step, bound).value| ==>
      var x := ThreeRuns(lo, hi, step, bound).value[k];
      (x > 0.0 || x >= lo) && (x < hi || x < bound)
  {
    var low := Below(lo, step);
    var span := Arange(lo, hi, step).value;
    var above := Arange(hi, bound, step).value;
    BelowBounds(lo, step);
    ArangeWithin(lo, hi, step);
    ArangeWithin(hi, bound, step);
    IncreasingAppend(low, span);
    IncreasingAppend(low + span, above);
    var all := low + span + above;
    assert ThreeRuns(lo, hi, step, bound).value == all;
    forall k | 0 <= k < |all| ensures (all[k] > 0.0 || all[k] >= lo) && (all[k] < hi || all[k] < bound) {
      if k < |low| {
        assert all[k] == low[k];
      } else if k < |low| + |span| {
        assert all[k] == span[k - |low|];
      } else {
        assert all[k] == above[k - |low| - |span|];
      }
    }
  }

  /**
    Every point `lo + k * step` (`k >= 0`) up to `hi` is in the runs, `hi`
    itself provided it lies below `bound`.
   */
  lemma ThreeRunsHolds(lo: real, hi: real, step: real, bound: real, k: nat, x: real)
    requires step > 0.0 && lo <= hi
    requires x == StepsFrom(lo, step, k)
    requires x < hi || (x == hi && hi < bound)
    ensures x in ThreeRuns(lo, hi, step, bound).value
  {
    var span := Arange(lo, hi, step).value;
    var above := Arange(hi, bound, step).value;
    var all := Below(lo, step) + span + above;
    assert ThreeRuns(lo, hi, step, bound).value == all;
    if x < hi {
      ArangeHolds(lo, hi, step, k);
      assert span[k] == x;
      assert x in all;
    } else {
      ArangeHolds(hi, bound, step, 0);
      assert above[0] == x;
      assert x in all;
    }
  }

  /**
    The point `lo + k * step` (`k >= 0`) up to `hi` sits at position
    `|Below(lo, step)| + k` of the runs, `hi` itself provided it lies below
    `bound`.
   */
  lemma ThreeRunsAt(lo: real, hi: real, step: real, bound: real, k: nat, x: real)
    requires step > 0.0 && lo <= hi
    requires x == StepsFrom(lo, step, k)
    requires x < hi || (x == hi && hi < bound)
    ensures |Below(lo, step)| + k < |ThreeRuns(lo, hi, step, bound).value|
    ensures ThreeRuns(lo, hi, step, bound).value[|Below(lo, step)| + k] == x
  {
    var low := Below(lo, step);
    var span := Arange(lo, hi, step).value;
    var above := Arange(hi, bound, step).value;
    var all := low + span + above;
    assert ThreeRuns(lo, hi, step, bound).value == all;
    if x < hi {
      ArangeHolds(lo, hi, step, k);
      assert all[|low| + k] == span[k];
    } else {
      ArangeLength(lo, hi, step, k);
      ArangeHolds(hi, bound, step, 0);
      assert all[|low| + |span|] == above[0];
    }
  }

  /** `arange(start, start + k * step, step)` has exactly `k` points. */
  lemma ArangeLength(start: real, stop: real, step: real, k: nat)
    requires step > 0.0 && stop == StepsFrom(start, step, k)
    ensures |Arange(start, stop, step).value| == k
  {
    var s := Arange(start, stop, step).value;
    if |s| < k {
      StepsIncrease(|s|, k, step);
    } else if |s| > k {
      ArangePoint(start, stop, step, k);
    }
  }

  /** Every point of `arange` lies before `stop`. */
  lemma ArangePoint(start: real, stop: real, step: real, j: nat)
    requires step > 0.0 && j < |Arange(start, stop, step).value|
    ensures start + j as real * step < stop
  {
    assert Arange(start, stop, step).value[j] == start + j as real * step;
  }

  /** Every point of the runs is a whole number of steps from `lo` or from
      `hi`. */
  lemma ThreeRunsOnLattice(lo: real, hi: real, step: real, bound: real, x: real)
    requires step != 0.0
    requires x in ThreeRuns(lo, hi, step, bound).value
    ensures exists k: int :: x == StepsFrom(lo, step, k) || x == StepsFrom(hi, step, k)
  {
    var low := Below(lo, step);
    var span := Arange(lo, hi, step).value;
    var above := Arange(hi, bound, step).value;
    assert ThreeRuns(lo, hi, step, bound).value == low + span + above;
    if x in low {
      var i :| 0 <= i < |low| && low[i] == x;
      var k := BelowOnLattice(lo, step, i);
      assert x == StepsFrom(lo, step, k);
    } else if x in span {
      var i :| 0 <= i < |span| && span[i] == x;
      assert x == StepsFrom(lo, step, i);
    } else {
      assert x in above;
      var i :| 0 <= i < |above| && above[i] == x;
      assert x == StepsFrom(hi, step, i);
    }
  }

  lemma BelowOnLattice(lo: real, step: real, i: nat) returns (k: int)
    requires step != 0.0 && i < |Below(lo, step)|
    ensures Below(lo, step)[i] == StepsFrom(lo, step, k)
  {
    var below := Arange(lo, 0.0, -step).value;
    BelowAt(lo, step, i);
    var m := |Below(lo, step)| - i;
    var x := Below(lo, step)[i];
    assert x == below[m];
    assert below[m] == lo + m as real * -step;
    k := NegatedSteps(lo, step, m, x);
  }

  /** `m` steps of `-step` are `-m` steps of `step`. */
  lemma NegatedSteps(lo: real, step: real, m: int, x: real) returns (k: int)
    requires x == lo + m as real * -step
    ensures x == StepsFrom(lo, step, k)
  {
    k := -m;
  }
}
