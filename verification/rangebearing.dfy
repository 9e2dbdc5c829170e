/**
  Re-indexing onto a range/bearing grid (`reindex_df_by_range_bearing` in
  xradial/dataframe.py). The bearing step is the file's angular resolution,
  or the smallest gap between the bearings seen when the file gives none.
  The range step is the km range resolution. Each axis is built from three
  stepped runs around the span of the values seen (see `Runs`); the range
  axis is cut to the number of range cells. The rows are then moved, under
  their own bearing and range, onto `[t0] × bearings × ranges`.
 */
module RangeBearing {
  import opened Results
  import opened Metadata
  import opened Axes
  import opened Grid
  import opened Frame
  import opened Params
  import opened Runs

  /** The two steps and the two axes of the grid. */
  datatype Polar = Polar(bearStep: real, rangeStep: real, bearings: seq<real>, ranges: seq<real>)

  /* ----------------------------------------------------------- bearings */

  /**
    The bearing step: a truthy angular resolution is used as given;
    otherwise the smallest gap between neighbouring distinct bearings, which
    needs at least two of them.
   */
  function BearingStep(ub: seq<real>, angularRes: Option<real>): (r: Result<real>)
    requires Increasing(ub)
    ensures r.Ok? <==> (angularRes.Some? && angularRes.value != 0.0) || |ub| >= 2
    ensures r.Ok? ==> r.value != 0.0
    ensures angularRes.Some? && angularRes.value != 0.0 ==> r == Ok(angularRes.value)
    ensures !(angularRes.Some? && angularRes.value != 0.0) && r.Ok? ==>
      && r.value > 0.0
      && (forall k :: 0 <= k < |ub| - 1 ==> ub[k + 1] - ub[k] >= r.value)
      && (exists k :: 0 <= k < |ub| - 1 && ub[k + 1] - ub[k] == r.value)
  {
    if angularRes.Some? && angularRes.value != 0.0 then Ok(angularRes.value)
    else MinGap(ub)
  }

  /** The bearing assertion: every gap between neighbouring distinct
      bearings is a whole multiple of the step (Python's float `%`). */
  predicate OnLattice(ub: seq<real>, a: real)
    requires a != 0.0
  {
    forall k :: 0 <= k < |Diffs(ub)| ==> PyMod(Diffs(ub)[k], a) == 0.0
  }

  /**
    The bearing axis: the three runs from the smallest to the largest
    distinct bearing in steps of `a`, up to 360.1, after the assertion that
    the bearings seen lie on that lattice.
   */
  function BearingAxis(ub: seq<real>, a: real): (r: Result<seq<real>>)
    requires Increasing(ub) && ub != [] && a != 0.0
    ensures r.Err? <==> !OnLattice(ub, a)
    ensures r.Err? ==> r.error == AssertionFailed
    ensures r.Ok? ==> Increasing(r.value)
    ensures r.Ok? ==> forall x :: x in r.value <==> x in ThreeRuns(ub[0], ub[|ub| - 1], a, 360.1).value
    ensures r.Ok? && a > 0.0 && ub[|ub| - 1] < 360.1 ==> forall k :: 0 <= k < |ub| ==> ub[k] in r.value
    ensures r.Ok? && a > 0.0 && ub[|ub| - 1] < 360.1 ==> forall x :: x in r.value ==> x < 360.1
  {
    if !OnLattice(ub, a) then Err(AssertionFailed)
    else
      BearingsCovered(ub, a);
      BearingsBelow(ub, a, ThreeRuns(ub[0], ub[|ub| - 1], a, 360.1).value);
      Ok(Unique(ThreeRuns(ub[0], ub[|ub| - 1], a, 360.1).value))
  }

  lemma BearingsCovered(ub: seq<real>, a: real)
    requires Increasing(ub) && ub != [] && a != 0.0 && OnLattice(ub, a)
    ensures a > 0.0 && ub[|ub| - 1] < 360.1 ==>
      forall k :: 0 <= k < |ub| ==> ub[k] in ThreeRuns(ub[0], ub[|ub| - 1], a, 360.1).value
  {
    if a > 0.0 && ub[|ub| - 1] < 360.1 {
      forall k | 0 <= k < |ub| ensures ub[k] in ThreeRuns(ub[0], ub[|ub| - 1], a, 360.1).value {
        BearingOnRuns(ub, a, k);
      }
    }
  }

  lemma BearingsBelow(ub: seq<real>, a: real, runs: seq<real>)
    requires Increasing(ub) && ub != [] && a != 0.0
    requires runs == ThreeRuns(ub[0], ub[|ub| - 1], a, 360.1).value
    ensures a > 0.0 && ub[|ub| - 1] < 360.1 ==> forall x :: x in runs ==> x < 360.1
  {
    if a > 0.0 && ub[|ub| - 1] < 360.1 {
      if |ub| > 1 {
        assert ub[0] < ub[|ub| - 1];
      }
      ThreeRunsIncreasing(ub[0], ub[|ub| - 1], a, 360.1);
    }
  }

  /** A distinct bearing lies on the runs of a positive step. */
  lemma BearingOnRuns(ub: seq<real>, a: real, k: nat)
    requires Increasing(ub) && a > 0.0 && OnLattice(ub, a)
    requires k < |ub| && ub[|ub| - 1] < 360.1
    ensures ub[k] in ThreeRuns(ub[0], ub[|ub| - 1], a, 360.1).value
  {
    var m := LatticeIndex(ub, a, k);
    if k < |ub| - 1 {
      assert ub[k] < ub[|ub| - 1];
    }
    ThreeRunsHolds(ub[0], ub[|ub| - 1], a, 360.1, m, ub[k]);
  }

  /** On the lattice every distinct bearing is a whole number of steps
      above the smallest one. */
  lemma {:induction false} LatticeIndex(ub: seq<real>, a: real, k: nat) returns (m: nat)
    requires Increasing(ub) && a > 0.0 && OnLattice(ub, a)
    requires k < |ub|
    ensures ub[k] == StepsFrom(ub[0], a, m)
  {
    if k == 0 {
      m := 0;
    } else {
      var prev := LatticeIndex(ub, a, k - 1);
      var d := ub[k] - ub[k - 1];
      assert Diffs(ub)[k - 1] == d;
      var q := WholeSteps(d, a);
      m := AddSteps(ub[0], a, prev, q, ub[k - 1], ub[k]);
    }
  }

  /** A positive gap with no remainder is a positive whole number of steps. */
  lemma WholeSteps(d: real, a: real) returns (q: nat)
    requires d > 0.0 && a > 0.0 && PyMod(d, a) == 0.0
    ensures d == q as real * a
  {
    PyModZero(d, a);
    var n: int :| d == Times(n, a);
    if n < 0 {
      MulLess(n as real, 0.0, a);
    }
    q := n;
  }

  lemma AddSteps(lo: real, a: real, m: nat, q: nat, x: real, y: real) returns (n: nat)
    requires x == StepsFrom(lo, a, m) && y - x == q as real * a
    ensures y == StepsFrom(lo, a, n)
  {
    n := m + q;
  }

  /* ------------------------------------------------------------- ranges */

  /** The range assertion as written: every gap between consecutive ranges,
      floor-divided by the step, leaves no remainder modulo 1. A zero step
      turns every quotient into NaN, which fails. */
  predicate SpacingAsserted(diffs: seq<real>, step: real) {
    forall k :: 0 <= k < |diffs| ==> step != 0.0 && PyMod(Floor(diffs[k] / step) as real, 1.0) == 0.0
  }

  /** A floor quotient is always whole, so the assertion holds for every
      table unless the step is zero: it never checks the spacing. */
  lemma SpacingVacuous(diffs: seq<real>, step: real)
    ensures SpacingAsserted(diffs, step) <==> (diffs != [] ==> step != 0.0)
  {
    if step != 0.0 {
      forall k | 0 <= k < |diffs| ensures PyMod(Floor(diffs[k] / step) as real, 1.0) == 0.0 {
        var n := Floor(diffs[k] / step);
        assert n as real / 1.0 == n as real;
        assert Floor(n as real / 1.0) == n;
      }
    } else if diffs != [] {
      var first := diffs[0];
    }
  }

  /**
    The range step and the range assertion: rounding to the precision needs
    a precision, floor division needs a numeric resolution, and the
    assertion fails only for a zero resolution with two rows or more.
   */
  function RangeStep(km: Option<Value>, precision: Option<nat>, rnges: seq<real>): (r: Result<real>)
    ensures r.Ok? <==> precision.Some? && OptReal(km).Some? && (|rnges| >= 2 ==> OptReal(km).value != 0.0)
    ensures r.Ok? ==> Some(r.value) == OptReal(km)
    ensures r.Err? ==> (r.error == AssertionFailed <==> precision.Some? && OptReal(km).Some?)
    ensures r.Err? ==> r.error in {AssertionFailed, WrongType}
  {
    if precision.None? || OptReal(km).None? then Err(WrongType)
    else
      var step := OptReal(km).value;
      SpacingVacuous(Diffs(rnges), step);
      if !SpacingAsserted(Diffs(rnges), step) then Err(AssertionFailed)
      else Ok(step)
  }

  /**
    The range axis: the three runs from the smallest to the largest range in
    steps of `step`, up to 0.01 beyond the maximum range, cut to the first
    `cells` values (`[:range_cells]`, which needs an integer of either kind), then sorted
    and freed of duplicates.
   */
  function RangeAxis(rnges: seq<real>, step: real, maxRange: real, cells: Value): (r: Result<seq<real>>)
    requires rnges != []
    ensures r.Err? <==> step == 0.0 || !IsInt(cells)
    ensures r.Err? && step == 0.0 ==> r.error == DivisionByZero
    ensures r.Err? && step != 0.0 ==> r.error == WrongType
    ensures r.Ok? ==> Increasing(r.value)
    ensures r.Ok? && cells.i >= 0 ==> |r.value| <= cells.i
    ensures r.Ok? ==> forall x :: x in r.value ==> x in ThreeRuns(Min(rnges), Max(rnges), step, maxRange + 0.01).value
  {
    var runs :- ThreeRuns(Min(rnges), Max(rnges), step, maxRange + 0.01);
    if !IsInt(cells) then Err(WrongType)
    else
      var cut := TakePrefix(runs, cells.i);
      assert forall x :: x in cut ==> x in runs;
      Ok(Unique(cut))
  }

  /** With a positive step the runs are already sorted, so the range axis is
      exactly their first `cells` values. */
  lemma RangeAxisIsPrefix(rnges: seq<real>, step: real, maxRange: real, cells: Value)
    requires rnges != [] && step > 0.0 && IsInt(cells)
    ensures RangeAxis(rnges, step, maxRange, cells)
      == Ok(TakePrefix(ThreeRuns(Min(rnges), Max(rnges), step, maxRange + 0.01).value, cells.i))
  {
    var runs := ThreeRuns(Min(rnges), Max(rnges), step, maxRange + 0.01).value;
    ThreeRunsIncreasing(Min(rnges), Max(rnges), step, maxRange + 0.01);
    var cut := TakePrefix(runs, cells.i);
    assert Increasing(cut) by {
      assert cut == runs[..|cut|];
    }
    UniqueOfIncreasing(cut);
  }

  /**
    Every value on the range axis is a whole number of steps away from the
    smallest or from the largest range seen: a reading off both lattices has
    no place on the axis.
   */
  lemma RangeAxisOnLattice(rnges: seq<real>, step: real, maxRange: real, cells: Value, x: real)
    requires rnges != [] && RangeAxis(rnges, step, maxRange, cells).Ok?
    requires x in RangeAxis(rnges, step, maxRange, cells).value
    ensures exists k: int :: x == StepsFrom(Min(rnges), step, k) || x == StepsFrom(Max(rnges), step, k)
  {
    ThreeRunsOnLattice(Min(rnges), Max(rnges), step, maxRange + 0.01, x);
  }

  /**
    A range seen that is `m` whole steps above the smallest one sits at
    position `|Below(Min(rnges), step)| + m` of the runs; when the largest
    range lies within the maximum range and the cell count reaches past
    that position, the range is on the axis.
   */
  lemma RangeAxisCovers(rnges: seq<real>, step: real, maxRange: real, cells: Value, i: nat, m: nat)
    requires rnges != [] && step > 0.0 && IsInt(cells)
    requires Max(rnges) < maxRange + 0.01
    requires i < |rnges| && rnges[i] == StepsFrom(Min(rnges), step, m)
    requires cells.i > |Below(Min(rnges), step)| + m
    ensures rnges[i] in RangeAxis(rnges, step, maxRange, cells).value
  {
    var lo, hi, bound := Min(rnges), Max(rnges), maxRange + 0.01;
    var runs := ThreeRuns(lo, hi, step, bound).value;
    assert rnges[i] <= hi;
    ThreeRunsAt(lo, hi, step, bound, m, rnges[i]);
    RangeAxisIsPrefix(rnges, step, maxRange, cells);
    InPrefix(runs, cells.i, |Below(lo, step)| + m);
  }

  lemma RangeOnRuns(rnges: seq<real>, step: real, bound: real, i: nat, m: nat)
    requires rnges != [] && step > 0.0 && Max(rnges) < bound
    requires i < |rnges| && rnges[i] == StepsFrom(Min(rnges), step, m)
    ensures rnges[i] in ThreeRuns(Min(rnges), Max(rnges), step, bound).value
  {
    assert rnges[i] <= Max(rnges);
    ThreeRunsHolds(Min(rnges), Max(rnges), step, bound, m, rnges[i]);
  }

  lemma RangeAxisWhole(rnges: seq<real>, step: real, maxRange: real, cells: Value)
    requires rnges != [] && step > 0.0 && IsInt(cells)
    requires cells.i >= |ThreeRuns(Min(rnges), Max(rnges), step, maxRange + 0.01).value|
    ensures RangeAxis(rnges, step, maxRange, cells) == Ok(ThreeRuns(Min(rnges), Max(rnges), step, maxRange + 0.01).value)
  {
    RangeAxisIsPrefix(rnges, step, maxRange, cells);
  }

  /* ---------------------------------------------------------------- axes */

  /** What placing rows on a range/bearing grid needs: at least one row,
      every row with a bearing and a range. */
  predicate Polarable(rows: seq<Row>) {
    && |rows| >= 1
    && forall k :: 0 <= k < |rows| ==> rows[k].bear.Some? && rows[k].rnge.Some?
  }

  /**
    The grid of `reindex_df_by_range_bearing`: the steps, then the range
    axis, then the bearing assertion and the bearing axis. Bearings and
    ranges must all be present, and a table without rows has no range span.
   */
  function PolarAxes(rows: seq<Row>, angularRes: Option<real>, precision: Option<nat>, km: Option<Value>,
                     maxRange: real, cells: Value): (r: Result<Polar>)
    ensures r.Ok? ==> Polarable(rows)
    ensures r.Ok? ==> precision.Some? && IsInt(cells) && OptReal(km) == Some(r.value.rangeStep)
    ensures r.Ok? ==> r.value.bearStep != 0.0
    ensures r.Ok? && angularRes.Some? && angularRes.value != 0.0 ==> r.value.bearStep == angularRes.value
    ensures r.Ok? ==> Increasing(r.value.bearings) && Increasing(r.value.ranges)
    ensures r.Ok? && cells.i >= 0 ==> |r.value.ranges| <= cells.i
    ensures r.Ok? ==> PolarFits(rows, r.value, angularRes, precision, km, maxRange, cells)
  {
    var bears :- Present(Column(rows, Bear));
    var ub := Unique(bears);
    var a :- BearingStep(ub, angularRes);
    var rnges :- Present(Column(rows, Rnge));
    var step :- RangeStep(km, precision, rnges);
    if rnges == [] then Err(BadValue)
    else
      assert bears[0] in ub;
      var ranges :- RangeAxis(rnges, step, maxRange, cells);
      var bearings :- BearingAxis(ub, a);
      PolarPresent(rows, bears, rnges);
      Ok(Polar(a, step, bearings, ranges))
  }

  /**
    The grid can be built exactly when every row has a bearing and a range
    (and there is a row), the precision and a non-zero numeric km resolution
    are given, the range cells are an integer, a bearing step can be picked
    and the distinct bearings lie on its lattice.
   */
  lemma PolarAxesSucceeds(rows: seq<Row>, angularRes: Option<real>, precision: Option<nat>, km: Option<Value>,
                          maxRange: real, cells: Value)
    ensures PolarAxes(rows, angularRes, precision, km, maxRange, cells).Ok? <==>
      && Polarable(rows)
      && precision.Some? && OptReal(km).Some? && OptReal(km).value != 0.0 && IsInt(cells)
      && BearingStep(Unique(Bearings(rows)), angularRes).Ok?
      && OnLattice(Unique(Bearings(rows)), BearingStep(Unique(Bearings(rows)), angularRes).value)
  {
    if Polarable(rows) {
      var bears := Present(Column(rows, Bear)).value;
      var rnges := Present(Column(rows, Rnge)).value;
      PolarPresent(rows, bears, rnges);
      assert bears[0] in Unique(bears);
    }
  }

  /** The columns a fitted grid was built from: the bearing and range of
      every row. */
  function Bearings(rows: seq<Row>): (s: seq<real>)
    requires Polarable(rows)
    ensures |s| == |rows| && forall k :: 0 <= k < |rows| ==> s[k] == rows[k].bear.value
  {
    seq(|rows|, k requires 0 <= k < |rows| => rows[k].bear.value)
  }

  function Ranges(rows: seq<Row>): (s: seq<real>)
    requires Polarable(rows)
    ensures |s| == |rows| && forall k :: 0 <= k < |rows| ==> s[k] == rows[k].rnge.value
  {
    seq(|rows|, k requires 0 <= k < |rows| => rows[k].rnge.value)
  }

  /** A grid fitted to the rows: the bearing step is the one `BearingStep`
      picks for the distinct bearings seen (the smallest gap when the
      resolution is falsy), the range step the km resolution, the bearings
      lie on the bearing step's lattice, and the two axes are the ones built
      from the rows' spans. */
  ghost predicate PolarFits(rows: seq<Row>, polar: Polar, angularRes: Option<real>, precision: Option<nat>,
                            km: Option<Value>, maxRange: real, cells: Value) {
    && Polarable(rows)
    && polar.bearStep != 0.0
    && Unique(Bearings(rows)) != []
    && BearingStep(Unique(Bearings(rows)), angularRes) == Ok(polar.bearStep)
    && RangeStep(km, precision, Ranges(rows)) == Ok(polar.rangeStep)
    && OnLattice(Unique(Bearings(rows)), polar.bearStep)
    && BearingAxis(Unique(Bearings(rows)), polar.bearStep) == Ok(polar.bearings)
    && RangeAxis(Ranges(rows), polar.rangeStep, maxRange, cells) == Ok(polar.ranges)
  }

  lemma PolarPresent(rows: seq<Row>, bears: seq<real>, rnges: seq<real>)
    requires Present(Column(rows, Bear)) == Ok(bears) && Present(Column(rows, Rnge)) == Ok(rnges)
    requires rnges != []
    ensures Polarable(rows)
    ensures bears == Bearings(rows) && rnges == Ranges(rows)
  {
    forall k | 0 <= k < |rows| ensures rows[k].bear == Some(bears[k]) && rows[k].rnge == Some(rnges[k]) {
      assert Column(rows, Bear)[k] == Some(bears[k]) && Column(rows, Rnge)[k] == Some(rnges[k]);
    }
  }

  /**
    On a fitted grid with a positive bearing step every bearing seen is on
    the bearing axis, provided the largest is below 360.1.
   */
  lemma PolarBearingsCover(rows: seq<Row>, polar: Polar, angularRes: Option<real>, precision: Option<nat>,
                           km: Option<Value>, maxRange: real, cells: Value, k: nat)
    requires PolarFits(rows, polar, angularRes, precision, km, maxRange, cells)
    requires polar.bearStep > 0.0
    requires forall i :: 0 <= i < |rows| ==> rows[i].bear.value < 360.1
    requires k < |rows|
    ensures rows[k].bear.value in polar.bearings
  {
    var bs := Bearings(rows);
    var ub := Unique(bs);
    var x := rows[k].bear.value;
    assert x in ub by {
      assert bs[k] == x;
    }
    assert ub[|ub| - 1] < 360.1 by {
      assert ub[|ub| - 1] in bs;
      var i :| 0 <= i < |bs| && bs[i] == ub[|ub| - 1];
      assert bs[i] == rows[i].bear.value;
    }
    BearingAxisHas(ub, polar.bearStep, polar.bearings, x);
  }

  lemma BearingAxisHas(ub: seq<real>, a: real, bearings: seq<real>, x: real)
    requires Increasing(ub) && ub != [] && a > 0.0 && ub[|ub| - 1] < 360.1
    requires BearingAxis(ub, a) == Ok(bearings) && x in ub
    ensures x in bearings
  {
    var j :| 0 <= j < |ub| && ub[j] == x;
  }

  /* ---------------------------------------------------------------- rows */

  /** The label of a row: its time, its bearing and its range. */
  function PolarKey(row: Row): Key<real>
    requires row.bear.Some? && row.rnge.Some?
  {
    Key(row.time, row.bear.value, row.rnge.value)
  }

  /** The rows filed under their labels (`set_index([time, 'BEAR', 'RNGE'])`). */
  function PolarEntries(rows: seq<Row>): (es: seq<(Key<real>, Row)>)
    requires Polarable(rows)
    ensures |es| == |rows|
    ensures forall k :: 0 <= k < |rows| ==> es[k] == (PolarKey(rows[k]), rows[k])
  {
    seq(|rows|, k requires 0 <= k < |rows| => (PolarKey(rows[k]), rows[k]))
  }

  /**
    The rows moved onto `[t0] × bearings × ranges`, `t0` being the first
    row's time: one cell per bearing and range, each holding the row with
    that time, bearing and range, or nothing.
   */
  function PlaceOnPolarGrid(rows: seq<Row>, polar: Polar): (r: Result<seq<Cell<real, Row>>>)
    requires Polarable(rows)
    ensures r.Ok? ==> |r.value| == |polar.bearings| * |polar.ranges|
    ensures r.Ok? ==> forall p :: 0 <= p < |r.value| ==>
      var key := r.value[p].key;
      key.time == rows[0].time && key.a in polar.bearings && key.b in polar.ranges
    ensures r.Ok? ==> forall p :: 0 <= p < |r.value| && r.value[p].row.Some? ==>
      var row := r.value[p].row.value;
      row in rows && PolarKey(row) == r.value[p].key
  {
    var entries := PolarEntries(rows);
    var target := Product(rows[0].time, polar.bearings, polar.ranges);
    var r := Reindex(entries, target);
    PolarCells(rows, polar, entries, target, r);
    r
  }

  lemma PolarCells(rows: seq<Row>, polar: Polar, entries: seq<(Key<real>, Row)>, target: seq<Key<real>>,
                   r: Result<seq<Cell<real, Row>>>)
    requires Polarable(rows)
    requires entries == PolarEntries(rows)
    requires target == Product(rows[0].time, polar.bearings, polar.ranges)
    requires r == Reindex(entries, target)
    ensures r.Ok? ==> forall p :: 0 <= p < |r.value| ==>
      var key := r.value[p].key;
      key.time == rows[0].time && key.a in polar.bearings && key.b in polar.ranges
    ensures r.Ok? ==> forall p :: 0 <= p < |r.value| && r.value[p].row.Some? ==>
      var row := r.value[p].row.value;
      row in rows && PolarKey(row) == r.value[p].key
  {
    if r.Ok? {
      forall p | 0 <= p < |r.value|
        ensures var key := r.value[p].key;
          key.time == rows[0].time && key.a in polar.bearings && key.b in polar.ranges
      {
        ProductMembers(rows[0].time, polar.bearings, polar.ranges, target[p]);
      }
      forall p | 0 <= p < |r.value| && r.value[p].row.Some?
        ensures var row := r.value[p].row.value;
          row in rows && PolarKey(row) == r.value[p].key
      {
        var e := (target[p], r.value[p].row.value);
        assert e in entries;
        var k :| 0 <= k < |entries| && entries[k] == e;
        assert rows[k] == e.1;
      }
    }
  }

  /** `reindex_df_by_range_bearing`: the grid fitted to the table, then the
      rows placed on it. */
  function ReindexByRangeBearing(rows: seq<Row>, angularRes: Option<real>, precision: Option<nat>,
                                 km: Option<Value>, maxRange: real, cells: Value)
    : (r: Result<seq<Cell<real, Row>>>)
    ensures PolarAxes(rows, angularRes, precision, km, maxRange, cells).Err? ==> r.Err?
    ensures PolarAxes(rows, angularRes, precision, km, maxRange, cells).Ok? ==>
      var polar := PolarAxes(rows, angularRes, precision, km, maxRange, cells).value;
      PolarFits(rows, polar, angularRes, precision, km, maxRange, cells) && r == PlaceOnPolarGrid(rows, polar)
  {
    var polar :- PolarAxes(rows, angularRes, precision, km, maxRange, cells);
    PlaceOnPolarGrid(rows, polar)
  }

  /* ----------------------------------------------------- placing the rows */

  /** Placing fails exactly when two rows share time, bearing and range. */
  lemma PolarDuplicates(rows: seq<Row>, polar: Polar)
    requires Polarable(rows)
    ensures PlaceOnPolarGrid(rows, polar).Err? <==>
      exists i, j :: 0 <= i < j < |rows| && rows[i].time == rows[j].time
        && rows[i].bear == rows[j].bear && rows[i].rnge == rows[j].rnge
  {
    var labels := Labels(PolarEntries(rows));
    assert forall k :: 0 <= k < |rows| ==> labels[k] == PolarKey(rows[k]);
  }

  /** The cell for the `i`-th bearing and the `j`-th range sits at position
      `i * |ranges| + j`. */
  lemma PolarCellAt(rows: seq<Row>, polar: Polar, i: nat, j: nat)
    requires Polarable(rows) && PlaceOnPolarGrid(rows, polar).Ok?
    requires i < |polar.bearings| && j < |polar.ranges|
    ensures i * |polar.ranges| + j < |PlaceOnPolarGrid(rows, polar).value|
    ensures PlaceOnPolarGrid(rows, polar).value[i * |polar.ranges| + j].key
      == Key(rows[0].time, polar.bearings[i], polar.ranges[j])
  {
    ProductAt(rows[0].time, polar.bearings, polar.ranges, i, j);
  }

  /** A row survives, in the cell of its label, exactly when it has the
      first row's time and both its bearing and its range are on the axes. */
  lemma PolarKeepsRow(rows: seq<Row>, polar: Polar, k: nat)
    requires Polarable(rows) && PlaceOnPolarGrid(rows, polar).Ok?
    requires k < |rows|
    ensures var cells := PlaceOnPolarGrid(rows, polar).value;
      ((rows[k].time == rows[0].time && rows[k].bear.value in polar.bearings && rows[k].rnge.value in polar.ranges)
       <==> exists p :: 0 <= p < |cells| && cells[p] == Cell(PolarKey(rows[k]), Some(rows[k])))
  {
    var entries := PolarEntries(rows);
    var target := Product(rows[0].time, polar.bearings, polar.ranges);
    var key := PolarKey(rows[k]);
    assert entries[k] == (key, rows[k]);
    ProductMembers(rows[0].time, polar.bearings, polar.ranges, key);
    ReindexKeeps(entries, target, entries[k]);
  }
}
