/**
  Re-indexing onto a lat/lon grid (`reindex_df_by_lat_lon` in
  xradial/dataframe.py). Each axis is fitted to the sorted distinct values
  seen: its origin is the smallest one and its pitch the smallest gap between
  neighbours. A row goes to slot `floor((v - origin) / pitch)` on each axis;
  the number of slots reaches out to the edge of the radar's coverage, found
  by projecting the maximum range north and east of the radar's origin.
 */
module LatLon {
  import opened Results
  import opened Axes
  import opened Grid
  import opened Frame

  /**
    The geodesic destination `_rb2ll(lon0, lat0, km, bearing)` as
    `(lon, lat)`. Ellipsoidal geodesy is outside the model, so it is a
    parameter; the `Option` lets a caller model a projection that fails.
   */
  type Projection = (Option<real>, Option<real>, real, real) -> Option<(real, real)>

  /* ----------------------------------------------------------------- slots */

  /** The slot of value `v` on an axis with origin `lo` and pitch `gap`. */
  function Slot(v: real, lo: real, gap: real): int
    requires gap > 0.0
  {
    Floor((v - lo) / gap)
  }

  /** The origin of an axis is slot 0, and nothing at or above it has a
      negative slot. */
  lemma SlotOfOrigin(v: real, lo: real, gap: real)
    requires gap > 0.0
    ensures Slot(lo, lo, gap) == 0
    ensures v >= lo ==> Slot(v, lo, gap) >= 0
  {
    if v >= lo {
      assert (v - lo) / gap >= 0.0;
    }
  }

  /** Values at least one pitch apart land in different slots, in order. */
  lemma SlotsApart(v: real, w: real, lo: real, gap: real)
    requires gap > 0.0 && w - v >= gap
    ensures Slot(v, lo, gap) < Slot(w, lo, gap)
  {
    var x := (v - lo) / gap;
    var y := (w - lo) / gap;
    assert y - x == (w - v) / gap;
    assert (w - v) / gap >= 1.0;
  }

  /** The `k`-th point of the grid lands in slot `k`. */
  lemma SlotOfGridPoint(lo: real, gap: real, k: int)
    requires gap > 0.0
    ensures Slot(lo + k as real * gap, lo, gap) == k
  {
    assert (lo + k as real * gap - lo) / gap == k as real;
  }

  /* ------------------------------------------------------------- one axis */

  /** The origin and pitch fitted to the values of one axis. */
  datatype AxisFit = AxisFit(lo: real, gap: real)

  /**
    `np.min(unique)` and `np.min(np.diff(unique))`. With fewer than two
    distinct values there is no gap and `min` fails. The origin is the
    smallest value, the pitch is positive, any two different values are at
    least a pitch apart, and some two are exactly a pitch apart.
   */
  function FitAxis(values: seq<real>): (r: Result<AxisFit>)
    ensures r.Ok? <==> |Unique(values)| >= 2
    ensures r.Err? ==> r.error == BadValue
    ensures r.Ok? ==> r.value.gap > 0.0 && r.value.lo in values
    ensures r.Ok? ==> forall k :: 0 <= k < |values| ==> r.value.lo <= values[k]
    ensures r.Ok? ==> forall i, j :: 0 <= i < |values| && 0 <= j < |values| && values[i] < values[j] ==>
      values[j] - values[i] >= r.value.gap
    ensures r.Ok? ==> exists i, j :: 0 <= i < |values| && 0 <= j < |values| && values[j] - values[i] == r.value.gap
  {
    var u := Unique(values);
    var gap :- MinGap(u);
    FitAxisFacts(values, u, gap);
    Ok(AxisFit(u[0], gap))
  }

  lemma FitAxisFacts(values: seq<real>, u: seq<real>, gap: real)
    requires u == Unique(values) && MinGap(u) == Ok(gap)
    ensures u[0] in values
    ensures forall k :: 0 <= k < |values| ==> u[0] <= values[k]
    ensures forall i, j :: 0 <= i < |values| && 0 <= j < |values| && values[i] < values[j] ==>
      values[j] - values[i] >= gap
    ensures exists i, j :: 0 <= i < |values| && 0 <= j < |values| && values[j] - values[i] == gap
  {
    FitOrigin(values, u);
    forall i, j | 0 <= i < |values| && 0 <= j < |values| && values[i] < values[j]
      ensures values[j] - values[i] >= gap
    {
      FitApart(values, u, gap, i, j);
    }
    FitTight(values, u, gap);
  }

  lemma FitOrigin(values: seq<real>, u: seq<real>)
    requires u == Unique(values) && |u| > 0
    ensures u[0] in values
    ensures forall k :: 0 <= k < |values| ==> u[0] <= values[k]
  {
    assert u[0] in u;
    forall k | 0 <= k < |values| ensures u[0] <= values[k] {
      assert values[k] in u;
      var m :| 0 <= m < |u| && u[m] == values[k];
      assert m == 0 || u[0] < u[m];
    }
  }

  lemma FitApart(values: seq<real>, u: seq<real>, gap: real, i: nat, j: nat)
    requires u == Unique(values) && MinGap(u) == Ok(gap)
    requires i < |values| && j < |values| && values[i] < values[j]
    ensures values[j] - values[i] >= gap
  {
    assert values[i] in u && values[j] in u;
    var a :| 0 <= a < |u| && u[a] == values[i];
    var b :| 0 <= b < |u| && u[b] == values[j];
    assert a != b;
    assert a < b;
    SpreadApart(u, gap, a, b);
  }

  lemma FitTight(values: seq<real>, u: seq<real>, gap: real)
    requires u == Unique(values) && MinGap(u) == Ok(gap)
    ensures exists i, j :: 0 <= i < |values| && 0 <= j < |values| && values[j] - values[i] == gap
  {
    var k :| 0 <= k < |u| - 1 && u[k + 1] - u[k] == gap;
    assert u[k] in u && u[k + 1] in u;
    var i :| 0 <= i < |values| && values[i] == u[k];
    var j :| 0 <= j < |values| && values[j] == u[k + 1];
    assert values[j] - values[i] == gap;
  }

  /** `np.arange(n)` for an integer `n`: `0 .. n - 1`, empty when `n <= 0`. */
  function Range(n: int): (r: seq<int>)
    ensures |r| == if n > 0 then n else 0
    ensures forall k :: 0 <= k < |r| ==> r[k] == k
  {
    if n <= 0 then [] else seq(n, k requires 0 <= k < n => k)
  }

  lemma RangeMembers(n: int, x: int)
    ensures x in Range(n) <==> 0 <= x < n
  {
    if 0 <= x < n {
      assert Range(n)[x] == x;
    }
  }

  /* ---------------------------------------------------------------- layout */

  /** `n` slots of width `gap` from `lo` are the fewest that reach `edge`. */
  ghost predicate Reaches(n: int, lo: real, gap: real, edge: real) {
    n as real * gap >= edge - lo && (n - 1) as real * gap < edge - lo
  }

  /** The axis fitted to column `c`: it spans the column, and some two
      values are exactly a pitch apart, so the pitch is the smallest gap. */
  ghost predicate FitsColumn(rows: seq<Row>, c: Coord, fit: AxisFit) {
    SpansColumn(rows, c, fit) && PitchAttained(rows, c, fit)
  }

  /** Every row has a value in column `c`, none lies below the origin, some
      row lies on it, and different values are at least a pitch apart. */
  ghost predicate SpansColumn(rows: seq<Row>, c: Coord, fit: AxisFit) {
    && fit.gap > 0.0
    && (forall k :: 0 <= k < |rows| ==> Coordinate(rows[k], c).Some? && fit.lo <= Coordinate(rows[k], c).value)
    && (exists k :: 0 <= k < |rows| && Coordinate(rows[k], c) == Some(fit.lo))
    && (forall i, j ::
          (0 <= i < |rows| && 0 <= j < |rows|
           && Coordinate(rows[i], c).Some? && Coordinate(rows[j], c).Some?
           && Coordinate(rows[i], c).value < Coordinate(rows[j], c).value) ==>
          Coordinate(rows[j], c).value - Coordinate(rows[i], c).value >= fit.gap)
  }

  ghost predicate PitchAttained(rows: seq<Row>, c: Coord, fit: AxisFit) {
    exists i, j ::
      && 0 <= i < |rows| && 0 <= j < |rows|
      && Coordinate(rows[i], c).Some? && Coordinate(rows[j], c).Some?
      && Coordinate(rows[j], c).value - Coordinate(rows[i], c).value == fit.gap
  }

  lemma ColumnFit(rows: seq<Row>, c: Coord, vals: seq<real>, fit: AxisFit)
    requires Present(Column(rows, c)) == Ok(vals) && FitAxis(vals) == Ok(fit)
    ensures FitsColumn(rows, c, fit)
  {
    var col := Column(rows, c);
    assert forall k :: 0 <= k < |rows| ==> Coordinate(rows[k], c) == Some(vals[k]);
    var m :| 0 <= m < |vals| && vals[m] == fit.lo;
    assert Coordinate(rows[m], c) == Some(fit.lo);
    var i, j :| 0 <= i < |vals| && 0 <= j < |vals| && vals[j] - vals[i] == fit.gap;
    assert Coordinate(rows[i], c) == Some(vals[i]) && Coordinate(rows[j], c) == Some(vals[j]);
  }

  /** The fitted axes and the number of slots along each. */
  datatype Layout = Layout(lon: AxisFit, lat: AxisFit, nLon: int, nLat: int)

  /**
    The grid of `reindex_df_by_lat_lon`: both axes fitted to the (all
    present) coordinates, and on each axis the fewest slots that reach the
    edge of coverage, `ceil((edge - origin) / pitch)`, where the edge is the
    longitude reached 90° east and the latitude reached due north at the
    maximum range. The projections towards 180° and 270° are made too, so
    they must succeed as well, though their results are not used.
   */
  function LatLonLayout(rows: seq<Row>, olat: Option<real>, olon: Option<real>, maxRange: real, project: Projection)
    : (r: Result<Layout>)
    ensures r.Ok? <==>
      && Present(Column(rows, Latd)).Ok? && Present(Column(rows, Lond)).Ok?
      && |Unique(Present(Column(rows, Latd)).value)| >= 2
      && |Unique(Present(Column(rows, Lond)).value)| >= 2
      && project(olon, olat, maxRange, 0.0).Some? && project(olon, olat, maxRange, 90.0).Some?
      && project(olon, olat, maxRange, 180.0).Some? && project(olon, olat, maxRange, 270.0).Some?
    ensures r.Ok? ==>
      && Present(Column(rows, Latd)).Ok? && FitAxis(Present(Column(rows, Latd)).value) == Ok(r.value.lat)
      && Present(Column(rows, Lond)).Ok? && FitAxis(Present(Column(rows, Lond)).value) == Ok(r.value.lon)
    ensures r.Ok? ==> forall k :: 0 <= k < |rows| ==> rows[k].lat.Some? && rows[k].lon.Some?
    ensures r.Ok? ==> |rows| >= 2
    ensures r.Ok? ==> FitsColumn(rows, Latd, r.value.lat) && FitsColumn(rows, Lond, r.value.lon)
    ensures r.Ok? ==>
      var north := project(olon, olat, maxRange, 0.0);
      var east := project(olon, olat, maxRange, 90.0);
      && north.Some? && east.Some?
      && project(olon, olat, maxRange, 180.0).Some? && project(olon, olat, maxRange, 270.0).Some?
      && r.value.lat.gap > 0.0 && r.value.lon.gap > 0.0
      && Reaches(r.value.nLat, r.value.lat.lo, r.value.lat.gap, north.value.1)
      && Reaches(r.value.nLon, r.value.lon.lo, r.value.lon.gap, east.value.0)
  {
    var lats :- Present(Column(rows, Latd));
    var lons :- Present(Column(rows, Lond));
    var latFit :- FitAxis(lats);
    var lonFit :- FitAxis(lons);
    var south := project(olon, olat, maxRange, 180.0);
    var north := project(olon, olat, maxRange, 0.0);
    var west := project(olon, olat, maxRange, 270.0);
    var east := project(olon, olat, maxRange, 90.0);
    if south.None? || north.None? || west.None? || east.None? then Err(BadValue)
    else
      LayoutBounds(rows, lats, lons, latFit, lonFit);
      ColumnFit(rows, Latd, lats, latFit);
      ColumnFit(rows, Lond, lons, lonFit);
      Ok(Layout(lonFit, latFit, SlotCount(lonFit, east.value.0), SlotCount(latFit, north.value.1)))
  }

  /** `ceil((edge - lo) / gap)`: the fewest slots that reach `edge`. */
  function SlotCount(fit: AxisFit, edge: real): (n: int)
    requires fit.gap > 0.0
    ensures Reaches(n, fit.lo, fit.gap, edge)
  {
    CeilCovers(edge - fit.lo, fit.gap);
    Ceil((edge - fit.lo) / fit.gap)
  }

  lemma LayoutBounds(rows: seq<Row>, lats: seq<real>, lons: seq<real>, latFit: AxisFit, lonFit: AxisFit)
    requires Present(Column(rows, Latd)) == Ok(lats) && Present(Column(rows, Lond)) == Ok(lons)
    requires FitAxis(lats) == Ok(latFit)
    ensures forall k :: 0 <= k < |rows| ==> rows[k].lat.Some? && rows[k].lon.Some?
    ensures |rows| >= 2
  {
    var i, j :| 0 <= i < |lats| && 0 <= j < |lats| && lats[j] - lats[i] == latFit.gap;
    assert i != j;
    forall k | 0 <= k < |rows| ensures rows[k].lat.Some? && rows[k].lon.Some? {
      assert Column(rows, Latd)[k].Some? && Column(rows, Lond)[k].Some?;
    }
  }

  /** The label of a row: its time, then its longitude and latitude slots. */
  function LatLonKey(row: Row, layout: Layout): Key<int>
    requires row.lat.Some? && row.lon.Some?
    requires layout.lat.gap > 0.0 && layout.lon.gap > 0.0
  {
    Key(row.time, Slot(row.lon.value, layout.lon.lo, layout.lon.gap), Slot(row.lat.value, layout.lat.lo, layout.lat.gap))
  }

  /** The rows filed under their labels (`set_index([time, 'i', 'j'])`). */
  function LatLonEntries(rows: seq<Row>, layout: Layout): (es: seq<(Key<int>, Row)>)
    requires forall k :: 0 <= k < |rows| ==> rows[k].lat.Some? && rows[k].lon.Some?
    requires layout.lat.gap > 0.0 && layout.lon.gap > 0.0
    ensures |es| == |rows|
    ensures forall k :: 0 <= k < |rows| ==> es[k] == (LatLonKey(rows[k], layout), rows[k])
  {
    seq(|rows|, k requires 0 <= k < |rows| => (LatLonKey(rows[k], layout), rows[k]))
  }

  /** What placing rows on a layout needs: at least one row, every row with
      both coordinates, positive pitches. */
  predicate Placeable(rows: seq<Row>, layout: Layout) {
    && |rows| >= 1
    && (forall k :: 0 <= k < |rows| ==> rows[k].lat.Some? && rows[k].lon.Some?)
    && layout.lat.gap > 0.0 && layout.lon.gap > 0.0
  }

  /**
    The rows moved onto the dense grid `[t0] × lon slots × lat slots`, `t0`
    being the first row's time: one cell per slot pair, each holding the row
    with that label or nothing.
   */
  function PlaceOnGrid(rows: seq<Row>, layout: Layout): (r: Result<seq<Cell<int, Row>>>)
    requires Placeable(rows, layout)
    ensures r.Ok? ==> |r.value| == |Range(layout.nLon)| * |Range(layout.nLat)|
    ensures r.Ok? ==> forall p :: 0 <= p < |r.value| ==>
      var key := r.value[p].key;
      key.time == rows[0].time && 0 <= key.a < layout.nLon && 0 <= key.b < layout.nLat
    ensures r.Ok? ==> forall p :: 0 <= p < |r.value| && r.value[p].row.Some? ==>
      var row := r.value[p].row.value;
      row in rows && LatLonKey(row, layout) == r.value[p].key
  {
    var entries := LatLonEntries(rows, layout);
    var target := Product(rows[0].time, Range(layout.nLon), Range(layout.nLat));
    var r := Reindex(entries, target);
    LatLonCells(rows, layout, entries, target, r);
    r
  }

  /** `reindex_df_by_lat_lon`: the layout fitted to the table, then the
      rows placed on it. */
  function ReindexByLatLon(rows: seq<Row>, olat: Option<real>, olon: Option<real>, maxRange: real, project: Projection)
    : (r: Result<seq<Cell<int, Row>>>)
    ensures LatLonLayout(rows, olat, olon, maxRange, project).Err? ==> r.Err?
    ensures LatLonLayout(rows, olat, olon, maxRange, project).Ok? ==>
      var layout := LatLonLayout(rows, olat, olon, maxRange, project).value;
      Placeable(rows, layout) && r == PlaceOnGrid(rows, layout)
  {
    var layout :- LatLonLayout(rows, olat, olon, maxRange, project);
    PlaceOnGrid(rows, layout)
  }

  lemma LatLonCells(rows: seq<Row>, layout: Layout, entries: seq<(Key<int>, Row)>, target: seq<Key<int>>,
                    r: Result<seq<Cell<int, Row>>>)
    requires Placeable(rows, layout)
    requires entries == LatLonEntries(rows, layout)
    requires target == Product(rows[0].time, Range(layout.nLon), Range(layout.nLat))
    requires r == Reindex(entries, target)
    ensures r.Ok? ==> forall p :: 0 <= p < |r.value| ==>
      var key := r.value[p].key;
      key.time == rows[0].time && 0 <= key.a < layout.nLon && 0 <= key.b < layout.nLat
    ensures r.Ok? ==> forall p :: 0 <= p < |r.value| && r.value[p].row.Some? ==>
      var row := r.value[p].row.value;
      row in rows && LatLonKey(row, layout) == r.value[p].key
  {
    if r.Ok? {
      forall p | 0 <= p < |r.value|
        ensures var key := r.value[p].key;
          key.time == rows[0].time && 0 <= key.a < layout.nLon && 0 <= key.b < layout.nLat
      {
        var key := target[p];
        ProductMembers(rows[0].time, Range(layout.nLon), Range(layout.nLat), key);
        RangeMembers(layout.nLon, key.a);
        RangeMembers(layout.nLat, key.b);
      }
      forall p | 0 <= p < |r.value| && r.value[p].row.Some?
        ensures var row := r.value[p].row.value;
          row in rows && LatLonKey(row, layout) == r.value[p].key
      {
        var e := (target[p], r.value[p].row.value);
        assert e in entries;
        var k :| 0 <= k < |entries| && entries[k] == e;
        assert rows[k] == e.1;
      }
    }
  }

  /* ---------------------------------------------------- properties of slots */

  /** On a fitted layout every row gets non-negative slots, and the rows at
      the two origins get slot 0 on that axis. */
  lemma LatLonSlotsNonnegative(rows: seq<Row>, layout: Layout)
    requires SpansColumn(rows, Latd, layout.lat) && SpansColumn(rows, Lond, layout.lon)
    ensures forall k :: 0 <= k < |rows| ==> LatLonKey(rows[k], layout).a >= 0 && LatLonKey(rows[k], layout).b >= 0
    ensures exists k :: 0 <= k < |rows| && LatLonKey(rows[k], layout).a == 0
    ensures exists k :: 0 <= k < |rows| && LatLonKey(rows[k], layout).b == 0
  {
    forall k | 0 <= k < |rows| ensures LatLonKey(rows[k], layout).a >= 0 && LatLonKey(rows[k], layout).b >= 0 {
      assert Coordinate(rows[k], Lond).Some? && Coordinate(rows[k], Latd).Some?;
      SlotOfOrigin(rows[k].lon.value, layout.lon.lo, layout.lon.gap);
      SlotOfOrigin(rows[k].lat.value, layout.lat.lo, layout.lat.gap);
    }
    var i :| 0 <= i < |rows| && Coordinate(rows[i], Lond) == Some(layout.lon.lo);
    SlotOfOrigin(layout.lon.lo, layout.lon.lo, layout.lon.gap);
    assert LatLonKey(rows[i], layout).a == 0;
    var j :| 0 <= j < |rows| && Coordinate(rows[j], Latd) == Some(layout.lat.lo);
    SlotOfOrigin(layout.lat.lo, layout.lat.lo, layout.lat.gap);
    assert LatLonKey(rows[j], layout).b == 0;
  }

  /** Different values on a fitted axis get different slots, in the same order. */
  lemma SlotsOrdered(rows: seq<Row>, c: Coord, fit: AxisFit, i: nat, j: nat)
    requires SpansColumn(rows, c, fit)
    requires i < |rows| && j < |rows|
    requires Coordinate(rows[i], c).value < Coordinate(rows[j], c).value
    ensures Slot(Coordinate(rows[i], c).value, fit.lo, fit.gap) < Slot(Coordinate(rows[j], c).value, fit.lo, fit.gap)
  {
    SlotsApart(Coordinate(rows[i], c).value, Coordinate(rows[j], c).value, fit.lo, fit.gap);
  }

  /** On a fitted layout two rows share a label exactly when they share time,
      latitude and longitude; so placing fails exactly when the table repeats
      a position. */
  lemma LatLonDuplicates(rows: seq<Row>, layout: Layout)
    requires |rows| >= 1
    requires SpansColumn(rows, Latd, layout.lat) && SpansColumn(rows, Lond, layout.lon)
    ensures Placeable(rows, layout)
    ensures PlaceOnGrid(rows, layout).Err? <==>
      exists i, j :: 0 <= i < j < |rows| && rows[i].time == rows[j].time
        && rows[i].lat == rows[j].lat && rows[i].lon == rows[j].lon
  {
    assert forall k :: 0 <= k < |rows| ==> Coordinate(rows[k], Lond).Some? && Coordinate(rows[k], Latd).Some?;
    var entries := LatLonEntries(rows, layout);
    var labels := Labels(entries);
    forall i, j | 0 <= i < |rows| && 0 <= j < |rows| && labels[i] == labels[j]
      ensures rows[i].lat == rows[j].lat && rows[i].lon == rows[j].lon
    {
      if rows[i].lat.value < rows[j].lat.value {
        SlotsOrdered(rows, Latd, layout.lat, i, j);
      } else if rows[j].lat.value < rows[i].lat.value {
        SlotsOrdered(rows, Latd, layout.lat, j, i);
      }
      if rows[i].lon.value < rows[j].lon.value {
        SlotsOrdered(rows, Lond, layout.lon, i, j);
      } else if rows[j].lon.value < rows[i].lon.value {
        SlotsOrdered(rows, Lond, layout.lon, j, i);
      }
    }
  }

  /** The cell for slot pair `(i, j)` sits at position `i * nLat + j`. */
  lemma LatLonCellAt(rows: seq<Row>, layout: Layout, i: nat, j: nat)
    requires Placeable(rows, layout) && PlaceOnGrid(rows, layout).Ok?
    requires i < layout.nLon && j < layout.nLat
    ensures i * layout.nLat + j < |PlaceOnGrid(rows, layout).value|
    ensures PlaceOnGrid(rows, layout).value[i * layout.nLat + j].key == Key(rows[0].time, i, j)
  {
    assert |Range(layout.nLat)| == layout.nLat;
    ProductAt(rows[0].time, Range(layout.nLon), Range(layout.nLat), i, j);
  }

  /** A row whose slots lie inside the grid is in the cell of its label;
      a row outside the grid is dropped. */
  lemma LatLonKeepsRow(rows: seq<Row>, layout: Layout, k: nat)
    requires Placeable(rows, layout) && PlaceOnGrid(rows, layout).Ok?
    requires k < |rows|
    ensures var cells := PlaceOnGrid(rows, layout).value;
      var key := LatLonKey(rows[k], layout);
      ((rows[k].time == rows[0].time && 0 <= key.a < layout.nLon && 0 <= key.b < layout.nLat)
       <==> exists p :: 0 <= p < |cells| && cells[p] == Cell(key, Some(rows[k])))
  {
    var entries := LatLonEntries(rows, layout);
    var target := Product(rows[0].time, Range(layout.nLon), Range(layout.nLat));
    var key := LatLonKey(rows[k], layout);
    assert entries[k] == (key, rows[k]);
    ProductMembers(rows[0].time, Range(layout.nLon), Range(layout.nLat), key);
    RangeMembers(layout.nLon, key.a);
    RangeMembers(layout.nLat, key.b);
    ReindexKeeps(entries, target, entries[k]);
  }
}
