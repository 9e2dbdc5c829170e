/**
  The observation table of a radial file, one record per table row, and the
  two checks made on it before re-indexing (xradial/dataframe.py): the
  rejection of a table without any coordinates (`create_dataframe`) and the
  choice of coordinate system (`reindex_dataframe`).
 */
module Frame {
  import opened Results

  /** One observation: the file's time stamp, the four coordinate columns
      (`None` where the value is missing) and the remaining measured columns. */
  datatype Row = Row(
    time: seq<int>,
    lon: Option<real>,
    lat: Option<real>,
    bear: Option<real>,
    rnge: Option<real>,
    measured: seq<Option<real>>)

  /** The coordinate columns `LOND`, `LATD`, `BEAR` and `RNGE`. */
  datatype Coord = Lond | Latd | Bear | Rnge

  function Coordinate(row: Row, c: Coord): Option<real> {
    match c
    case Lond => row.lon
    case Latd => row.lat
    case Bear => row.bear
    case Rnge => row.rnge
  }

  /** `df[c]`: one column, in row order. */
  function Column(rows: seq<Row>, c: Coord): (col: seq<Option<real>>)
    ensures |col| == |rows|
    ensures forall k :: 0 <= k < |rows| ==> col[k] == Coordinate(rows[k], c)
  {
    seq(|rows|, k requires 0 <= k < |rows| => Coordinate(rows[k], c))
  }

  /** The values of a column, which must all be present: NumPy arithmetic on
      a missing value (NaN) makes every re-indexing step after it fail. */
  function Present(col: seq<Option<real>>): (r: Result<seq<real>>)
    ensures r.Ok? <==> forall k :: 0 <= k < |col| ==> col[k].Some?
    ensures r.Err? ==> r.error == BadValue
    ensures r.Ok? ==> |r.value| == |col| && forall k :: 0 <= k < |col| ==> col[k] == Some(r.value[k])
  {
    if forall k :: 0 <= k < |col| ==> col[k].Some? then
      Ok(seq(|col|, k requires 0 <= k < |col| => col[k].value))
    else Err(BadValue)
  }

  /* -------------------------------------------------- missing coordinates */

  predicate AllMissing(col: seq<Option<real>>) {
    forall k :: 0 <= k < |col| ==> col[k].None?
  }

  /**
    The check in `create_dataframe`: a table in which every `LATD` and every
    `LOND` is missing cannot be placed on any grid and is rejected. `np.all`
    of nothing is true, so an empty table is rejected too.
   */
  function CheckCoordinates(rows: seq<Row>): (r: Result<seq<Row>>)
    ensures r.Err? <==> AllMissing(Column(rows, Latd)) && AllMissing(Column(rows, Lond))
    ensures r.Err? ==> r.error == AllCoordinatesMissing
    ensures r.Ok? ==> r.value == rows
  {
    if AllMissing(Column(rows, Latd)) && AllMissing(Column(rows, Lond)) then Err(AllCoordinatesMissing)
    else Ok(rows)
  }

  /** The table is accepted exactly when some row carries a latitude or a
      longitude; in particular an empty table never is. */
  lemma {:induction false} CheckCoordinatesAccepts(rows: seq<Row>)
    ensures CheckCoordinates(rows).Ok? <==>
      exists k :: 0 <= k < |rows| && (rows[k].lat.Some? || rows[k].lon.Some?)
    ensures rows == [] ==> CheckCoordinates(rows).Err?
  {
    var lat := Column(rows, Latd);
    var lon := Column(rows, Lond);
    if CheckCoordinates(rows).Ok? {
      if AllMissing(lat) {
        var k :| 0 <= k < |lon| && lon[k].Some?;
        assert rows[k].lon.Some?;
      } else {
        var k :| 0 <= k < |lat| && lat[k].Some?;
        assert rows[k].lat.Some?;
      }
    }
  }

  /* ------------------------------------------------------------- selector */

  /** `Series.unique().size`: the number of distinct values, a missing value
      counting once. */
  function CountDistinct(col: seq<Option<real>>): (n: nat)
    ensures n <= |col|
    ensures |col| > 0 ==> n >= 1
  {
    DistinctBound(col);
    |set v | v in col|
  }

  lemma {:induction false} DistinctBound(col: seq<Option<real>>)
    ensures |set v | v in col| <= |col|
    ensures |col| > 0 ==> |set v | v in col| >= 1
  {
    if col != [] {
      DistinctBound(col[1..]);
      var tail := set v | v in col[1..];
      assert (set v | v in col) == tail + {col[0]} by {
        forall v | v in col ensures v in tail + {col[0]} {
          if v != col[0] {
            var k :| 0 <= k < |col| && col[k] == v;
            assert col[1..][k - 1] == v;
          }
        }
      }
      assert col[0] in (set v | v in col);
    }
  }

  /**
    The selector of `reindex_dataframe`: the table is put on a lat/lon grid
    when that grid has strictly fewer points than the range/bearing grid of
    the same data, and on the range/bearing grid otherwise.
   */
  predicate UseLatLon(rows: seq<Row>) {
    CountDistinct(Column(rows, Lond)) * CountDistinct(Column(rows, Latd))
      < CountDistinct(Column(rows, Bear)) * CountDistinct(Column(rows, Rnge))
  }
}
