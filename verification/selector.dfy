/**
  `reindex_dataframe` (xradial/dataframe.py): the maximum range from the
  metadata, then the table re-indexed on whichever grid is smaller: lat/lon,
  or range/bearing with the parameters that grid needs read from the
  metadata.
 */
module Selector {
  import opened Results
  import opened Metadata
  import opened Grid
  import opened Frame
  import opened Params
  import opened LatLon
  import opened RangeBearing

  /** The re-indexed table, on one of the two grids. */
  datatype Reindexed =
    | ByLatLon(latLonCells: seq<Cell<int, Row>>)
    | ByRangeBearing(polarCells: seq<Cell<real, Row>>)

  /** The parameters of the range/bearing grid, read from the metadata the
      way `reindex_dataframe` reads them. */
  datatype PolarParams = PolarParams(
    angularRes: Option<real>, precision: Option<nat>, km: Option<Value>, cells: Value)

  function ReadPolarParams(md: Metadata, maxRange: real, nums: Numerals): (r: Result<PolarParams>)
    ensures r.Ok? ==> AngularResolution(md, nums) == Ok(r.value.angularRes)
    ensures r.Ok? ==> RangeResStartEnd(md).Ok? && r.value.km == RangeResStartEnd(md).value.km
    ensures r.Ok? ==>
      var setup := RangeResStartEnd(md).value;
      && r.value.precision == Precision(setup.km, setup.m, nums)
      && RangeCells(md, maxRange, setup.km) == Ok(r.value.cells)
    ensures AngularResolution(md, nums).Err? || RangeResStartEnd(md).Err? ==> r.Err?
    ensures r.Ok? <==>
      && AngularResolution(md, nums).Ok? && RangeResStartEnd(md).Ok?
      && RangeCells(md, maxRange, RangeResStartEnd(md).value.km).Ok?
  {
    var angularRes :- AngularResolution(md, nums);
    var setup :- RangeResStartEnd(md);
    var cells :- RangeCells(md, maxRange, setup.km);
    Ok(PolarParams(angularRes, Precision(setup.km, setup.m, nums), setup.km, cells))
  }

  /**
    The table goes on the lat/lon grid exactly when that grid has strictly
    fewer points than the range/bearing one; an unusable maximum range fails
    before either is tried, and the range/bearing parameters are read only
    when that grid is chosen.
   */
  function ReindexFrame(rows: seq<Row>, md: Metadata, olat: Option<real>, olon: Option<real>,
                        nums: Numerals, project: Projection): (r: Result<Reindexed>)
    ensures MaxRange(md).Err? ==> r.Err?
    ensures r.Ok? ==> (r.value.ByLatLon? <==> UseLatLon(rows))
    ensures r.Ok? && r.value.ByLatLon? ==>
      ReindexByLatLon(rows, olat, olon, MaxRange(md).value, project) == Ok(r.value.latLonCells)
    ensures r.Ok? && r.value.ByRangeBearing? ==>
      var ps := ReadPolarParams(md, MaxRange(md).value, nums);
      && ps.Ok?
      && ReindexByRangeBearing(rows, ps.value.angularRes, ps.value.precision, ps.value.km,
                               MaxRange(md).value, ps.value.cells) == Ok(r.value.polarCells)
    ensures MaxRange(md).Ok? && UseLatLon(rows) ==>
      (r.Ok? <==> ReindexByLatLon(rows, olat, olon, MaxRange(md).value, project).Ok?)
    ensures MaxRange(md).Ok? && !UseLatLon(rows) ==>
      (r.Ok? <==>
        var ps := ReadPolarParams(md, MaxRange(md).value, nums);
        && ps.Ok?
        && ReindexByRangeBearing(rows, ps.value.angularRes, ps.value.precision, ps.value.km,
                                 MaxRange(md).value, ps.value.cells).Ok?)
  {
    var maxRange :- MaxRange(md);
    if UseLatLon(rows) then
      var cells :- ReindexByLatLon(rows, olat, olon, maxRange, project);
      Ok(ByLatLon(cells))
    else
      var ps :- ReadPolarParams(md, maxRange, nums);
      var cells :- ReindexByRangeBearing(rows, ps.angularRes, ps.precision, ps.km, maxRange, ps.cells);
      Ok(ByRangeBearing(cells))
  }

  /** When both grids have the same number of points the range/bearing grid
      is chosen: the lat/lon one must be strictly smaller. */
  lemma TieGoesToRangeBearing(rows: seq<Row>, md: Metadata, olat: Option<real>, olon: Option<real>,
                              nums: Numerals, project: Projection)
    requires CountDistinct(Column(rows, Lond)) * CountDistinct(Column(rows, Latd))
      == CountDistinct(Column(rows, Bear)) * CountDistinct(Column(rows, Rnge))
    requires ReindexFrame(rows, md, olat, olon, nums, project).Ok?
    ensures ReindexFrame(rows, md, olat, olon, nums, project).value.ByRangeBearing?
  {
  }
}
