/**
  The accessors that read radar parameters out of the metadata dictionary
  (xradial/utils.py): the maximum range, the range resolution and its
  precision, the number of range cells, the time stamp, the origin, the
  angular resolution and the antenna bearing.
 */
module Params {
  import opened Results
  import opened Text
  import opened Metadata
  import opened Axes

  /** A metadata value as a number, if it is one. */
  function AsReal(v: Value): (r: Option<real>)
    ensures r.Some? <==> !v.Str?
    ensures IsInt(v) ==> r == Some(v.i as real)
    ensures v.Num? ==> r == Some(v.x)
  {
    match v
    case Int(i) => Some(i as real)
    case NpInt(i) => Some(i as real)
    case Num(x) => Some(x)
    case Str(_) => None
  }

  /** An optional value as a number, if it is present and is one. */
  function OptReal(v: Option<Value>): (r: Option<real>)
    ensures r.Some? <==> IsNumber(v)
  {
    if v.Some? then AsReal(v.value) else None
  }

  /* ---------------------------------------------------------- max range */

  const FreqKey := "TransmitCenterFreqMHz"
  const RangeEndKey := "RangeEnd"
  const RangeKmKey := "RangeResolutionKMeters"
  const RangeMKey := "RangeResolutionMeters"

  /** The usable ranges, in km, of the four common HF-radar bands. */
  const Ladder: seq<real> := [60.0, 125.0, 250.0, 500.0]

  /** `np.argwhere(ladder > x).min()`: the first position holding a value
      above `x`. `min` of an empty array fails. */
  function FirstAbove(ladder: seq<real>, x: real): (r: Result<nat>)
    ensures r.Ok? <==> exists k :: 0 <= k < |ladder| && ladder[k] > x
    ensures r.Err? ==> r.error == BadValue
    ensures r.Ok? ==> r.value < |ladder| && ladder[r.value] > x
    ensures r.Ok? ==> forall k :: 0 <= k < r.value ==> ladder[k] <= x
  {
    if ladder == [] then Err(BadValue)
    else if ladder[0] > x then Ok(0)
    else
      var r := FirstAbove(ladder[1..], x);
      assert forall k :: 1 <= k < |ladder| ==> ladder[k] == ladder[1..][k - 1];
      if r.Err? then Err(BadValue) else Ok(1 + r.value)
  }

  /** The ladder is increasing, so the first value above `x` is the smallest
      one above it; there is one exactly when `x` is below 500 km. */
  lemma SnapUp(x: real)
    ensures FirstAbove(Ladder, x).Ok? <==> x < 500.0
    ensures FirstAbove(Ladder, x).Ok? ==>
      var v := Ladder[FirstAbove(Ladder, x).value];
      v > x && forall w :: w in Ladder && w > x ==> v <= w
  {
    assert Ladder[3] == 500.0;
    assert Increasing(Ladder);
  }

  /**
    `calc_max_range`: with no transmit frequency but both `RangeEnd` and
    `RangeResolutionKMeters`, the smallest ladder value above their product
    (an error from 500 km up); otherwise with a frequency, `2000 / freq`
    (range times frequency is about 2000 km·MHz); otherwise 500 km.
    Non-numeric operands fail, and so does a zero frequency.
   */
  function MaxRange(md: Metadata): (r: Result<real>)
    ensures FreqKey in md ==>
      (r.Ok? <==> OptReal(Get(md, FreqKey)).Some? && OptReal(Get(md, FreqKey)).value != 0.0)
    ensures FreqKey in md && r.Ok? ==> r.value * OptReal(Get(md, FreqKey)).value == 2000.0
    ensures FreqKey !in md && RangeEndKey in md && RangeKmKey in md ==>
      var e := OptReal(Get(md, RangeEndKey));
      var k := OptReal(Get(md, RangeKmKey));
      (r.Ok? <==> e.Some? && k.Some? && e.value * k.value < 500.0)
      && (r.Ok? ==> r.value in Ladder && r.value > e.value * k.value
                    && forall w :: w in Ladder && w > e.value * k.value ==> r.value <= w)
    ensures FreqKey !in md && (RangeEndKey !in md || RangeKmKey !in md) ==> r == Ok(500.0)
    ensures r.Err? ==> r.error in {WrongType, BadValue, DivisionByZero}
  {
    if FreqKey !in md && RangeEndKey in md && RangeKmKey in md then
      match (AsReal(md[RangeEndKey]), AsReal(md[RangeKmKey]))
      case (Some(e), Some(k)) =>
        assert OptReal(Get(md, RangeEndKey)) == Some(e) && OptReal(Get(md, RangeKmKey)) == Some(k);
        SnapUp(e * k);
        var i := FirstAbove(Ladder, e * k);
        assert i.Err? ==> e * k >= 500.0;
        assert i.Ok? ==> e * k < 500.0;
        var r: Result<real> := if i.Err? then Err(BadValue) else Ok(Ladder[i.value]);
        assert r.Ok? <==> e * k < 500.0;
        assert OptReal(Get(md, RangeEndKey)).value * OptReal(Get(md, RangeKmKey)).value == e * k;
        r
      case _ => Err(WrongType)
    else if FreqKey in md then
      match AsReal(md[FreqKey])
      case Some(f) => if f == 0.0 then Err(DivisionByZero) else Ok(2000.0 / f)
      case None => Err(WrongType)
    else
      Ok(Ladder[|Ladder| - 1])
  }

  /** Without a transmit frequency the maximum range is always a ladder value. */
  lemma MaxRangeOnLadder(md: Metadata)
    requires FreqKey !in md
    requires MaxRange(md).Ok?
    ensures MaxRange(md).value in Ladder
  {
  }

  /** A 4.513 MHz transmitter reaches about 443.164 km. */
  lemma MaxRangeOfFrequency(md: Metadata)
    requires FreqKey in md && md[FreqKey] == Num(4.513)
    ensures MaxRange(md).Ok?
    ensures 443.164 < MaxRange(md).value < 443.1642
  {
  }

  /** 35 cells of 5.8249 km (203.87 km) round up to the 250 km band. */
  lemma MaxRangeOfCells(md: Metadata)
    requires FreqKey !in md && RangeEndKey in md && RangeKmKey in md
    requires md[RangeEndKey] == Int(35) && md[RangeKmKey] == Num(5.8249)
    ensures MaxRange(md) == Ok(250.0)
  {
    assert Ladder[2] == 250.0;
  }

  /* ---------------------------------------------------- range resolution */

  /** The range start, end and resolutions as read from the metadata. */
  datatype RangeSetup = RangeSetup(
    start: Option<Value>, end: Option<Value>, km: Option<Value>, m: Option<Value>)

  /**
    `get_range_res_start_end`: fails unless one of the two resolutions is a
    Python `int` or a float (so a NumPy `int64` read from a file does not
    pass on its own); when the km resolution is falsy and the metre one truthy, the km
    one becomes metres / 1000 (a non-numeric metre value cannot be divided).
    Everything else passes through.
   */
  function RangeResStartEnd(md: Metadata): (r: Result<RangeSetup>)
    ensures var km := Get(md, RangeKmKey); var m := Get(md, RangeMKey);
      r.Ok? <==> (IsPyNumber(km) || IsPyNumber(m)) && (Truthy(km) || !Truthy(m) || IsNumber(m))
    ensures r.Err? ==> r.error in {BadValue, WrongType}
    ensures !IsPyNumber(Get(md, RangeKmKey)) && !IsPyNumber(Get(md, RangeMKey)) ==> r == Err(BadValue)
    ensures r.Ok? ==>
      && r.value.start == Get(md, "RangeStart")
      && r.value.end == Get(md, RangeEndKey)
      && r.value.m == Get(md, RangeMKey)
    ensures r.Ok? && (Truthy(Get(md, RangeKmKey)) || !Truthy(Get(md, RangeMKey))) ==>
      r.value.km == Get(md, RangeKmKey)
    ensures r.Ok? && !Truthy(Get(md, RangeKmKey)) && Truthy(Get(md, RangeMKey)) ==>
      r.value.km.Some? && r.value.km.value.Num?
      && r.value.km.value.x * 1000.0 == OptReal(Get(md, RangeMKey)).value
  {
    var km := Get(md, RangeKmKey);
    var m := Get(md, RangeMKey);
    if !(IsPyNumber(km) || IsPyNumber(m)) then Err(BadValue)
    else if !Truthy(km) && Truthy(m) then
      match AsReal(m.value)
      case Some(meters) => Ok(RangeSetup(Get(md, "RangeStart"), Get(md, RangeEndKey), Some(Num(meters / 1000.0)), m))
      case None => Err(WrongType)
    else Ok(RangeSetup(Get(md, "RangeStart"), Get(md, RangeEndKey), km, m))
  }

  /** After the fallback the km resolution is usable exactly when either of
      the two given resolutions was. */
  lemma RangeKmTruthy(md: Metadata)
    requires RangeResStartEnd(md).Ok?
    ensures Truthy(RangeResStartEnd(md).value.km)
      <==> Truthy(Get(md, RangeKmKey)) || Truthy(Get(md, RangeMKey))
  {
  }

  /** Only a metre resolution of 5000.8249 gives 5.0008249 km. */
  lemma RangeFromMeters(md: Metadata)
    requires RangeKmKey !in md && RangeMKey in md && md[RangeMKey] == Num(5000.8249)
    ensures RangeResStartEnd(md).Ok?
    ensures RangeResStartEnd(md).value.km == Some(Num(5.0008249))
    ensures RangeResStartEnd(md).value.m == Some(Num(5000.8249))
  {
  }

  /**
    A km resolution that header text coerces to an integer, with no metre
    resolution, is rejected, because a NumPy `int64` is not an `int`; the same
    number as a Python `int` passes.
   */
  lemma FileIntegerResolutionRejected(md: Metadata, s: string, nums: Numerals)
    requires RangeKmKey in md && md[RangeKmKey] == ToNumeric(s, nums)
    requires RangeMKey !in md && nums.parseInt(s).Some?
    ensures RangeResStartEnd(md) == Err(BadValue)
    ensures RangeResStartEnd(md[RangeKmKey := Int(nums.parseInt(s).value)]).Ok?
  {
  }

  /* ---------------------------------------------------------- precision */

  /** `str(v)`; the printing of floats is a parameter. */
  function Show(v: Value, nums: Numerals): string {
    match v
    case Str(s) => s
    case Int(i) => ShowInt(i)
    case NpInt(i) => ShowInt(i)
    case Num(x) => nums.showFloat(x)
  }

  /** `len(str(v).split('.')[-1])`. */
  function DecimalsOf(v: Value, nums: Numerals): (n: nat)
    ensures var t := Show(v, nums);
      n <= |t| && '.' !in t[|t| - n..]
      && ('.' in t ==> n < |t| && t[|t| - n - 1] == '.')
      && ('.' !in t ==> n == |t|)
  {
    |LastPart(Show(v, nums), '.')|
  }

  /**
    `get_range_resolution_precision`: the number of characters after the
    last `.` in the text of the km resolution if that is truthy, else of the
    metre resolution if that is truthy, else nothing.
   */
  function Precision(km: Option<Value>, m: Option<Value>, nums: Numerals): (r: Option<nat>)
    ensures r.Some? <==> Truthy(km) || Truthy(m)
    ensures Truthy(km) ==> r == Some(DecimalsOf(km.value, nums))
    ensures !Truthy(km) && Truthy(m) ==> r == Some(DecimalsOf(m.value, nums))
  {
    if Truthy(km) then Some(DecimalsOf(km.value, nums))
    else if Truthy(m) then Some(DecimalsOf(m.value, nums))
    else None
  }

  /** An integer resolution prints without a `.`, so its whole text counts. */
  lemma PrecisionOfInt(v: Value, nums: Numerals)
    requires IsInt(v) && v.i != 0
    ensures Precision(Some(v), None, nums) == Some(|ShowInt(v.i)|)
  {
  }

  /** A resolution printed as `5.8249` has precision 4. */
  lemma PrecisionOfText(x: real, nums: Numerals)
    requires x != 0.0 && nums.showFloat(x) == "5.8249"
    ensures Precision(Some(Num(x)), None, nums) == Some(4)
  {
    var t := "5.8249";
    assert Show(Num(x), nums) == t;
    assert t[1] == '.';
    DotAtOne(t, DecimalsOf(Num(x), nums));
  }

  /** In `5.8249` the only `.` is the second character, so four follow it. */
  lemma DotAtOne(t: string, n: nat)
    requires t == "5.8249" && n < |t| && t[|t| - n - 1] == '.'
    ensures n == 4
  {
    assert t[0] != '.' && t[2] != '.' && t[3] != '.' && t[4] != '.' && t[5] != '.';
  }

  /* --------------------------------------------------------- range cells */

  /**
    `get_range_cells`: a truthy `RangeCells` entry is used unchanged;
    otherwise the fewest cells of the km resolution that cover the maximum
    range, `ceil(max_range / km)`. A missing, textual or zero km resolution
    cannot be divided by.
   */
  function RangeCells(md: Metadata, maxRange: real, km: Option<Value>): (r: Result<Value>)
    ensures Truthy(Get(md, "RangeCells")) ==> r == Ok(md["RangeCells"])
    ensures !Truthy(Get(md, "RangeCells")) ==>
      (r.Ok? <==> OptReal(km).Some? && OptReal(km).value != 0.0)
    ensures !Truthy(Get(md, "RangeCells")) && r.Ok? && OptReal(km).value > 0.0 ==>
      var w := OptReal(km).value;
      r.value.Int? && r.value.i as real * w >= maxRange && (r.value.i - 1) as real * w < maxRange
    ensures r.Err? ==> r.error in {WrongType, DivisionByZero}
  {
    var rc := Get(md, "RangeCells");
    if Truthy(rc) then Ok(rc.value)
    else
      match OptReal(km)
      case None => Err(WrongType)
      case Some(w) =>
        if w == 0.0 then Err(DivisionByZero)
        else
          var n := Ceil(maxRange / w);
          assert w > 0.0 ==> n as real * w >= maxRange && (n - 1) as real * w < maxRange by {
            if w > 0.0 {
              CeilCovers(maxRange, w);
            }
          }
          Ok(Int(n))
  }

  /** With 500 km to cover in cells of 5.8249 km, 86 cells are needed. */
  lemma RangeCellsComputed(md: Metadata)
    requires "RangeCells" !in md
    ensures RangeCells(md, 500.0, Some(Num(5.8249))) == Ok(Int(86))
  {
    var n := Ceil(500.0 / 5.8249);
    assert 85.0 < 500.0 / 5.8249 <= 86.0;
  }

  /* ------------------------------------------------------ token accessors */

  /** `list(map(int, ws))`, failing on the first token that is not an integer. */
  function ParseInts(ws: seq<string>, nums: Numerals): (r: Option<seq<int>>)
    ensures r.Some? <==> forall k :: 0 <= k < |ws| ==> nums.parseInt(ws[k]).Some?
    ensures r.Some? ==> |r.value| == |ws|
    ensures r.Some? ==> forall k :: 0 <= k < |ws| ==> nums.parseInt(ws[k]) == Some(r.value[k])
  {
    if ws == [] then Some([])
    else
      match nums.parseInt(ws[0])
      case None => None
      case Some(i) =>
        var rest := ParseInts(ws[1..], nums);
        assert forall k :: 1 <= k < |ws| ==> ws[k] == ws[1..][k - 1];
        if rest.None? then None else Some([i] + rest.value)
  }

  /**
    `create_time`: the whitespace tokens of `TimeStamp`, each read as an
    integer, are the arguments of `datetime`, which takes three to seven of
    them. A missing key, a non-text value, a token that is not an integer
    and a wrong count all fail. Calendar validity is not checked.
   */
  function CreateTime(md: Metadata, nums: Numerals): (r: Result<seq<int>>)
    ensures "TimeStamp" !in md ==> r == Err(KeyMissing("TimeStamp"))
    ensures "TimeStamp" in md && !md["TimeStamp"].Str? ==> r == Err(WrongType)
    ensures r.Ok? <==>
      "TimeStamp" in md && md["TimeStamp"].Str?
      && var ws := Words(md["TimeStamp"].s);
         3 <= |ws| <= 7 && forall k :: 0 <= k < |ws| ==> nums.parseInt(ws[k]).Some?
    ensures r.Ok? ==>
      var ws := Words(md["TimeStamp"].s);
      |r.value| == |ws| && forall k :: 0 <= k < |ws| ==> nums.parseInt(ws[k]) == Some(r.value[k])
  {
    if "TimeStamp" !in md then Err(KeyMissing("TimeStamp"))
    else
      match md["TimeStamp"]
      case Str(s) =>
        var fields := ParseInts(Words(s), nums);
        if fields.None? then Err(BadValue)
        else if 3 <= |fields.value| <= 7 then Ok(fields.value)
        else Err(WrongType)
      case _ => Err(WrongType)
  }

  /** A time stamp written as integer tokens separated by blanks reads back
      as exactly those integers. */
  lemma {:induction false} CreateTimeOfTokens(md: Metadata, ts: seq<string>, fields: seq<int>, nums: Numerals)
    requires forall k :: 0 <= k < |ts| ==> ts[k] != [] && NoSpace(ts[k])
    requires 3 <= |ts| <= 7 && |fields| == |ts|
    requires forall k :: 0 <= k < |ts| ==> nums.parseInt(ts[k]) == Some(fields[k])
    requires "TimeStamp" in md && md["TimeStamp"] == Str(Unwords(ts))
    ensures CreateTime(md, nums) == Ok(fields)
  {
    WordsUnwords(ts);
    ParseIntsOf(ts, fields, nums);
    CreateTimeOfWords(md, ts, fields, nums);
  }

  /** `CreateTime` on a time stamp whose tokens read as `fields`. */
  lemma CreateTimeOfWords(md: Metadata, ws: seq<string>, fields: seq<int>, nums: Numerals)
    requires "TimeStamp" in md && md["TimeStamp"].Str? && Words(md["TimeStamp"].s) == ws
    requires ParseInts(ws, nums) == Some(fields) && 3 <= |fields| <= 7
    ensures CreateTime(md, nums) == Ok(fields)
  {
  }

  /** Tokens that each read as the matching integer of `fields` read as
      `fields`. */
  lemma ParseIntsOf(ws: seq<string>, fields: seq<int>, nums: Numerals)
    requires |fields| == |ws|
    requires forall k :: 0 <= k < |ws| ==> nums.parseInt(ws[k]) == Some(fields[k])
    ensures ParseInts(ws, nums) == Some(fields)
  {
    var p := ParseInts(ws, nums);
    assert p.Some? && |p.value| == |fields|;
    assert p.value == fields;
  }

  /** `list(map(float, ws))`, failing on the first token that is not a number. */
  function ParseFloats(ws: seq<string>, nums: Numerals): (r: Option<seq<real>>)
    ensures r.Some? <==> forall k :: 0 <= k < |ws| ==> nums.parseFloat(ws[k]).Some?
    ensures r.Some? ==> |r.value| == |ws|
    ensures r.Some? ==> forall k :: 0 <= k < |ws| ==> nums.parseFloat(ws[k]) == Some(r.value[k])
  {
    if ws == [] then Some([])
    else
      match nums.parseFloat(ws[0])
      case None => None
      case Some(x) =>
        var rest := ParseFloats(ws[1..], nums);
        assert forall k :: 1 <= k < |ws| ==> ws[k] == ws[1..][k - 1];
        if rest.None? then None else Some([x] + rest.value)
  }

  /**
    `get_olat_olon` with the unpacking `olat, olon = ...` of its caller: the
    whitespace tokens of `Origin` read as floats, which must be exactly two
    (latitude, then longitude). Without `Origin` both are `None`.
   */
  function Origin(md: Metadata, nums: Numerals): (r: Result<(Option<real>, Option<real>)>)
    ensures "Origin" !in md ==> r == Ok((None, None))
    ensures "Origin" in md ==>
      (r.Ok? <==>
        && md["Origin"].Str?
        && var ws := Words(md["Origin"].s);
           |ws| == 2 && nums.parseFloat(ws[0]).Some? && nums.parseFloat(ws[1]).Some?)
    ensures "Origin" in md && r.Ok? ==>
      var ws := Words(md["Origin"].s);
      r.value == (nums.parseFloat(ws[0]), nums.parseFloat(ws[1]))
  {
    if "Origin" !in md then Ok((None, None))
    else
      match md["Origin"]
      case Str(s) => FloatPair(Words(s), nums)
      case _ => Err(WrongType)
  }

  /** `olat, olon = list(map(float, ws))`: exactly two tokens, both floats. */
  function FloatPair(ws: seq<string>, nums: Numerals): (r: Result<(Option<real>, Option<real>)>)
    ensures r.Ok? <==> |ws| == 2 && nums.parseFloat(ws[0]).Some? && nums.parseFloat(ws[1]).Some?
    ensures r.Ok? ==> r.value == (nums.parseFloat(ws[0]), nums.parseFloat(ws[1]))
    ensures r.Err? ==> r.error == BadValue
  {
    var xs := ParseFloats(ws, nums);
    if xs.Some? && |xs.value| == 2 then Ok((Some(xs.value[0]), Some(xs.value[1])))
    else Err(BadValue)
  }

  /** `'<lat><blanks><lon>'` reads back as the pair of its two numbers,
      whatever the run of blanks between them. */
  lemma OriginOfPair(md: Metadata, lat: string, blanks: string, lon: string, nums: Numerals)
    requires lat != [] && NoSpace(lat) && lon != [] && NoSpace(lon)
    requires blanks != [] && forall k :: 0 <= k < |blanks| ==> IsSpace(blanks[k])
    requires nums.parseFloat(lat).Some? && nums.parseFloat(lon).Some?
    requires "Origin" in md && md["Origin"] == Str(lat + blanks + lon)
    ensures Origin(md, nums) == Ok((nums.parseFloat(lat), nums.parseFloat(lon)))
  {
    var ws := [lat, lon];
    assert ws[0] == lat && ws[1] == lon;
    assert Words(lat + blanks + lon) == ws by {
      WordsOfPair(lat, blanks, lon);
    }
    OriginOfWords(md, ws, nums);
  }

  /** `Origin` on a value whose tokens are the two numbers `ws`. */
  lemma OriginOfWords(md: Metadata, ws: seq<string>, nums: Numerals)
    requires "Origin" in md && md["Origin"].Str? && Words(md["Origin"].s) == ws
    requires |ws| == 2 && nums.parseFloat(ws[0]).Some? && nums.parseFloat(ws[1]).Some?
    ensures Origin(md, nums) == Ok((nums.parseFloat(ws[0]), nums.parseFloat(ws[1])))
  {
  }

  lemma {:induction false} WordsOfPair(a: string, blanks: string, b: string)
    requires a != [] && NoSpace(a) && b != [] && NoSpace(b)
    requires blanks != [] && forall k :: 0 <= k < |blanks| ==> IsSpace(blanks[k])
    ensures Words(a + blanks + b) == [a, b]
  {
    var tail := blanks + b;
    assert a + blanks + b == a + tail;
    assert [a] + [b] == [a, b];
    assert Words(tail) == [b] by {
      WordsSpaceFront(blanks, b);
      WordsSingle(b);
    }
    assert Words(a + tail) == [a] + Words(tail) by {
      assert tail[0] == blanks[0];
      WordsCons(a, tail);
    }
  }

  /** `float(md[key].split()[0])`, or `None` when the key is absent. An
      empty value has no first token. */
  function FirstNumber(md: Metadata, key: string, nums: Numerals): (r: Result<Option<real>>)
    ensures key !in md ==> r == Ok(None)
    ensures key in md ==>
      (r.Ok? <==> md[key].Str? && Words(md[key].s) != [] && nums.parseFloat(Words(md[key].s)[0]).Some?)
    ensures key in md && r.Ok? ==> r.value == nums.parseFloat(Words(md[key].s)[0])
    ensures key in md && md[key].Str? && Words(md[key].s) == [] ==> r == Err(NoSuchIndex)
  {
    if key !in md then Ok(None)
    else
      match md[key]
      case Str(s) =>
        var ws := Words(s);
        if ws == [] then Err(NoSuchIndex)
        else if nums.parseFloat(ws[0]).Some? then Ok(nums.parseFloat(ws[0]))
        else Err(BadValue)
      case _ => Err(WrongType)
  }

  /** `get_angular_resolution`: the number before the unit (`'5 Deg'`). */
  function AngularResolution(md: Metadata, nums: Numerals): (r: Result<Option<real>>)
    ensures "AngularResolution" !in md ==> r == Ok(None)
    ensures "AngularResolution" in md ==>
      (r.Ok? <==> md["AngularResolution"].Str? && Words(md["AngularResolution"].s) != []
                  && nums.parseFloat(Words(md["AngularResolution"].s)[0]).Some?)
    ensures "AngularResolution" in md && md["AngularResolution"].Str? && Words(md["AngularResolution"].s) == [] ==>
      r == Err(NoSuchIndex)
    ensures "AngularResolution" in md && r.Ok? ==>
      && md["AngularResolution"].Str?
      && var ws := Words(md["AngularResolution"].s);
         ws != [] && nums.parseFloat(ws[0]) == r.value && r.value.Some?
  {
    FirstNumber(md, "AngularResolution", nums)
  }

  /** `get_antenna_bearing`: the number before the reference (`'214.0 True'`). */
  function AntennaBearing(md: Metadata, nums: Numerals): (r: Result<Option<real>>)
    ensures "AntennaBearing" !in md ==> r == Ok(None)
    ensures "AntennaBearing" in md ==>
      (r.Ok? <==> md["AntennaBearing"].Str? && Words(md["AntennaBearing"].s) != []
                  && nums.parseFloat(Words(md["AntennaBearing"].s)[0]).Some?)
    ensures "AntennaBearing" in md && md["AntennaBearing"].Str? && Words(md["AntennaBearing"].s) == [] ==>
      r == Err(NoSuchIndex)
    ensures "AntennaBearing" in md && r.Ok? ==>
      && md["AntennaBearing"].Str?
      && var ws := Words(md["AntennaBearing"].s);
         ws != [] && nums.parseFloat(ws[0]) == r.value && r.value.Some?
  {
    FirstNumber(md, "AntennaBearing", nums)
  }

  /** A number followed by a unit reads back as the number, whatever the unit. */
  lemma FirstNumberOfLabelled(md: Metadata, key: string, num: string, rest: string, nums: Numerals)
    requires num != [] && NoSpace(num)
    requires rest == [] || IsSpace(rest[0])
    requires nums.parseFloat(num).Some?
    requires key in md && md[key] == Str(num + rest)
    ensures FirstNumber(md, key, nums) == Ok(nums.parseFloat(num))
  {
    WordsCons(num, rest);
  }
}
