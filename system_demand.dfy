/**
 * The day-ahead demand forecast source: forecast records keyed by target date and
 * cardinal-point start time (HHMM), turned into a half-hourly frame with one
 * `forecastdemand` column on the settlement window, then aggregated to EFA blocks
 * as min, max and mean.
 */
module SystemDemand {
  import opened Wrappers
  import opened Seqs
  import opened Strings
  import opened Calendar
  import opened TimePeriods
  import opened Frames
  import opened Preprocessing

  /**
   * One forecast record: the target day (a day number), the cardinal-point start time
   * as an HHMM integer (None when the API value cannot be cast to int64) and the
   * forecast demand.
   */
  datatype DemandRecord = DemandRecord(targetDate: int, cpStTime: Option<int>, forecastDemand: Cell)

  // ---- column names ----

  /** The column label after `col.lower().lstrip('_')`. */
  function NormaliseDemandName(name: string): (r: string)
    ensures HasNoUpper(r)
    ensures r == [] || r[0] != '_'
  {
    LowerHasNoUpper(name);
    LStripSpec(Lower(name), '_');
    var r := LStrip(Lower(name), '_');
    var k :| 0 <= k <= |Lower(name)| && r == Lower(name)[k..] && forall i :: 0 <= i < k ==> Lower(name)[i] == '_';
    assert forall i :: 0 <= i < |r| ==> r[i] == Lower(name)[k + i];
    r
  }

  /** Normalising a normalised label changes nothing, and the API's labels become the ones the code reads. */
  lemma NormaliseDemandNameSpec(name: string)
    ensures NormaliseDemandName(NormaliseDemandName(name)) == NormaliseDemandName(name)
    ensures NormaliseDemandName("_id") == "id"
    ensures NormaliseDemandName("TARGETDATE") == "targetdate"
    ensures NormaliseDemandName("CP_ST_TIME") == "cp_st_time"
    ensures NormaliseDemandName("FORECASTDEMAND") == "forecastdemand"
  {
    var r := NormaliseDemandName(name);
    LowerUnchanged(r);
    assert LStrip(r, '_') == r;
    assert Lower("_id") == "_id";
    assert LStrip("_id", '_') == "id";
    LowerLiteral("TARGETDATE", "targetdate");
    LowerLiteral("CP_ST_TIME", "cp_st_time");
    LowerLiteral("FORECASTDEMAND", "forecastdemand");
  }

  lemma LowerLiteral(s: string, t: string)
    requires |s| == |t| && forall i :: 0 <= i < |s| ==> LowerChar(s[i]) == t[i]
    requires t != [] && t[0] != '_'
    ensures Lower(s) == t && LStrip(Lower(s), '_') == t
  {
  }

  // ---- start times ----

  /**
   * The start of a forecast point: midnight of the target date plus `cp // 100` hours
   * and `cp % 100` minutes. Python's floor division and modulo by 100 agree with
   * Dafny's Euclidean ones, since the divisor is positive.
   */
  function StartTime(targetDate: int, cp: int): int {
    Midnight(targetDate) + (cp / 100) * MinutesPerHour + cp % 100
  }

  /** An HHMM cardinal point decodes to that hour and minute of the target day. */
  lemma StartTimeOfDay(targetDate: int, hh: int, mm: int)
    requires 0 <= hh < 24 && 0 <= mm < 60
    ensures StartTime(targetDate, hh * 100 + mm) == Midnight(targetDate) + hh * MinutesPerHour + mm
    ensures Midnight(targetDate) <= StartTime(targetDate, hh * 100 + mm) < Midnight(targetDate + 1)
    ensures DayOf(StartTime(targetDate, hh * 100 + mm)) == targetDate
  {
    var cp := hh * 100 + mm;
    assert cp / 100 == hh && cp % 100 == mm;
    var t := StartTime(targetDate, cp);
    assert t == targetDate * MinutesPerDay + (hh * MinutesPerHour + mm);
  }

  predicate AllStamped(records: seq<DemandRecord>) {
    forall i :: 0 <= i < |records| ==> records[i].cpStTime.Some?
  }

  function StartOf(r: DemandRecord): int
    requires r.cpStTime.Some?
  {
    StartTime(r.targetDate, r.cpStTime.value)
  }

  /** A forecast indexed by its start time. */
  type Point = (int, Cell)

  function Time(p: Point): int { p.0 }

  /** `set_index('start_time')` on the forecast column. */
  function Stamped(records: seq<DemandRecord>): (r: seq<Point>)
    requires AllStamped(records)
    ensures |r| == |records|
    ensures forall i :: 0 <= i < |r| ==> r[i] == (StartOf(records[i]), records[i].forecastDemand)
  {
    seq(|records|, i requires 0 <= i < |records| => (StartOf(records[i]), records[i].forecastDemand))
  }

  function Times(points: seq<Point>): (r: seq<int>)
    ensures |r| == |points| && forall i :: 0 <= i < |r| ==> r[i] == points[i].0
  {
    seq(|points|, i requires 0 <= i < |points| => points[i].0)
  }

  // ---- resample('30min') ----

  /** The half-hour label of a timestamp: the start of the 30-minute bin holding it. */
  function Floor30(t: int): (r: int)
    ensures r <= t < r + SettlementPeriodMinutes && r % SettlementPeriodMinutes == 0
  {
    t - t % SettlementPeriodMinutes
  }

  /** The bin labels of `resample('30min')`: every half hour from the first timestamp's bin to the last one's. */
  function HalfHourGrid(times: seq<int>): seq<int> {
    if times == [] then []
    else
      var sorted := SortedDistinct(times, IntLess);
      SortedDistinctNonEmpty(times);
      DateRange(Floor30(sorted[0]), Floor30(sorted[|sorted| - 1]), SettlementPeriodMinutes)
  }

  /** The upsampled value at a grid point: the forecast kept at exactly that time, missing otherwise. */
  function GridValue(kept: seq<Point>, g: int): Cell {
    match LastWith(kept, Time, g)
    case Some(p) => p.1
    case None => None
  }

  /**
   * The half-hourly forecast frame before trimming: records keyed by start time, the
   * last forecast kept for a repeated start time, and the single `forecastdemand`
   * column upsampled to the half-hour grid.
   */
  function DemandFrame(records: seq<DemandRecord>): (r: Frame)
    requires AllStamped(records)
    ensures WellFormed(r) && r.Indexed? && r.columns == ["forecastdemand"]
  {
    var kept := KeepLast(Stamped(records), Time);
    var grid := HalfHourGrid(Times(kept));
    Indexed(grid, ["forecastdemand"], [seq(|grid|, i requires 0 <= i < |grid| => GridValue(kept, grid[i]))])
  }

  // ---- fetch_demand_forecast ----

  /**
   * What the fetch returns once the records are bound: no records, or a start time
   * that cannot be cast to int64, leaves the frame without a DatetimeIndex (the empty
   * frame here); otherwise the half-hourly forecast from 23:00 before `start` to
   * 22:30 of `end`.
   */
  function FetchedDemand(start: int, end: int, records: seq<DemandRecord>): (r: Frame)
    ensures WellFormed(r)
    ensures r.Blank? <==> records == [] || !AllStamped(records)
    ensures r.Indexed? ==> r.columns == ["forecastdemand"]
    ensures forall i :: 0 <= i < |Rows(r)| ==> SettlementPeriods(start, end).0 <= Rows(r)[i] <= SettlementPeriods(start, end).1
  {
    if records == [] || !AllStamped(records) then Blank
    else
      TrimRows(DemandFrame(records), SettlementPeriods(start, end).0, SettlementPeriods(start, end).1)
  }

  /**
   * `fetch_demand_forecast(start, end)` as written: when the request or the decoding
   * fails before the frame is bound, the handler assigns the misspelt
   * `demand_forecasat`, so returning `demand_forecast` raises UnboundLocalError.
   */
  function FetchDemand(start: int, end: int, fetched: Fetch<DemandRecord>): (r: Result<Frame>)
    ensures r.Err? <==> fetched.Failed?
    ensures r.Err? ==> r.error == UnboundLocalError("demand_forecast")
  {
    if fetched.Failed? then Err(UnboundLocalError("demand_forecast"))
    else Ok(FetchedDemand(start, end, fetched.records))
  }

  /**
   * `fetch_demand_forecast(start, end)` as evidently intended: a failed request gives
   * the empty frame, like every other source, and the call never raises. Agrees with
   * the code as written whenever the records were fetched.
   */
  function FetchDemandCorrected(start: int, end: int, fetched: Fetch<DemandRecord>): (r: Frame)
    ensures WellFormed(r)
    ensures fetched.Failed? ==> r == Blank
    ensures fetched.Fetched? ==> FetchDemand(start, end, fetched) == Ok(r)
  {
    if fetched.Failed? then Blank else FetchedDemand(start, end, fetched.records)
  }

  /** The code as written raises on a failed request where the intended version returns the empty frame. */
  lemma FailedFetchRaises(start: int, end: int)
    ensures FetchDemand(start, end, Failed).Err?
    ensures FetchDemandCorrected(start, end, Failed) == Blank
  {
  }

  // ---- properties of the half-hourly frame ----

  /** The grid holds half-hour marks only, in ascending order. */
  lemma HalfHourGridSpec(times: seq<int>)
    ensures var grid := HalfHourGrid(times);
      && StrictlySorted(grid, IntLess)
      && forall k :: 0 <= k < |grid| ==> grid[k] % SettlementPeriodMinutes == 0
  {
    if times != [] {
      var sorted := SortedDistinct(times, IntLess);
      SortedDistinctNonEmpty(times);
      var lo := Floor30(sorted[0]);
      var hi := Floor30(sorted[|sorted| - 1]);
      DateRangeMembers(lo, hi, SettlementPeriodMinutes);
      var grid := HalfHourGrid(times);
      forall k | 0 <= k < |grid| ensures grid[k] % SettlementPeriodMinutes == 0 {
        var q := lo / SettlementPeriodMinutes;
        assert grid[k] == SettlementPeriodMinutes * (q + k);
      }
    }
  }

  /** Every time that is itself a half-hour mark is a point of the grid. */
  lemma HalfHourGridCovers(times: seq<int>, t: int)
    requires t in times && t % SettlementPeriodMinutes == 0
    ensures t in HalfHourGrid(times)
  {
    SortedEnds(times, t);
    var sorted := SortedDistinct(times, IntLess);
    var lo := Floor30(sorted[0]);
    var hi := Floor30(sorted[|sorted| - 1]);
    DateRangeMembers(lo, hi, SettlementPeriodMinutes);
    var last := sorted[|sorted| - 1];
    var q := last / SettlementPeriodMinutes;
    assert t / SettlementPeriodMinutes <= q;
    assert t <= hi;
    var k := (t - lo) / SettlementPeriodMinutes;
    assert lo + SettlementPeriodMinutes * k == t;
    assert DateRange(lo, hi, SettlementPeriodMinutes)[k] == t;
  }

  /**
   * The forecast at a start time: the one of the last record with that start time, or
   * missing when no record starts then.
   */
  ghost predicate LastForecast(records: seq<DemandRecord>, t: int, v: Cell)
    requires AllStamped(records)
  {
    if forall j :: 0 <= j < |records| ==> StartOf(records[j]) != t then v == None
    else exists j :: (0 <= j < |records| && StartOf(records[j]) == t && v == records[j].forecastDemand &&
                      forall i :: j < i < |records| ==> StartOf(records[i]) != t)
  }

  /** The value the frame holds at a grid point is the last forecast made for that start time. */
  lemma GridValueSpec(records: seq<DemandRecord>, t: int)
    requires AllStamped(records)
    ensures LastForecast(records, t, GridValue(KeepLast(Stamped(records), Time), t))
  {
    var s := Stamped(records);
    KeepLastSpec(s, Time);
    var l := LastWith(s, Time, t);
    if l.Some? {
      LastWithPosition(s, Time, t);
      var j :| 0 <= j < |s| && s[j] == l.value && forall i :: j < i < |s| ==> Time(s[i]) != t;
      assert StartOf(records[j]) == t;
    }
  }

  /**
   * The half-hourly frame's rows: ascending half-hour marks, with every record that
   * starts on a half-hour mark represented.
   */
  lemma DemandFrameRows(records: seq<DemandRecord>)
    requires AllStamped(records)
    ensures var f := DemandFrame(records);
      && StrictlySorted(f.index, IntLess)
      && (forall i :: 0 <= i < |f.index| ==> f.index[i] % SettlementPeriodMinutes == 0)
      && forall j :: 0 <= j < |records| && StartOf(records[j]) % SettlementPeriodMinutes == 0 ==> StartOf(records[j]) in f.index
  {
    var s := Stamped(records);
    var kept := KeepLast(s, Time);
    var f := DemandFrame(records);
    HalfHourGridSpec(Times(kept));
    KeepLastSpec(s, Time);
    forall j | 0 <= j < |records| && StartOf(records[j]) % SettlementPeriodMinutes == 0
      ensures StartOf(records[j]) in f.index
    {
      var t := StartOf(records[j]);
      assert Time(s[j]) == t;
      var p := LastWith(kept, Time, t);
      assert p.Some?;
      var q :| 0 <= q < |kept| && kept[q] == p.value;
      assert Times(kept)[q] == t;
      HalfHourGridCovers(Times(kept), t);
    }
  }

  /** At each row the half-hourly frame holds the last forecast made for that time. */
  lemma DemandFrameValues(records: seq<DemandRecord>)
    requires AllStamped(records)
    ensures var f := DemandFrame(records);
      forall i :: 0 <= i < |f.index| ==> LastForecast(records, f.index[i], f.data[0][i])
  {
    var f := DemandFrame(records);
    forall i | 0 <= i < |f.index| ensures LastForecast(records, f.index[i], f.data[0][i]) {
      GridValueSpec(records, f.index[i]);
    }
  }

  /** The fetched frame keeps exactly the half-hour rows of the forecast inside the settlement window, ascending. */
  lemma FetchedDemandRows(start: int, end: int, records: seq<DemandRecord>)
    requires records != [] && AllStamped(records)
    ensures var r := FetchedDemand(start, end, records);
      && r.Indexed? && StrictlySorted(r.index, IntLess)
      && (forall i :: 0 <= i < |r.index| ==> r.index[i] % SettlementPeriodMinutes == 0)
      && forall t :: t in r.index <==>
           t in DemandFrame(records).index && SettlementPeriods(start, end).0 <= t <= SettlementPeriods(start, end).1
  {
    var lo := SettlementPeriods(start, end).0;
    var hi := SettlementPeriods(start, end).1;
    var f := DemandFrame(records);
    DemandFrameRows(records);
    TrimRowsSorted(f, lo, hi);
    var r := FetchedDemand(start, end, records);
    assert r == TrimRows(f, lo, hi);
    assert Rows(r) == r.index && Rows(f) == f.index;
    forall i | 0 <= i < |r.index| ensures r.index[i] % SettlementPeriodMinutes == 0 {
      assert r.index[i] in f.index;
    }
  }

  /** Each row of the fetched frame holds the last forecast made for its time. */
  lemma FetchedDemandValues(start: int, end: int, records: seq<DemandRecord>)
    requires records != [] && AllStamped(records)
    ensures var r := FetchedDemand(start, end, records);
      forall i :: 0 <= i < |Rows(r)| ==> LastForecast(records, r.index[i], r.data[0][i])
  {
    var lo := SettlementPeriods(start, end).0;
    var hi := SettlementPeriods(start, end).1;
    var f := DemandFrame(records);
    DemandFrameValues(records);
    var r := FetchedDemand(start, end, records);
    assert r == TrimRows(f, lo, hi);
    forall i | 0 <= i < |r.index| ensures LastForecast(records, r.index[i], r.data[0][i]) {
      var q := TrimRowsRow(f, lo, hi, i);
      assert r.data[0][i] == f.data[0][q];
    }
  }

  // ---- aggregate_demand ----

  const DemandStats: seq<Stat> := [Min, Max, Mean]

  /**
   * `aggregate_demand(start, end)`: the fetched forecast aggregated to EFA blocks as min, max
   * and mean. A failed request surfaces as the fetch's UnboundLocalError; an empty forecast
   * cannot be resampled and raises TypeError.
   */
  function AggregateDemand(start: int, end: int, fetched: Fetch<DemandRecord>): (r: Result<Frame>)
    ensures fetched.Failed? ==> r == Err(UnboundLocalError("demand_forecast"))
    ensures r.Ok? <==> fetched.Fetched? && fetched.records != [] && AllStamped(fetched.records)
    ensures fetched.Fetched? && r.Err? ==> r.error.TypeError?
    ensures r.Ok? ==> WellFormed(r.value) && r.value.Indexed?
  {
    var f :- FetchDemand(start, end, fetched);
    AggregateSpToEfa(f, DemandStats, EfaBlockMinutes)
  }

  /**
   * The aggregation over the corrected fetch: a failed request now reaches the resampling
   * as an empty frame and raises TypeError there, and a successful one aggregates as before.
   */
  function AggregateDemandCorrected(start: int, end: int, fetched: Fetch<DemandRecord>): (r: Result<Frame>)
    ensures r.Ok? <==> fetched.Fetched? && fetched.records != [] && AllStamped(fetched.records)
    ensures r.Err? ==> r.error.TypeError?
    ensures fetched.Fetched? ==> r == AggregateDemand(start, end, fetched)
  {
    AggregateSpToEfa(FetchDemandCorrected(start, end, fetched), DemandStats, EfaBlockMinutes)
  }

  /** The aggregated labels are the forecast column's name joined to each statistic. */
  lemma DemandStatNames()
    ensures AggregateName("forecastdemand", Min) == "forecastdemand_min"
    ensures AggregateName("forecastdemand", Max) == "forecastdemand_max"
    ensures AggregateName("forecastdemand", Mean) == "forecastdemand_mean"
  {
    NoUpperName("forecastdemand_min");
    NoUpperName("forecastdemand_max");
    NoUpperName("forecastdemand_mean");
  }

  lemma NoUpperName(s: string)
    requires forall i :: 0 <= i < |s| ==> 'a' <= s[i] <= 'z' || s[i] == '_'
    ensures Lower(s) == s
  {
    LowerUnchanged(s);
  }

  /** Aggregating a one-column frame gives one column per statistic, named after the column and the statistic. */
  lemma AggregateOneColumn(f: Frame, name: string, stats: seq<Stat>)
    requires WellFormed(f) && f.Indexed? && f.columns == [name] && stats != []
    ensures var r := AggregateSpToEfa(f, stats, EfaBlockMinutes);
      && r.Ok? && r.value.index == BinStarts(f.index, EfaBlockMinutes)
      && |r.value.columns| == |stats|
      && forall s :: 0 <= s < |stats| ==>
           && r.value.columns[s] == AggregateName(name, stats[s])
           && r.value.data[s] == AggregateColumn(f.index, f.data[0], stats[s], r.value.index, EfaBlockMinutes)
  {
    AggregateSpToEfaSpec(f, stats, EfaBlockMinutes);
    var r := AggregateSpToEfa(f, stats, EfaBlockMinutes).value;
    forall s | 0 <= s < |stats|
      ensures && r.columns[s] == AggregateName(name, stats[s])
              && r.data[s] == AggregateColumn(f.index, f.data[0], stats[s], r.index, EfaBlockMinutes)
    {
      assert FlatPos(0, s, |stats|) == s;
    }
  }

  /**
   * The aggregate has one row per EFA bin of the forecast and the columns
   * forecastdemand_min, forecastdemand_max and forecastdemand_mean, each that statistic
   * of the forecast in the bin.
   */
  lemma AggregateDemandColumns(start: int, end: int, fetched: Fetch<DemandRecord>)
    requires AggregateDemand(start, end, fetched).Ok?
    ensures var f := FetchDemand(start, end, fetched).value;
      var r := AggregateDemand(start, end, fetched).value;
      && r.index == BinStarts(f.index, EfaBlockMinutes)
      && r.columns == ["forecastdemand_min", "forecastdemand_max", "forecastdemand_mean"]
      && forall s :: 0 <= s < 3 ==> r.data[s] == AggregateColumn(f.index, f.data[0], DemandStats[s], r.index, EfaBlockMinutes)
  {
    var f := FetchDemand(start, end, fetched).value;
    assert WellFormed(f) && f.Indexed? && f.columns == ["forecastdemand"];
    AggregateThree(f, "forecastdemand");
    DemandStatNames();
  }

  /** Min, max and mean of a one-column frame, labelled after that column. */
  lemma AggregateThree(f: Frame, name: string)
    requires WellFormed(f) && f.Indexed? && f.columns == [name]
    ensures var r := AggregateSpToEfa(f, DemandStats, EfaBlockMinutes);
      && r.Ok? && r.value.index == BinStarts(f.index, EfaBlockMinutes)
      && r.value.columns == [AggregateName(name, Min), AggregateName(name, Max), AggregateName(name, Mean)]
      && forall s :: 0 <= s < 3 ==>
           r.value.data[s] == AggregateColumn(f.index, f.data[0], DemandStats[s], r.value.index, EfaBlockMinutes)
  {
    AggregateOneColumn(f, name, DemandStats);
    var r := AggregateSpToEfa(f, DemandStats, EfaBlockMinutes).value;
    assert r.columns[0] == AggregateName(name, DemandStats[0]);
    assert r.columns[1] == AggregateName(name, DemandStats[1]);
    assert r.columns[2] == AggregateName(name, DemandStats[2]);
  }
}
