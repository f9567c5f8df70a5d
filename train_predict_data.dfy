/**
 * The training and prediction feature sets: the date window (a one-year lookback
 * clipped to the first day FR-EAC data exists, or a single prediction day), the fixed
 * lag specification and temporal feature list, and the column-wise concatenation of
 * the margins, demand, BR, lag and temporal features in that order. The training set
 * also carries the target, the DCL clearing price over the same window.
 */
module TrainPredictData {
  import opened Wrappers
  import opened Seqs
  import opened Strings
  import opened Calendar
  import opened TimePeriods
  import opened Frames
  import opened Preprocessing
  import opened FrPrices
  import opened BrPrice
  import opened SystemMargins
  import opened SystemDemand

  // ---- the window ----

  /** 2024-03-13, the first day the FR-EAC auction API has data for. */
  const FrEacFloor: int := 738957

  const LookbackDays: int := 365

  lemma FrEacFloorDate()
    ensures ValidDate(Date(2024, 3, 13)) && DayNumber(Date(2024, 3, 13)) == FrEacFloor
  {
  }

  /** The training end: the day asked for, or today (already at midnight). */
  function TrainEnd(given: Option<int>, today: int): int {
    given.GetOr(today)
  }

  /** The training start: a year before the end, moved up to the FR-EAC floor when not past it. */
  function TrainStart(end: int): (r: int)
    ensures r >= FrEacFloor && r >= end - LookbackDays
    ensures r == end - LookbackDays || r == FrEacFloor
  {
    var start := end - LookbackDays;
    if start <= FrEacFloor then FrEacFloor else start
  }

  /**
   * A training window past the floor covers 366 trading days, six EFA blocks each; one
   * that ends before the floor starts after its end and has no EFA block at all.
   */
  lemma TrainWindowSpec(end: int)
    ensures end - LookbackDays > FrEacFloor ==> |EfaIndex(TrainStart(end), end)| == 6 * (LookbackDays + 1)
    ensures FrEacFloor <= end ==> TrainStart(end) <= end && 6 <= |EfaIndex(TrainStart(end), end)| <= 6 * (LookbackDays + 1)
    ensures end < FrEacFloor ==> TrainStart(end) > end && EfaIndex(TrainStart(end), end) == []
  {
    EfaIndexSpec(TrainStart(end), end);
  }

  /** The prediction day: the day asked for, or tomorrow. */
  function PredictionDate(given: Option<int>, today: int): int {
    given.GetOr(today + 1)
  }

  // ---- the feature schema ----

  const LagSpec: seq<(string, seq<int>)> := [("dcl_price", [6, 12]), ("drl_price", [6, 12])]

  const LagColumns: seq<string> := ["dcl_price_lag_6", "dcl_price_lag_12", "drl_price_lag_6", "drl_price_lag_12"]

  const TemporalFeatures: seq<string> := ["month", "working day"]

  const DemandFeatures: seq<string> := ["forecastdemand_min", "forecastdemand_max", "forecastdemand_mean"]

  /** The lag specification yields four distinct lag columns, 24 h and 48 h back for DCL and DRL. */
  lemma LagSpecColumns()
    ensures KeepFirst(LagNames(LagSpec), Id) == LagColumns
  {
    assert IntToString(6) == "6";
    assert IntToString(12) == NatToString(1) + [DigitChar(2)] == "12";
    assert LagName("dcl_price", 6) == "dcl_price_lag_6" && LagName("dcl_price", 12) == "dcl_price_lag_12";
    assert LagName("drl_price", 6) == "drl_price_lag_6" && LagName("drl_price", 12) == "drl_price_lag_12";
    assert LagNamesOf("dcl_price", [6, 12]) == ["dcl_price_lag_6", "dcl_price_lag_12"];
    assert LagNamesOf("drl_price", [6, 12]) == ["drl_price_lag_6", "drl_price_lag_12"];
    assert LagSpec[..1] == [("dcl_price", [6, 12])];
    assert LagSpec[..1][..0] == [];
    assert LagNames(LagSpec) == LagColumns;
    assert LagColumns[0][1] != LagColumns[2][1] && LagColumns[0][1] != LagColumns[3][1];
    assert LagColumns[1][1] != LagColumns[2][1] && LagColumns[1][1] != LagColumns[3][1];
    KeepFirstDistinct(LagColumns, Id);
  }

  /**
   * The feature columns in concatenation order: the three margins, the three demand
   * statistics, the BR price statistics present, the four lags, then month and working day.
   */
  predicate FeatureSchema(columns: seq<string>) {
    && |columns| >= 12
    && columns[..6] == MarginFeatures + DemandFeatures
    && columns[|columns| - 6..] == LagColumns + TemporalFeatures
    && forall i :: 6 <= i < |columns| - 6 ==> columns[i] in BrFeatures
  }

  lemma SchemaOfParts(margins: seq<string>, demand: seq<string>, br: seq<string>, lags: seq<string>, temporal: seq<string>)
    requires margins == MarginFeatures && demand == DemandFeatures && lags == LagColumns && temporal == TemporalFeatures
    requires forall c :: c in br ==> c in BrFeatures
    ensures FeatureSchema(margins + (demand + (br + (lags + (temporal + [])))))
  {
    var columns := margins + (demand + (br + (lags + (temporal + []))));
    assert columns == (MarginFeatures + DemandFeatures) + br + (LagColumns + TemporalFeatures);
    forall i | 6 <= i < |columns| - 6 ensures columns[i] in BrFeatures {
      assert columns[i] == br[i - 6];
    }
  }

  /** A timestamp of one of the concatenated frames is a timestamp of the concatenation. */
  lemma {:induction false} AllRowsHas(frames: seq<Frame>, k: int, t: int)
    requires 0 <= k < |frames| && t in Rows(frames[k])
    ensures t in AllRows(frames)
  {
    if k > 0 {
      AllRowsHas(frames[1..], k - 1, t);
    }
  }

  // ---- the sources ----

  /** What the API calls for one window returned: margins, demand, BR, FR history for the lags, FR prices for the target. */
  datatype Sources = Sources(
    margins: Option<RawTable>,
    demand: Fetch<DemandRecord>,
    br: Fetch<AuctionRecord>,
    frHistory: Fetch<AuctionRecord>,
    frTarget: Fetch<AuctionRecord>)

  predicate SourcesWellFormed(src: Sources) {
    src.margins.Some? ==> RawWellFormed(src.margins.value)
  }

  /**
   * When the features of the window [start, end] can be built: the margins resample, the
   * demand and BR prices aggregate, and the FR history has every lagged price. The
   * temporal features and the concatenation never fail on their own.
   */
  predicate FeaturesAvailable(start: int, end: int, src: Sources)
    requires SourcesWellFormed(src)
  {
    && ResampleMargins(start, end, src.margins).Ok?
    && AggregateDemand(start, end, src.demand).Ok?
    && AggregateBrPrice(start, end, src.br).Ok?
    && LagsAvailable(HistoricalFrPrice(start - 2, end + 1, src.frHistory), LagSpec, EfaIndex(start, end))
  }

  lemma EfaIndexDistinct(start: int, end: int)
    ensures Distinct(EfaIndex(start, end))
  {
    EfaIndexStep(start, end);
  }

  /** Margins not yet published (no records) leave the window without features. */
  lemma NoMarginsNoFeatures(start: int, end: int, src: Sources)
    requires SourcesWellFormed(src) && src.margins.Some? && src.margins.value.size == 0
    ensures !FeaturesAvailable(start, end, src)
    ensures ResampleMargins(start, end, src.margins).Err?
  {
  }

  /**
   * The features on the window [start, end]: margins, demand, BR, lags and temporal
   * features, concatenated column-wise in that order. It succeeds exactly when every
   * source yields its part, every EFA block of the window is then a row, and a failed
   * margins, demand, BR or FR history fetch makes it fail.
   */
  method AssembleFeatures(start: int, end: int, src: Sources) returns (r: Result<Frame>)
    requires SourcesWellFormed(src)
    requires start <= end ==> ValidDay(start - 1) && ValidDay(end)
    ensures r.Ok? <==> FeaturesAvailable(start, end, src)
    ensures r.Ok? ==> WellFormed(r.value) && r.value.Indexed? && FeatureSchema(r.value.columns)
    ensures r.Ok? ==> forall t :: t in EfaIndex(start, end) ==> t in r.value.index
    ensures src.margins.None? || src.demand.Failed? || src.br.Failed? || src.frHistory.Failed? ==> r.Err?
  {
    var sources :- SourceFeatures(start, end, src);
    var margins, demand, br := sources.0, sources.1, sources.2;
    var lags :- LagPart(start, end, src.frHistory);
    var temporal := TemporalPart(start, end);
    EfaIndexDistinct(start, end);
    r := ConcatFeatures(margins, demand, br, lags, temporal.value, EfaIndex(start, end));
  }

  /**
   * The margins, demand and BR features of the window, or the first error they raise;
   * a failed margins, demand or BR fetch is such an error. Each part's timestamps
   * ascend, so none holds a timestamp twice.
   */
  function SourceFeatures(start: int, end: int, src: Sources): (r: Result<(Frame, Frame, Frame)>)
    requires SourcesWellFormed(src)
    ensures r.Ok? <==>
      ResampleMargins(start, end, src.margins).Ok? && AggregateDemand(start, end, src.demand).Ok?
      && AggregateBrPrice(start, end, src.br).Ok?
    ensures r.Ok? ==> WellFormed(r.value.0) && ColumnNames(r.value.0) == MarginFeatures
    ensures r.Ok? ==> WellFormed(r.value.1) && ColumnNames(r.value.1) == DemandFeatures
    ensures r.Ok? ==> WellFormed(r.value.2) && forall c :: c in ColumnNames(r.value.2) ==> c in BrFeatures
    ensures r.Ok? ==> Distinct(Rows(r.value.0)) && Distinct(Rows(r.value.1)) && Distinct(Rows(r.value.2))
    ensures src.margins.None? || src.demand.Failed? || src.br.Failed? ==> r.Err?
  {
    if src.margins.None? then
      assert FetchMargins(src.margins).Blank?;
      Err(ResampleMargins(start, end, src.margins).error)
    else
      var margins :- ResampleMargins(start, end, src.margins);
      MarginsPart(start, end, src.margins);
      var demand :- AggregateDemand(start, end, src.demand);
      DemandPart(start, end, src.demand);
      var br :- AggregateBrPrice(start, end, src.br);
      BrPart(start, end, src.br);
      Ok((margins, demand, br))
  }

  lemma AllWellFormed(frames: seq<Frame>)
    requires |frames| == 5
    requires WellFormed(frames[0]) && WellFormed(frames[1]) && WellFormed(frames[2]) && WellFormed(frames[3]) && WellFormed(frames[4])
    ensures forall k :: 0 <= k < |frames| ==> WellFormed(frames[k])
  {
  }

  lemma MarginsPart(start: int, end: int, fetched: Option<RawTable>)
    requires fetched.Some? ==> RawWellFormed(fetched.value)
    requires ResampleMargins(start, end, fetched).Ok?
    ensures WellFormed(ResampleMargins(start, end, fetched).value)
    ensures ColumnNames(ResampleMargins(start, end, fetched).value) == MarginFeatures
    ensures Distinct(Rows(ResampleMargins(start, end, fetched).value))
  {
    ResampleMarginsColumns(start, end, fetched);
    ResampleMarginsRows(start, end, fetched);
  }

  lemma DemandPart(start: int, end: int, fetched: Fetch<DemandRecord>)
    requires AggregateDemand(start, end, fetched).Ok?
    ensures ColumnNames(AggregateDemand(start, end, fetched).value) == DemandFeatures
    ensures Distinct(Rows(AggregateDemand(start, end, fetched).value))
  {
    AggregateDemandColumns(start, end, fetched);
    BinStartsAscending(FetchDemand(start, end, fetched).value.index, EfaBlockMinutes);
  }

  lemma BrPart(start: int, end: int, fetched: Fetch<AuctionRecord>)
    requires AggregateBrPrice(start, end, fetched).Ok?
    ensures forall c :: c in ColumnNames(AggregateBrPrice(start, end, fetched).value) ==> c in BrFeatures
    ensures Distinct(Rows(AggregateBrPrice(start, end, fetched).value))
  {
    AggregateBrPriceColumns(start, end, fetched);
    BinStartsAscending(BrPrices(start, end, fetched.records).index, EfaBlockMinutes);
    var br := AggregateBrPrice(start, end, fetched).value;
    forall c | c in ColumnNames(br) ensures c in BrFeatures {
      var k :| 0 <= k < |br.columns| && br.columns[k] == c;
    }
  }

  /**
   * The four lag features on the window's EFA index, built exactly when the FR history
   * has every lagged price; a failed FR history fetch leaves no dcl_price column.
   */
  method LagPart(start: int, end: int, fetched: Fetch<AuctionRecord>) returns (r: Result<Frame>)
    ensures r.Ok? <==> LagsAvailable(HistoricalFrPrice(start - 2, end + 1, fetched), LagSpec, EfaIndex(start, end))
    ensures r.Ok? ==> WellFormed(r.value) && r.value.Indexed? && r.value.index == EfaIndex(start, end)
    ensures r.Ok? ==> r.value.columns == LagColumns
    ensures fetched.Failed? ==> r.Err?
  {
    if fetched.Failed? {
      assert LagSpec[0].0 !in ColumnNames(HistoricalFrPrice(start - 2, end + 1, fetched));
    }
    r := CreateLagShifted(start, end, LagSpec, fetched);
    LagSpecColumns();
  }

  /** Month and working day on the window's EFA index: both are known features, so this never fails. */
  method TemporalPart(start: int, end: int) returns (r: Result<Frame>)
    requires start <= end ==> ValidDay(start - 1) && ValidDay(end)
    ensures r.Ok?
    ensures WellFormed(r.value) && r.value.Indexed? && r.value.index == EfaIndex(start, end)
    ensures r.value.columns == TemporalFeatures
  {
    TemporalFeaturesKnown();
    r := CreateTemporalFeatures(start, end, TemporalFeatures);
  }

  lemma TemporalFeaturesKnown()
    ensures forall f :: f in TemporalFeatures ==> f in TemporalFeatureNames
  {
    assert TemporalFeatures[0] == TemporalFeatureNames[2];
    assert TemporalFeatures[1] == TemporalFeatureNames[4];
  }

  /**
   * `pd.concat([margins, demand, br, lags, temporal], axis=1)` on the five feature frames;
   * it cannot fail when no frame holds a timestamp twice.
   */
  function ConcatFeatures(margins: Frame, demand: Frame, br: Frame, lags: Frame, temporal: Frame, efa: seq<int>): (r: Result<Frame>)
    requires WellFormed(margins) && WellFormed(demand) && WellFormed(br) && WellFormed(lags) && WellFormed(temporal)
    requires ColumnNames(margins) == MarginFeatures && ColumnNames(demand) == DemandFeatures
    requires ColumnNames(lags) == LagColumns && ColumnNames(temporal) == TemporalFeatures
    requires forall c :: c in ColumnNames(br) ==> c in BrFeatures
    requires Rows(lags) == efa
    ensures r.Ok? ==> WellFormed(r.value) && r.value.Indexed? && FeatureSchema(r.value.columns)
    ensures r.Ok? ==> forall t :: t in efa ==> t in r.value.index
    ensures (&& Distinct(Rows(margins)) && Distinct(Rows(demand)) && Distinct(Rows(br))
             && Distinct(Rows(lags)) && Distinct(Rows(temporal))) ==> r.Ok?
  {
    var frames := [margins, demand, br, lags, temporal];
    AllWellFormed(frames);
    AllDistinct(frames);
    ConcatSchema(margins, demand, br, lags, temporal, efa);
    Concat(frames)
  }

  lemma AllDistinct(frames: seq<Frame>)
    requires |frames| == 5
    ensures (&& Distinct(Rows(frames[0])) && Distinct(Rows(frames[1])) && Distinct(Rows(frames[2]))
             && Distinct(Rows(frames[3])) && Distinct(Rows(frames[4]))) ==>
            forall k :: 0 <= k < |frames| ==> Distinct(Rows(frames[k]))
  {
  }

  /** Concatenating the five feature frames gives the schema and keeps every EFA row of the lag frame. */
  lemma ConcatSchema(margins: Frame, demand: Frame, br: Frame, lags: Frame, temporal: Frame, efa: seq<int>)
    requires WellFormed(margins) && WellFormed(demand) && WellFormed(br) && WellFormed(lags) && WellFormed(temporal)
    requires ColumnNames(margins) == MarginFeatures && ColumnNames(demand) == DemandFeatures
    requires ColumnNames(lags) == LagColumns && ColumnNames(temporal) == TemporalFeatures
    requires forall c :: c in ColumnNames(br) ==> c in BrFeatures
    requires Rows(lags) == efa
    ensures var r := Concat([margins, demand, br, lags, temporal]);
      r.Ok? ==> FeatureSchema(r.value.columns) && forall t :: t in efa ==> t in r.value.index
  {
    var frames := [margins, demand, br, lags, temporal];
    var r := Concat(frames);
    if r.Ok? {
      SchemaOfParts(ColumnNames(margins), ColumnNames(demand), ColumnNames(br), ColumnNames(lags), ColumnNames(temporal));
      assert frames[1..] == [demand, br, lags, temporal];
      assert frames[1..][1..] == [br, lags, temporal];
      assert frames[1..][1..][1..] == [lags, temporal];
      assert frames[1..][1..][1..][1..] == [temporal];
      assert frames[1..][1..][1..][1..][1..] == [];
      assert AllColumns([temporal]) == ColumnNames(temporal) + [];
      assert AllColumns([lags, temporal]) == ColumnNames(lags) + AllColumns([temporal]);
      assert AllColumns([br, lags, temporal]) == ColumnNames(br) + AllColumns([lags, temporal]);
      assert AllColumns([demand, br, lags, temporal]) == ColumnNames(demand) + AllColumns([br, lags, temporal]);
      assert AllColumns(frames) == ColumnNames(margins) + (ColumnNames(demand) + (ColumnNames(br) + (ColumnNames(lags) + (ColumnNames(temporal) + []))));
      forall t | t in efa ensures t in r.value.index {
        AllRowsHas(frames, 3, t);
      }
    }
  }

  // ---- get_train_features_target_df ----

  /** The training features and the target series (its timestamps and values). */
  datatype TrainingSet = TrainingSet(features: Frame, targetIndex: seq<int>, target: seq<Cell>)

  /**
   * `get_train_features_target_df(train_end_date)`: the features on the training
   * window and, as target, the `dcl_price` column of the FR prices over that window.
   * Succeeds exactly when the features can be built and the FR prices have a
   * `dcl_price` column, which a failed fetch does not.
   */
  method TrainFeaturesTarget(trainEnd: Option<int>, today: int, src: Sources) returns (r: Result<TrainingSet>)
    requires SourcesWellFormed(src) && ValidDay(TrainEnd(trainEnd, today))
    ensures var end := TrainEnd(trainEnd, today);
      var start := TrainStart(end);
      r.Ok? <==> FeaturesAvailable(start, end, src) && "dcl_price" in ColumnNames(HistoricalFrPrice(start, end, src.frTarget))
    ensures var end := TrainEnd(trainEnd, today);
      var start := TrainStart(end);
      r.Ok? ==>
        && WellFormed(r.value.features) && r.value.features.Indexed? && FeatureSchema(r.value.features.columns)
        && (forall t :: t in EfaIndex(start, end) ==> t in r.value.features.index)
        && r.value.targetIndex == Rows(HistoricalFrPrice(start, end, src.frTarget))
        && Column(HistoricalFrPrice(start, end, src.frTarget), "dcl_price") == Ok(r.value.target)
        && |r.value.target| == |r.value.targetIndex|
        && forall i :: 0 <= i < |r.value.targetIndex| ==> EfaStartTime(start) <= r.value.targetIndex[i] <= EfaEndTime(end)
    ensures src.frTarget.Failed? ==> r.Err?
  {
    var end := TrainEnd(trainEnd, today);
    var start := TrainStart(end);
    var features :- AssembleFeatures(start, end, src);
    var prices := HistoricalFrPrice(start, end, src.frTarget);
    var target :- Column(prices, "dcl_price");
    r := Ok(TrainingSet(features, Rows(prices), target));
    if src.frTarget.Fetched? && src.frTarget.records != [] {
      assert prices == TrimmedPrices(src.frTarget.records, EfaStartTime(start), EfaEndTime(end));
    }
  }

  // ---- get_prediction_features_df ----

  /**
   * `get_prediction_features_df(prediction_date)`: the features of one trading day,
   * tomorrow unless a day is given, with a row for each of its six EFA blocks. It
   * succeeds exactly when that day's features can be built.
   */
  method PredictionFeatures(given: Option<int>, today: int, src: Sources) returns (r: Result<Frame>)
    requires SourcesWellFormed(src)
    requires ValidDay(PredictionDate(given, today) - 1) && ValidDay(PredictionDate(given, today))
    ensures r.Ok? <==> FeaturesAvailable(PredictionDate(given, today), PredictionDate(given, today), src)
    ensures var d := PredictionDate(given, today);
      r.Ok? ==>
        && WellFormed(r.value) && r.value.Indexed? && FeatureSchema(r.value.columns)
        && HasDayBlocks(d, r.value.index)
    ensures src.margins.None? || src.demand.Failed? || src.br.Failed? || src.frHistory.Failed? ==> r.Err?
  {
    var d := PredictionDate(given, today);
    r := AssembleFeatures(d, d, src);
    if r.Ok? {
      DayBlocksIn(d, r.value.index);
    }
  }

  /** The index has a row at each of the six EFA openings of day d, 23:00 the day before to 19:00. */
  predicate HasDayBlocks(d: int, index: seq<int>) {
    forall b :: 0 <= b < 6 ==> Midnight(d) - 60 + 240 * b in index
  }

  /** An index holding the EFA index of day d holds the openings of its six blocks. */
  lemma DayBlocksIn(d: int, index: seq<int>)
    requires forall t :: t in EfaIndex(d, d) ==> t in index
    ensures HasDayBlocks(d, index)
  {
    EfaIndexSingleDay(d);
    forall b | 0 <= b < 6 ensures Midnight(d) - 60 + 240 * b in index {
      assert EfaIndex(d, d)[b] == Midnight(d) - 60 + 240 * b;
    }
  }
}
