/**
 * The EFA (Electricity Forward Agreement) time grid of frcast/data/time_periods.py.
 * A trading day d has six 4-hour EFA blocks; block 1 opens at 23:00 of day d - 1
 * and block 6 at 19:00 of day d. Settlement periods are the 48 half hours of a
 * trading day, 8 per block. Trading dates are day numbers, timestamps minutes.
 */
module TimePeriods {
  import opened Wrappers
  import opened Calendar

  const EfaBlockMinutes: int := 4 * MinutesPerHour
  const SettlementPeriodMinutes: int := 30

  /** `pd.date_range(lo, hi, freq=step)`: lo, lo + step, ... while not past hi. */
  function DateRange(lo: int, hi: int, step: int): seq<int>
    requires step > 0
  {
    var n := if hi < lo then 0 else (hi - lo) / step + 1;
    seq(n, k requires 0 <= k < n => lo + step * k)
  }

  /** A date range holds exactly the points of the step grid from lo that do not pass hi. */
  lemma DateRangeMembers(lo: int, hi: int, step: int)
    requires step > 0
    ensures forall k :: 0 <= k < |DateRange(lo, hi, step)| ==> lo <= DateRange(lo, hi, step)[k] <= hi
    ensures forall k :: 0 <= k ==> (lo + step * k <= hi <==> k < |DateRange(lo, hi, step)|)
    ensures forall k :: 0 <= k < |DateRange(lo, hi, step)| ==> DateRange(lo, hi, step)[k] == lo + step * k
  {
    forall k | 0 <= k ensures lo + step * k <= hi <==> k < |DateRange(lo, hi, step)| {
      DateRangePoint(lo, hi, step, k);
    }
    forall k | 0 <= k < |DateRange(lo, hi, step)| ensures lo <= DateRange(lo, hi, step)[k] <= hi {
      DateRangePoint(lo, hi, step, k);
    }
  }

  /** The k-th step from lo is within hi exactly when the range has more than k points. */
  lemma DateRangePoint(lo: int, hi: int, step: int, k: int)
    requires step > 0 && k >= 0
    ensures lo + step * k <= hi <==> k < |DateRange(lo, hi, step)|
    ensures 0 <= step * k
  {
    MulMonotone(step, 0, k);
    if lo <= hi {
      var q := (hi - lo) / step;
      assert step * q <= hi - lo < step * (q + 1);
      if k <= q {
        MulMonotone(step, k, q);
      } else {
        MulMonotone(step, q + 1, k);
      }
    }
  }

  /** A date range is strictly increasing, so it never holds a timestamp twice. */
  lemma DateRangeAscending(lo: int, hi: int, step: int)
    requires step > 0
    ensures forall i, j :: 0 <= i < j < |DateRange(lo, hi, step)| ==> DateRange(lo, hi, step)[i] < DateRange(lo, hi, step)[j]
  {
    var r := DateRange(lo, hi, step);
    forall i, j | 0 <= i < j < |r| ensures r[i] < r[j] {
      MulMonotone(step, 1, j - i);
      assert step * j == step * i + step * (j - i);
    }
  }

  lemma MulMonotone(step: int, a: int, b: int)
    requires step > 0 && 0 <= a <= b
    ensures 0 <= step * a <= step * b
  {
    assert step * b == step * a + step * (b - a);
  }

  // ---- get_query_periods ----

  /**
   * The API query window as "YYYY-MM-DD" strings: one calendar day before the first
   * trading date (EFA-1 opens the evening before) and one after the last (the API
   * bound is exclusive at midnight).
   */
  function QueryPeriods(start: int, end: int): (r: (string, string))
    requires ValidDay(start - 1) && ValidDay(end + 1)
    ensures ParseDate(r.0).Some? && DayNumber(ParseDate(r.0).value) == start - 1
    ensures ParseDate(r.1).Some? && DayNumber(ParseDate(r.1).value) == end + 1
  {
    FormatDateRoundTrip(FromDayNumber(start - 1));
    FormatDateRoundTrip(FromDayNumber(end + 1));
    (FormatDate(FromDayNumber(start - 1)), FormatDate(FromDayNumber(end + 1)))
  }

  /** The docstring example: (2025-06-12, 2025-06-13) gives ('2025-06-11', '2025-06-14'). */
  lemma QueryPeriodsExample()
    ensures QueryPeriods(DayNumber(Date(2025, 6, 12)), DayNumber(Date(2025, 6, 13))) == ("2025-06-11", "2025-06-14")
  {
    FormatExample();
    var before := DayNumber(Date(2025, 6, 11));
    var after := DayNumber(Date(2025, 6, 14));
    DayNumberRoundTrip(Date(2025, 6, 11));
    DayNumberRoundTrip(Date(2025, 6, 14));
    assert FormatDate(FromDayNumber(before)) == "2025-06-11";
    assert FormatDate(FromDayNumber(after)) == "2025-06-14";
    QueryPeriodsOf(DayNumber(Date(2025, 6, 12)), DayNumber(Date(2025, 6, 13)), before, after);
  }

  lemma QueryPeriodsOf(start: int, end: int, before: int, after: int)
    requires before == start - 1 && after == end + 1 && ValidDay(before) && ValidDay(after)
    ensures QueryPeriods(start, end) == (FormatDate(FromDayNumber(before)), FormatDate(FromDayNumber(after)))
  {
  }

  lemma FormatExample()
    ensures DayNumber(Date(2025, 6, 12)) - 1 == DayNumber(Date(2025, 6, 11))
    ensures DayNumber(Date(2025, 6, 13)) + 1 == DayNumber(Date(2025, 6, 14))
    ensures FormatDate(Date(2025, 6, 11)) == "2025-06-11"
    ensures FormatDate(Date(2025, 6, 14)) == "2025-06-14"
  {
  }

  // ---- get_efa_index ----

  /** The first EFA opening of trading day `start` (23:00 the day before). */
  function EfaStartTime(start: int): int { Midnight(start) - MinutesPerHour }

  /** The EFA-6 opening of trading day `end` (19:00). */
  function EfaEndTime(end: int): int { Midnight(end) + 19 * MinutesPerHour }

  /** `get_efa_index`: the 4-hourly block openings from EFA-1 of `start` to EFA-6 of `end`. */
  function EfaIndex(start: int, end: int): seq<int> {
    DateRange(EfaStartTime(start), EfaEndTime(end), EfaBlockMinutes)
  }

  /** The opening of EFA block b (1..6) of trading day d. */
  function EfaBlockOpening(d: int, b: int): int
    requires 1 <= b <= 6
  {
    Midnight(d) - MinutesPerHour + EfaBlockMinutes * (b - 1)
  }

  /**
   * Point k of the EFA index opens block k % 6 + 1 of trading day start + k / 6, so the
   * index is six contiguous blocks per trading day, first at 23:00 the day before and
   * last at 19:00 of `end`; with end < start it is empty.
   */
  lemma EfaIndexSpec(start: int, end: int)
    ensures start <= end ==> |EfaIndex(start, end)| == 6 * (end - start + 1)
    ensures end < start ==> EfaIndex(start, end) == []
    ensures forall k :: 0 <= k < |EfaIndex(start, end)| ==> EfaIndex(start, end)[k] == EfaBlockOpening(start + k / 6, k % 6 + 1)
    ensures start <= end ==> EfaIndex(start, end)[0] == Midnight(start) - 60
    ensures start <= end ==> EfaIndex(start, end)[|EfaIndex(start, end)| - 1] == Midnight(end) + 19 * 60
  {
    var lo := EfaStartTime(start);
    var hi := EfaEndTime(end);
    var idx := EfaIndex(start, end);
    if start <= end {
      var m := 6 * (end - start) + 5;
      assert hi - lo == EfaBlockMinutes * m;
      assert (hi - lo) / EfaBlockMinutes == m;
    }
    forall k | 0 <= k < |idx| ensures idx[k] == EfaBlockOpening(start + k / 6, k % 6 + 1) {
      EfaPoint(start, k);
    }
  }

  lemma EfaPoint(start: int, k: int)
    requires k >= 0
    ensures EfaStartTime(start) + EfaBlockMinutes * k == EfaBlockOpening(start + k / 6, k % 6 + 1)
  {
    assert k == 6 * (k / 6) + k % 6;
  }

  /** Consecutive EFA points are exactly 4 hours apart, so the index is strictly increasing. */
  lemma EfaIndexStep(start: int, end: int)
    ensures forall k :: 0 < k < |EfaIndex(start, end)| ==> EfaIndex(start, end)[k] == EfaIndex(start, end)[k - 1] + 240
    ensures forall i, j :: 0 <= i < j < |EfaIndex(start, end)| ==> EfaIndex(start, end)[i] < EfaIndex(start, end)[j]
  {
  }

  /** Every EFA point falls at 23:00, 03:00, 07:00, 11:00, 15:00 or 19:00. */
  lemma EfaTimesOfDay(start: int, end: int)
    ensures forall k :: 0 <= k < |EfaIndex(start, end)| ==>
      MinuteOfDay(EfaIndex(start, end)[k]) in {23 * 60, 3 * 60, 7 * 60, 11 * 60, 15 * 60, 19 * 60}
  {
    EfaIndexSpec(start, end);
    forall k | 0 <= k < |EfaIndex(start, end)|
      ensures MinuteOfDay(EfaIndex(start, end)[k]) in {23 * 60, 3 * 60, 7 * 60, 11 * 60, 15 * 60, 19 * 60}
    {
      OpeningTimeOfDay(start + k / 6, k % 6 + 1);
    }
  }

  lemma OpeningTimeOfDay(d: int, b: int)
    requires 1 <= b <= 6
    ensures MinuteOfDay(EfaBlockOpening(d, b)) == if b == 1 then 23 * 60 else (4 * b - 5) * 60
    ensures DayOf(EfaBlockOpening(d, b)) == if b == 1 then d - 1 else d
  {
  }

  /** A single trading day gives 23:00 of the evening before, then 03:00 through 19:00. */
  lemma EfaIndexSingleDay(d: int)
    ensures EfaIndex(d, d) == [Midnight(d) - 60, Midnight(d) + 180, Midnight(d) + 420,
                               Midnight(d) + 660, Midnight(d) + 900, Midnight(d) + 1140]
  {
    EfaIndexSpec(d, d);
  }

  // ---- get_settlement_periods ----

  /** The inclusive bounds of the half-hourly settlement periods: 23:00 the day before to 22:30 of `end`. */
  function SettlementPeriods(start: int, end: int): (int, int) {
    (Midnight(start) - MinutesPerHour, Midnight(end) + 22 * MinutesPerHour + 30)
  }

  /**
   * The settlement window opens with the first EFA point and closes 3h30 after the last
   * one, inside EFA-6; its half-hour grid has 48 points per trading day, and point j lies
   * in the EFA block opened by EFA point j / 8.
   */
  lemma SettlementPeriodsSpec(start: int, end: int)
    requires start <= end
    ensures var (lo, hi) := SettlementPeriods(start, end);
      var efa := EfaIndex(start, end);
      var grid := DateRange(lo, hi, SettlementPeriodMinutes);
      && lo == efa[0]
      && hi == efa[|efa| - 1] + 210
      && efa[|efa| - 1] < hi < efa[|efa| - 1] + EfaBlockMinutes
      && |grid| == 48 * (end - start + 1)
      && forall j :: 0 <= j < |grid| ==> 0 <= j / 8 < |efa| && efa[j / 8] <= grid[j] < efa[j / 8] + EfaBlockMinutes
  {
    EfaIndexSpec(start, end);
    var lo := SettlementPeriods(start, end).0;
    var hi := SettlementPeriods(start, end).1;
    var grid := DateRange(lo, hi, SettlementPeriodMinutes);
    var efa := EfaIndex(start, end);
    var m := 48 * (end - start) + 47;
    assert hi - lo == SettlementPeriodMinutes * m;
    assert (hi - lo) / SettlementPeriodMinutes == m;
    forall j | 0 <= j < |grid| ensures 0 <= j / 8 < |efa| && efa[j / 8] <= grid[j] < efa[j / 8] + EfaBlockMinutes {
      SettlementPoint(start, j);
    }
  }

  lemma SettlementPoint(start: int, j: int)
    requires j >= 0
    ensures var t := SettlementPeriods(start, start).0 + SettlementPeriodMinutes * j;
      EfaStartTime(start) + EfaBlockMinutes * (j / 8) <= t < EfaStartTime(start) + EfaBlockMinutes * (j / 8) + EfaBlockMinutes
  {
    assert j == 8 * (j / 8) + j % 8;
  }

  /** The API query days cover the settlement window: the query is a superset of what is kept. */
  lemma QueryCoversSettlement(start: int, end: int)
    ensures Midnight(start - 1) <= SettlementPeriods(start, end).0
    ensures SettlementPeriods(start, end).1 < Midnight(end + 1)
  {
  }
}
