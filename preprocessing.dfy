/**
 * frcast/data/preprocessing.py: aggregation of a half-hourly frame into 4-hour
 * bins, the long-to-wide pivot of auction records, and the calendar features
 * on the EFA grid.
 */
module Preprocessing {
  import opened Wrappers
  import opened Seqs
  import opened Strings
  import opened Calendar
  import opened TimePeriods
  import opened Frames

  // ---- statistics (min and max exact; mean as sum / count over the reals) ----

  datatype Stat = Min | Max | Mean

  function StatName(s: Stat): string {
    match s
    case Min => "min"
    case Max => "max"
    case Mean => "mean"
  }

  function SeqMin(s: seq<real>): (r: real)
    requires |s| > 0
    ensures r in s && forall i :: 0 <= i < |s| ==> r <= s[i]
  {
    if |s| == 1 then s[0]
    else var m := SeqMin(s[1..]); if s[0] <= m then s[0] else m
  }

  function SeqMax(s: seq<real>): (r: real)
    requires |s| > 0
    ensures r in s && forall i :: 0 <= i < |s| ==> s[i] <= r
  {
    if |s| == 1 then s[0]
    else var m := SeqMax(s[1..]); if s[0] >= m then s[0] else m
  }

  function Sum(s: seq<real>): real {
    if s == [] then 0.0 else s[0] + Sum(s[1..])
  }

  function MeanOf(s: seq<real>): real
    requires |s| > 0
  {
    Sum(s) / (|s| as real)
  }

  lemma {:induction false} SumBounds(s: seq<real>, lo: real, hi: real)
    requires forall i :: 0 <= i < |s| ==> lo <= s[i] <= hi
    ensures (|s| as real) * lo <= Sum(s) <= (|s| as real) * hi
  {
    if s != [] {
      SumBounds(s[1..], lo, hi);
    }
  }

  /** The mean of a non-empty bin lies between its minimum and its maximum. */
  lemma MinMeanMax(s: seq<real>)
    requires |s| > 0
    ensures SeqMin(s) <= MeanOf(s) <= SeqMax(s)
  {
    MeanBetween(s, SeqMin(s), SeqMax(s));
  }

  lemma MeanBetween(s: seq<real>, lo: real, hi: real)
    requires |s| > 0 && forall i :: 0 <= i < |s| ==> lo <= s[i] <= hi
    ensures lo <= MeanOf(s) <= hi
  {
    SumBounds(s, lo, hi);
    var n, t := |s| as real, Sum(s);
    assert n * lo <= t <= n * hi;
    QuotientBounds(lo, t, hi, n);
  }

  lemma QuotientBounds(lo: real, sum: real, hi: real, n: real)
    requires n > 0.0 && n * lo <= sum <= n * hi
    ensures lo <= sum / n <= hi
  {
  }

  /** A bin whose values all equal v has minimum, maximum and mean v. */
  lemma ConstantStats(s: seq<real>, v: real)
    requires |s| > 0 && forall i :: 0 <= i < |s| ==> s[i] == v
    ensures SeqMin(s) == v && SeqMax(s) == v && MeanOf(s) == v
  {
    MeanBetween(s, v, v);
  }

  /** One statistic over the values present in a bin; an empty bin gives a missing cell. */
  function StatOf(stat: Stat, xs: seq<real>): Cell {
    if xs == [] then None
    else match stat
      case Min => Some(SeqMin(xs))
      case Max => Some(SeqMax(xs))
      case Mean => Some(MeanOf(xs))
  }

  // ---- aggregate_sp_to_efa ----

  /** The non-missing values of a column whose timestamp lies in [lo, hi). */
  function BinValues(index: seq<int>, values: seq<Cell>, lo: int, hi: int): (r: seq<real>)
    requires |values| == |index|
    ensures forall x :: x in r <==> exists i :: 0 <= i < |index| && lo <= index[i] < hi && values[i] == Some(x)
  {
    if index == [] then []
    else
      var n := |index| - 1;
      var r := BinValues(index[..n], values[..n], lo, hi);
      if lo <= index[n] < hi && values[n].Some? then r + [values[n].value] else r
  }

  /** Bin openings: every `freq` from the first timestamp (`origin='start'`) until the last one is covered. */
  function BinStarts(index: seq<int>, freq: int): seq<int>
    requires freq > 0
  {
    if index == [] then []
    else
      var sorted := SortedDistinct(index, IntLess);
      SortedDistinctNonEmpty(index);
      DateRange(sorted[0], sorted[|sorted| - 1], freq)
  }

  lemma SortedDistinctNonEmpty(index: seq<int>)
    requires index != []
    ensures SortedDistinct(index, IntLess) != []
  {
    var init := SortedDistinct(index[..|index| - 1], IntLess);
    assert SortedDistinct(index, IntLess) == Insert(index[|index| - 1], init, IntLess);
  }

  /** The bin openings ascend strictly, so an aggregate never has a duplicate timestamp. */
  lemma BinStartsAscending(index: seq<int>, freq: int)
    requires freq > 0
    ensures StrictlySorted(BinStarts(index, freq), IntLess)
    ensures Distinct(BinStarts(index, freq))
  {
    if index != [] {
      var sorted := SortedDistinct(index, IntLess);
      SortedDistinctNonEmpty(index);
      DateRangeAscending(sorted[0], sorted[|sorted| - 1], freq);
    }
  }

  /** The label of aggregated column `column` with statistic `stat`: lower(column + '_' + stat). */
  function AggregateName(column: string, stat: Stat): string {
    Lower(column + "_" + StatName(stat))
  }

  /**
   * `aggregate_sp_to_efa(df, stats, freq)`: `df.resample(freq, origin='start').agg(stats)`
   * with the (column, stat) labels joined by '_' and lower-cased. Column c * |stats| + s
   * of the result is statistic s of input column c.
   */
  function AggregateSpToEfa(f: Frame, stats: seq<Stat>, freq: int): (r: Result<Frame>)
    requires WellFormed(f)
    ensures r.Ok? <==> f.Indexed? && freq > 0 && stats != []
    ensures f.Blank? ==> r.Err? && r.error.TypeError?
    ensures r.Ok? ==> WellFormed(r.value) && r.value.Indexed?
  {
    if f.Blank? then Err(TypeError("Only valid with DatetimeIndex, TimedeltaIndex or PeriodIndex"))
    else if freq <= 0 then Err(ValueError("freq must be positive"))
    else if stats == [] then Err(ValueError("No objects to concatenate"))
    else
      var bins := BinStarts(f.index, freq);
      var m := |stats|;
      var n := |f.columns| * m;
      MulPositions(|f.columns|, m);
      Ok(Indexed(bins,
                 seq(n, c requires 0 <= c < n => AggregateName(f.columns[c / m], stats[c % m])),
                 seq(n, c requires 0 <= c < n => AggregateColumn(f.index, f.data[c / m], stats[c % m], bins, freq))))
  }

  /** One aggregated column: statistic `stat` of `values` in each bin [b, b + freq). */
  function AggregateColumn(index: seq<int>, values: seq<Cell>, stat: Stat, bins: seq<int>, freq: int): (r: seq<Cell>)
    requires |values| == |index|
    ensures |r| == |bins|
    ensures forall k :: 0 <= k < |bins| ==> r[k] == StatOf(stat, BinValues(index, values, bins[k], bins[k] + freq))
  {
    seq(|bins|, k requires 0 <= k < |bins| => StatOf(stat, BinValues(index, values, bins[k], bins[k] + freq)))
  }

  /** Position of statistic s of input column c among the aggregated columns. */
  function FlatPos(c: int, s: int, m: int): int { c * m + s }

  /**
   * The aggregate has one row per bin and, for input column c and statistic s, a column
   * named lower(c + '_' + s) holding that statistic of the column's values in each bin.
   */
  lemma AggregateSpToEfaSpec(f: Frame, stats: seq<Stat>, freq: int)
    requires WellFormed(f) && f.Indexed? && freq > 0 && stats != []
    ensures var r := AggregateSpToEfa(f, stats, freq);
      && r.Ok? && r.value.index == BinStarts(f.index, freq)
      && |r.value.columns| == |f.columns| * |stats|
    ensures var r := AggregateSpToEfa(f, stats, freq);
      forall c, s :: 0 <= c < |f.columns| && 0 <= s < |stats| ==>
        && FlatPos(c, s, |stats|) < |r.value.columns|
        && r.value.columns[FlatPos(c, s, |stats|)] == AggregateName(f.columns[c], stats[s])
        && r.value.data[FlatPos(c, s, |stats|)] == AggregateColumn(f.index, f.data[c], stats[s], r.value.index, freq)
  {
    var r := AggregateSpToEfa(f, stats, freq);
    var m := |stats|;
    FlatPositions(|f.columns|, m);
    forall c, s | 0 <= c < |f.columns| && 0 <= s < m
      ensures && FlatPos(c, s, m) < |r.value.columns|
              && r.value.columns[FlatPos(c, s, m)] == AggregateName(f.columns[c], stats[s])
              && r.value.data[FlatPos(c, s, m)] == AggregateColumn(f.index, f.data[c], stats[s], r.value.index, freq)
    {
      var p := FlatPos(c, s, m);
      assert p / m == c && p % m == s;
    }
  }

  lemma FlatPositions(a: int, b: int)
    requires a >= 0 && b > 0
    ensures forall c, s :: 0 <= c < a && 0 <= s < b ==>
      0 <= FlatPos(c, s, b) < a * b && FlatPos(c, s, b) / b == c && FlatPos(c, s, b) % b == s
  {
    forall c, s | 0 <= c < a && 0 <= s < b
      ensures 0 <= FlatPos(c, s, b) < a * b && FlatPos(c, s, b) / b == c && FlatPos(c, s, b) % b == s
    {
      MulMonotone(b, c + 1, a);
      MulMonotone(b, 0, c);
      DivUnique(FlatPos(c, s, b), c, s, b);
    }
  }

  lemma DivUnique(x: int, c: int, s: int, b: int)
    requires b > 0 && 0 <= s < b && x == c * b + s
    ensures x / b == c && x % b == s
  {
    var d := x / b - c;
    assert b * d == s - x % b;
    if d >= 1 {
      MulMonotone(b, 1, d);
    } else if d <= -1 {
      MulMonotone(b, 1, -d);
    }
  }

  lemma MulPositions(a: int, b: int)
    requires a >= 0 && b > 0
    ensures forall c :: 0 <= c < a * b ==> 0 <= c / b < a && 0 <= c % b < b
  {
    forall c | 0 <= c < a * b ensures 0 <= c / b < a {
      DivBelow(c, a, b);
    }
  }

  lemma DivBelow(c: int, a: int, b: int)
    requires 0 <= c < a * b && b > 0
    ensures 0 <= c / b < a
  {
    var q := c / b;
    assert b * q <= c;
    if q >= a {
      MulMonotone(b, a, q);
    }
  }

  /**
   * Every timestamp of the frame falls in exactly one bin, number (t - first) / freq;
   * the first bin opens at the earliest timestamp and no bin opens past the last one.
   */
  lemma BinOfTimestamp(index: seq<int>, freq: int, t: int)
    requires freq > 0 && t in index
    ensures |BinStarts(index, freq)| > 0 && BinStarts(index, freq)[0] <= t
    ensures BinStarts(index, freq)[0] in index
    ensures 0 <= (t - BinStarts(index, freq)[0]) / freq < |BinStarts(index, freq)|
    ensures forall k :: 0 <= k < |BinStarts(index, freq)| ==>
      (BinStarts(index, freq)[k] <= t < BinStarts(index, freq)[k] + freq
       <==> k == (t - BinStarts(index, freq)[0]) / freq)
  {
    var sorted := SortedDistinct(index, IntLess);
    SortedEnds(index, t);
    var lo, hi := sorted[0], sorted[|sorted| - 1];
    GridSlot(lo, hi, freq, t);
  }

  /** The ends of the sorted distinct timestamps are the earliest and the latest one. */
  lemma SortedEnds(index: seq<int>, t: int)
    requires t in index
    ensures var sorted := SortedDistinct(index, IntLess);
      && |sorted| > 0 && sorted[0] in index && sorted[|sorted| - 1] in index
      && sorted[0] <= t <= sorted[|sorted| - 1]
  {
    var sorted := SortedDistinct(index, IntLess);
    assert StrictlySorted(sorted, IntLess) && forall e :: e in sorted <==> e in index by {
      SortedDistinctInts(index);
    }
    assert t in sorted;
    var last := |sorted| - 1;
    var i :| 0 <= i < |sorted| && sorted[i] == t;
    assert sorted[0] <= t <= sorted[last] by {
      assert i == 0 || IntLess(sorted[0], sorted[i]);
      assert i == last || IntLess(sorted[i], sorted[last]);
    }
    assert sorted[0] in sorted && sorted[last] in sorted;
  }

  /** A point of [lo, hi] lies in exactly one slot [lo + step * k, lo + step * (k + 1)) of the grid. */
  lemma GridSlot(lo: int, hi: int, step: int, t: int)
    requires step > 0 && lo <= t <= hi
    ensures 0 <= (t - lo) / step < |DateRange(lo, hi, step)|
    ensures forall k :: 0 <= k < |DateRange(lo, hi, step)| ==>
      (DateRange(lo, hi, step)[k] <= t < DateRange(lo, hi, step)[k] + step <==> k == (t - lo) / step)
  {
    var bins := DateRange(lo, hi, step);
    var q := (t - lo) / step;
    var rem := (t - lo) % step;
    QuotientSplit(t - lo, step);
    assert q < |bins| by {
      assert lo + step * q <= hi;
      DateRangePoint(lo, hi, step, q);
    }
    forall k | 0 <= k < |bins|
      ensures bins[k] <= t < bins[k] + step <==> k == q
    {
      assert bins[k] == lo + step * k;
      SlotIndex(lo, step, t, k, q, rem);
    }
  }

  /** A non-negative a is step * (a / step) + a % step, with a non-negative quotient. */
  lemma QuotientSplit(a: int, step: int)
    requires a >= 0 && step > 0
    ensures a == step * (a / step) + a % step && 0 <= a % step < step && a / step >= 0
  {
    var q := a / step;
    if q < 0 {
      MulMonotone(step, 1, -q);
    }
  }

  lemma SlotIndex(lo: int, step: int, t: int, k: int, q: int, rem: int)
    requires step > 0 && 0 <= k && 0 <= q && t - lo == step * q + rem && 0 <= rem < step
    ensures lo + step * k <= t < lo + step * k + step <==> k == q
  {
    if k < q {
      MulMonotone(step, k + 1, q);
    } else if k > q {
      MulMonotone(step, q + 1, k);
    }
  }

  /** No bin opens after the last timestamp: each bin holds at least one row of the frame. */
  lemma BinsNonEmpty(index: seq<int>, freq: int, k: int)
    requires freq > 0 && 0 <= k < |BinStarts(index, freq)|
    ensures exists i :: 0 <= i < |index| && BinStarts(index, freq)[k] <= index[i]
  {
    var sorted := SortedDistinct(index, IntLess);
    SortedDistinctInts(index);
    var last := |sorted| - 1;
    DateRangeMembers(sorted[0], sorted[last], freq);
    assert sorted[last] in sorted;
    var i :| 0 <= i < |index| && index[i] == sorted[last];
  }

  /** A cell of the aggregate is missing exactly when its bin holds no value of the column. */
  lemma StatMissingIff(stat: Stat, index: seq<int>, values: seq<Cell>, lo: int, hi: int)
    requires |values| == |index|
    ensures StatOf(stat, BinValues(index, values, lo, hi)).None?
      <==> forall i :: 0 <= i < |index| && lo <= index[i] < hi ==> values[i].None?
  {
    var xs := BinValues(index, values, lo, hi);
    if xs != [] {
      assert xs[0] in xs;
    }
  }

  /**
   * Within one bin of one column, the min, mean and max cells are all present or all
   * missing, and min <= mean <= max.
   */
  lemma BinStatsOrdered(index: seq<int>, values: seq<Cell>, lo: int, hi: int)
    requires |values| == |index|
    ensures var xs := BinValues(index, values, lo, hi);
      && StatOf(Min, xs).Some? == StatOf(Mean, xs).Some? == StatOf(Max, xs).Some?
      && (StatOf(Min, xs).Some? ==>
            StatOf(Min, xs).value <= StatOf(Mean, xs).value <= StatOf(Max, xs).value)
  {
    var xs := BinValues(index, values, lo, hi);
    if xs != [] {
      MinMeanMax(xs);
    }
  }

  /** A bin in which every present value is v aggregates to v for every statistic. */
  lemma ConstantBin(stat: Stat, index: seq<int>, values: seq<Cell>, lo: int, hi: int, v: real)
    requires |values| == |index|
    requires exists i :: 0 <= i < |index| && lo <= index[i] < hi && values[i].Some?
    requires forall i :: 0 <= i < |index| && lo <= index[i] < hi && values[i].Some? ==> values[i].value == v
    ensures StatOf(stat, BinValues(index, values, lo, hi)) == Some(v)
  {
    var xs := BinValues(index, values, lo, hi);
    var i :| 0 <= i < |index| && lo <= index[i] < hi && values[i].Some?;
    assert values[i].value in xs;
    forall j | 0 <= j < |xs| ensures xs[j] == v {
      assert xs[j] in xs;
    }
    ConstantStats(xs, v);
  }

  // ---- get_eac_auction_volume_or_price ----

  /** One auction result row; delivery_start already converted to naive UK local minutes. */
  datatype AuctionRecord = AuctionRecord(
    deliveryStart: int,
    auctionProduct: string,
    clearingPrice: Cell,
    clearedVolume: Cell)

  datatype ValueKind = ClearingPrice | ClearedVolume

  /** 'volume' extracts cleared_volume and 'price' clearing_price; any other request nothing. */
  function ExtractingColumn(extracting: string): Option<ValueKind> {
    if extracting == "volume" then Some(ClearedVolume)
    else if extracting == "price" then Some(ClearingPrice)
    else None
  }

  function AuctionKey(r: AuctionRecord): (int, string) {
    (r.deliveryStart, r.auctionProduct)
  }

  function ValueOf(r: Option<AuctionRecord>, kind: ValueKind): Cell {
    match r
    case None => None
    case Some(x) => if kind == ClearingPrice then x.clearingPrice else x.clearedVolume
  }

  function StartsOf(records: seq<AuctionRecord>): seq<int> {
    seq(|records|, i requires 0 <= i < |records| => records[i].deliveryStart)
  }

  function ProductsOf(records: seq<AuctionRecord>): seq<string> {
    seq(|records|, i requires 0 <= i < |records| => records[i].auctionProduct)
  }

  /**
   * `get_eac_auction_volume_or_price(df, extracting)`: keep the first record per
   * (delivery_start, auction_product), unstack the products into columns (sorted, as
   * unstack orders them), sort the rows and name each column lower(product + '_' + extracting).
   * An unrecognised request gives the empty frame.
   */
  function PivotAuctions(records: seq<AuctionRecord>, extracting: string): (r: Frame)
    ensures WellFormed(r)
    ensures r.Blank? <==> ExtractingColumn(extracting).None?
  {
    match ExtractingColumn(extracting)
    case None => Blank
    case Some(kind) =>
      var kept := KeepFirst(records, AuctionKey);
      var rows := SortedDistinct(StartsOf(kept), IntLess);
      var products := SortedDistinct(ProductsOf(kept), LexLess);
      Indexed(rows,
              seq(|products|, j requires 0 <= j < |products| => Lower(products[j] + "_" + extracting)),
              seq(|products|, j requires 0 <= j < |products| =>
                seq(|rows|, i requires 0 <= i < |rows| =>
                  ValueOf(FirstWith(kept, AuctionKey, (rows[i], products[j])), kind))))
  }

  /** The starts (products) of the de-duplicated records are those of all records. */
  lemma KeptCoordinates(records: seq<AuctionRecord>)
    ensures forall t :: t in StartsOf(KeepFirst(records, AuctionKey)) <==> t in StartsOf(records)
    ensures forall p :: p in ProductsOf(KeepFirst(records, AuctionKey)) <==> p in ProductsOf(records)
  {
    var kept := KeepFirst(records, AuctionKey);
    KeepFirstSpec(records, AuctionKey);
    forall i | 0 <= i < |records|
      ensures records[i].deliveryStart in StartsOf(kept) && records[i].auctionProduct in ProductsOf(kept)
    {
      var f := FirstWith(kept, AuctionKey, AuctionKey(records[i]));
      assert FirstWith(records, AuctionKey, AuctionKey(records[i])).Some?;
      var j :| 0 <= j < |kept| && kept[j] == f.value;
      assert StartsOf(kept)[j] == records[i].deliveryStart;
      assert ProductsOf(kept)[j] == records[i].auctionProduct;
    }
    forall t | t in StartsOf(kept) ensures t in StartsOf(records) {
      var j :| 0 <= j < |kept| && kept[j].deliveryStart == t;
      assert kept[j] in records;
      var i :| 0 <= i < |records| && records[i] == kept[j];
      assert StartsOf(records)[i] == t;
    }
    forall p | p in ProductsOf(kept) ensures p in ProductsOf(records) {
      var j :| 0 <= j < |kept| && kept[j].auctionProduct == p;
      assert kept[j] in records;
      var i :| 0 <= i < |records| && records[i] == kept[j];
      assert ProductsOf(records)[i] == p;
    }
  }

  /**
   * The pivot's rows are the distinct delivery starts in ascending order, its columns the
   * distinct products in ascending order (suffixed), and each cell the requested value of
   * the FIRST record for that (start, product), missing when there is none.
   */
  lemma PivotAuctionsSpec(records: seq<AuctionRecord>, extracting: string)
    requires ExtractingColumn(extracting).Some?
    ensures var r := PivotAuctions(records, extracting);
      && r.Indexed?
      && r.index == SortedDistinct(StartsOf(records), IntLess)
      && StrictlySorted(r.index, IntLess)
      && (forall t :: t in r.index <==> exists i :: 0 <= i < |records| && records[i].deliveryStart == t)
    ensures var r := PivotAuctions(records, extracting);
      var products := SortedDistinct(ProductsOf(records), LexLess);
      && StrictlySorted(products, LexLess)
      && (forall p :: p in products <==> exists i :: 0 <= i < |records| && records[i].auctionProduct == p)
      && |r.columns| == |products|
      && (forall j :: 0 <= j < |products| ==> r.columns[j] == Lower(products[j] + "_" + extracting))
      && (forall j, i :: 0 <= j < |products| && 0 <= i < |r.index| ==>
            r.data[j][i] == ValueOf(FirstWith(records, AuctionKey, (r.index[i], products[j])),
                                    ExtractingColumn(extracting).value))
  {
    var kept := KeepFirst(records, AuctionKey);
    KeepFirstSpec(records, AuctionKey);
    KeptCoordinates(records);
    IntLessIsStrictTotalOrder();
    LexIsStrictTotalOrder();
    SortedDistinctSpec(StartsOf(kept), IntLess);
    SortedDistinctSpec(StartsOf(records), IntLess);
    SortedUnique(SortedDistinct(StartsOf(kept), IntLess), SortedDistinct(StartsOf(records), IntLess), IntLess);
    SortedDistinctSpec(ProductsOf(kept), LexLess);
    SortedDistinctSpec(ProductsOf(records), LexLess);
    SortedUnique(SortedDistinct(ProductsOf(kept), LexLess), SortedDistinct(ProductsOf(records), LexLess), LexLess);
    forall t | t in StartsOf(records)
      ensures exists i :: 0 <= i < |records| && records[i].deliveryStart == t
    {
      var i :| 0 <= i < |records| && StartsOf(records)[i] == t;
    }
    forall p | p in ProductsOf(records)
      ensures exists i :: 0 <= i < |records| && records[i].auctionProduct == p
    {
      var i :| 0 <= i < |records| && ProductsOf(records)[i] == p;
    }
    forall t, i | 0 <= i < |records| && records[i].deliveryStart == t
      ensures t in StartsOf(records)
    {
      assert StartsOf(records)[i] == t;
    }
    forall p, i | 0 <= i < |records| && records[i].auctionProduct == p
      ensures p in ProductsOf(records)
    {
      assert ProductsOf(records)[i] == p;
    }
  }

  /**
   * The clearing prices of a non-empty record list pivoted to one column per service and
   * kept from lo to hi inclusive: the post-fetch transform shared by the FR and BR sources.
   */
  function TrimmedPrices(records: seq<AuctionRecord>, lo: int, hi: int): (r: Frame)
    ensures WellFormed(r) && r.Indexed?
    ensures forall i :: 0 <= i < |Rows(r)| ==> lo <= Rows(r)[i] <= hi
  {
    TrimRows(PivotAuctions(records, "price"), lo, hi)
  }

  /** Its rows: one per distinct delivery start between lo and hi, in ascending order. */
  lemma TrimmedPricesRows(records: seq<AuctionRecord>, lo: int, hi: int)
    ensures var r := TrimmedPrices(records, lo, hi);
      && StrictlySorted(r.index, IntLess)
      && (forall t :: t in r.index <==>
            lo <= t <= hi && exists i :: 0 <= i < |records| && records[i].deliveryStart == t)
  {
    var pivot := PivotAuctions(records, "price");
    PivotAuctionsSpec(records, "price");
    var r := TrimRows(pivot, lo, hi);
    assert TrimmedPrices(records, lo, hi) == r;
    TrimRowsSorted(pivot, lo, hi);
    assert Rows(r) == r.index && Rows(pivot) == pivot.index;
    forall t
      ensures t in r.index <==> lo <= t <= hi && exists i :: 0 <= i < |records| && records[i].deliveryStart == t
    {
      assert t in r.index <==> t in pivot.index && lo <= t <= hi;
    }
  }

  /** Its columns: one per service named `<service>_price`, in sorted order. */
  lemma TrimmedPricesColumns(records: seq<AuctionRecord>, lo: int, hi: int)
    ensures var r := TrimmedPrices(records, lo, hi);
      var products := SortedDistinct(ProductsOf(records), LexLess);
      && |r.columns| == |products|
      && (forall j :: 0 <= j < |products| ==> r.columns[j] == Lower(products[j] + "_price"))
  {
    var pivot := PivotAuctions(records, "price");
    PivotAuctionsSpec(records, "price");
    assert TrimmedPrices(records, lo, hi).columns == pivot.columns;
    var products := SortedDistinct(ProductsOf(records), LexLess);
    forall j | 0 <= j < |products| ensures pivot.columns[j] == Lower(products[j] + "_price") {
      PriceSuffix(products[j]);
    }
  }

  lemma PriceSuffix(p: string)
    ensures p + "_" + "price" == p + "_price"
  {
  }

  /**
   * Its cells: in column j and row i the clearing price of the first record for that
   * delivery start and the j-th service.
   */
  lemma TrimmedPricesCells(records: seq<AuctionRecord>, lo: int, hi: int)
    ensures var r := TrimmedPrices(records, lo, hi);
      var products := SortedDistinct(ProductsOf(records), LexLess);
      && |r.data| == |products|
      && forall j, i :: 0 <= j < |products| && 0 <= i < |r.index| ==>
        r.data[j][i] == ValueOf(FirstWith(records, AuctionKey, (r.index[i], products[j])), ClearingPrice)
  {
    var pivot := PivotAuctions(records, "price");
    PivotAuctionsSpec(records, "price");
    var r := TrimRows(pivot, lo, hi);
    assert TrimmedPrices(records, lo, hi) == r;
    var products := SortedDistinct(ProductsOf(records), LexLess);
    forall j, i | 0 <= j < |products| && 0 <= i < |r.index|
      ensures r.data[j][i] == ValueOf(FirstWith(records, AuctionKey, (r.index[i], products[j])), ClearingPrice)
    {
      var q := TrimRowsRow(pivot, lo, hi, i);
      assert r.data[j][i] == pivot.data[j][q];
    }
  }

  // ---- create_temporal_features_df ----

  /** The features the builder knows how to fill. */
  const TemporalFeatureNames: seq<string> := ["hour", "day", "month", "weekday", "working day"]

  /**
   * The value of one calendar feature at timestamp t: hour of day, day of month, month,
   * weekday (Monday 0) and the working-day flag, which is 0 on Monday to Friday and 1 at
   * the weekend. An unknown feature has no value.
   */
  function TemporalValue(name: string, t: int): Option<int>
    requires ValidDay(DayOf(t))
  {
    if name == "hour" then Some(HourOf(t))
    else if name == "day" then Some(FromDayNumber(DayOf(t)).day)
    else if name == "month" then Some(FromDayNumber(DayOf(t)).month)
    else if name == "weekday" then Some(Weekday(DayOf(t)))
    else if name == "working day" then Some(if Weekday(DayOf(t)) < 5 then 0 else 1)
    else None
  }

  /** Every point of the EFA index of trading days start..end falls on a day in start - 1..end. */
  lemma EfaDays(start: int, end: int)
    ensures forall k :: 0 <= k < |EfaIndex(start, end)| ==>
      DayOf(EfaIndex(start, end)[k]) == (if k % 6 == 0 then start + k / 6 - 1 else start + k / 6)
      && start - 1 <= DayOf(EfaIndex(start, end)[k]) <= end
  {
    EfaIndexSpec(start, end);
    forall k | 0 <= k < |EfaIndex(start, end)|
      ensures DayOf(EfaIndex(start, end)[k]) == (if k % 6 == 0 then start + k / 6 - 1 else start + k / 6)
    {
      OpeningTimeOfDay(start + k / 6, k % 6 + 1);
    }
  }

  lemma EfaDaysValid(start: int, end: int)
    requires start <= end ==> ValidDay(start - 1) && ValidDay(end)
    ensures forall k :: 0 <= k < |EfaIndex(start, end)| ==> ValidDay(DayOf(EfaIndex(start, end)[k]))
  {
    EfaDays(start, end);
  }

  /** The freshly allocated frame is all missing, which is what an unknown feature's column holds. */
  lemma NothingFilled(cells: map<string, seq<Option<int>>>, features: seq<string>, idx: seq<int>)
    requires forall i :: 0 <= i < |idx| ==> ValidDay(DayOf(idx[i]))
    requires forall c :: c in features ==> c in cells && cells[c] == seq(|idx|, _ => None)
    ensures FilledUpTo(cells, features, idx, {})
  {
  }

  /** f is the frame on `idx` whose column j holds feature features[j], as a number. */
  ghost predicate IsFeatureFrame(f: Frame, features: seq<string>, idx: seq<int>)
    requires forall i :: 0 <= i < |idx| ==> ValidDay(DayOf(idx[i]))
  {
    && WellFormed(f) && f.Indexed? && f.index == idx && f.columns == features
    && forall j, i :: 0 <= j < |features| && 0 <= i < |idx| ==>
         && TemporalValue(features[j], idx[i]).Some?
         && f.data[j][i] == Some(TemporalValue(features[j], idx[i]).value as real)
  }

  /** `df.astype('int64')`: fails when any cell of any column is missing. */
  function AsInt64(index: seq<int>, columns: seq<string>, cells: map<string, seq<Option<int>>>): (r: Result<Frame>)
    requires forall c :: c in columns ==> c in cells && |cells[c]| == |index|
    ensures r.Ok? <==> forall j, i :: 0 <= j < |columns| && 0 <= i < |index| ==> cells[columns[j]][i].Some?
    ensures r.Ok? ==> WellFormed(r.value) && r.value.Indexed?
  {
    if exists j, i :: 0 <= j < |columns| && 0 <= i < |index| && cells[columns[j]][i].None? then
      Err(ValueError("cannot convert float NaN to integer"))
    else
      Ok(Indexed(index, columns,
                 seq(|columns|, j requires 0 <= j < |columns| =>
                   seq(|index|, i requires 0 <= i < |index| => Some(cells[columns[j]][i].value as real)))))
  }

  /** The values of one feature along a timestamp index. */
  function FeatureColumn(name: string, idx: seq<int>): (r: seq<Option<int>>)
    requires forall i :: 0 <= i < |idx| ==> ValidDay(DayOf(idx[i]))
    ensures |r| == |idx|
  {
    seq(|idx|, i requires 0 <= i < |idx| => TemporalValue(name, idx[i]))
  }

  /** Every requested column holds its feature's values once the features in `done` have been filled. */
  ghost predicate FilledUpTo(cells: map<string, seq<Option<int>>>, features: seq<string>, idx: seq<int>, done: set<string>)
    requires forall i :: 0 <= i < |idx| ==> ValidDay(DayOf(idx[i]))
  {
    forall c :: c in features ==>
      c in cells && cells[c] == if c in done || c !in TemporalFeatureNames then FeatureColumn(c, idx)
                                else seq(|idx|, _ => None)
  }

  /**
   * `create_temporal_features_df(start, end, features)`: a frame on the EFA index with one
   * column per requested feature, filled feature by feature, the helper weekday column
   * dropped again when only the working-day flag was asked for, and cast to integers. A
   * feature the builder does not know stays empty, so the cast fails on a non-empty index.
   */
  method CreateTemporalFeatures(start: int, end: int, features: seq<string>) returns (r: Result<Frame>)
    requires start <= end ==> ValidDay(start - 1) && ValidDay(end)
    ensures forall i :: 0 <= i < |EfaIndex(start, end)| ==> ValidDay(DayOf(EfaIndex(start, end)[i]))
    ensures r.Ok? <==> EfaIndex(start, end) == [] || forall f :: f in features ==> f in TemporalFeatureNames
    ensures r.Err? ==> r.error.ValueError?
    ensures r.Ok? ==> IsFeatureFrame(r.value, features, EfaIndex(start, end))
  {
    var idx := EfaIndex(start, end);
    EfaDaysValid(start, end);
    var table := new Table<Option<int>>(idx, features, None);
    NothingFilled(table.cells, features, idx);
    FillFeatures(table, features, idx);
    var cells := table.cells;
    CastFilled(cells, features, idx, {"hour", "day", "month", "weekday", "working day"});
    r := AsInt64(idx, features, cells);
  }

  /** The five `if name in features:` blocks, in the order the builder runs them. */
  method FillFeatures(table: Table<Option<int>>, features: seq<string>, idx: seq<int>)
    requires forall i :: 0 <= i < |idx| ==> ValidDay(DayOf(idx[i]))
    requires table.Valid() && table.index == idx && table.columns == features
    requires FilledUpTo(table.cells, features, idx, {})
    modifies table
    ensures table.Valid() && table.index == idx && table.columns == features
    ensures FilledUpTo(table.cells, features, idx, {"hour", "day", "month", "weekday", "working day"})
  {
    CalendarColumns(idx);
    ghost var done: set<string> := {};
    FillColumn(table, features, idx, done, "hour", HourColumn(idx));
    done := done + {"hour"};
    FillColumn(table, features, idx, done, "day", DayColumn(idx));
    done := done + {"day"};
    FillColumn(table, features, idx, done, "month", MonthColumn(idx));
    done := done + {"month"};
    FillColumn(table, features, idx, done, "weekday", WeekdayColumn(idx));
    done := done + {"weekday"};
    FillWorkingDay(table, features, idx, done, WeekdayColumn(idx));
    assert done + {"working day"} == {"hour", "day", "month", "weekday", "working day"};
  }

  /** `index.hour`, `index.day`, `index.month` and `index.weekday` of a timestamp index. */
  function HourColumn(idx: seq<int>): seq<Option<int>> {
    seq(|idx|, i requires 0 <= i < |idx| => Some(HourOf(idx[i])))
  }

  function DayColumn(idx: seq<int>): seq<Option<int>>
    requires forall i :: 0 <= i < |idx| ==> ValidDay(DayOf(idx[i]))
  {
    seq(|idx|, i requires 0 <= i < |idx| => Some(FromDayNumber(DayOf(idx[i])).day))
  }

  function MonthColumn(idx: seq<int>): seq<Option<int>>
    requires forall i :: 0 <= i < |idx| ==> ValidDay(DayOf(idx[i]))
  {
    seq(|idx|, i requires 0 <= i < |idx| => Some(FromDayNumber(DayOf(idx[i])).month))
  }

  function WeekdayColumn(idx: seq<int>): seq<Option<int>> {
    seq(|idx|, i requires 0 <= i < |idx| => Some(Weekday(DayOf(idx[i]))))
  }

  lemma CalendarColumns(idx: seq<int>)
    requires forall i :: 0 <= i < |idx| ==> ValidDay(DayOf(idx[i]))
    ensures HourColumn(idx) == FeatureColumn("hour", idx)
    ensures DayColumn(idx) == FeatureColumn("day", idx)
    ensures MonthColumn(idx) == FeatureColumn("month", idx)
    ensures WeekdayColumn(idx) == FeatureColumn("weekday", idx)
  {
  }

  /** `if name in features: df.loc[:, name] = values`, for a column of the feature's values. */
  method FillColumn(table: Table<Option<int>>, features: seq<string>, idx: seq<int>, ghost done: set<string>,
                    name: string, values: seq<Option<int>>)
    requires forall i :: 0 <= i < |idx| ==> ValidDay(DayOf(idx[i]))
    requires table.Valid() && table.index == idx && table.columns == features
    requires FilledUpTo(table.cells, features, idx, done)
    requires values == FeatureColumn(name, idx)
    modifies table
    ensures table.Valid() && table.index == idx && table.columns == features
    ensures FilledUpTo(table.cells, features, idx, done + {name})
  {
    FillStep(table.cells, features, idx, done, name);
    if name in features {
      table.Assign(name, values);
    }
  }

  /**
   * The working-day branch: (re)assign the weekday column, derive the flag from it, and drop
   * the weekday column again when it was not requested.
   */
  method FillWorkingDay(table: Table<Option<int>>, features: seq<string>, idx: seq<int>, ghost done: set<string>,
                        weekdays: seq<Option<int>>)
    requires forall i :: 0 <= i < |idx| ==> ValidDay(DayOf(idx[i]))
    requires table.Valid() && table.index == idx && table.columns == features
    requires "weekday" in done && FilledUpTo(table.cells, features, idx, done)
    requires weekdays == FeatureColumn("weekday", idx)
    modifies table
    ensures table.Valid() && table.index == idx && table.columns == features
    ensures FilledUpTo(table.cells, features, idx, done + {"working day"})
  {
    FillStep(table.cells, features, idx, done, "working day");
    if "working day" in features {
      table.Assign("weekday", weekdays);
      FillStep(table.cells, features, idx, done, "working day");
      var weekday := table.cells["weekday"];
      var flags := seq(|idx|, i requires 0 <= i < |idx| => Some(if weekday[i].value < 5 then 0 else 1));
      assert flags == FeatureColumn("working day", idx);
      table.Assign("working day", flags);
      if "weekday" !in features {
        WithoutAppended(features, "weekday");
        FillDrop(table.cells, features, idx, done + {"working day"}, "weekday");
        table.Drop("weekday");
      }
    }
  }

  /**
   * Filling feature `name` (or finding it not requested) extends what is filled; assigning
   * the helper weekday column over a state where it is already filled keeps it filled.
   */
  lemma FillStep(cells: map<string, seq<Option<int>>>, features: seq<string>, idx: seq<int>, done: set<string>, name: string)
    requires forall i :: 0 <= i < |idx| ==> ValidDay(DayOf(idx[i]))
    requires FilledUpTo(cells, features, idx, done)
    ensures name !in features ==> FilledUpTo(cells, features, idx, done + {name})
    ensures FilledUpTo(cells[name := FeatureColumn(name, idx)], features, idx, done + {name})
    ensures "weekday" in done ==> FilledUpTo(cells["weekday" := FeatureColumn("weekday", idx)], features, idx, done)
  {
  }

  /** Dropping a column nobody asked for keeps every requested column filled. */
  lemma FillDrop(cells: map<string, seq<Option<int>>>, features: seq<string>, idx: seq<int>, done: set<string>, name: string)
    requires forall i :: 0 <= i < |idx| ==> ValidDay(DayOf(idx[i]))
    requires FilledUpTo(cells, features, idx, done) && name !in features
    ensures FilledUpTo(cells - {name}, features, idx, done)
  {
  }

  /**
   * Once every known feature is filled, the integer cast succeeds exactly when the index is
   * empty or no requested feature is unknown, and then holds each feature's values.
   */
  lemma CastFilled(cells: map<string, seq<Option<int>>>, features: seq<string>, idx: seq<int>, done: set<string>)
    requires forall i :: 0 <= i < |idx| ==> ValidDay(DayOf(idx[i]))
    requires forall n :: n in TemporalFeatureNames ==> n in done
    requires FilledUpTo(cells, features, idx, done)
    ensures forall c :: c in features ==> c in cells && |cells[c]| == |idx|
    ensures AsInt64(idx, features, cells).Ok? <==> idx == [] || forall f :: f in features ==> f in TemporalFeatureNames
    ensures AsInt64(idx, features, cells).Ok? ==> IsFeatureFrame(AsInt64(idx, features, cells).value, features, idx)
  {
    FilledAll(cells, features, idx, done);
    CastOk(cells, features, idx);
    if AsInt64(idx, features, cells).Ok? {
      CastValues(cells, features, idx);
    }
  }

  lemma FilledAll(cells: map<string, seq<Option<int>>>, features: seq<string>, idx: seq<int>, done: set<string>)
    requires forall i :: 0 <= i < |idx| ==> ValidDay(DayOf(idx[i]))
    requires forall n :: n in TemporalFeatureNames ==> n in done
    requires FilledUpTo(cells, features, idx, done)
    ensures forall c :: c in features ==> c in cells && cells[c] == FeatureColumn(c, idx) && |cells[c]| == |idx|
  {
    forall c | c in features ensures c in cells && cells[c] == FeatureColumn(c, idx) && |cells[c]| == |idx| {
      if c in TemporalFeatureNames {
        assert c in done;
      }
    }
  }

  lemma CastOk(cells: map<string, seq<Option<int>>>, features: seq<string>, idx: seq<int>)
    requires forall i :: 0 <= i < |idx| ==> ValidDay(DayOf(idx[i]))
    requires forall c :: c in features ==> c in cells && cells[c] == FeatureColumn(c, idx) && |cells[c]| == |idx|
    ensures AsInt64(idx, features, cells).Ok? <==> idx == [] || forall f :: f in features ==> f in TemporalFeatureNames
  {
    if idx != [] {
      forall f | f in features && f !in TemporalFeatureNames
        ensures exists j, i :: 0 <= j < |features| && 0 <= i < |idx| && cells[features[j]][i].None?
      {
        var j :| 0 <= j < |features| && features[j] == f;
        assert cells[features[j]][0] == TemporalValue(f, idx[0]);
      }
      if forall f :: f in features ==> f in TemporalFeatureNames {
        forall j, i | 0 <= j < |features| && 0 <= i < |idx| ensures cells[features[j]][i].Some? {
          assert features[j] in features;
          assert cells[features[j]][i] == TemporalValue(features[j], idx[i]);
        }
      }
    }
  }

  lemma CastValues(cells: map<string, seq<Option<int>>>, features: seq<string>, idx: seq<int>)
    requires forall i :: 0 <= i < |idx| ==> ValidDay(DayOf(idx[i]))
    requires forall c :: c in features ==> c in cells && cells[c] == FeatureColumn(c, idx) && |cells[c]| == |idx|
    requires AsInt64(idx, features, cells).Ok?
    ensures IsFeatureFrame(AsInt64(idx, features, cells).value, features, idx)
  {
    forall j, i | 0 <= j < |features| && 0 <= i < |idx|
      ensures cells[features[j]][i] == TemporalValue(features[j], idx[i])
    {
      assert features[j] in features;
    }
  }

  /**
   * Calendar features are those of the trading day, except at EFA-1, which opens at 23:00
   * the evening before and so carries the previous day's day, month and weekday.
   */
  lemma EfaCalendarDay(start: int, end: int, k: int)
    requires start <= end ==> ValidDay(start - 1) && ValidDay(end)
    requires 0 <= k < |EfaIndex(start, end)|
    ensures var t := EfaIndex(start, end)[k];
      var d := if k % 6 == 0 then start + k / 6 - 1 else start + k / 6;
      && ValidDay(d) && DayOf(t) == d
      && TemporalValue("day", t) == Some(FromDayNumber(d).day)
      && TemporalValue("month", t) == Some(FromDayNumber(d).month)
      && TemporalValue("weekday", t) == Some(Weekday(d))
      && TemporalValue("hour", t) == Some(if k % 6 == 0 then 23 else 4 * (k % 6) - 1)
  {
    var day, b := start + k / 6, k % 6 + 1;
    var t := EfaIndex(start, end)[k];
    assert start <= end && t == EfaBlockOpening(day, b) by {
      EfaIndexSpec(start, end);
    }
    assert start <= day <= end by {
      EfaIndexSpec(start, end);
      DivBelow(k, end - start + 1, 6);
    }
    var d := if k % 6 == 0 then start + k / 6 - 1 else start + k / 6;
    var h := if k % 6 == 0 then 23 else 4 * (k % 6) - 1;
    assert ValidDay(d) && DayOf(t) == d && HourOf(t) == h by {
      BlockHour(day, b);
    }
    TemporalValuesAt(t);
  }

  /** EFA block b of a trading day opens on the previous day (block 1) or on that day, at the given hour. */
  lemma BlockHour(day: int, b: int)
    requires 1 <= b <= 6
    ensures DayOf(EfaBlockOpening(day, b)) == if b == 1 then day - 1 else day
    ensures HourOf(EfaBlockOpening(day, b)) == if b == 1 then 23 else 4 * b - 5
  {
    OpeningTimeOfDay(day, b);
  }

  lemma TemporalValuesAt(t: int)
    requires ValidDay(DayOf(t))
    ensures TemporalValue("day", t) == Some(FromDayNumber(DayOf(t)).day)
    ensures TemporalValue("month", t) == Some(FromDayNumber(DayOf(t)).month)
    ensures TemporalValue("weekday", t) == Some(Weekday(DayOf(t)))
    ensures TemporalValue("hour", t) == Some(HourOf(t))
  {
  }

  /** The working-day flag is 1 exactly on Saturdays and Sundays, and every feature stays in its range. */
  lemma TemporalValueRanges(t: int)
    requires ValidDay(DayOf(t))
    ensures TemporalValue("working day", t) == Some(1) <==> TemporalValue("weekday", t).value >= 5
    ensures TemporalValue("working day", t) == Some(0) <==> TemporalValue("weekday", t).value < 5
    ensures 0 <= TemporalValue("weekday", t).value <= 6
    ensures 0 <= TemporalValue("hour", t).value <= 23
    ensures 1 <= TemporalValue("month", t).value <= 12
    ensures 1 <= TemporalValue("day", t).value <= 31
    ensures forall name :: TemporalValue(name, t).Some? <==> name in TemporalFeatureNames
  {
    TimestampSplit(t);
  }
}
