/**
 * The balancing reserve (BR) source: the fetched BR auction results pivoted to one
 * clearing-price column per product and kept on the settlement window, then aggregated
 * to EFA blocks and narrowed to the six PBR/NBR price features.
 */
module BrPrice {
  import opened Wrappers
  import opened Seqs
  import opened Strings
  import opened Calendar
  import opened TimePeriods
  import opened Frames
  import opened Preprocessing

  /**
   * `fetch_br_price_and_volume(start, end)`: the BR clearing prices from 23:00 before
   * `start` to 22:30 of `end`. A failed request leaves the record frame unbound, so the
   * emptiness test raises UnboundLocalError; no records give the empty frame.
   */
  function FetchBrPrice(start: int, end: int, fetched: Fetch<AuctionRecord>): (r: Result<Frame>)
    ensures r.Err? <==> fetched.Failed?
    ensures r.Err? ==> r.error == UnboundLocalError("br_auctions")
    ensures r.Ok? ==> WellFormed(r.value) && (r.value.Blank? <==> fetched.records == [])
    ensures r.Ok? ==> forall i :: 0 <= i < |Rows(r.value)| ==>
      SettlementPeriods(start, end).0 <= Rows(r.value)[i] <= SettlementPeriods(start, end).1
  {
    if fetched.Failed? then Err(UnboundLocalError("br_auctions"))
    else if fetched.records == [] then Ok(Blank)
    else Ok(TrimmedPrices(fetched.records, SettlementPeriods(start, end).0, SettlementPeriods(start, end).1))
  }

  /**
   * The BR price rows: one per distinct delivery start from 23:00 before `start` to 22:30
   * of `end`, in ascending order (columns and cells: `TrimmedPricesColumns`,
   * `TrimmedPricesCells`).
   */
  lemma FetchBrPriceRows(start: int, end: int, fetched: Fetch<AuctionRecord>)
    requires fetched.Fetched? && fetched.records != []
    ensures var r := FetchBrPrice(start, end, fetched);
      var records := fetched.records;
      && r.Ok? && r.value.Indexed?
      && StrictlySorted(r.value.index, IntLess)
      && (forall t :: t in r.value.index <==>
            Midnight(start) - 60 <= t <= Midnight(end) + 22 * 60 + 30
            && exists i :: 0 <= i < |records| && records[i].deliveryStart == t)
  {
    TrimmedPricesRows(fetched.records, SettlementPeriods(start, end).0, SettlementPeriods(start, end).1);
  }

  // ---- aggregate_br_price ----

  const BrStats: seq<Stat> := [Min, Max, Mean]

  /** The kept features, in this order. */
  const BrFeatures: seq<string> :=
    ["pbr_price_min", "pbr_price_max", "pbr_price_mean", "nbr_price_min", "nbr_price_max", "nbr_price_mean"]

  /**
   * `aggregate_br_price(start, end)`: min, max and mean of each BR price column over the
   * 4-hour EFA blocks, narrowed to `BrFeatures`. Aggregating the empty frame raises
   * TypeError; a missing feature raises KeyError.
   */
  function AggregateBrPrice(start: int, end: int, fetched: Fetch<AuctionRecord>): (r: Result<Frame>)
    ensures fetched.Failed? ==> r == Err(UnboundLocalError("br_auctions"))
    ensures fetched.Fetched? && fetched.records == [] ==> r.Err? && r.error.TypeError?
    ensures fetched.Fetched? && fetched.records != [] && r.Err? ==> r.error.KeyError?
    ensures r.Ok? ==> WellFormed(r.value) && r.value.Indexed?
  {
    var prices :- FetchBrPrice(start, end, fetched);
    var aggregated :- AggregateSpToEfa(prices, BrStats, EfaBlockMinutes);
    SelectColumns(aggregated, BrFeatures)
  }

  /** Some record's product is `name` once lower-cased. */
  predicate HasProduct(records: seq<AuctionRecord>, name: string) {
    exists i :: 0 <= i < |records| && Lower(records[i].auctionProduct) == name
  }

  /** The products of the records, sorted and without duplicates: the price columns' order. */
  function Products(records: seq<AuctionRecord>): seq<string> {
    SortedDistinct(ProductsOf(records), LexLess)
  }

  /** The BR prices on the settlement window of a non-empty fetch. */
  function BrPrices(start: int, end: int, records: seq<AuctionRecord>): Frame {
    TrimmedPrices(records, SettlementPeriods(start, end).0, SettlementPeriods(start, end).1)
  }

  /**
   * The six features are all present exactly when some record is for PBR and some record
   * is for NBR (in any letter case); otherwise `aggregate_br_price` raises KeyError.
   */
  lemma AggregateBrPriceAvailable(start: int, end: int, fetched: Fetch<AuctionRecord>)
    requires fetched.Fetched? && fetched.records != []
    ensures AggregateBrPrice(start, end, fetched).Ok? <==>
      HasProduct(fetched.records, "pbr") && HasProduct(fetched.records, "nbr")
  {
    var records := fetched.records;
    var prices := BrPrices(start, end, records);
    var aggregated := AggregateSpToEfa(prices, BrStats, EfaBlockMinutes).value;
    assert AggregateBrPrice(start, end, fetched) == SelectColumns(aggregated, BrFeatures);
    FeaturesInAggregate(start, end, records);
  }

  /** All six features are columns of the BR aggregate exactly when both products occur. */
  lemma FeaturesInAggregate(start: int, end: int, records: seq<AuctionRecord>)
    requires records != []
    ensures var aggregated := AggregateSpToEfa(BrPrices(start, end, records), BrStats, EfaBlockMinutes).value;
      (forall n :: n in BrFeatures ==> n in aggregated.columns) <==>
      HasProduct(records, "pbr") && HasProduct(records, "nbr")
  {
    var aggregated := AggregateSpToEfa(BrPrices(start, end, records), BrStats, EfaBlockMinutes).value;
    ProductFeatures(start, end, records, "pbr");
    ProductFeatures(start, end, records, "nbr");
    BrFeatureLabels();
    if HasProduct(records, "pbr") && HasProduct(records, "nbr") {
      forall n | n in BrFeatures ensures n in aggregated.columns {
        var k :| 0 <= k < |BrFeatures| && BrFeatures[k] == n;
      }
    } else {
      var k := if HasProduct(records, "pbr") then 3 else 0;
      assert BrFeatures[k] in BrFeatures && BrFeatures[k] !in aggregated.columns;
    }
  }

  /** The three statistics of product q are columns of the BR aggregate exactly when q occurs. */
  lemma ProductFeatures(start: int, end: int, records: seq<AuctionRecord>, q: string)
    requires records != []
    ensures var columns := AggregateSpToEfa(BrPrices(start, end, records), BrStats, EfaBlockMinutes).value.columns;
      && (q + "_price_min" in columns <==> HasProduct(records, q))
      && (q + "_price_max" in columns <==> HasProduct(records, q))
      && (q + "_price_mean" in columns <==> HasProduct(records, q))
  {
    StatLabels(q);
    LabelInAggregate(start, end, records, q, 0);
    LabelInAggregate(start, end, records, q, 1);
    LabelInAggregate(start, end, records, q, 2);
  }

  lemma BrFeatureLabels()
    ensures |BrFeatures| == 6
    ensures BrFeatures[0] == "pbr" + "_price_min" && BrFeatures[1] == "pbr" + "_price_max"
    ensures BrFeatures[2] == "pbr" + "_price_mean" && BrFeatures[3] == "nbr" + "_price_min"
    ensures BrFeatures[4] == "nbr" + "_price_max" && BrFeatures[5] == "nbr" + "_price_mean"
  {
  }

  lemma StatLabels(q: string)
    ensures q + "_price_" + StatName(BrStats[0]) == q + "_price_min"
    ensures q + "_price_" + StatName(BrStats[1]) == q + "_price_max"
    ensures q + "_price_" + StatName(BrStats[2]) == q + "_price_mean"
  {
  }

  /**
   * Each selected column is statistic s of BR price column c: its label is
   * `<product>_price_<stat>` for that column's product and it holds that statistic of the
   * column's prices in each 4-hour block.
   */
  lemma AggregateBrPriceColumns(start: int, end: int, fetched: Fetch<AuctionRecord>)
    requires fetched.Fetched? && fetched.records != []
    requires AggregateBrPrice(start, end, fetched).Ok?
    ensures var r := AggregateBrPrice(start, end, fetched).value;
      var prices := BrPrices(start, end, fetched.records);
      var products := Products(fetched.records);
      && r.index == BinStarts(prices.index, EfaBlockMinutes)
      && forall k :: 0 <= k < |r.columns| ==>
           r.columns[k] in BrFeatures
           && exists c, s :: 0 <= c < |products| && 0 <= s < |BrStats| && c < |prices.data|
                && r.columns[k] == Lower(products[c]) + "_price_" + StatName(BrStats[s])
                && r.data[k] == AggregateColumn(prices.index, prices.data[c], BrStats[s], r.index, EfaBlockMinutes)
  {
    var records := fetched.records;
    var prices := BrPrices(start, end, records);
    var products := Products(records);
    TrimmedPricesColumns(records, SettlementPeriods(start, end).0, SettlementPeriods(start, end).1);
    AggregateSpToEfaSpec(prices, BrStats, EfaBlockMinutes);
    var aggregated := AggregateSpToEfa(prices, BrStats, EfaBlockMinutes).value;
    var r := SelectColumns(aggregated, BrFeatures).value;
    assert AggregateBrPrice(start, end, fetched).value == r;
    SelectedFrom(aggregated, BrFeatures);
    forall k | 0 <= k < |r.columns|
      ensures exists c, s :: 0 <= c < |products| && 0 <= s < |BrStats| && c < |prices.data|
                && r.columns[k] == Lower(products[c]) + "_price_" + StatName(BrStats[s])
                && r.data[k] == AggregateColumn(prices.index, prices.data[c], BrStats[s], r.index, EfaBlockMinutes)
    {
      var j :| 0 <= j < |aggregated.columns| && r.columns[k] == aggregated.columns[j] && r.data[k] == aggregated.data[j];
      var c, s := AggregatedPosition(prices, j);
      PriceStatLabel(products[c], BrStats[s]);
    }
  }

  /** Column j of the BR aggregate is statistic s of price column c, at position c * 3 + s. */
  lemma AggregatedPosition(prices: Frame, j: int) returns (c: int, s: int)
    requires WellFormed(prices) && prices.Indexed?
    requires 0 <= j < |prices.columns| * |BrStats|
    ensures 0 <= c < |prices.columns| && 0 <= s < |BrStats| && j == FlatPos(c, s, |BrStats|)
  {
    c, s := j / 3, j % 3;
    DivBelow(j, |prices.columns|, 3);
  }

  /** Lower-casing the price column label and then the statistic label. */
  lemma PriceStatLabel(product: string, stat: Stat)
    ensures AggregateName(Lower(product + "_price"), stat) == Lower(product) + "_price_" + StatName(stat)
  {
    var x := Lower(product + "_price") + "_" + StatName(stat);
    var y := Lower(product) + "_price_" + StatName(stat);
    assert |Lower(x)| == |y|;
    forall i | 0 <= i < |y| ensures Lower(x)[i] == y[i] {
      if i < |product| {
        assert x[i] == LowerChar(product[i]);
      } else {
        assert x[i] == y[i];
      }
    }
  }

  /** The last two letters of a statistic's name tell the statistics apart. */
  function StatTail(stat: Stat): string {
    var n := StatName(stat);
    n[|n| - 2..]
  }

  /** A label `<q>_price_<stat>` determines both q and the statistic. */
  lemma LabelParts(q1: string, s1: Stat, q2: string, s2: Stat)
    requires q1 + "_price_" + StatName(s1) == q2 + "_price_" + StatName(s2)
    ensures q1 == q2 && s1 == s2
  {
    var n := q1 + "_price_" + StatName(s1);
    assert n[|n| - 2..] == StatTail(s1);
    assert n[|n| - 2..] == StatTail(s2);
    assert s1 == s2 by {
      match s1
      case Min => assert StatTail(s1) == "in";
      case Max => assert StatTail(s1) == "ax";
      case Mean => assert StatTail(s1) == "an";
    }
    assert |q1| == |q2|;
    assert q1 == n[..|q1|] == q2;
  }

  /**
   * The label `<q>_price_<stat>` is a column of the BR aggregate exactly when some
   * record's product lower-cases to q.
   */
  lemma LabelInAggregate(start: int, end: int, records: seq<AuctionRecord>, q: string, s: int)
    requires records != [] && 0 <= s < |BrStats|
    ensures var prices := BrPrices(start, end, records);
      var aggregated := AggregateSpToEfa(prices, BrStats, EfaBlockMinutes).value;
      q + "_price_" + StatName(BrStats[s]) in aggregated.columns <==> HasProduct(records, q)
  {
    if HasProduct(records, q) {
      var i :| 0 <= i < |records| && Lower(records[i].auctionProduct) == q;
      ProductLabel(start, end, records, i, s);
    }
    var wanted := q + "_price_" + StatName(BrStats[s]);
    var aggregated := AggregateSpToEfa(BrPrices(start, end, records), BrStats, EfaBlockMinutes).value;
    if wanted in aggregated.columns {
      var j :| 0 <= j < |aggregated.columns| && aggregated.columns[j] == wanted;
      LabelProduct(start, end, records, j, q, s);
    }
  }

  /** A record's product gives the label `<product lower-cased>_price_<stat>`. */
  lemma ProductLabel(start: int, end: int, records: seq<AuctionRecord>, i: int, s: int)
    requires 0 <= i < |records| && 0 <= s < |BrStats|
    ensures var aggregated := AggregateSpToEfa(BrPrices(start, end, records), BrStats, EfaBlockMinutes).value;
      Lower(records[i].auctionProduct) + "_price_" + StatName(BrStats[s]) in aggregated.columns
  {
    var prices := BrPrices(start, end, records);
    var products := Products(records);
    TrimmedPricesColumns(records, SettlementPeriods(start, end).0, SettlementPeriods(start, end).1);
    AggregateSpToEfaSpec(prices, BrStats, EfaBlockMinutes);
    var aggregated := AggregateSpToEfa(prices, BrStats, EfaBlockMinutes).value;
    PivotAuctionsSpec(records, "price");
    assert records[i].auctionProduct in products;
    var c :| 0 <= c < |products| && products[c] == records[i].auctionProduct;
    FlatPositions(|prices.columns|, |BrStats|);
    PriceStatLabel(products[c], BrStats[s]);
    assert aggregated.columns[FlatPos(c, s, |BrStats|)] == Lower(products[c]) + "_price_" + StatName(BrStats[s]);
  }

  /** A column labelled `<q>_price_<stat>` comes from a product that lower-cases to q. */
  lemma LabelProduct(start: int, end: int, records: seq<AuctionRecord>, j: int, q: string, s: int)
    requires 0 <= s < |BrStats|
    requires var aggregated := AggregateSpToEfa(BrPrices(start, end, records), BrStats, EfaBlockMinutes).value;
      0 <= j < |aggregated.columns| && aggregated.columns[j] == q + "_price_" + StatName(BrStats[s])
    ensures HasProduct(records, q)
  {
    var prices := BrPrices(start, end, records);
    var products := Products(records);
    TrimmedPricesColumns(records, SettlementPeriods(start, end).0, SettlementPeriods(start, end).1);
    AggregateSpToEfaSpec(prices, BrStats, EfaBlockMinutes);
    var c, s' := AggregatedPosition(prices, j);
    PriceStatLabel(products[c], BrStats[s']);
    LabelParts(Lower(products[c]), BrStats[s'], q, BrStats[s]);
    PivotAuctionsSpec(records, "price");
    assert products[c] in products;
    var i :| 0 <= i < |records| && records[i].auctionProduct == products[c];
    assert Lower(records[i].auctionProduct) == q;
  }
}
