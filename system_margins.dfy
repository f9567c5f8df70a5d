/**
 * The forecast system margins source: the fetched margin forecasts narrowed to those
 * published exactly two days ahead, indexed at 23:00 of the day before, upsampled to
 * 4-hour rows by carrying the latest forecast forward, trimmed to the settlement window,
 * forward-filled and narrowed to three features.
 */
module SystemMargins {
  import opened Wrappers
  import opened Seqs
  import opened Strings
  import opened Calendar
  import opened TimePeriods
  import opened Frames
  import opened Preprocessing

  // ---- fetch_forecasted_margins ----

  /**
   * One field of a fetched record: a number (possibly missing) or a timestamp. In a date
   * column a missing number is a null, which parses to NaT; a present number stands for
   * a value the date parser rejects.
   */
  datatype Field = Number(value: Cell) | Stamp(minute: int)

  /**
   * The fetched records as a table: the raw column names and, column by column, one
   * field per record. The fetch itself is an `Option<RawTable>`: None when the request
   * or the JSON decoding failed.
   */
  datatype RawTable = RawTable(names: seq<string>, columns: seq<seq<Field>>, size: nat)

  predicate RawWellFormed(t: RawTable) {
    |t.columns| == |t.names| && forall j :: 0 <= j < |t.columns| ==> |t.columns[j]| == t.size
  }

  /**
   * The column-name normalisation: lower-case, spaces to '_', leading '_' stripped, then
   * '/' removed, in that order.
   */
  function NormaliseName(name: string): string {
    RemoveChar(LStrip(ReplaceChar(Lower(name), ' ', '_'), '_'), '/')
  }

  /**
   * A normalised name has no upper-case letter, no space and no '/', and it starts with
   * '_' only if the raw name had a '/' to remove after the strip.
   */
  lemma NormaliseNameSpec(name: string)
    ensures var n := NormaliseName(name);
      && HasNoUpper(n) && ' ' !in n && '/' !in n
      && ('/' !in name && n != [] ==> n[0] != '_')
  {
    var replaced := ReplaceChar(Lower(name), ' ', '_');
    var stripped := LStrip(replaced, '_');
    ReplacedChars(name);
    StrippedChars(replaced);
    RemoveCharSpec(stripped, '/');
    var n := NormaliseName(name);
    assert n == RemoveChar(stripped, '/');
    assert forall i :: 0 <= i < |n| ==> n[i] in n;
    if '/' !in name {
      assert '/' !in stripped;
      RemoveCharAbsent(stripped, '/');
      LStripSpec(replaced, '_');
    }
  }

  /** Lower-casing and replacing spaces leaves no upper-case letter and no space, and adds no '/'. */
  lemma ReplacedChars(name: string)
    ensures var r := ReplaceChar(Lower(name), ' ', '_');
      forall x :: x in r ==> !IsUpper(x) && x != ' ' && (x == '/' ==> '/' in name)
  {
    var lowered := Lower(name);
    var r := ReplaceChar(lowered, ' ', '_');
    forall x | x in r ensures !IsUpper(x) && x != ' ' && (x == '/' ==> '/' in name) {
      var i :| 0 <= i < |r| && r[i] == x;
      assert lowered[i] == LowerChar(name[i]);
    }
  }

  /** Stripping a prefix keeps only characters of the input. */
  lemma {:induction false} StrippedChars(s: string)
    ensures forall x :: x in LStrip(s, '_') ==> x in s
  {
    if s != [] && s[0] == '_' {
      StrippedChars(s[1..]);
      forall x | x in s[1..] ensures x in s {
        var i :| 0 <= i < |s[1..]| && s[1..][i] == x;
        assert s[i + 1] == x;
      }
    }
  }

  /** The strip comes before the '/' removal, so "/_x" keeps its leading '_'. */
  lemma NormaliseNameOrder()
    ensures NormaliseName("/_x") == "_x"
  {
    assert Lower("/_x") == "/_x";
    assert ReplaceChar("/_x", ' ', '_') == "/_x";
    assert LStrip("/_x", '_') == "/_x";
    assert RemoveChar("/_x", '/') == RemoveChar("_x", '/');
    assert RemoveChar("_x", '/') == "_" + RemoveChar("x", '/');
  }

  /** The columns taken from the normalised table, in this order. */
  const MarginColumns: seq<string> := [
    "negative_reserve", "high_freq_response_requirement", "generation_availability_margin",
    "generator_availability", "opmr_total", "national_surplus"]

  const PublishLag: int := 2 * MinutesPerDay

  /** `pd.to_datetime` accepts a date column when each field is a timestamp or a null (NaT). */
  predicate AllParsable(fields: seq<Field>) {
    forall i :: 0 <= i < |fields| ==> fields[i].Stamp? || fields[i].value.None?
  }

  /**
   * A record is kept when its forecast date is exactly two days after its publish date;
   * a NaT on either side makes the difference NaT, which equals nothing.
   */
  predicate TwoDaysAhead(date: Field, published: Field) {
    date.Stamp? && published.Stamp? && date.minute - published.minute == PublishLag
  }

  /** The records whose forecast date is exactly two days after its publish date, in order. */
  function PublishedTwoDaysAhead(dates: seq<Field>, published: seq<Field>): (r: seq<nat>)
    requires |dates| == |published|
    ensures forall k :: 0 <= k < |r| ==> r[k] < |dates| && dates[r[k]].Stamp?
    ensures forall i :: i in r <==> 0 <= i < |dates| && TwoDaysAhead(dates[i], published[i])
    ensures forall a, b :: 0 <= a < b < |r| ==> r[a] < r[b]
  {
    if dates == [] then []
    else
      var n := |dates| - 1;
      PublishedTwoDaysAhead(dates[..n], published[..n])
        + (if TwoDaysAhead(dates[n], published[n]) then [n] else [])
  }

  /** A null date or publish date drops only its own record. */
  lemma NullDateDropped(dates: seq<Field>, published: seq<Field>, i: int)
    requires |dates| == |published| && 0 <= i < |dates|
    requires dates[i] == Number(None) || published[i] == Number(None)
    ensures i !in PublishedTwoDaysAhead(dates, published)
    ensures forall j :: 0 <= j < |dates| && j != i && TwoDaysAhead(dates[j], published[j]) ==>
      j in PublishedTwoDaysAhead(dates, published)
  {
  }

  /** A numeric field's value; a timestamp in a numeric column reads as missing. */
  function FieldValue(f: Field): Cell {
    if f.Number? then f.value else None
  }

  /** The normalised column names of a raw table. */
  function NormalisedNames(t: RawTable): (r: seq<string>)
    ensures |r| == |t.names|
  {
    seq(|t.names|, j requires 0 <= j < |t.names| => NormaliseName(t.names[j]))
  }

  /** The normalised columns the fetch selects: the margins, the forecast date and the publish date. */
  const Required: seq<string> := MarginColumns + ["date", "publish_date"]

  lemma RequiredNames()
    ensures "date" in Required && "publish_date" in Required
    ensures forall c :: 0 <= c < |MarginColumns| ==> MarginColumns[c] in Required
  {
    assert Required[6] == "date" && Required[7] == "publish_date";
    assert forall c :: 0 <= c < |MarginColumns| ==> Required[c] == MarginColumns[c];
  }

  /** The first column of `t` whose normalised name is `name`. */
  function NamedColumn(t: RawTable, name: string): seq<Field>
    requires RawWellFormed(t) && name in NormalisedNames(t)
  {
    t.columns[IndexOf(NormalisedNames(t), name).value]
  }

  /**
   * `fetch_forecasted_margins`: the margin columns of the records published two days
   * ahead, indexed one hour before their forecast date. Every failure inside the fetch,
   * a missing column or an unparsable date included, gives the empty frame; a null date
   * only drops its record. No records build a frame without columns, so the column
   * selection fails then too, whatever names the table carries.
   */
  function FetchMargins(fetched: Option<RawTable>): (r: Frame)
    requires fetched.Some? ==> RawWellFormed(fetched.value)
    ensures WellFormed(r)
    ensures r.Indexed? ==> r.columns == MarginColumns
    ensures fetched.None? || fetched.value.size == 0 ==> r.Blank?
  {
    if fetched.None? then Blank
    else if fetched.value.size == 0 then Blank
    else if FirstMissing(NormalisedNames(fetched.value), Required).Some? then Blank
    else MarginRows(fetched.value)
  }

  /** The selected, filtered and re-indexed table, once every required column is present. */
  function MarginRows(t: RawTable): (r: Frame)
    requires RawWellFormed(t) && forall n :: n in Required ==> n in NormalisedNames(t)
    ensures WellFormed(r)
    ensures r.Indexed? ==> r.columns == MarginColumns
  {
    RequiredNames();
    var dates := NamedColumn(t, "date");
    var published := NamedColumn(t, "publish_date");
    if !AllParsable(dates) || !AllParsable(published) then Blank
    else
      var kept := PublishedTwoDaysAhead(dates, published);
      Indexed(MarginIndex(dates, published), MarginColumns,
              seq(|MarginColumns|, c requires 0 <= c < |MarginColumns| =>
                var column := NamedColumn(t, MarginColumns[c]);
                seq(|kept|, i requires 0 <= i < |kept| => FieldValue(column[kept[i]]))))
  }

  /** The new index: one hour before the forecast date of each record kept. */
  function MarginIndex(dates: seq<Field>, published: seq<Field>): (r: seq<int>)
    requires |dates| == |published|
    ensures |r| == |PublishedTwoDaysAhead(dates, published)|
  {
    var kept := PublishedTwoDaysAhead(dates, published);
    seq(|kept|, i requires 0 <= i < |kept| => dates[kept[i]].minute - MinutesPerHour)
  }

  /**
   * The labels of the fetched margins: exactly 23:00 before the forecast date of each
   * record published two days ahead.
   */
  lemma MarginIndexSpec(dates: seq<Field>, published: seq<Field>)
    requires |dates| == |published|
    ensures forall s :: s in MarginIndex(dates, published) <==>
      exists i :: 0 <= i < |dates| && TwoDaysAhead(dates[i], published[i])
                  && s == dates[i].minute - MinutesPerHour
  {
    forall s
      ensures s in MarginIndex(dates, published) <==>
        exists i :: 0 <= i < |dates| && TwoDaysAhead(dates[i], published[i])
                    && s == dates[i].minute - MinutesPerHour
    {
      if s in MarginIndex(dates, published) {
        KeptLabel(dates, published, s);
      }
      if exists i :: 0 <= i < |dates| && TwoDaysAhead(dates[i], published[i])
                     && s == dates[i].minute - MinutesPerHour {
        var i :| 0 <= i < |dates| && TwoDaysAhead(dates[i], published[i])
                 && s == dates[i].minute - MinutesPerHour;
        LabelKept(dates, published, i);
      }
    }
  }

  lemma KeptLabel(dates: seq<Field>, published: seq<Field>, s: int)
    requires |dates| == |published|
    requires s in MarginIndex(dates, published)
    ensures exists i :: 0 <= i < |dates| && TwoDaysAhead(dates[i], published[i])
                        && s == dates[i].minute - MinutesPerHour
  {
    var kept := PublishedTwoDaysAhead(dates, published);
    var r := MarginIndex(dates, published);
    var k :| 0 <= k < |kept| && r[k] == s;
    assert kept[k] in kept;
  }

  lemma LabelKept(dates: seq<Field>, published: seq<Field>, i: int)
    requires |dates| == |published|
    requires 0 <= i < |dates| && TwoDaysAhead(dates[i], published[i])
    ensures dates[i].minute - MinutesPerHour in MarginIndex(dates, published)
  {
    var kept := PublishedTwoDaysAhead(dates, published);
    var k :| 0 <= k < |kept| && kept[k] == i;
    assert MarginIndex(dates, published)[k] == dates[i].minute - MinutesPerHour;
  }

  // ---- resample('4h', origin='start').ffill() ----

  /** The position of the latest label at or before t, if any label is. */
  function LatestAtOrBefore(index: seq<int>, t: int): (r: Option<nat>)
    ensures r.Some? <==> exists p :: 0 <= p < |index| && index[p] <= t
    ensures r.Some? ==> r.value < |index| && index[r.value] <= t
    ensures r.Some? ==> forall q :: 0 <= q < |index| && index[q] <= t ==> index[q] <= index[r.value]
  {
    if index == [] then None
    else
      var n := |index| - 1;
      var rest := LatestAtOrBefore(index[..n], t);
      if index[n] > t then rest
      else if rest.Some? && index[rest.value] >= index[n] then rest
      else Some(n)
  }

  /** The row carried to grid point t: the one with the latest label at or before t. */
  function CarriedValue(index: seq<int>, values: seq<Cell>, t: int): Cell
    requires |values| == |index|
  {
    match LatestAtOrBefore(index, t)
    case None => None
    case Some(p) => values[p]
  }

  /**
   * `df.resample(freq, origin='start').ffill()`: rows on the grid from the first label
   * to the last in steps of freq, each carrying the row with the latest label at or
   * before it. The empty frame has no DatetimeIndex (TypeError); a repeated label cannot
   * be reindexed (ValueError).
   */
  function UpsampleFfill(f: Frame, freq: int): (r: Result<Frame>)
    requires WellFormed(f) && freq > 0
    ensures f.Blank? ==> r.Err? && r.error.TypeError?
    ensures f.Indexed? ==> (r.Ok? <==> Distinct(f.index))
    ensures f.Indexed? && r.Err? ==> r.error.ValueError?
    ensures r.Ok? ==> WellFormed(r.value) && r.value.Indexed? && r.value.columns == f.columns
  {
    if f.Blank? then Err(TypeError("Only valid with DatetimeIndex, TimedeltaIndex or PeriodIndex"))
    else if !Distinct(f.index) then Err(ValueError("cannot reindex on an axis with duplicate labels"))
    else
      var grid := BinStarts(f.index, freq);
      Ok(Indexed(grid, f.columns,
                 seq(|f.data|, j requires 0 <= j < |f.data| =>
                   seq(|grid|, k requires 0 <= k < |grid| => CarriedValue(f.index, f.data[j], grid[k])))))
  }

  /**
   * Every grid point has a row at or before it (the grid starts at the first label), so
   * each upsampled row is a real row of the input: the latest one not after it. A grid
   * point that is itself a label keeps its own row.
   */
  lemma UpsampleFfillSpec(f: Frame, freq: int)
    requires WellFormed(f) && f.Indexed? && freq > 0 && Distinct(f.index)
    ensures var r := UpsampleFfill(f, freq).value;
      && r.index == BinStarts(f.index, freq)
      && forall k :: 0 <= k < |r.index| ==> CarriedRow(f, r, k)
  {
    var r := UpsampleFfill(f, freq).value;
    forall k | 0 <= k < |r.index| ensures CarriedRow(f, r, k) {
      UpsampledRow(f, freq, k);
    }
  }

  /** Row k of r is the row of f with the latest label at or before r's label k. */
  ghost predicate CarriedRow(f: Frame, r: Frame, k: int)
    requires WellFormed(f) && f.Indexed? && WellFormed(r) && r.Indexed? && |r.data| == |f.data| && 0 <= k < |r.index|
  {
    exists p :: LatestLabel(f.index, r.index[k], p) && forall j :: 0 <= j < |f.data| ==> r.data[j][k] == f.data[j][p]
  }

  lemma UpsampledRow(f: Frame, freq: int, k: int)
    requires WellFormed(f) && f.Indexed? && freq > 0 && Distinct(f.index)
    requires 0 <= k < |BinStarts(f.index, freq)|
    ensures var r := UpsampleFfill(f, freq).value;
      && r.index == BinStarts(f.index, freq)
      && CarriedRow(f, r, k)
  {
    var grid := BinStarts(f.index, freq);
    var r := UpsampleFfill(f, freq).value;
    GridAfterFirstLabel(f.index, freq, k);
    var p := LatestAtOrBefore(f.index, grid[k]).value;
    forall j | 0 <= j < |f.data| ensures r.data[j][k] == f.data[j][p] {
      assert r.data[j][k] == CarriedValue(f.index, f.data[j], grid[k]);
    }
    if grid[k] in f.index {
      var q :| 0 <= q < |f.index| && f.index[q] == grid[k];
    }
    assert LatestLabel(f.index, r.index[k], p);
  }

  /**
   * Position p holds the latest label at or before t; when t is itself a label, p is
   * that label.
   */
  predicate LatestLabel(index: seq<int>, t: int, p: int) {
    && 0 <= p < |index| && index[p] <= t
    && (forall q :: 0 <= q < |index| && index[q] <= t ==> index[q] <= index[p])
    && (t in index ==> index[p] == t)
  }

  /** Each grid point has a label at or before it. */
  lemma GridAfterFirstLabel(index: seq<int>, freq: int, k: int)
    requires freq > 0 && 0 <= k < |BinStarts(index, freq)|
    ensures exists p :: 0 <= p < |index| && index[p] <= BinStarts(index, freq)[k]
  {
    var sorted := SortedDistinct(index, IntLess);
    SortedEnds(index, index[0]);
    DateRangeMembers(sorted[0], sorted[|sorted| - 1], freq);
    var p :| 0 <= p < |index| && index[p] == sorted[0];
  }

  // ---- ffill(inplace=True) ----

  /** The last present value of s, or None when every value is missing. */
  function LatestPresent(s: seq<Cell>): (r: Cell)
    ensures r.Some? <==> exists k :: 0 <= k < |s| && s[k].Some?
    ensures r.Some? ==> exists k :: 0 <= k < |s| && s[k] == r && forall k' :: k < k' < |s| ==> s[k'].None?
  {
    if s == [] then None
    else if s[|s| - 1].Some? then s[|s| - 1]
    else LatestPresent(s[..|s| - 1])
  }

  /** `Series.ffill()`: each missing value becomes the last present value before it, if any. */
  function FilledForward(s: seq<Cell>): (r: seq<Cell>)
    ensures |r| == |s|
  {
    seq(|s|, i requires 0 <= i < |s| => LatestPresent(s[..i + 1]))
  }

  /** `ffill(inplace=True)` on one column, one cell at a time. */
  method ForwardFillInPlace(a: array<Cell>)
    modifies a
    ensures a[..] == FilledForward(old(a[..]))
  {
    ghost var s := a[..];
    var last: Cell := None;
    var i := 0;
    while i < a.Length
      invariant 0 <= i <= a.Length
      invariant forall k :: 0 <= k < i ==> a[k] == FilledForward(s)[k]
      invariant forall k :: i <= k < a.Length ==> a[k] == s[k]
      invariant last == LatestPresent(s[..i])
    {
      LatestPresentStep(s, i);
      if a[i].Some? {
        last := a[i];
      } else {
        a[i] := last;
      }
      i := i + 1;
    }
  }

  /** One more cell: the latest present value is that cell if present, the previous one otherwise. */
  lemma LatestPresentStep(s: seq<Cell>, i: int)
    requires 0 <= i < |s|
    ensures LatestPresent(s[..i + 1]) == if s[i].Some? then s[i] else LatestPresent(s[..i])
    ensures FilledForward(s)[i] == LatestPresent(s[..i + 1])
  {
    assert s[..i + 1][..i] == s[..i];
  }

  /** Cell i of the filled column: the cell itself when present, missing exactly when all cells up to i are. */
  lemma FilledAt(s: seq<Cell>, i: int)
    requires 0 <= i < |s|
    ensures s[i].Some? ==> FilledForward(s)[i] == s[i]
    ensures FilledForward(s)[i].None? <==> forall k :: 0 <= k <= i ==> s[k].None?
  {
    LatestPresentStep(s, i);
    assert forall k :: 0 <= k <= i ==> s[..i + 1][k] == s[k];
  }

  /** Present values are kept; a value is missing afterwards only if nothing before it was present. */
  lemma FilledForwardSpec(s: seq<Cell>)
    ensures forall i :: 0 <= i < |s| && s[i].Some? ==> FilledForward(s)[i] == s[i]
    ensures forall i :: 0 <= i < |s| ==> (FilledForward(s)[i].None? <==> forall k :: 0 <= k <= i ==> s[k].None?)
  {
    forall i | 0 <= i < |s|
      ensures s[i].Some? ==> FilledForward(s)[i] == s[i]
      ensures FilledForward(s)[i].None? <==> forall k :: 0 <= k <= i ==> s[k].None?
    {
      FilledAt(s, i);
    }
  }

  /** Filling twice fills nothing more. */
  lemma FilledForwardIdempotent(s: seq<Cell>)
    ensures FilledForward(FilledForward(s)) == FilledForward(s)
  {
    var r := FilledForward(s);
    FilledForwardSpec(s);
    FilledForwardSpec(r);
    forall i | 0 <= i < |s| ensures FilledForward(r)[i] == r[i] {
      if r[i].None? {
        assert forall k :: 0 <= k <= i ==> r[k].None? by {
          forall k | 0 <= k <= i ensures r[k].None? {
            assert forall k' :: 0 <= k' <= k ==> s[k'].None?;
          }
        }
      }
    }
  }

  /** The in-place fill applied column by column to a frame. */
  function FillFrame(f: Frame): (r: Frame)
    requires WellFormed(f)
    ensures WellFormed(r) && Rows(r) == Rows(f) && ColumnNames(r) == ColumnNames(f)
  {
    if f.Blank? then Blank
    else Indexed(f.index, f.columns, seq(|f.data|, j requires 0 <= j < |f.data| => FilledForward(f.data[j])))
  }

  // ---- resample_margins ----

  /** The output columns, in this order. */
  const MarginFeatures: seq<string> := ["high_freq_response_requirement", "negative_reserve", "generator_availability"]

  /**
   * `resample_margins(start, end)`: the fetched margins upsampled to 4-hour rows, kept
   * from 23:00 before `start` to 22:30 of `end`, forward-filled again and narrowed to
   * `MarginFeatures`.
   */
  function ResampleMargins(start: int, end: int, fetched: Option<RawTable>): (r: Result<Frame>)
    requires fetched.Some? ==> RawWellFormed(fetched.value)
    ensures FetchMargins(fetched).Blank? ==> r.Err? && r.error.TypeError?
    ensures fetched.None? || fetched.value.size == 0 ==> r.Err? && r.error.TypeError?
    ensures FetchMargins(fetched).Indexed? ==> (r.Ok? <==> Distinct(FetchMargins(fetched).index))
    ensures r.Err? && FetchMargins(fetched).Indexed? ==> r.error.ValueError?
    ensures r.Ok? ==> WellFormed(r.value)
  {
    var margins := FetchMargins(fetched);
    var upsampled :- UpsampleFfill(margins, EfaBlockMinutes);
    var (lo, hi) := SettlementPeriods(start, end);
    var trimmed := TrimRows(upsampled, lo, hi);
    var filled := FillFrame(trimmed);
    assert forall n :: n in MarginFeatures ==> n in MarginColumns;
    SelectColumns(filled, MarginFeatures)
  }

  /** Missing values only before the first present one: a leading gap and nothing after it. */
  predicate OnlyLeadingGap(column: seq<Cell>) {
    forall i, k :: 0 <= k <= i < |column| && column[i].None? ==> column[k].None?
  }

  /** After the in-place fill every column has at most a leading gap. */
  lemma FillFrameGaps(f: Frame)
    requires WellFormed(f) && f.Indexed?
    ensures forall j :: 0 <= j < |FillFrame(f).data| ==> OnlyLeadingGap(FillFrame(f).data[j])
  {
    forall j | 0 <= j < |f.data| ensures OnlyLeadingGap(FilledForward(f.data[j])) {
      FilledForwardSpec(f.data[j]);
    }
  }

  lemma MarginColumnsDistinct()
    ensures Distinct(MarginColumns)
    ensures forall n :: n in MarginFeatures ==> n in MarginColumns
  {
    assert MarginColumns[0][0] == 'n' && MarginColumns[1][0] == 'h' && MarginColumns[2][0] == 'g';
    assert MarginColumns[3][0] == 'g' && MarginColumns[4][0] == 'o' && MarginColumns[5][0] == 'n';
    assert MarginColumns[2][7] == 'i' && MarginColumns[3][7] == 'o';
    assert MarginColumns[0][2] == 'g' && MarginColumns[5][2] == 't';
  }

  /**
   * The resampled margins have exactly the three feature columns, and in each column no
   * gap after its first present value: the second fill does not back-fill.
   */
  lemma ResampleMarginsColumns(start: int, end: int, fetched: Option<RawTable>)
    requires fetched.Some? ==> RawWellFormed(fetched.value)
    requires ResampleMargins(start, end, fetched).Ok?
    ensures var r := ResampleMargins(start, end, fetched).value;
      && r.Indexed? && r.columns == MarginFeatures
      && forall j :: 0 <= j < |r.data| ==> OnlyLeadingGap(r.data[j])
  {
    var margins := FetchMargins(fetched);
    var upsampled := UpsampleFfill(margins, EfaBlockMinutes).value;
    var (lo, hi) := SettlementPeriods(start, end);
    var trimmed := TrimRows(upsampled, lo, hi);
    var filled := FillFrame(trimmed);
    assert ResampleMargins(start, end, fetched) == SelectColumns(filled, MarginFeatures);
    MarginColumnsDistinct();
    SelectDistinct(filled, MarginFeatures);
    FillFrameGaps(trimmed);
  }

  /**
   * Its rows are the points of the 4-hour grid from the first kept forecast that lie in
   * the settlement window, 23:00 before `start` to 22:30 of `end`, ascending and so
   * without duplicates.
   */
  lemma ResampleMarginsRows(start: int, end: int, fetched: Option<RawTable>)
    requires fetched.Some? ==> RawWellFormed(fetched.value)
    requires ResampleMargins(start, end, fetched).Ok?
    ensures var r := ResampleMargins(start, end, fetched).value;
      var margins := FetchMargins(fetched);
      && margins.Indexed? && r.Indexed?
      && StrictlySorted(r.index, IntLess) && Distinct(r.index)
      && forall t :: t in r.index <==>
           t in BinStarts(margins.index, EfaBlockMinutes)
           && SettlementPeriods(start, end).0 <= t <= SettlementPeriods(start, end).1
  {
    var margins := FetchMargins(fetched);
    var upsampled := UpsampleFfill(margins, EfaBlockMinutes).value;
    var (lo, hi) := SettlementPeriods(start, end);
    var trimmed := TrimRows(upsampled, lo, hi);
    var filled := FillFrame(trimmed);
    assert ResampleMargins(start, end, fetched) == SelectColumns(filled, MarginFeatures);
    assert upsampled.index == BinStarts(margins.index, EfaBlockMinutes);
    assert Rows(filled) == Rows(trimmed);
    BinStartsAscending(margins.index, EfaBlockMinutes);
    TrimRowsSorted(upsampled, lo, hi);
    IntLessIsStrictTotalOrder();
    StrictlySortedDistinct(trimmed.index, IntLess);
  }
}
