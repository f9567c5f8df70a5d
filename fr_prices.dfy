/**
 * frcast/data/fr_prices.py: the frequency-response clearing prices of the EFA
 * auctions, trimmed to the EFA blocks of a date range, and the lagged price
 * features built from them.
 */
module FrPrices {
  import opened Wrappers
  import opened Seqs
  import opened Strings
  import opened Calendar
  import opened TimePeriods
  import opened Frames
  import opened Preprocessing

  // ---- column-name normalisation: re.sub(r'(?<!^)(?=[A-Z])', '_', name).lower() ----

  /** Puts '_' in front of every upper-case letter. */
  function UnderscoreBeforeUpper(s: string): string {
    if s == [] then [] else (if IsUpper(s[0]) then ['_', s[0]] else [s[0]]) + UnderscoreBeforeUpper(s[1..])
  }

  /** camelCase to snake_case: '_' before each upper-case letter except at the start, then lower-cased. */
  function CamelToSnake(s: string): string {
    if s == [] then [] else Lower([s[0]] + UnderscoreBeforeUpper(s[1..]))
  }

  lemma LowerConcat(a: string, b: string)
    ensures Lower(a + b) == Lower(a) + Lower(b)
  {
  }

  lemma {:induction false} RemoveCharConcat(a: string, b: string, c: char)
    ensures RemoveChar(a + b, c) == RemoveChar(a, c) + RemoveChar(b, c)
  {
    if a != [] {
      assert (a + b)[1..] == a[1..] + b;
      RemoveCharConcat(a[1..], b, c);
    } else {
      assert a + b == b;
    }
  }

  lemma {:induction false} UnderscoresOnlyAdded(s: string)
    ensures RemoveChar(UnderscoreBeforeUpper(s), '_') == RemoveChar(s, '_')
  {
    if s != [] {
      var head: string := if IsUpper(s[0]) then ['_', s[0]] else [s[0]];
      RemoveCharConcat(head, UnderscoreBeforeUpper(s[1..]), '_');
      UnderscoresOnlyAdded(s[1..]);
      assert [s[0]] + s[1..] == s;
      RemoveCharConcat([s[0]], s[1..], '_');
      assert RemoveChar([s[0]], '_') == (if s[0] == '_' then [] else [s[0]]) by {
        assert [s[0]][1..] == [];
      }
      if IsUpper(s[0]) {
        assert head == ['_'] + [s[0]];
        RemoveCharConcat(['_'], [s[0]], '_');
        assert ['_'][1..] == [];
        assert [s[0]][1..] == [];
      }
    }
  }

  lemma {:induction false} RemoveUnderscoreLower(s: string)
    ensures RemoveChar(Lower(s), '_') == Lower(RemoveChar(s, '_'))
  {
    if s != [] {
      assert Lower(s)[1..] == Lower(s[1..]);
      RemoveUnderscoreLower(s[1..]);
      LowerConcat(if s[0] == '_' then [] else [s[0]], RemoveChar(s[1..], '_'));
    }
  }

  lemma {:induction false} NoUpperUnchanged(s: string)
    requires HasNoUpper(s)
    ensures UnderscoreBeforeUpper(s) == s && Lower(s) == s
  {
    if s != [] {
      NoUpperUnchanged(s[1..]);
    }
  }

  /**
   * The normalised name has no upper-case letter, differs from the lower-cased input only
   * by the underscores it inserts, and normalising twice changes nothing.
   */
  lemma CamelToSnakeSpec(s: string)
    ensures HasNoUpper(CamelToSnake(s))
    ensures RemoveChar(CamelToSnake(s), '_') == Lower(RemoveChar(s, '_'))
    ensures CamelToSnake(CamelToSnake(s)) == CamelToSnake(s)
  {
    if s != [] {
      var t := [s[0]] + UnderscoreBeforeUpper(s[1..]);
      LowerHasNoUpper(t);
      RemoveUnderscoreLower(t);
      RemoveCharConcat([s[0]], UnderscoreBeforeUpper(s[1..]), '_');
      UnderscoresOnlyAdded(s[1..]);
      RemoveCharConcat([s[0]], s[1..], '_');
      assert [s[0]] + s[1..] == s;
      var r := CamelToSnake(s);
      NoUpperUnchanged(r[1..]);
      assert [r[0]] + r[1..] == r;
      NoUpperUnchanged(r);
    }
  }

  // ---- get_historical_fr_price ----

  /** The API query asks for delivery starts from midnight before `from` to midnight after `to`. */
  function FrQueryWindow(from: int, to: int): (int, int) {
    (Midnight(from - 1), Midnight(to + 1))
  }

  /**
   * `get_historical_fr_price(from, to)`: the clearing prices of the fetched auction
   * results, one column per service, kept from EFA-1 of `from` (23:00 the day before) to
   * EFA-6 of `to` (19:00). A failed request or no records give the empty frame.
   */
  function HistoricalFrPrice(from: int, to: int, fetched: Fetch<AuctionRecord>): (r: Frame)
    ensures WellFormed(r)
    ensures r.Blank? <==> fetched.Failed? || fetched.records == []
  {
    if fetched.Failed? || fetched.records == [] then Blank
    else TrimmedPrices(fetched.records, EfaStartTime(from), EfaEndTime(to))
  }

  /** The query window holds the kept window: the day before and the day after are asked for. */
  lemma FrQueryCoversKept(from: int, to: int)
    ensures FrQueryWindow(from, to).0 < EfaStartTime(from) && EfaEndTime(to) < FrQueryWindow(from, to).1
  {
  }

  /**
   * The rows of the price frame: one per distinct delivery start from EFA-1 of `from` to
   * EFA-6 of `to`, in ascending order (columns and cells: `TrimmedPricesCells`).
   */
  lemma HistoricalFrPriceRows(from: int, to: int, fetched: Fetch<AuctionRecord>)
    requires fetched.Fetched? && fetched.records != []
    ensures var r := HistoricalFrPrice(from, to, fetched);
      var records := fetched.records;
      && r.Indexed?
      && StrictlySorted(r.index, IntLess)
      && (forall t :: t in r.index <==>
            EfaStartTime(from) <= t <= EfaEndTime(to)
            && exists i :: 0 <= i < |records| && records[i].deliveryStart == t)
  {
    TrimmedPricesRows(fetched.records, EfaStartTime(from), EfaEndTime(to));
  }

  // ---- create_lag_shifted_df ----

  /** The label of the lag-`lag` copy of column `param`: `param + '_lag_' + str(lag)`. */
  function LagName(param: string, lag: int): string {
    param + "_lag_" + IntToString(lag)
  }

  /** Distinct (column, lag) pairs get distinct labels, so no lag column overwrites another. */
  lemma LagNameInjective(p1: string, l1: int, p2: string, l2: int)
    requires LagName(p1, l1) == LagName(p2, l2)
    ensures p1 == p2 && l1 == l2
  {
    var s1, s2 := IntToString(l1), IntToString(l2);
    IntToStringChars(l1);
    IntToStringChars(l2);
    assert p1 + "_lag_" + s1 == p1 + "_lag" + "_" + s1;
    assert p2 + "_lag_" + s2 == p2 + "_lag" + "_" + s2;
    SuffixAfterLastUnderscore(p1 + "_lag", s1, p2 + "_lag", s2);
    IntToStringInjective(l1, l2);
    assert p1 == (p1 + "_lag")[..|p1|] == (p2 + "_lag")[..|p2|] == p2;
  }

  /** Splitting a label at its last '_' recovers both halves. */
  lemma SuffixAfterLastUnderscore(a1: string, s1: string, a2: string, s2: string)
    requires a1 + "_" + s1 == a2 + "_" + s2
    requires forall k :: 0 <= k < |s1| ==> s1[k] != '_'
    requires forall k :: 0 <= k < |s2| ==> s2[k] != '_'
    ensures a1 == a2 && s1 == s2
  {
    var n := a1 + "_" + s1;
    assert n == a2 + "_" + s2;
    SuffixNotLonger(a1, s1, a2, s2);
    SuffixNotLonger(a2, s2, a1, s1);
    assert s1 == n[|n| - |s1|..] == s2;
    assert a1 == n[..|a1|] == a2;
  }

  /** The part after the last '_' cannot be longer on one side than on the other. */
  lemma SuffixNotLonger(a1: string, s1: string, a2: string, s2: string)
    requires a1 + "_" + s1 == a2 + "_" + s2
    requires forall k :: 0 <= k < |s2| ==> s2[k] != '_'
    ensures |s2| <= |s1|
  {
    if |s1| < |s2| {
      UnderscoreAfter(a1, s1);
      assert false;
    }
  }

  lemma UnderscoreAfter(a: string, s: string)
    ensures |a| < |a + "_" + s| && (a + "_" + s)[|a|] == '_'
  {
  }

  /** The value of `values` at row label t, if t is one. */
  function ValueAt(index: seq<int>, values: seq<Cell>, t: int): Option<Cell>
    requires |values| == |index|
  {
    match IndexOf(index, t)
    case None => None
    case Some(i) => Some(values[i])
  }

  /**
   * `pd.Series(values, index + 4h * lag)[efa]`: for every EFA point t the value of the row
   * labelled t - 4h * lag; KeyError when one of those rows does not exist.
   */
  function ShiftedLookup(index: seq<int>, values: seq<Cell>, lag: int, efa: seq<int>): (r: Result<seq<Cell>>)
    requires |values| == |index|
    ensures r.Ok? <==> forall i :: 0 <= i < |efa| ==> efa[i] - EfaBlockMinutes * lag in index
    ensures r.Err? ==> r.error.KeyError?
    ensures r.Ok? ==> |r.value| == |efa|
    ensures r.Ok? ==> forall i :: 0 <= i < |efa| ==> ValueAt(index, values, efa[i] - EfaBlockMinutes * lag) == Some(r.value[i])
  {
    if forall i :: 0 <= i < |efa| ==> efa[i] - EfaBlockMinutes * lag in index then
      Ok(seq(|efa|, i requires 0 <= i < |efa| => ValueAt(index, values, efa[i] - EfaBlockMinutes * lag).value))
    else
      Err(KeyError("not in index"))
  }

  /** Column `param` of the history shifted by `lag` EFA blocks and read on the EFA points. */
  function LagFeature(history: Frame, param: string, lag: int, efa: seq<int>): Result<seq<Cell>>
    requires WellFormed(history)
  {
    var column :- Column(history, param);
    ShiftedLookup(Rows(history), column, lag, efa)
  }

  /** Every requested column exists and every lagged point is a row of the history. */
  predicate LagsAvailable(history: Frame, lagSpec: seq<(string, seq<int>)>, efa: seq<int>)
    requires WellFormed(history)
  {
    && (forall p :: 0 <= p < |lagSpec| ==> lagSpec[p].0 in ColumnNames(history))
    && (forall p, q :: 0 <= p < |lagSpec| && 0 <= q < |lagSpec[p].1| ==>
          LagFeature(history, lagSpec[p].0, lagSpec[p].1[q], efa).Ok?)
  }

  function LagNamesOf(param: string, lags: seq<int>): seq<string> {
    seq(|lags|, q requires 0 <= q < |lags| => LagName(param, lags[q]))
  }

  /** All lag labels in the order the loops produce them. */
  function LagNames(lagSpec: seq<(string, seq<int>)>): seq<string> {
    if lagSpec == [] then []
    else LagNames(lagSpec[..|lagSpec| - 1]) + LagNamesOf(lagSpec[|lagSpec| - 1].0, lagSpec[|lagSpec| - 1].1)
  }

  function Id(s: string): string { s }

  /** Column `name` of `cells` holds the lag feature it is named after. */
  ghost predicate HoldsLag(cells: map<string, seq<Cell>>, history: Frame, param: string, lag: int, efa: seq<int>)
    requires WellFormed(history)
  {
    LagName(param, lag) in cells && LagFeature(history, param, lag, efa) == Ok(cells[LagName(param, lag)])
  }

  lemma KeepFirstSnoc(s: seq<string>, x: string)
    ensures KeepFirst(s + [x], Id) == if x in KeepFirst(s, Id) then KeepFirst(s, Id) else KeepFirst(s, Id) + [x]
  {
    assert (s + [x])[..|s|] == s;
    var p := KeepFirst(s, Id);
    assert (exists j :: 0 <= j < |p| && Id(p[j]) == Id(x)) <==> x in p;
  }

  /**
   * `create_lag_shifted_df(start, end, lags)`: the FR price history from two days before
   * `start` to the day after `end`, and for each requested column and each of its lags a
   * column `<column>_lag_<lag>` on the EFA index holding the price `lag` blocks earlier.
   * A missing column or a lagged point outside the history raises KeyError.
   */
  method CreateLagShifted(start: int, end: int, lagSpec: seq<(string, seq<int>)>, fetched: Fetch<AuctionRecord>)
    returns (r: Result<Frame>)
    ensures r.Ok? <==> LagsAvailable(HistoricalFrPrice(start - 2, end + 1, fetched), lagSpec, EfaIndex(start, end))
    ensures r.Err? ==> r.error.KeyError?
    ensures r.Ok? ==> WellFormed(r.value) && r.value.Indexed? && r.value.index == EfaIndex(start, end)
    ensures r.Ok? ==> r.value.columns == KeepFirst(LagNames(lagSpec), Id)
    ensures r.Ok? ==> forall p, q :: 0 <= p < |lagSpec| && 0 <= q < |lagSpec[p].1| ==>
      Column(r.value, LagName(lagSpec[p].0, lagSpec[p].1[q]))
        == LagFeature(HistoricalFrPrice(start - 2, end + 1, fetched), lagSpec[p].0, lagSpec[p].1[q], EfaIndex(start, end))
  {
    var history := HistoricalFrPrice(start - 2, end + 1, fetched);
    r := BuildLags(EfaIndex(start, end), history, lagSpec);
  }

  /** The loops of `create_lag_shifted_df` over a given price history. */
  method BuildLags(efa: seq<int>, history: Frame, lagSpec: seq<(string, seq<int>)>) returns (r: Result<Frame>)
    requires WellFormed(history)
    ensures r.Ok? <==> LagsAvailable(history, lagSpec, efa)
    ensures r.Err? ==> r.error.KeyError?
    ensures r.Ok? ==> WellFormed(r.value) && r.value.Indexed? && r.value.index == efa
    ensures r.Ok? ==> r.value.columns == KeepFirst(LagNames(lagSpec), Id)
    ensures r.Ok? ==> forall p, q :: 0 <= p < |lagSpec| && 0 <= q < |lagSpec[p].1| ==>
      Column(r.value, LagName(lagSpec[p].0, lagSpec[p].1[q])) == LagFeature(history, lagSpec[p].0, lagSpec[p].1[q], efa)
  {
    var table := new Table<Cell>(efa, [], None);
    var p := 0;
    while p < |lagSpec|
      invariant 0 <= p <= |lagSpec|
      invariant table.Valid() && table.index == efa
      invariant table.columns == KeepFirst(LagNames(lagSpec[..p]), Id)
      invariant StoredUpTo(table.cells, history, lagSpec, p, efa)
    {
      var failed := AddParam(table, efa, history, lagSpec, p);
      if failed.Some? {
        r := Err(failed.value);
        return;
      }
      p := p + 1;
    }
    assert lagSpec[..p] == lagSpec;
    var cells := table.cells;
    TableFrameColumns(efa, table.columns, cells, history, lagSpec);
    r := Ok(TableFrame(efa, table.columns, cells));
  }

  /** The lag columns of the first p requested columns are stored, and those columns exist. */
  ghost predicate StoredUpTo(cells: map<string, seq<Cell>>, history: Frame, lagSpec: seq<(string, seq<int>)>, p: int, efa: seq<int>)
    requires WellFormed(history) && 0 <= p <= |lagSpec|
  {
    && (forall p' :: 0 <= p' < p ==> lagSpec[p'].0 in ColumnNames(history))
    && (forall p', q' :: 0 <= p' < p && 0 <= q' < |lagSpec[p'].1| ==>
          HoldsLag(cells, history, lagSpec[p'].0, lagSpec[p'].1[q'], efa))
  }

  /** One pass of the outer loop: `df[param]`, then the inner loop over its lags. */
  method AddParam(table: Table<Cell>, efa: seq<int>, history: Frame, lagSpec: seq<(string, seq<int>)>, p: int)
    returns (failed: Option<Error>)
    requires WellFormed(history) && 0 <= p < |lagSpec|
    requires table.Valid() && table.index == efa
    requires table.columns == KeepFirst(LagNames(lagSpec[..p]), Id)
    requires StoredUpTo(table.cells, history, lagSpec, p, efa)
    modifies table
    ensures table.Valid() && table.index == efa
    ensures failed.Some? ==> failed.value.KeyError? && !LagsAvailable(history, lagSpec, efa)
    ensures failed.None? ==> table.columns == KeepFirst(LagNames(lagSpec[..p + 1]), Id)
    ensures failed.None? ==> StoredUpTo(table.cells, history, lagSpec, p + 1, efa)
  {
    var column := Column(history, lagSpec[p].0);
    if column.Err? {
      return Some(column.error);
    }
    failed := AddLags(table, efa, history, lagSpec, p, column.value);
  }

  /** The inner loop: the lag columns of requested column lagSpec[p], whose values are `column`. */
  method AddLags(table: Table<Cell>, efa: seq<int>, history: Frame, lagSpec: seq<(string, seq<int>)>, p: int,
                 column: seq<Cell>) returns (failed: Option<Error>)
    requires WellFormed(history) && 0 <= p < |lagSpec|
    requires table.Valid() && table.index == efa
    requires Column(history, lagSpec[p].0) == Ok(column)
    requires table.columns == KeepFirst(LagNames(lagSpec[..p]), Id)
    requires forall p', q' :: 0 <= p' < p && 0 <= q' < |lagSpec[p'].1| ==>
      HoldsLag(table.cells, history, lagSpec[p'].0, lagSpec[p'].1[q'], efa)
    modifies table
    ensures table.Valid() && table.index == efa
    ensures failed.Some? ==> failed.value.KeyError?
    ensures failed.Some? ==> exists q :: 0 <= q < |lagSpec[p].1| && LagFeature(history, lagSpec[p].0, lagSpec[p].1[q], efa).Err?
    ensures failed.None? ==> table.columns == KeepFirst(LagNames(lagSpec[..p + 1]), Id)
    ensures failed.None? ==> forall p', q' :: 0 <= p' < p + 1 && 0 <= q' < |lagSpec[p'].1| ==>
      HoldsLag(table.cells, history, lagSpec[p'].0, lagSpec[p'].1[q'], efa)
  {
    var param, lags := lagSpec[p].0, lagSpec[p].1;
    ghost var prefix := LagNames(lagSpec[..p]);
    assert LagNamesOf(param, lags[..0]) == [];
    assert prefix + LagNamesOf(param, lags[..0]) == prefix;
    var q := 0;
    while q < |lags|
      invariant 0 <= q <= |lags|
      invariant table.Valid() && table.index == efa
      invariant table.columns == KeepFirst(prefix + LagNamesOf(param, lags[..q]), Id)
      invariant forall p', q' :: 0 <= p' < p && 0 <= q' < |lagSpec[p'].1| ==>
        HoldsLag(table.cells, history, lagSpec[p'].0, lagSpec[p'].1[q'], efa)
      invariant forall q' :: 0 <= q' < q ==> HoldsLag(table.cells, history, param, lags[q'], efa)
    {
      var shifted := ShiftedLookup(Rows(history), column, lags[q], efa);
      if shifted.Err? {
        return Some(shifted.error);
      }
      NamesStep(prefix, param, lags, q);
      AssignKeepsEarlier(table.cells, history, lagSpec, p, param, lags[q], shifted.value, efa);
      AssignKeepsCurrent(table.cells, history, param, lags, q, shifted.value, efa);
      table.Assign(LagName(param, lags[q]), shifted.value);
      q := q + 1;
    }
    NamesNext(lagSpec, p);
    forall p', q' | 0 <= p' < p + 1 && 0 <= q' < |lagSpec[p'].1|
      ensures HoldsLag(table.cells, history, lagSpec[p'].0, lagSpec[p'].1[q'], efa)
    {
      if p' == p {
        assert HoldsLag(table.cells, history, param, lags[q'], efa);
      }
    }
    return None;
  }

  /** The frame a table holds: column j is the cells labelled columns[j]. */
  function TableFrame(index: seq<int>, columns: seq<string>, cells: map<string, seq<Cell>>): (f: Frame)
    requires forall c :: c in columns ==> c in cells && |cells[c]| == |index|
    ensures WellFormed(f) && f.Indexed? && f.index == index && f.columns == columns
  {
    Indexed(index, columns, seq(|columns|, j requires 0 <= j < |columns| => cells[columns[j]]))
  }

  lemma TableFrameColumns(index: seq<int>, columns: seq<string>, cells: map<string, seq<Cell>>,
                          history: Frame, lagSpec: seq<(string, seq<int>)>)
    requires WellFormed(history)
    requires forall c :: c in columns ==> c in cells && |cells[c]| == |index|
    requires forall c :: c in cells ==> c in columns
    requires forall p, q :: 0 <= p < |lagSpec| && 0 <= q < |lagSpec[p].1| ==>
      HoldsLag(cells, history, lagSpec[p].0, lagSpec[p].1[q], index)
    ensures forall p, q :: 0 <= p < |lagSpec| && 0 <= q < |lagSpec[p].1| ==>
      Column(TableFrame(index, columns, cells), LagName(lagSpec[p].0, lagSpec[p].1[q]))
        == LagFeature(history, lagSpec[p].0, lagSpec[p].1[q], index)
    ensures LagsAvailable(history, lagSpec, index) <==> forall p :: 0 <= p < |lagSpec| ==> lagSpec[p].0 in ColumnNames(history)
  {
    var f := TableFrame(index, columns, cells);
    forall p, q | 0 <= p < |lagSpec| && 0 <= q < |lagSpec[p].1|
      ensures Column(f, LagName(lagSpec[p].0, lagSpec[p].1[q])) == LagFeature(history, lagSpec[p].0, lagSpec[p].1[q], index)
    {
      var name := LagName(lagSpec[p].0, lagSpec[p].1[q]);
      assert HoldsLag(cells, history, lagSpec[p].0, lagSpec[p].1[q], index);
      var c := Column(f, name);
      var j :| 0 <= j < |f.columns| && f.columns[j] == name && c.value == f.data[j];
    }
  }

  lemma NamesStep(prefix: seq<string>, param: string, lags: seq<int>, q: int)
    requires 0 <= q < |lags|
    ensures var before := KeepFirst(prefix + LagNamesOf(param, lags[..q]), Id);
      var name := LagName(param, lags[q]);
      KeepFirst(prefix + LagNamesOf(param, lags[..q + 1]), Id)
        == if name in before then before else before + [name]
  {
    var name := LagName(param, lags[q]);
    assert LagNamesOf(param, lags[..q + 1]) == LagNamesOf(param, lags[..q]) + [name];
    assert prefix + LagNamesOf(param, lags[..q + 1]) == prefix + LagNamesOf(param, lags[..q]) + [name];
    KeepFirstSnoc(prefix + LagNamesOf(param, lags[..q]), name);
  }

  lemma NamesNext(lagSpec: seq<(string, seq<int>)>, p: int)
    requires 0 <= p < |lagSpec|
    ensures LagNames(lagSpec[..p]) + LagNamesOf(lagSpec[p].0, lagSpec[p].1[..|lagSpec[p].1|]) == LagNames(lagSpec[..p + 1])
  {
    assert lagSpec[..p + 1][..p] == lagSpec[..p];
    assert lagSpec[p].1[..|lagSpec[p].1|] == lagSpec[p].1;
  }

  /** Storing a lag column keeps the columns of the earlier requested columns, thanks to distinct labels. */
  lemma AssignKeepsEarlier(cells: map<string, seq<Cell>>, history: Frame, lagSpec: seq<(string, seq<int>)>, p: int,
                           param: string, lag: int, values: seq<Cell>, efa: seq<int>)
    requires WellFormed(history) && 0 <= p <= |lagSpec|
    requires forall p', q' :: 0 <= p' < p && 0 <= q' < |lagSpec[p'].1| ==>
      HoldsLag(cells, history, lagSpec[p'].0, lagSpec[p'].1[q'], efa)
    requires LagFeature(history, param, lag, efa) == Ok(values)
    ensures forall p', q' :: 0 <= p' < p && 0 <= q' < |lagSpec[p'].1| ==>
      HoldsLag(cells[LagName(param, lag) := values], history, lagSpec[p'].0, lagSpec[p'].1[q'], efa)
  {
    forall p', q' | 0 <= p' < p && 0 <= q' < |lagSpec[p'].1|
      ensures HoldsLag(cells[LagName(param, lag) := values], history, lagSpec[p'].0, lagSpec[p'].1[q'], efa)
    {
      AssignKeepsLag(cells, history, lagSpec[p'].0, lagSpec[p'].1[q'], param, lag, values, efa);
    }
  }

  /** Storing the column for lags[q] keeps those for lags[..q] and adds its own. */
  lemma AssignKeepsCurrent(cells: map<string, seq<Cell>>, history: Frame, param: string, lags: seq<int>, q: int,
                           values: seq<Cell>, efa: seq<int>)
    requires WellFormed(history) && 0 <= q < |lags|
    requires forall q' :: 0 <= q' < q ==> HoldsLag(cells, history, param, lags[q'], efa)
    requires LagFeature(history, param, lags[q], efa) == Ok(values)
    ensures forall q' :: 0 <= q' < q + 1 ==> HoldsLag(cells[LagName(param, lags[q]) := values], history, param, lags[q'], efa)
  {
    forall q' | 0 <= q' < q + 1
      ensures HoldsLag(cells[LagName(param, lags[q]) := values], history, param, lags[q'], efa)
    {
      if q' < q {
        AssignKeepsLag(cells, history, param, lags[q'], param, lags[q], values, efa);
      }
    }
  }

  /** Storing one lag column keeps any other stored lag column, and stores its own. */
  lemma AssignKeepsLag(cells: map<string, seq<Cell>>, history: Frame, param1: string, lag1: int,
                       param: string, lag: int, values: seq<Cell>, efa: seq<int>)
    requires WellFormed(history) && HoldsLag(cells, history, param1, lag1, efa)
    requires LagFeature(history, param, lag, efa) == Ok(values)
    ensures HoldsLag(cells[LagName(param, lag) := values], history, param1, lag1, efa)
  {
    if LagName(param1, lag1) == LagName(param, lag) {
      LagNameInjective(param1, lag1, param, lag);
    }
  }

  /**
   * Why the history is fetched from two days before to one day after: every lag from
   * -6 to 12 blocks moves each EFA point of start..end into the kept history window.
   */
  lemma LagWindow(start: int, end: int, lag: int)
    requires -6 <= lag <= 12
    ensures forall k :: 0 <= k < |EfaIndex(start, end)| ==>
      EfaStartTime(start - 2) <= EfaIndex(start, end)[k] - EfaBlockMinutes * lag <= EfaEndTime(end + 1)
  {
    var efa := EfaIndex(start, end);
    EfaIndexSpec(start, end);
    EfaIndexStep(start, end);
    forall k | 0 <= k < |efa|
      ensures EfaStartTime(start - 2) <= efa[k] - EfaBlockMinutes * lag <= EfaEndTime(end + 1)
    {
      assert efa[0] <= efa[k] <= efa[|efa| - 1];
    }
  }

  /**
   * Any other lag reaches outside the history window for the first or the last EFA point,
   * so the lag feature raises KeyError whatever was fetched.
   */
  lemma LagBeyondWindow(start: int, end: int, param: string, lag: int, fetched: Fetch<AuctionRecord>)
    requires start <= end && (lag < -6 || 12 < lag)
    ensures LagFeature(HistoricalFrPrice(start - 2, end + 1, fetched), param, lag, EfaIndex(start, end)).Err?
  {
    var history := HistoricalFrPrice(start - 2, end + 1, fetched);
    var lo, hi := EfaStartTime(start - 2), EfaEndTime(end + 1);
    if history.Indexed? {
      assert history == TrimmedPrices(fetched.records, lo, hi);
    }
    assert forall k :: 0 <= k < |Rows(history)| ==> lo <= Rows(history)[k] <= hi;
    LagBeyondRows(history, start, end, param, lag);
  }

  lemma LagBeyondRows(history: Frame, start: int, end: int, param: string, lag: int)
    requires WellFormed(history) && start <= end && (lag < -6 || 12 < lag)
    requires forall k :: 0 <= k < |Rows(history)| ==>
      EfaStartTime(start - 2) <= Rows(history)[k] <= EfaEndTime(end + 1)
    ensures LagFeature(history, param, lag, EfaIndex(start, end)).Err?
  {
    var efa := EfaIndex(start, end);
    EfaIndexSpec(start, end);
    var i := if lag < -6 then |efa| - 1 else 0;
    var t := efa[i] - EfaBlockMinutes * lag;
    OutsideBounds(Rows(history), EfaStartTime(start - 2), EfaEndTime(end + 1), t);
    MissingLagPoint(history, param, lag, efa, i);
  }

  lemma OutsideBounds(rows: seq<int>, lo: int, hi: int, t: int)
    requires forall k :: 0 <= k < |rows| ==> lo <= rows[k] <= hi
    requires t < lo || hi < t
    ensures t !in rows
  {
  }

  /** One EFA point whose lagged time is not a row makes the lag feature fail. */
  lemma MissingLagPoint(history: Frame, param: string, lag: int, efa: seq<int>, i: int)
    requires WellFormed(history) && 0 <= i < |efa|
    requires efa[i] - EfaBlockMinutes * lag !in Rows(history)
    ensures LagFeature(history, param, lag, efa).Err?
  {
  }
}
