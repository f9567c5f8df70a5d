/**
 * The data frames the pipeline passes around. A frame is either `Blank`, the
 * `pd.DataFrame()` the fetch layer returns on failure (no columns and no
 * DatetimeIndex), or a timestamp-indexed frame stored column by column. A
 * missing value (NaN) is `None`. Also: column selection, row trimming to a
 * time window, column-wise concatenation, and the mutable table used by the
 * builders that fill a frame column by column.
 */
module Frames {
  import opened Wrappers
  import opened Seqs

  type Cell = Option<real>

  datatype Frame =
    | Blank
    | Indexed(index: seq<int>, columns: seq<string>, data: seq<seq<Cell>>)

  predicate WellFormed(f: Frame) {
    f.Indexed? ==> |f.data| == |f.columns| && forall j :: 0 <= j < |f.data| ==> |f.data[j]| == |f.index|
  }

  function Rows(f: Frame): seq<int> { if f.Blank? then [] else f.index }

  function ColumnNames(f: Frame): seq<string> { if f.Blank? then [] else f.columns }

  // ---- df[name] ----

  /** `df[name]`: the first column with that label; KeyError when there is none. */
  function Column(f: Frame, name: string): (r: Result<seq<Cell>>)
    requires WellFormed(f)
    ensures r.Ok? <==> name in ColumnNames(f)
    ensures r.Err? ==> r.error == KeyError(name)
    ensures r.Ok? ==> |r.value| == |f.index|
    ensures r.Ok? ==> exists j :: 0 <= j < |f.columns| && f.columns[j] == name && r.value == f.data[j]
  {
    if f.Blank? then Err(KeyError(name))
    else match IndexOf(f.columns, name)
      case None => Err(KeyError(name))
      case Some(j) => Ok(f.data[j])
  }

  // ---- df[[names]] ----

  /** The positions of the columns labelled `name`, in order. */
  function PositionsOf(columns: seq<string>, name: string): (r: seq<nat>)
    ensures forall p :: p in r <==> 0 <= p < |columns| && columns[p] == name
  {
    if columns == [] then []
    else PositionsOf(columns[..|columns| - 1], name) + (if columns[|columns| - 1] == name then [|columns| - 1] else [])
  }

  function SelectedPositions(columns: seq<string>, names: seq<string>): (r: seq<nat>)
    ensures forall k :: 0 <= k < |r| ==> r[k] < |columns| && columns[r[k]] in names
  {
    if names == [] then []
    else
      var here := PositionsOf(columns, names[0]);
      assert forall k :: 0 <= k < |here| ==> here[k] in here;
      here + SelectedPositions(columns, names[1..])
  }

  /** The first missing label of `names`, if any. */
  function FirstMissing(columns: seq<string>, names: seq<string>): (r: Option<string>)
    ensures r.None? <==> forall n :: n in names ==> n in columns
    ensures r.Some? ==> r.value in names && r.value !in columns
  {
    if names == [] then None
    else if names[0] !in columns then Some(names[0])
    else FirstMissing(columns, names[1..])
  }

  /** `df[names]`: every column of each label, in the order asked; KeyError if a label is absent. */
  function SelectColumns(f: Frame, names: seq<string>): (r: Result<Frame>)
    requires WellFormed(f)
    ensures r.Ok? <==> forall n :: n in names ==> n in ColumnNames(f)
    ensures r.Err? ==> r.error.KeyError? && r.error.key in names && r.error.key !in ColumnNames(f)
    ensures r.Ok? ==> WellFormed(r.value) && Rows(r.value) == Rows(f)
  {
    match FirstMissing(ColumnNames(f), names)
    case Some(n) => Err(KeyError(n))
    case None =>
      if f.Blank? then Ok(Blank)
      else
        var p := SelectedPositions(f.columns, names);
        Ok(Indexed(f.index, seq(|p|, k requires 0 <= k < |p| => f.columns[p[k]]),
                   seq(|p|, k requires 0 <= k < |p| => f.data[p[k]])))
  }

  /** Every selected column is a column of the input whose label was asked for. */
  lemma SelectedFrom(f: Frame, names: seq<string>)
    requires WellFormed(f) && f.Indexed? && SelectColumns(f, names).Ok?
    ensures var r := SelectColumns(f, names).value;
      && r.Indexed? && r.index == f.index
      && forall k :: 0 <= k < |r.columns| ==>
           r.columns[k] in names
           && exists j :: 0 <= j < |f.columns| && r.columns[k] == f.columns[j] && r.data[k] == f.data[j]
  {
    var r := SelectColumns(f, names).value;
    var p := SelectedPositions(f.columns, names);
    forall k | 0 <= k < |r.columns|
      ensures r.columns[k] in names
      ensures exists j :: 0 <= j < |f.columns| && r.columns[k] == f.columns[j] && r.data[k] == f.data[j]
    {
      assert r.columns[k] == f.columns[p[k]] && r.data[k] == f.data[p[k]];
    }
  }

  lemma {:induction false} PositionsOfDistinct(columns: seq<string>, name: string, j: nat)
    requires Distinct(columns) && j < |columns| && columns[j] == name
    ensures PositionsOf(columns, name) == [j]
  {
    var init := columns[..|columns| - 1];
    if j < |columns| - 1 {
      PositionsOfDistinct(init, name, j);
    } else {
      assert name !in init;
      PositionsOfAbsent(init, name);
    }
  }

  lemma {:induction false} PositionsOfAbsent(columns: seq<string>, name: string)
    requires name !in columns
    ensures PositionsOf(columns, name) == []
  {
    if columns != [] {
      PositionsOfAbsent(columns[..|columns| - 1], name);
    }
  }

  /**
   * On a frame with distinct labels, selecting present labels gives exactly those
   * columns, in the order asked.
   */
  lemma {:induction false} SelectDistinct(f: Frame, names: seq<string>)
    requires WellFormed(f) && f.Indexed? && Distinct(f.columns)
    requires forall n :: n in names ==> n in f.columns
    ensures SelectColumns(f, names).Ok?
    ensures SelectColumns(f, names).value.columns == names
    ensures forall k :: 0 <= k < |names| ==>
      exists j :: 0 <= j < |f.columns| && f.columns[j] == names[k] && SelectColumns(f, names).value.data[k] == f.data[j]
  {
    SelectedPositionsDistinct(f.columns, names);
  }

  lemma {:induction false} SelectedPositionsDistinct(columns: seq<string>, names: seq<string>)
    requires Distinct(columns) && forall n :: n in names ==> n in columns
    ensures |SelectedPositions(columns, names)| == |names|
    ensures forall k :: 0 <= k < |names| ==> columns[SelectedPositions(columns, names)[k]] == names[k]
  {
    if names != [] {
      var tail := names[1..];
      var rest := SelectedPositions(columns, tail);
      var j := FirstPositionOf(columns, names);
      assert SelectedPositions(columns, names) == [j] + rest;
      assert |rest| == |tail| && forall k :: 0 <= k < |tail| ==> columns[rest[k]] == tail[k] by {
        forall n | n in tail ensures n in columns {
          assert n in names;
        }
        SelectedPositionsDistinct(columns, tail);
      }
      forall k | 1 <= k < |names| ensures columns[([j] + rest)[k]] == names[k] {
        assert ([j] + rest)[k] == rest[k - 1] && names[k] == tail[k - 1];
      }
    }
  }

  /** With distinct labels, the first asked-for label occurs at exactly one position. */
  lemma FirstPositionOf(columns: seq<string>, names: seq<string>) returns (j: nat)
    requires Distinct(columns) && names != [] && names[0] in columns
    ensures j < |columns| && columns[j] == names[0] && PositionsOf(columns, names[0]) == [j]
  {
    j := IndexOf(columns, names[0]).value;
    PositionsOfDistinct(columns, names[0], j);
  }

  // ---- df[(df.index >= lo) & (df.index <= hi)] ----

  /** The row positions whose timestamp lies in [lo, hi], in order. */
  function KeptPositions(index: seq<int>, lo: int, hi: int): (r: seq<nat>)
    ensures forall k :: 0 <= k < |r| ==> r[k] < |index| && lo <= index[r[k]] <= hi
    ensures forall p :: 0 <= p < |index| && lo <= index[p] <= hi ==> p in r
    ensures forall a, b :: 0 <= a < b < |r| ==> r[a] < r[b]
  {
    if index == [] then []
    else KeptPositions(index[..|index| - 1], lo, hi) + (if lo <= index[|index| - 1] <= hi then [|index| - 1] else [])
  }

  /** The elements of xs at positions p, in the order of p. */
  function Gather<T>(xs: seq<T>, p: seq<nat>): (r: seq<T>)
    requires forall k :: 0 <= k < |p| ==> p[k] < |xs|
    ensures |r| == |p| && forall k :: 0 <= k < |p| ==> r[k] == xs[p[k]]
  {
    seq(|p|, k requires 0 <= k < |p| => xs[p[k]])
  }

  /** Every kept timestamp is one of the gathered ones and vice versa. */
  lemma KeptTimestamps(index: seq<int>, lo: int, hi: int, t: int)
    ensures t in Gather(index, KeptPositions(index, lo, hi)) <==> t in index && lo <= t <= hi
  {
    var p := KeptPositions(index, lo, hi);
    var g := Gather(index, p);
    if t in index && lo <= t <= hi {
      var q :| 0 <= q < |index| && index[q] == t;
      var i :| 0 <= i < |p| && p[i] == q;
      assert g[i] == t;
    }
  }

  /** Keeps the rows with lo <= timestamp <= hi (both ends inclusive), in their order. */
  function TrimRows(f: Frame, lo: int, hi: int): (r: Frame)
    requires WellFormed(f)
    ensures WellFormed(r) && ColumnNames(r) == ColumnNames(f) && r.Blank? == f.Blank?
    ensures forall i :: 0 <= i < |Rows(r)| ==> lo <= Rows(r)[i] <= hi
    ensures forall t :: t in Rows(r) <==> t in Rows(f) && lo <= t <= hi
  {
    if f.Blank? then Blank
    else
      var p := KeptPositions(f.index, lo, hi);
      var r := Indexed(Gather(f.index, p), f.columns,
                       seq(|f.data|, j requires 0 <= j < |f.data| => Gather(f.data[j], p)));
      assert forall t :: t in r.index <==> t in f.index && lo <= t <= hi by {
        forall t ensures t in r.index <==> t in f.index && lo <= t <= hi {
          KeptTimestamps(f.index, lo, hi, t);
        }
      }
      r
  }

  /** Trimming keeps the rows in their order, so an ascending index stays ascending. */
  lemma TrimRowsSorted(f: Frame, lo: int, hi: int)
    requires WellFormed(f) && f.Indexed? && StrictlySorted(f.index, IntLess)
    ensures StrictlySorted(TrimRows(f, lo, hi).index, IntLess)
  {
  }

  /** Row i of the trimmed frame is row q of the input, with all its cells. */
  lemma TrimRowsRow(f: Frame, lo: int, hi: int, i: int) returns (q: nat)
    requires WellFormed(f) && f.Indexed? && 0 <= i < |TrimRows(f, lo, hi).index|
    ensures var r := TrimRows(f, lo, hi);
      && q < |f.index| && r.index[i] == f.index[q] && lo <= f.index[q] <= hi
      && forall j :: 0 <= j < |f.data| ==> r.data[j][i] == f.data[j][q]
  {
    q := KeptPositions(f.index, lo, hi)[i];
  }

  /** Trimming keeps each surviving row whole: row i of the result is some row of the input, with all its cells. */
  lemma TrimRowsCells(f: Frame, lo: int, hi: int)
    requires WellFormed(f) && f.Indexed?
    ensures var r := TrimRows(f, lo, hi);
      forall i :: 0 <= i < |r.index| ==>
        exists q :: (0 <= q < |f.index| && r.index[i] == f.index[q] &&
                     forall j :: 0 <= j < |f.data| ==> r.data[j][i] == f.data[j][q])
  {
    var r := TrimRows(f, lo, hi);
    forall i | 0 <= i < |r.index|
      ensures exists q :: 0 <= q < |f.index| && r.index[i] == f.index[q] && forall j :: 0 <= j < |f.data| ==> r.data[j][i] == f.data[j][q]
    {
      var q := TrimRowsRow(f, lo, hi, i);
    }
  }

  // ---- pd.concat(frames, axis=1) ----

  function AllRows(frames: seq<Frame>): seq<int> {
    if frames == [] then [] else Rows(frames[0]) + AllRows(frames[1..])
  }

  function AllColumns(frames: seq<Frame>): seq<string> {
    if frames == [] then [] else ColumnNames(frames[0]) + AllColumns(frames[1..])
  }

  /** The columns of f re-indexed on idx: a row f has at that timestamp, or missing. */
  function Realign(f: Frame, idx: seq<int>): (r: seq<seq<Cell>>)
    requires WellFormed(f)
    ensures |r| == |ColumnNames(f)| && forall j :: 0 <= j < |r| ==> |r[j]| == |idx|
  {
    if f.Blank? then []
    else if f.index == idx then f.data
    else seq(|f.data|, j requires 0 <= j < |f.data| =>
           seq(|idx|, i requires 0 <= i < |idx| => CellAt(f, j, idx[i])))
  }

  /** The cell of column j at timestamp t, missing when f has no row there. */
  function CellAt(f: Frame, j: int, t: int): Cell
    requires WellFormed(f) && f.Indexed? && 0 <= j < |f.data|
  {
    match IndexOf(f.index, t)
    case Some(q) => f.data[j][q]
    case None => None
  }

  function AllData(frames: seq<Frame>, idx: seq<int>): (r: seq<seq<Cell>>)
    requires forall k :: 0 <= k < |frames| ==> WellFormed(frames[k])
    ensures |r| == |AllColumns(frames)| && forall j :: 0 <= j < |r| ==> |r[j]| == |idx|
  {
    if frames == [] then [] else Realign(frames[0], idx) + AllData(frames[1..], idx)
  }

  predicate SameRows(frames: seq<Frame>) {
    forall k :: 0 <= k < |frames| ==> Rows(frames[k]) == Rows(frames[0])
  }

  /**
   * `pd.concat(frames, axis=1)`: an outer join on the index. Identical indexes are kept
   * as they are; otherwise the union of the timestamps, sorted, which pandas refuses to
   * build when some index repeats a timestamp.
   */
  function Concat(frames: seq<Frame>): (r: Result<Frame>)
    requires forall k :: 0 <= k < |frames| ==> WellFormed(frames[k])
    ensures r.Ok? ==> WellFormed(r.value) && r.value.Indexed? && r.value.columns == AllColumns(frames)
    ensures r.Ok? ==> forall t :: t in r.value.index <==> t in AllRows(frames)
    ensures r.Ok? <==> frames != [] && (SameRows(frames) || forall k :: 0 <= k < |frames| ==> Distinct(Rows(frames[k])))
  {
    if frames == [] then Err(ValueError("No objects to concatenate"))
    else if SameRows(frames) then
      AllRowsSame(frames);
      Ok(Indexed(Rows(frames[0]), AllColumns(frames), AllData(frames, Rows(frames[0]))))
    else if exists k :: 0 <= k < |frames| && !Distinct(Rows(frames[k])) then
      Err(InvalidIndexError("Reindexing only valid with uniquely valued Index objects"))
    else
      var idx := SortedDistinct(AllRows(frames), IntLess);
      SortedDistinctInts(AllRows(frames));
      Ok(Indexed(idx, AllColumns(frames), AllData(frames, idx)))
  }

  lemma {:induction false} AllRowsSame(frames: seq<Frame>)
    requires frames != [] && SameRows(frames)
    ensures forall t :: t in AllRows(frames) <==> t in Rows(frames[0])
  {
    if |frames| > 1 {
      assert SameRows(frames[1..]);
      AllRowsSame(frames[1..]);
    }
  }

  /** Concatenation invents no timestamp and loses none; a frame without a row at a timestamp gets a missing cell there. */
  lemma RealignSpec(f: Frame, idx: seq<int>, j: int, i: int)
    requires WellFormed(f) && f.Indexed? && Distinct(f.index)
    requires 0 <= j < |f.columns| && 0 <= i < |idx|
    ensures idx[i] !in f.index ==> Realign(f, idx)[j][i] == None
    ensures forall q :: 0 <= q < |f.index| && f.index[q] == idx[i] ==> Realign(f, idx)[j][i] == f.data[j][q]
  {
  }

  // ---- a frame filled column by column ----

  /**
   * A mutable frame: the builders preallocate one on the EFA index and assign whole
   * columns with `df.loc[:, name] = values`. Cells are kept per label.
   */
  class Table<V> {
    var index: seq<int>
    var columns: seq<string>
    var cells: map<string, seq<V>>

    ghost predicate Valid()
      reads this
    {
      && (forall c :: c in cells <==> c in columns)
      && (forall c :: c in cells ==> |cells[c]| == |index|)
    }

    /** `pd.DataFrame(index=index, columns=columns)`: every cell holds `blank`. */
    constructor (index: seq<int>, columns: seq<string>, blank: V)
      ensures Valid() && this.index == index && this.columns == columns
      ensures forall c :: c in columns ==> cells[c] == seq(|index|, _ => blank)
    {
      this.index := index;
      this.columns := columns;
      this.cells := map c | c in columns :: seq(|index|, _ => blank);
    }

    /** `df.loc[:, name] = values`: overwrites the column, or appends it if it is new. */
    method Assign(name: string, values: seq<V>)
      requires Valid() && |values| == |index|
      modifies this
      ensures Valid() && index == old(index)
      ensures columns == if name in old(columns) then old(columns) else old(columns) + [name]
      ensures cells == old(cells)[name := values]
    {
      if name !in columns {
        columns := columns + [name];
      }
      cells := cells[name := values];
    }

    /** `df.drop(name, axis=1, inplace=True)`: removes every column with that label. */
    method Drop(name: string)
      requires Valid() && name in columns
      modifies this
      ensures Valid() && index == old(index)
      ensures columns == Without(old(columns), name)
      ensures cells == old(cells) - {name}
    {
      columns := Without(columns, name);
      cells := cells - {name};
    }
  }
}
