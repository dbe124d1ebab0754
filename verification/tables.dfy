/** The in-memory table the pipeline works on: named, typed columns of
    cells, all of one height, with a row view for row-wise operations. */
module Tables {
  import opened Masks

  /** One cell: pandas' missing marker (`NaN`, `NaT`, `pd.NA`), a string, a
      number, or a timestamp (nanoseconds since the epoch). */
  datatype Cell = Missing | Str(text: string) | Num(value: real) | Date(instant: int)

  /** The storage type pandas reports for a column. Only `Object` columns,
      the ones holding arbitrary Python values, are candidates for type
      inference. */
  datatype Dtype = Object | Numeric | Datetime | Other

  datatype Column = Column(name: string, dtype: Dtype, cells: seq<Cell>)

  /** `height` is the number of rows; it is kept separately so that a table
      without columns still has a row count. */
  datatype Table = Table(height: nat, columns: seq<Column>)

  /** Every column holds exactly one cell per row. */
  predicate WellFormed(t: Table) {
    forall c :: 0 <= c < |t.columns| ==> |t.columns[c].cells| == t.height
  }

  predicate AllMissing(cells: seq<Cell>) {
    forall i :: 0 <= i < |cells| ==> cells[i].Missing?
  }

  predicate HasMissing(cells: seq<Cell>) {
    exists i :: 0 <= i < |cells| && cells[i].Missing?
  }

  /** Row `i`: the `i`-th cell of every column, in column order. */
  function Row(t: Table, i: nat): (row: seq<Cell>)
    requires WellFormed(t) && i < t.height
    ensures |row| == |t.columns|
    ensures forall c :: 0 <= c < |t.columns| ==> row[c] == t.columns[c].cells[i]
  {
    seq(|t.columns|, c requires 0 <= c < |t.columns| => t.columns[c].cells[i])
  }

  /** All rows, top to bottom. */
  function Rows(t: Table): (rows: seq<seq<Cell>>)
    requires WellFormed(t)
    ensures |rows| == t.height
    ensures forall i :: 0 <= i < t.height ==> rows[i] == Row(t, i)
  {
    seq(t.height, i requires 0 <= i < t.height => Row(t, i))
  }

  /** The rows at positions `idx`, in that order; names and dtypes are kept. */
  function SelectRows(t: Table, idx: seq<nat>): (r: Table)
    requires WellFormed(t)
    requires forall k :: 0 <= k < |idx| ==> idx[k] < t.height
    ensures WellFormed(r) && r.height == |idx| && |r.columns| == |t.columns|
    ensures forall c :: 0 <= c < |t.columns| ==>
      r.columns[c].name == t.columns[c].name && r.columns[c].dtype == t.columns[c].dtype
    ensures forall c, k :: 0 <= c < |t.columns| && 0 <= k < |idx| ==>
      r.columns[c].cells[k] == t.columns[c].cells[idx[k]]
    ensures forall k :: 0 <= k < |idx| ==> Row(r, k) == Row(t, idx[k])
  {
    var cols := seq(|t.columns|, c requires 0 <= c < |t.columns| =>
      var col := t.columns[c];
      col.(cells := Select(col.cells, idx)));
    var r := Table(|idx|, cols);
    assert forall k :: 0 <= k < |idx| ==> Row(r, k) == Row(t, idx[k]) by {
      forall k | 0 <= k < |idx| ensures Row(r, k) == Row(t, idx[k]) {
        assert forall c :: 0 <= c < |t.columns| ==> Row(r, k)[c] == Row(t, idx[k])[c];
      }
    }
    r
  }

  /** Selecting rows at increasing positions of pairwise distinct rows gives
      pairwise distinct rows. */
  lemma SelectRowsKeepsDistinct(t: Table, idx: seq<nat>)
    requires WellFormed(t)
    requires forall k :: 0 <= k < |idx| ==> idx[k] < t.height
    requires Increasing(idx)
    requires forall i, j :: 0 <= i < j < t.height ==> Row(t, i) != Row(t, j)
    ensures var r := SelectRows(t, idx);
      forall k, l :: 0 <= k < l < r.height ==> Row(r, k) != Row(r, l)
  {
  }
}
