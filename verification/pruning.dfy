/** Pruning, the last stage of the cleaner, in the order `clean_dataframe`
    applies it: drop every column whose cells are all missing, then every row that
    repeats an earlier row, then every row with a missing cell. */
module Pruning {
  import opened Masks
  import opened Tables

  /** True for the columns that hold at least one present cell. */
  function HasValueMask(t: Table): (m: seq<bool>)
    ensures |m| == |t.columns|
    ensures forall c :: 0 <= c < |t.columns| ==> (m[c] <==> !AllMissing(t.columns[c].cells))
  {
    seq(|t.columns|, c requires 0 <= c < |t.columns| => !AllMissing(t.columns[c].cells))
  }

  /** `dropna(axis=1, how='all')` (data_cleansing.py line 62): the columns
      with a present cell survive unchanged and in order; a column is dropped
      only when all its cells are missing, which a table without rows makes
      true of every column. */
  function DropEmptyColumns(t: Table): (r: Table)
    requires WellFormed(t)
    ensures WellFormed(r) && r.height == t.height && |r.columns| <= |t.columns|
    ensures forall k :: 0 <= k < |r.columns| ==> !AllMissing(r.columns[k].cells)
    ensures forall k :: 0 <= k < |r.columns| ==> r.columns[k] in t.columns
    ensures forall c :: 0 <= c < |t.columns| && !AllMissing(t.columns[c].cells) ==> t.columns[c] in r.columns
    ensures var idx := Where(HasValueMask(t));
      |r.columns| == |idx| && forall k :: 0 <= k < |idx| ==> r.columns[k] == t.columns[idx[k]]
  {
    var idx := Where(HasValueMask(t));
    var r := Table(t.height, Select(t.columns, idx));
    forall c | 0 <= c < |t.columns| && !AllMissing(t.columns[c].cells) ensures t.columns[c] in r.columns {
      var k :| 0 <= k < |idx| && idx[k] == c;
      assert r.columns[k] == t.columns[c];
    }
    r
  }

  /** A row keeps, after the empty columns are dropped, exactly its cells in
      the surviving columns; so a row whose only missing cells lie in
      all-missing columns is complete afterwards. */
  lemma DropEmptyColumnsRow(t: Table, i: nat)
    requires WellFormed(t) && i < t.height
    requires forall c :: 0 <= c < |t.columns| && t.columns[c].cells[i].Missing? ==> AllMissing(t.columns[c].cells)
    ensures !HasMissing(Row(DropEmptyColumns(t), i))
  {
    var r := DropEmptyColumns(t);
    var idx := Where(HasValueMask(t));
    forall k | 0 <= k < |r.columns| ensures !Row(r, i)[k].Missing? {
      assert r.columns[k] == t.columns[idx[k]];
    }
  }

  /** `drop_duplicates()` (line 64). A table without columns counts as
      empty in pandas and comes back whole, however many rows it has.
      Otherwise the first occurrence of every distinct row survives, in the
      original order, and the surviving rows are pairwise distinct. */
  function DropDuplicateRows(t: Table): (r: Table)
    requires WellFormed(t)
    ensures WellFormed(r) && r.height <= t.height && |r.columns| == |t.columns|
    ensures forall c :: 0 <= c < |t.columns| ==>
      r.columns[c].name == t.columns[c].name && r.columns[c].dtype == t.columns[c].dtype
    ensures |t.columns| == 0 ==> r == t
    ensures |t.columns| > 0 ==>
      var idx := FirstOccurrences(Rows(t));
      && r.height == |idx|
      && forall k :: 0 <= k < |idx| ==>
           idx[k] < t.height && IsFirst(Rows(t), idx[k]) && Row(r, k) == Row(t, idx[k])
    ensures |t.columns| > 0 ==> forall k, l :: 0 <= k < l < r.height ==> Row(r, k) != Row(r, l)
  {
    if |t.columns| == 0 then t
    else
      var idx := FirstOccurrences(Rows(t));
      FirstOccurrencesDistinct(Rows(t));
      SelectRows(t, idx)
  }

  /** No row value is lost by deduplication: every input row equals a
      surviving row. */
  lemma DropDuplicateRowsCover(t: Table, i: nat)
    requires WellFormed(t) && i < t.height
    ensures var r := DropDuplicateRows(t);
      exists k :: 0 <= k < r.height && Row(r, k) == Row(t, i)
  {
    if |t.columns| > 0 {
      FirstOccurrencesCover(Rows(t), i);
      var idx := FirstOccurrences(Rows(t));
      var k :| 0 <= k < |idx| && idx[k] <= i && Rows(t)[idx[k]] == Rows(t)[i];
      assert Row(DropDuplicateRows(t), k) == Row(t, idx[k]);
    } else {
      assert Row(DropDuplicateRows(t), i) == Row(t, i);
    }
  }

  /** True for the rows without a missing cell. */
  function CompleteMask(t: Table): (m: seq<bool>)
    requires WellFormed(t)
    ensures |m| == t.height
    ensures forall i :: 0 <= i < t.height ==> (m[i] <==> !HasMissing(Row(t, i)))
  {
    seq(t.height, i requires 0 <= i < t.height => !HasMissing(Row(t, i)))
  }

  /** `dropna()` (line 66): exactly the rows without a missing cell survive,
      in order. */
  function DropIncompleteRows(t: Table): (r: Table)
    requires WellFormed(t)
    ensures WellFormed(r) && r.height <= t.height && |r.columns| == |t.columns|
    ensures forall c :: 0 <= c < |t.columns| ==>
      r.columns[c].name == t.columns[c].name && r.columns[c].dtype == t.columns[c].dtype
    ensures var idx := Where(CompleteMask(t));
      && r.height == |idx| && Increasing(idx)
      && forall k :: 0 <= k < |idx| ==> idx[k] < t.height && Row(r, k) == Row(t, idx[k])
    ensures forall k :: 0 <= k < r.height ==> !HasMissing(Row(r, k))
    ensures forall i :: 0 <= i < t.height && !HasMissing(Row(t, i)) ==>
      exists k :: 0 <= k < r.height && Row(r, k) == Row(t, i)
  {
    var idx := Where(CompleteMask(t));
    var r := SelectRows(t, idx);
    forall i | 0 <= i < t.height && !HasMissing(Row(t, i))
      ensures exists k :: 0 <= k < r.height && Row(r, k) == Row(t, i)
    {
      var k :| 0 <= k < |idx| && idx[k] == i;
      assert Row(r, k) == Row(t, i);
    }
    r
  }

  /** The three pruning steps in the order `clean_dataframe` runs them
      (data_cleansing.py lines 62-66). No cell of the result is missing, and
      while a column remains no two rows are equal. */
  function Prune(t: Table): (r: Table)
    requires WellFormed(t)
    ensures WellFormed(r) && r.height <= t.height && |r.columns| <= |t.columns|
    ensures forall c, i :: 0 <= c < |r.columns| && 0 <= i < r.height ==> !r.columns[c].cells[i].Missing?
    ensures |r.columns| > 0 ==> forall k, l :: 0 <= k < l < r.height ==> Row(r, k) != Row(r, l)
  {
    var a := DropEmptyColumns(t);
    var b := DropDuplicateRows(a);
    var r := DropIncompleteRows(b);
    forall c, i | 0 <= c < |r.columns| && 0 <= i < r.height ensures !r.columns[c].cells[i].Missing? {
      assert Row(r, i)[c] == r.columns[c].cells[i];
    }
    if |b.columns| == 0 then r
    else
      SelectRowsKeepsDistinct(b, Where(CompleteMask(b)));
      r
  }

  /** An all-missing column never empties the table by itself: columns are
      dropped before rows, so a row whose only missing cells lie in
      all-missing columns keeps an equal row in the result. */
  lemma EmptyColumnKeepsRows(t: Table, i: nat)
    requires WellFormed(t) && i < t.height
    requires forall c :: 0 <= c < |t.columns| && t.columns[c].cells[i].Missing? ==> AllMissing(t.columns[c].cells)
    ensures Prune(t).height > 0
  {
    var a := DropEmptyColumns(t);
    DropEmptyColumnsRow(t, i);
    var b := DropDuplicateRows(a);
    DropDuplicateRowsCover(a, i);
    var k :| 0 <= k < b.height && Row(b, k) == Row(a, i);
    var r := DropIncompleteRows(b);
    assert exists l :: 0 <= l < r.height && Row(r, l) == Row(b, k);
  }

  /** The positions `0 .. n-1` in order. */
  function Range(n: nat): (idx: seq<nat>)
    ensures |idx| == n && forall k :: 0 <= k < n ==> idx[k] == k
  {
    seq(n, k requires 0 <= k < n => k)
  }

  lemma {:induction false} WhereAllTrue(mask: seq<bool>)
    requires forall i :: 0 <= i < |mask| ==> mask[i]
    ensures Where(mask) == Range(|mask|)
    decreases |mask|
  {
    if |mask| > 0 {
      WhereAllTrue(mask[..|mask| - 1]);
    }
  }

  lemma SelectRowsAll(t: Table)
    requires WellFormed(t)
    ensures SelectRows(t, Range(t.height)) == t
  {
    var r := SelectRows(t, Range(t.height));
    forall c | 0 <= c < |t.columns| ensures r.columns[c] == t.columns[c] {
      forall i | 0 <= i < t.height ensures r.columns[c].cells[i] == t.columns[c].cells[i] {
        assert Row(r, i)[c] == Row(t, i)[c];
      }
    }
  }

  /** With at least one row and no missing cell, no column is dropped. */
  lemma DropEmptyColumnsNoop(t: Table)
    requires WellFormed(t) && t.height > 0
    requires forall c :: 0 <= c < |t.columns| ==> !t.columns[c].cells[0].Missing?
    ensures DropEmptyColumns(t) == t
  {
    WhereAllTrue(HasValueMask(t));
    assert DropEmptyColumns(t).columns == t.columns;
  }

  /** Without rows every column counts as all missing and is dropped. */
  lemma DropEmptyColumnsNoRows(t: Table)
    requires WellFormed(t) && t.height == 0
    ensures DropEmptyColumns(t) == Table(0, [])
  {
    var mask := HasValueMask(t);
    assert forall c :: 0 <= c < |t.columns| ==> !mask[c];
    NoneTrue(mask);
  }

  /** Rows that are already pairwise distinct are all kept, and so are the
      rows of a table without columns. */
  lemma DropDuplicateRowsNoop(t: Table)
    requires WellFormed(t)
    requires |t.columns| > 0 ==> forall k, l :: 0 <= k < l < t.height ==> Row(t, k) != Row(t, l)
    ensures DropDuplicateRows(t) == t
  {
    if |t.columns| == 0 {
      return;
    }
    var keys := Rows(t);
    forall i | 0 <= i < |keys| ensures !Duplicated(keys)[i] {
      assert IsFirst(keys, i);
    }
    WhereAllTrue(Not(Duplicated(keys)));
    SelectRowsAll(t);
  }

  /** Rows that are already complete are all kept. */
  lemma DropIncompleteRowsNoop(t: Table)
    requires WellFormed(t)
    requires forall c, i :: 0 <= c < |t.columns| && 0 <= i < t.height ==> !t.columns[c].cells[i].Missing?
    ensures DropIncompleteRows(t) == t
  {
    forall i | 0 <= i < t.height ensures CompleteMask(t)[i] {
      assert forall c :: 0 <= c < |t.columns| ==> !Row(t, i)[c].Missing?;
    }
    WhereAllTrue(CompleteMask(t));
    SelectRowsAll(t);
  }

  /** A table that already has a row, no missing cell and, while a column
      remains, no equal rows passes through pruning unchanged. */
  lemma PruneNoop(r: Table)
    requires WellFormed(r) && r.height > 0
    requires forall c, i :: 0 <= c < |r.columns| && 0 <= i < r.height ==> !r.columns[c].cells[i].Missing?
    requires |r.columns| > 0 ==> forall k, l :: 0 <= k < l < r.height ==> Row(r, k) != Row(r, l)
    ensures Prune(r) == r
  {
    DropEmptyColumnsNoop(r);
    DropDuplicateRowsNoop(r);
    DropIncompleteRowsNoop(r);
  }

  /** Without rows, pruning drops every column. */
  lemma PruneNoRows(r: Table)
    requires WellFormed(r) && r.height == 0
    ensures Prune(r) == Table(0, [])
  {
    DropEmptyColumnsNoRows(r);
    DropDuplicateRowsNoop(Table(0, []));
    DropIncompleteRowsNoop(Table(0, []));
  }

  /** Pruning is idempotent as long as a row survives. When none does, the
      second pass also drops every column, since a column without rows
      counts as all missing. */
  lemma PruneIdempotent(t: Table)
    requires WellFormed(t)
    ensures var r := Prune(t);
      && (r.height > 0 ==> Prune(r) == r)
      && (r.height == 0 ==> Prune(r) == Table(0, []))
  {
    var r := Prune(t);
    if r.height > 0 {
      PruneNoop(r);
    } else {
      PruneNoRows(r);
    }
  }

  /** When every column is all missing, pruning drops every column and
      keeps every row: a table without columns counts as empty, so
      `drop_duplicates` leaves it whole. With two rows or more, the result
      therefore has equal rows. */
  lemma PruneAllMissing(t: Table)
    requires WellFormed(t)
    requires forall c :: 0 <= c < |t.columns| ==> AllMissing(t.columns[c].cells)
    ensures Prune(t) == Table(t.height, [])
    ensures t.height >= 2 ==> Row(Prune(t), 0) == Row(Prune(t), 1)
  {
    var mask := HasValueMask(t);
    assert forall c :: 0 <= c < |t.columns| ==> !mask[c];
    NoneTrue(mask);
    var a := DropEmptyColumns(t);
    assert a == Table(t.height, []);
    DropDuplicateRowsNoop(a);
    DropIncompleteRowsNoop(a);
  }
}
