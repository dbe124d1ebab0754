/** `clean_dataframe` (data_cleansing.py lines 5-68): the four stages in
    their fixed order, names, cells, types, pruning. */
module Pipeline {
  import opened Wrappers
  import opened Text
  import opened Masks
  import opened Tables
  import opened ColumnNames
  import opened Cells
  import opened Inference
  import opened Pruning

  /** Every column name is made of `[A-Za-z0-9_]` only. */
  predicate WordNames(t: Table) {
    forall c :: 0 <= c < |t.columns| ==>
      forall k :: 0 <= k < |t.columns[c].name| ==> IsWordChar(t.columns[c].name[k])
  }

  /** Every string cell is tidy and is not a sentinel. */
  predicate TidyText(t: Table)
    requires WellFormed(t)
  {
    forall c, i :: 0 <= c < |t.columns| && 0 <= i < t.height && t.columns[c].cells[i].Str? ==>
      Tidy(t.columns[c].cells[i].text) && !IsSentinel(t.columns[c].cells[i].text)
  }

  /** Selecting rows keeps the names and the string cells it selects. */
  lemma SelectRowsKeepsNamesAndText(t: Table, idx: seq<nat>)
    requires WellFormed(t)
    requires forall k :: 0 <= k < |idx| ==> idx[k] < t.height
    ensures WordNames(t) ==> WordNames(SelectRows(t, idx))
    ensures TidyText(t) ==> TidyText(SelectRows(t, idx))
  {
  }

  /** Dropping columns keeps the names and cells of the columns it keeps. */
  lemma DropEmptyColumnsKeepsNamesAndText(t: Table)
    requires WellFormed(t)
    ensures WordNames(t) ==> WordNames(DropEmptyColumns(t))
    ensures TidyText(t) ==> TidyText(DropEmptyColumns(t))
  {
    var r := DropEmptyColumns(t);
    var idx := Where(HasValueMask(t));
    assert forall c :: 0 <= c < |r.columns| ==> r.columns[c] == t.columns[idx[c]];
  }

  /** Pruning only removes columns and rows: names and string cells it
      keeps were there before. */
  lemma PruneKeepsNamesAndText(t: Table)
    requires WellFormed(t)
    ensures WordNames(t) ==> WordNames(Prune(t))
    ensures TidyText(t) ==> TidyText(Prune(t))
  {
    var a := DropEmptyColumns(t);
    DropEmptyColumnsKeepsNamesAndText(t);
    var b := DropDuplicateRows(a);
    SelectRowsKeepsNamesAndText(a, FirstOccurrences(Rows(a)));
    SelectRowsKeepsNamesAndText(b, Where(CompleteMask(b)));
  }

  /** After the name and cell stages every name is made of word
      characters and all text is tidy; the cell stage keeps names and
      dtypes, so it changes nothing about which `Object` columns share a
      name. */
  lemma CleanedNamesAndText(t: Table)
    requires WellFormed(t)
    ensures var named := NormalizeColumnNames(t);
            var cleaned := CleanCells(named);
      && WordNames(cleaned) && TidyText(cleaned)
      && (HasAmbiguousObject(cleaned) <==> HasAmbiguousObject(named))
  {
    var named := NormalizeColumnNames(t);
    var cleaned := CleanCells(named);
    CleanCellsIdempotent(named);
    if !HasAmbiguousObject(named) { KeepsUnambiguous(named, cleaned); }
    if !HasAmbiguousObject(cleaned) { KeepsUnambiguous(cleaned, named); }
  }

  /** Type inference keeps names and never produces text. */
  lemma TypesKeepNamesAndText(t: Table, parseDate: DateParser, parseNumber: NumberParser)
    requires WellFormed(t) && InferTypes(t, parseDate, parseNumber).Ok?
    ensures WordNames(t) ==> WordNames(InferTypes(t, parseDate, parseNumber).value)
    ensures TidyText(t) ==> TidyText(InferTypes(t, parseDate, parseNumber).value)
  {
  }

  /** The whole cleaner. The parsers stand for `pd.to_datetime` and
      `pd.to_numeric`. It fails exactly when, after the name stage, an
      `Object` column shares its name with another column: the type stage
      then looks that name up and gets several columns back. Otherwise the
      result is well formed and no larger than the input; every column name
      is made of `[A-Za-z0-9_]`; no cell is missing; while a column remains,
      no two rows are equal; and every string cell is tidy and not a
      sentinel. */
  function CleanDataFrame(t: Table, parseDate: DateParser, parseNumber: NumberParser): (r: Result<Table>)
    requires WellFormed(t)
    ensures r.Err? <==> HasAmbiguousObject(NormalizeColumnNames(t))
    ensures r.Err? ==> r.message == DuplicateKeysError
    ensures r.Ok? ==>
      && WellFormed(r.value)
      && r.value.height <= t.height && |r.value.columns| <= |t.columns|
      && WordNames(r.value)
      && (forall c, i :: 0 <= c < |r.value.columns| && 0 <= i < r.value.height ==> !r.value.columns[c].cells[i].Missing?)
      && (|r.value.columns| > 0 ==> forall k, l :: 0 <= k < l < r.value.height ==> Row(r.value, k) != Row(r.value, l))
      && TidyText(r.value)
  {
    var cleaned := CleanCells(NormalizeColumnNames(t));
    CleanedNamesAndText(t);
    var typed := InferTypes(cleaned, parseDate, parseNumber);
    if typed.Err? then Err(typed.message)
    else
      TypesKeepNamesAndText(cleaned, parseDate, parseNumber);
      PruneKeepsNamesAndText(typed.value);
      Ok(Prune(typed.value))
  }

  /** Two columns whose stripped names differ but sanitise alike both
      survive the name stage under one name. When the first is an `Object`
      column, the type stage's lookup of that name fails, and so does the
      cleaner. */
  lemma ObjectNameCollisionFails(t: Table, parseDate: DateParser, parseNumber: NumberParser)
    requires WellFormed(t) && |t.columns| == 2 && t.columns[0].dtype == Object
    requires Strip(t.columns[0].name) != Strip(t.columns[1].name)
    requires SanitizeName(Strip(t.columns[0].name)) == SanitizeName(Strip(t.columns[1].name))
    ensures CleanDataFrame(t, parseDate, parseNumber) == Err(DuplicateKeysError)
  {
    CollidingNamesAmbiguous(t);
  }

  lemma CollidingNamesAmbiguous(t: Table)
    requires WellFormed(t) && |t.columns| == 2 && t.columns[0].dtype == Object
    requires Strip(t.columns[0].name) != Strip(t.columns[1].name)
    requires SanitizeName(Strip(t.columns[0].name)) == SanitizeName(Strip(t.columns[1].name))
    ensures HasAmbiguousObject(NormalizeColumnNames(t))
  {
    TwoDistinctNamesSurvive(t);
    assert AmbiguousObject(NormalizeColumnNames(t), 0);
  }

  /** Any table of a text column `a b` and a column `a-b` names both
      `a_b`, so the cleaner fails whatever the cells hold. */
  lemma CollidingTextColumnsFail(t: Table, parseDate: DateParser, parseNumber: NumberParser)
    requires WellFormed(t) && |t.columns| == 2 && t.columns[0].dtype == Object
    requires t.columns[0].name == "a b" && t.columns[1].name == "a-b"
    ensures CleanDataFrame(t, parseDate, parseNumber) == Err(DuplicateKeysError)
  {
    SpaceAndDashCollide();
    ObjectNameCollisionFails(t, parseDate, parseNumber);
  }

  /** A lone column whose every cell cleans to missing (a sentinel, or
      already missing) is dropped, and every row stays: the table left has
      no columns, pandas treats it as empty, and `drop_duplicates` returns
      it whole. So the cleaner's result can hold equal rows: the rows of an
      n-by-0 table are all the same empty row. */
  lemma MissingColumnKeepsEveryRow(t: Table, parseDate: DateParser, parseNumber: NumberParser)
    requires WellFormed(t) && |t.columns| == 1
    requires forall i :: 0 <= i < t.height ==> CleanCell(t.columns[0].cells[i]).Missing?
    ensures var r := CleanDataFrame(t, parseDate, parseNumber);
      && r == Ok(Table(t.height, []))
      && (t.height >= 2 ==> Row(r.value, 0) == Row(r.value, 1))
  {
    MissingColumnTyped(t, parseDate, parseNumber);
    var typed := InferTypes(CleanCells(NormalizeColumnNames(t)), parseDate, parseNumber);
    PruneAllMissing(typed.value);
  }

  lemma MissingColumnTyped(t: Table, parseDate: DateParser, parseNumber: NumberParser)
    requires WellFormed(t) && |t.columns| == 1
    requires forall i :: 0 <= i < t.height ==> CleanCell(t.columns[0].cells[i]).Missing?
    ensures var typed := InferTypes(CleanCells(NormalizeColumnNames(t)), parseDate, parseNumber);
      && typed.Ok? && typed.value.height == t.height && |typed.value.columns| == 1
      && AllMissing(typed.value.columns[0].cells)
  {
    var n := NormalizeColumnNames(t);
    OneColumnSurvives(t);
    var cleaned := CleanCells(n);
    assert AllMissing(cleaned.columns[0].cells) by {
      forall i | 0 <= i < cleaned.height ensures cleaned.columns[0].cells[i].Missing? {
        assert cleaned.columns[0].cells[i] == CleanCell(t.columns[0].cells[i]);
      }
    }
    assert !AmbiguousObject(cleaned, 0);
    InferTypesColumn(cleaned, parseDate, parseNumber, 0);
  }

  /** The shape of a table the cleaner has nothing left to do to: it has a
      row, no `Object` column, no missing cell, no two equal rows, and only
      tidy, non-sentinel text. */
  predicate Settled(u: Table) {
    && WellFormed(u) && u.height > 0 && TidyText(u)
    && (forall c :: 0 <= c < |u.columns| ==> u.columns[c].dtype != Object)
    && (forall c, i :: 0 <= c < |u.columns| && 0 <= i < u.height ==> !u.columns[c].cells[i].Missing?)
    && (forall k, l :: 0 <= k < l < u.height ==> Row(u, k) != Row(u, l))
  }

  lemma SettledCellsKept(u: Table)
    requires Settled(u)
    ensures CleanCells(u) == u
  {
    var cleaned := CleanCells(u);
    forall c | 0 <= c < |u.columns| ensures cleaned.columns[c] == u.columns[c] {
      forall i | 0 <= i < u.height ensures cleaned.columns[c].cells[i] == u.columns[c].cells[i] {
        var cell := u.columns[c].cells[i];
        if cell.Str? {
          TidyKept(cell.text);
        }
      }
    }
  }

  lemma SettledTypesKept(u: Table, parseDate: DateParser, parseNumber: NumberParser)
    requires Settled(u)
    ensures InferTypes(u, parseDate, parseNumber) == Ok(u)
  {
    assert !HasAmbiguousObject(u);
    var typed := InferTypes(u, parseDate, parseNumber).value;
    forall c | 0 <= c < |u.columns| ensures typed.columns[c] == u.columns[c] {
      InferTypesColumn(u, parseDate, parseNumber, c);
    }
    assert typed == u;
  }

  lemma SettledPruneKept(u: Table)
    requires Settled(u)
    ensures Prune(u) == u
  {
    DropEmptyColumnsNoop(u);
    DropDuplicateRowsNoop(u);
    DropIncompleteRowsNoop(u);
  }

  /** A settled table passes the cell, type and pruning stages unchanged. */
  lemma SettledTableKept(u: Table, parseDate: DateParser, parseNumber: NumberParser)
    requires Settled(u)
    ensures CleanCells(u) == u
    ensures InferTypes(u, parseDate, parseNumber) == Ok(u)
    ensures Prune(u) == u
  {
    SettledCellsKept(u);
    SettledTypesKept(u, parseDate, parseNumber);
    SettledPruneKept(u);
  }

  /** When the name stage already yields a settled table, that table is
      the cleaner's result. */
  lemma SettledAfterNames(t: Table, parseDate: DateParser, parseNumber: NumberParser)
    requires WellFormed(t) && Settled(NormalizeColumnNames(t))
    ensures CleanDataFrame(t, parseDate, parseNumber) == Ok(NormalizeColumnNames(t))
  {
    SettledTableKept(NormalizeColumnNames(t), parseDate, parseNumber);
  }

  /** One row of numbers is settled. */
  lemma OneNumericRowSettled(u: Table)
    requires WellFormed(u) && u.height == 1
    requires forall c :: 0 <= c < |u.columns| ==> u.columns[c].dtype == Numeric && u.columns[c].cells[0].Num?
    ensures Settled(u)
  {
  }

  /** Columns that are not `Object` are never looked up by name, so two
      one-row numeric columns whose names sanitise alike both come out of
      the cleaner, under one name. */
  lemma NumericNameCollisionKept(t: Table, parseDate: DateParser, parseNumber: NumberParser)
    requires WellFormed(t) && t.height == 1 && |t.columns| == 2
    requires forall c :: 0 <= c < 2 ==> t.columns[c].dtype == Numeric && t.columns[c].cells[0].Num?
    requires Strip(t.columns[0].name) != Strip(t.columns[1].name)
    requires SanitizeName(Strip(t.columns[0].name)) == SanitizeName(Strip(t.columns[1].name))
    ensures var r := CleanDataFrame(t, parseDate, parseNumber);
      && r.Ok? && |r.value.columns| == 2
      && r.value.columns[0].name == r.value.columns[1].name == SanitizeName(Strip(t.columns[0].name))
  {
    CollidingNumericNamesSettled(t);
    SettledAfterNames(t, parseDate, parseNumber);
  }

  lemma CollidingNumericNamesSettled(t: Table)
    requires WellFormed(t) && t.height == 1 && |t.columns| == 2
    requires forall c :: 0 <= c < 2 ==> t.columns[c].dtype == Numeric && t.columns[c].cells[0].Num?
    requires Strip(t.columns[0].name) != Strip(t.columns[1].name)
    ensures var r := NormalizeColumnNames(t);
      && Settled(r) && |r.columns| == 2
      && r.columns[0].name == SanitizeName(Strip(t.columns[0].name))
      && r.columns[1].name == SanitizeName(Strip(t.columns[1].name))
  {
    TwoDistinctNamesSurvive(t);
    OneNumericRowSettled(NormalizeColumnNames(t));
  }

  /** One row of numbers under the names `a b` and `a-b` comes out of the
      cleaner with both columns named `a_b`. */
  lemma CollidingNumericColumnsKept(t: Table, parseDate: DateParser, parseNumber: NumberParser)
    requires WellFormed(t) && t.height == 1 && |t.columns| == 2
    requires forall c :: 0 <= c < 2 ==> t.columns[c].dtype == Numeric && t.columns[c].cells[0].Num?
    requires t.columns[0].name == "a b" && t.columns[1].name == "a-b"
    ensures var r := CleanDataFrame(t, parseDate, parseNumber);
      r.Ok? && |r.value.columns| == 2 && r.value.columns[0].name == r.value.columns[1].name == "a_b"
  {
    SpaceAndDashCollide();
    NumericNameCollisionKept(t, parseDate, parseNumber);
  }
}
