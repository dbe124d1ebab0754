/** Type inference, the third stage of the cleaner. First every `Object`
    column is offered to the date parser and replaced by its parsed version
    when at least 80% of its non-missing cells parse (cells that do not
    parse become missing). Then every column that is still `Object` is
    offered to the number parser, all or nothing: it is replaced only when
    every non-missing cell parses, and is otherwise left exactly as it was.

    The parsers are parameters. A date parser sees the whole column as well
    as the cell, because pandas infers one date format per column; a number
    parser sees one cell. */
module Inference {
  import opened Wrappers
  import opened Masks
  import opened Tables

  type DateParser = (seq<Cell>, Cell) -> Option<int>
  type NumberParser = Cell -> Option<real>

  function NotMissingMask(cells: seq<Cell>): (m: seq<bool>)
    ensures |m| == |cells|
    ensures forall i :: 0 <= i < |cells| ==> (m[i] <==> !cells[i].Missing?)
  {
    seq(|cells|, i requires 0 <= i < |cells| => !cells[i].Missing?)
  }

  /** `notna().sum()` */
  function NonMissingCount(cells: seq<Cell>): nat {
    CountTrue(NotMissingMask(cells))
  }

  /** True where a non-missing cell parses as a date. */
  function ParsedMask(cells: seq<Cell>, parse: DateParser): (m: seq<bool>)
    ensures |m| == |cells|
    ensures forall i :: 0 <= i < |cells| ==>
      (m[i] <==> !cells[i].Missing? && parse(cells, cells[i]).Some?)
  {
    seq(|cells|, i requires 0 <= i < |cells| => !cells[i].Missing? && parse(cells, cells[i]).Some?)
  }

  /** The number of non-missing cells that parse as dates. */
  function ParsedCount(cells: seq<Cell>, parse: DateParser): nat {
    CountTrue(ParsedMask(cells, parse))
  }

  /** `pd.to_datetime(column, errors='coerce')`: a cell becomes a date when it
      is present and parses, and missing otherwise. */
  function ParseDates(cells: seq<Cell>, parse: DateParser): (r: seq<Cell>)
    ensures |r| == |cells|
    ensures forall i :: 0 <= i < |cells| ==>
      (r[i].Missing? <==> cells[i].Missing? || parse(cells, cells[i]).None?)
    ensures forall i :: 0 <= i < |cells| && !r[i].Missing? ==>
      r[i] == Date(parse(cells, cells[i]).value)
    ensures NonMissingCount(r) == ParsedCount(cells, parse)
  {
    var r := seq(|cells|, i requires 0 <= i < |cells| =>
      if cells[i].Missing? then Missing
      else match parse(cells, cells[i])
        case Some(d) => Date(d)
        case None => Missing);
    assert NotMissingMask(r) == ParsedMask(cells, parse);
    r
  }

  /** The conversion rule of line 53, with the ratio written without
      division: some cell is present and `parsed / present >= 0.8`. */
  predicate MostlyDates(cells: seq<Cell>, parse: DateParser) {
    NonMissingCount(cells) > 0 && 5 * ParsedCount(cells, parse) >= 4 * NonMissingCount(cells)
  }

  /** Parsing can only lose cells: no more cells parse than are present. */
  lemma ParsedAtMostPresent(cells: seq<Cell>, parse: DateParser)
    ensures ParsedCount(cells, parse) <= NonMissingCount(cells)
  {
    CountTrueMonotone(ParsedMask(cells, parse), NotMissingMask(cells));
  }

  /** One column through the date step (data_cleansing.py lines 49-54). An
      `Object` column that is mostly dates becomes a `Datetime` column that
      keeps at least 80% of its present cells, every one of them a date, and
      misses exactly where the input missed or failed to parse; any other
      column is returned as it is. */
  function ConvertDates(col: Column, parse: DateParser): (r: Column)
    ensures r.name == col.name && |r.cells| == |col.cells|
    ensures col.dtype == Object && MostlyDates(col.cells, parse) ==>
      && r.dtype == Datetime
      && 5 * NonMissingCount(r.cells) >= 4 * NonMissingCount(col.cells)
      && forall i :: 0 <= i < |col.cells| ==>
           (r.cells[i].Missing? <==> col.cells[i].Missing? || parse(col.cells, col.cells[i]).None?)
           && (!r.cells[i].Missing? ==> r.cells[i] == Date(parse(col.cells, col.cells[i]).value))
    ensures !(col.dtype == Object && MostlyDates(col.cells, parse)) ==> r == col
  {
    if col.dtype == Object && MostlyDates(col.cells, parse) then
      col.(dtype := Datetime, cells := ParseDates(col.cells, parse))
    else
      col
  }

  /** A column with no present cell is never converted to dates. */
  lemma EmptyColumnNotDates(col: Column, parse: DateParser)
    requires forall i :: 0 <= i < |col.cells| ==> col.cells[i].Missing?
    ensures ConvertDates(col, parse) == col
  {
    NoneTrue(NotMissingMask(col.cells));
  }

  /** The 80% boundary: four dates out of five present cells convert the
      column, three out of five do not. */
  lemma DateThresholdBoundary(col: Column, parse: DateParser)
    requires col.dtype == Object && NonMissingCount(col.cells) == 5
    ensures ParsedCount(col.cells, parse) == 4 ==> ConvertDates(col, parse).dtype == Datetime
    ensures ParsedCount(col.cells, parse) <= 3 ==> ConvertDates(col, parse) == col
  {
  }

  /** The cells `pd.to_numeric` turns into NaN without consulting a parser:
      missing cells and the empty string, which is what the cell stage makes
      of a cell that held only whitespace. */
  predicate NumericNa(c: Cell) {
    c.Missing? || c == Str("")
  }

  /** Every cell that is not NaN to `pd.to_numeric` parses as a number. */
  predicate AllNumbers(cells: seq<Cell>, parse: NumberParser) {
    forall i :: 0 <= i < |cells| && !NumericNa(cells[i]) ==> parse(cells[i]).Some?
  }

  /** `pd.to_numeric` on a column whose cells all convert: missing and empty
      cells become missing, every other cell the number it parses to. */
  function ParseNumbers(cells: seq<Cell>, parse: NumberParser): (r: seq<Cell>)
    requires AllNumbers(cells, parse)
    ensures |r| == |cells|
    ensures forall i :: 0 <= i < |cells| ==>
      if NumericNa(cells[i]) then r[i] == Missing else r[i] == Num(parse(cells[i]).value)
  {
    seq(|cells|, i requires 0 <= i < |cells| =>
      if NumericNa(cells[i]) then Missing else Num(parse(cells[i]).value))
  }

  /** One column through the numeric step (data_cleansing.py lines 57-58,
      `errors='ignore'`): only a column still of dtype `Object` is touched,
      and then all or nothing. Either every cell that is not NaN to pandas
      becomes the number it parses to and the column becomes `Numeric`, with
      missing cells where the input was missing or empty, or the column comes
      back exactly as it was. */
  function ConvertNumbers(col: Column, parse: NumberParser): (r: Column)
    ensures r.name == col.name && |r.cells| == |col.cells|
    ensures col.dtype != Object ==> r == col
    ensures r == col || (
      && col.dtype == Object && r.dtype == Numeric
      && forall i :: 0 <= i < |col.cells| ==>
           if NumericNa(col.cells[i]) then r.cells[i] == Missing
           else parse(col.cells[i]).Some? && r.cells[i] == Num(parse(col.cells[i]).value))
    ensures col.dtype == Object ==> (r.dtype == Numeric <==> AllNumbers(col.cells, parse))
  {
    if col.dtype == Object && AllNumbers(col.cells, parse) then
      col.(dtype := Numeric, cells := ParseNumbers(col.cells, parse))
    else
      col
  }

  /** A column with no present cell passes the numeric test vacuously and
      becomes `Numeric`: the numeric step has no "at least one value" rule. */
  lemma EmptyObjectColumnBecomesNumeric(col: Column, parse: NumberParser)
    requires col.dtype == Object
    requires forall i :: 0 <= i < |col.cells| ==> col.cells[i].Missing?
    ensures ConvertNumbers(col, parse) == col.(dtype := Numeric)
  {
    assert ParseNumbers(col.cells, parse) == col.cells;
  }

  /** An empty cell never blocks the numeric step, whatever the parser makes
      of it: in a column whose other cells are numbers it becomes missing. */
  lemma EmptyCellBecomesMissing(col: Column, parse: NumberParser, i: nat)
    requires col.dtype == Object && i < |col.cells| && col.cells[i] == Str("")
    requires forall k :: 0 <= k < |col.cells| && !NumericNa(col.cells[k]) ==> parse(col.cells[k]).Some?
    ensures var r := ConvertNumbers(col, parse);
      r.dtype == Numeric && r.cells[i] == Missing
  {
  }

  /** Column `c` is an `Object` column whose name another column shares.
      Both passes look a column up by name (`df[col]`, lines 50 and 58), and
      for a shared name pandas hands back a table of every column bearing
      it, which the parsers reject. */
  predicate AmbiguousObject(t: Table, c: nat)
    requires c < |t.columns|
  {
    && t.columns[c].dtype == Object
    && exists d :: 0 <= d < |t.columns| && d != c && t.columns[d].name == t.columns[c].name
  }

  predicate HasAmbiguousObject(t: Table) {
    exists c :: 0 <= c < |t.columns| && AmbiguousObject(t, c)
  }

  /** The `ValueError` `pd.to_datetime` raises when handed columns that
      share a name. */
  const DuplicateKeysError: string := "cannot assemble with duplicate keys"

  /** The `TypeError` `pd.to_numeric` raises when handed a table. */
  const NotOneDimensionalError: string := "arg must be a list, tuple, 1-d array, or Series"

  /** A column-wise rewrite that keeps every name and never turns a column
      into `Object` cannot create an ambiguous `Object` column. */
  lemma KeepsUnambiguous(t: Table, r: Table)
    requires |r.columns| == |t.columns| && !HasAmbiguousObject(t)
    requires forall c :: 0 <= c < |t.columns| ==>
      r.columns[c].name == t.columns[c].name && (r.columns[c].dtype == Object ==> t.columns[c].dtype == Object)
    ensures !HasAmbiguousObject(r)
  {
    forall c, d | 0 <= c < |r.columns| && 0 <= d < |r.columns| && d != c && r.columns[c].dtype == Object
      ensures r.columns[d].name != r.columns[c].name
    {
      assert !AmbiguousObject(t, c);
    }
  }

  /** The date pass over every column (lines 49-54). It fails exactly when
      an `Object` column shares its name with another column; otherwise
      each column goes through the date step on its own. */
  function InferDates(t: Table, parse: DateParser): (r: Result<Table>)
    requires WellFormed(t)
    ensures r.Err? <==> HasAmbiguousObject(t)
    ensures r.Err? ==> r.message == DuplicateKeysError
    ensures r.Ok? ==>
      && WellFormed(r.value) && r.value.height == t.height && |r.value.columns| == |t.columns|
      && forall c :: 0 <= c < |t.columns| ==> r.value.columns[c] == ConvertDates(t.columns[c], parse)
  {
    if HasAmbiguousObject(t) then Err(DuplicateKeysError)
    else Ok(Table(t.height, seq(|t.columns|, c requires 0 <= c < |t.columns| => ConvertDates(t.columns[c], parse))))
  }

  /** The numeric pass over every column (lines 57-58), failing on the same
      condition as the date pass. */
  function InferNumbers(t: Table, parse: NumberParser): (r: Result<Table>)
    requires WellFormed(t)
    ensures r.Err? <==> HasAmbiguousObject(t)
    ensures r.Err? ==> r.message == NotOneDimensionalError
    ensures r.Ok? ==>
      && WellFormed(r.value) && r.value.height == t.height && |r.value.columns| == |t.columns|
      && forall c :: 0 <= c < |t.columns| ==> r.value.columns[c] == ConvertNumbers(t.columns[c], parse)
  {
    if HasAmbiguousObject(t) then Err(NotOneDimensionalError)
    else Ok(Table(t.height, seq(|t.columns|, c requires 0 <= c < |t.columns| => ConvertNumbers(t.columns[c], parse))))
  }

  /** A date pass that succeeds leaves no ambiguous `Object` column, so the
      numeric pass after it succeeds too. */
  lemma InferDatesUnambiguous(t: Table, parse: DateParser)
    requires WellFormed(t) && InferDates(t, parse).Ok?
    ensures !HasAmbiguousObject(InferDates(t, parse).value)
  {
    KeepsUnambiguous(t, InferDates(t, parse).value);
  }

  /** Both passes, dates first. The stage fails, with the date parser's
      error, exactly when an `Object` column shares its name with another
      column. Otherwise names and shape stay, and no text is produced:
      every string cell of the result is the cell that stood there before. */
  function InferTypes(t: Table, parseDate: DateParser, parseNumber: NumberParser): (r: Result<Table>)
    requires WellFormed(t)
    ensures r.Err? <==> HasAmbiguousObject(t)
    ensures r.Err? ==> r.message == DuplicateKeysError
    ensures r.Ok? ==>
      && WellFormed(r.value) && r.value.height == t.height && |r.value.columns| == |t.columns|
      && (forall c :: 0 <= c < |t.columns| ==> r.value.columns[c].name == t.columns[c].name)
      && forall c, i :: 0 <= c < |t.columns| && 0 <= i < t.height && r.value.columns[c].cells[i].Str? ==>
           r.value.columns[c].cells[i] == t.columns[c].cells[i]
  {
    var dated := InferDates(t, parseDate);
    if dated.Err? then Err(dated.message)
    else
      InferDatesUnambiguous(t, parseDate);
      InferNumbers(dated.value, parseNumber)
  }

  /** Column names that are pairwise distinct never make inference fail. */
  lemma DistinctNamesInfer(t: Table, parseDate: DateParser, parseNumber: NumberParser)
    requires WellFormed(t)
    requires forall c, d :: 0 <= c < d < |t.columns| ==> t.columns[c].name != t.columns[d].name
    ensures InferTypes(t, parseDate, parseNumber).Ok?
  {
    forall c | 0 <= c < |t.columns| ensures !AmbiguousObject(t, c) {
      assert forall d :: 0 <= d < |t.columns| && d != c ==> t.columns[d].name != t.columns[c].name;
    }
  }

  /** What type inference does to one column when it succeeds: names never
      change, only `Object` columns change, a column converted to dates is
      not touched by the numeric pass, a column the date test rejects goes
      through the numeric step exactly as it came in, and no missing cell is
      ever filled in. */
  lemma InferTypesColumn(t: Table, parseDate: DateParser, parseNumber: NumberParser, c: nat)
    requires WellFormed(t) && c < |t.columns|
    ensures var res := InferTypes(t, parseDate, parseNumber);
            var col := t.columns[c];
      res.Ok? ==>
        var r := res.value.columns[c];
        && r.name == col.name
        && (col.dtype != Object ==> r == col)
        && (col.dtype == Object && MostlyDates(col.cells, parseDate) ==> r == ConvertDates(col, parseDate))
        && (col.dtype == Object && !MostlyDates(col.cells, parseDate) ==> r == ConvertNumbers(col, parseNumber))
        && forall i :: 0 <= i < |col.cells| && col.cells[i].Missing? ==> r.cells[i].Missing?
  {
    var res := InferTypes(t, parseDate, parseNumber);
    if res.Ok? {
      var col := t.columns[c];
      var dated := InferDates(t, parseDate).value;
      assert dated.columns[c] == ConvertDates(col, parseDate);
      InferDatesUnambiguous(t, parseDate);
      assert res.value.columns[c] == ConvertNumbers(dated.columns[c], parseNumber);
    }
  }

  /** Inference is idempotent: a converted column is no longer `Object`, so
      a second pass leaves it alone, and a column left as `Object` fails the
      same tests again. A failing pass stays failing, since the table is
      not changed. */
  lemma InferTypesIdempotent(t: Table, parseDate: DateParser, parseNumber: NumberParser)
    requires WellFormed(t)
    ensures var res := InferTypes(t, parseDate, parseNumber);
      res.Ok? ==> InferTypes(res.value, parseDate, parseNumber) == res
  {
    var res := InferTypes(t, parseDate, parseNumber);
    if res.Ok? {
      var r := res.value;
      InferDatesUnambiguous(t, parseDate);
      var dated := InferDates(t, parseDate).value;
      forall c | 0 <= c < |t.columns|
        ensures r.columns[c] == ConvertNumbers(ConvertDates(t.columns[c], parseDate), parseNumber)
      {
        assert dated.columns[c] == ConvertDates(t.columns[c], parseDate);
      }
      KeepsUnambiguous(t, r);
      InferDatesUnambiguous(r, parseDate);
      var rr := InferTypes(r, parseDate, parseNumber).value;
      var dated2 := InferDates(r, parseDate).value;
      forall c | 0 <= c < |t.columns| ensures rr.columns[c] == r.columns[c] {
        assert dated2.columns[c] == ConvertDates(r.columns[c], parseDate);
        assert rr.columns[c] == ConvertNumbers(dated2.columns[c], parseNumber);
      }
      assert rr == r;
    }
  }
}
