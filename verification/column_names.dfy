/** Column-name normalisation, the first stage of the cleaner: strip every
    name, drop later columns whose stripped name repeats an earlier one,
    then replace each maximal run of characters outside `[A-Za-z0-9_]` by
    one underscore. */
module ColumnNames {
  import opened Text
  import opened Masks
  import opened Tables

  /** The regex replacement `[^A-Za-z0-9_]+` -> `_` on one name. */
  function SanitizeName(s: string): (r: string)
    ensures forall i :: 0 <= i < |r| ==> IsWordChar(r[i])
    ensures |r| <= |s|
    ensures |r| == 0 <==> |s| == 0
  {
    SqueezeIsSqueezed(s, NotWordChar, '_');
    Squeeze(s, NotWordChar, '_')
  }

  /** A name made of word characters only is already sanitised. */
  lemma SanitizeKeepsWordNames(s: string)
    requires forall i :: 0 <= i < |s| ==> IsWordChar(s[i])
    ensures SanitizeName(s) == s
  {
    SqueezeFixpoint(s, NotWordChar, '_');
  }

  lemma SanitizeNameIdempotent(s: string)
    ensures SanitizeName(SanitizeName(s)) == SanitizeName(s)
  {
    SanitizeKeepsWordNames(SanitizeName(s));
  }

  /** Each maximal run of other characters becomes exactly one underscore:
      word characters before the run are kept, the run turns into `_`, and
      sanitising continues after it. */
  lemma SanitizeNameRun(u: string, v: string, t: string)
    requires forall k :: 0 <= k < |u| ==> IsWordChar(u[k])
    requires |v| > 0 && forall k :: 0 <= k < |v| ==> !IsWordChar(v[k])
    requires |t| > 0 ==> IsWordChar(t[0])
    ensures SanitizeName(u + (v + t)) == u + ("_" + SanitizeName(t))
  {
    SqueezeRun(u, v, t, NotWordChar, '_');
  }

  function StripName(col: Column): Column {
    col.(name := Strip(col.name))
  }

  /** The names after `df.columns.str.strip()`. */
  function StrippedNames(cols: seq<Column>): (names: seq<string>)
    ensures |names| == |cols|
    ensures forall i :: 0 <= i < |cols| ==> names[i] == Strip(cols[i].name)
  {
    seq(|cols|, i requires 0 <= i < |cols| => Strip(cols[i].name))
  }

  /** `df.loc[:, ~df.columns.duplicated()]` after stripping: the first column
      for each stripped name survives, in the original order, with its dtype
      and cells untouched. */
  function DropDuplicateColumns(cols: seq<Column>): (r: seq<Column>)
    ensures var names := StrippedNames(cols);
            var idx := FirstOccurrences(names);
      && |r| == |idx|
      && forall k :: 0 <= k < |r| ==>
           idx[k] < |cols| && IsFirst(names, idx[k]) && r[k] == StripName(cols[idx[k]])
    ensures |r| <= |cols|
  {
    Select(StrippedColumns(cols), FirstOccurrences(StrippedNames(cols)))
  }

  /** After dropping, the stripped names are pairwise distinct. */
  lemma DropDuplicateColumnsDistinct(cols: seq<Column>)
    ensures var r := DropDuplicateColumns(cols);
      forall k, l :: 0 <= k < l < |r| ==> r[k].name != r[l].name
  {
    var names := StrippedNames(cols);
    var idx := FirstOccurrences(names);
    var r := DropDuplicateColumns(cols);
    FirstOccurrencesDistinct(names);
    forall k, l | 0 <= k < l < |r| ensures r[k].name != r[l].name {
      assert r[k].name == names[idx[k]] && r[l].name == names[idx[l]];
    }
  }

  /** No stripped name is lost: every input column's stripped name is the
      name of some surviving column. */
  lemma DropDuplicateColumnsCover(cols: seq<Column>, i: nat)
    requires i < |cols|
    ensures var r := DropDuplicateColumns(cols);
      exists k :: 0 <= k < |r| && r[k].name == Strip(cols[i].name)
  {
    var names := StrippedNames(cols);
    var idx := FirstOccurrences(names);
    var r := DropDuplicateColumns(cols);
    FirstOccurrencesCover(names, i);
    var k :| 0 <= k < |idx| && idx[k] <= i && names[idx[k]] == names[i];
    assert r[k].name == names[idx[k]];
  }

  function StrippedColumns(cols: seq<Column>): (r: seq<Column>)
    ensures |r| == |cols|
    ensures forall i :: 0 <= i < |cols| ==> r[i] == StripName(cols[i])
  {
    seq(|cols|, i requires 0 <= i < |cols| => StripName(cols[i]))
  }

  /** The whole name stage (data_cleansing.py lines 28-32). Column `k` of the
      result is the first column with its stripped name, at an increasing
      position `idx[k]` of the input, with its dtype and cells unchanged and
      its name stripped and then sanitised. */
  function NormalizeColumnNames(t: Table): (r: Table)
    requires WellFormed(t)
    ensures WellFormed(r) && r.height == t.height && |r.columns| <= |t.columns|
    ensures forall c :: 0 <= c < |r.columns| ==>
      forall i :: 0 <= i < |r.columns[c].name| ==> IsWordChar(r.columns[c].name[i])
    ensures var idx := FirstOccurrences(StrippedNames(t.columns));
      && |r.columns| == |idx|
      && forall k :: 0 <= k < |idx| ==>
           && idx[k] < |t.columns|
           && IsFirst(StrippedNames(t.columns), idx[k])
           && r.columns[k].name == SanitizeName(Strip(t.columns[idx[k]].name))
           && r.columns[k].dtype == t.columns[idx[k]].dtype
           && r.columns[k].cells == t.columns[idx[k]].cells
  {
    var kept := DropDuplicateColumns(t.columns);
    Table(t.height, seq(|kept|, k requires 0 <= k < |kept| => kept[k].(name := SanitizeName(kept[k].name))))
  }

  /** A lone column always survives the name stage, with its cells. */
  lemma OneColumnSurvives(t: Table)
    requires WellFormed(t) && |t.columns| == 1
    ensures var r := NormalizeColumnNames(t);
      && |r.columns| == 1
      && r.columns[0].dtype == t.columns[0].dtype && r.columns[0].cells == t.columns[0].cells
  {
    var names := StrippedNames(t.columns);
    assert IsFirst(names, 0);
    var idx := FirstOccurrences(names);
    assert 0 in idx;
  }

  /** Two columns whose stripped names differ both survive the name stage,
      whatever their sanitised names are. */
  lemma TwoDistinctNamesSurvive(t: Table)
    requires WellFormed(t) && |t.columns| == 2
    requires Strip(t.columns[0].name) != Strip(t.columns[1].name)
    ensures var r := NormalizeColumnNames(t);
      && |r.columns| == 2
      && r.columns[0].name == SanitizeName(Strip(t.columns[0].name))
      && r.columns[1].name == SanitizeName(Strip(t.columns[1].name))
      && r.columns[0].dtype == t.columns[0].dtype && r.columns[0].cells == t.columns[0].cells
      && r.columns[1].dtype == t.columns[1].dtype && r.columns[1].cells == t.columns[1].cells
  {
    var names := StrippedNames(t.columns);
    assert IsFirst(names, 0) && IsFirst(names, 1);
    var idx := FirstOccurrences(names);
    assert 0 in idx && 1 in idx;
    assert |idx| == 2;
    assert idx[0] == 0 && idx[1] == 1;
  }

  lemma SanitizeSpaceAndDash()
    ensures SanitizeName("a b") == "a_b" && SanitizeName("a-b") == "a_b"
  {
    assert "a b" == "a" + " " + "b" && "a-b" == "a" + "-" + "b";
    SanitizeNameRun("a", " ", "b");
    SanitizeNameRun("a", "-", "b");
    SanitizeKeepsWordNames("b");
  }

  /** `a b` and `a-b` are different stripped names that sanitise alike. */
  lemma SpaceAndDashCollide()
    ensures Strip("a b") == "a b" && Strip("a-b") == "a-b" && "a b" != "a-b"
    ensures SanitizeName(Strip("a b")) == "a_b" && SanitizeName(Strip("a-b")) == "a_b"
  {
    StripUnpadded("a b");
    StripUnpadded("a-b");
    assert "a b"[1] != "a-b"[1];
    SanitizeSpaceAndDash();
  }

  /** The final names need not be distinct: the stripped names `a b` and
      `a-b` differ, so both columns survive deduplication, and both are
      then sanitised to `a_b`. */
  lemma SanitizedNamesMayCollide()
    ensures var r := NormalizeColumnNames(Table(0, [Column("a b", Object, []), Column("a-b", Object, [])]));
      |r.columns| == 2 && r.columns[0].name == r.columns[1].name == "a_b"
  {
    var t := Table(0, [Column("a b", Object, []), Column("a-b", Object, [])]);
    StripUnpadded("a b");
    StripUnpadded("a-b");
    TwoDistinctNamesSurvive(t);
    SanitizeSpaceAndDash();
  }
}
