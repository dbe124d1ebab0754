/** Cell normalisation, the second stage of the cleaner (`clean_cell` mapped
    over every cell): string cells are stripped, their whitespace runs are
    collapsed to one space, and the sentinels `null`, `unknown` and `error`
    (in any letter case) become missing. Other cells pass through. */
module Cells {
  import opened Text
  import opened Tables

  /** The shape of a normalised string: no whitespace at either end, and no
      whitespace inside except single spaces. */
  predicate Tidy(s: string) {
    && Squeezed(s, IsSpace, ' ')
    && (|s| > 0 ==> !IsSpace(s[0]) && !IsSpace(s[|s| - 1]))
  }

  /** `cell.strip()` followed by `re.sub(r'\s+', ' ', cell)`. The result is
      tidy, keeps every non-whitespace character in order, and is empty
      exactly when the input is all whitespace. */
  function NormalizeText(s: string): (r: string)
    ensures Tidy(r)
    ensures Without(r, IsSpace) == Without(s, IsSpace)
    ensures |r| == 0 <==> forall k :: 0 <= k < |s| ==> IsSpace(s[k])
    ensures |r| <= |s|
  {
    var t := Strip(s);
    TidySqueeze(t);
    StripKeepsOthers(s);
    SqueezeKeepsOthers(t, IsSpace, ' ');
    StripEmpty(s);
    Squeeze(t, IsSpace, ' ')
  }

  /** Squeezing a string without whitespace at either end makes it tidy. */
  lemma TidySqueeze(t: string)
    requires |t| > 0 ==> !IsSpace(t[0]) && !IsSpace(t[|t| - 1])
    ensures Tidy(Squeeze(t, IsSpace, ' '))
  {
    SqueezeIsSqueezed(t, IsSpace, ' ');
    if |t| > 0 {
      SqueezeKeepsLast(t, IsSpace, ' ');
    }
  }

  /** A tidy string is its own normal form, so normalising is idempotent. */
  lemma NormalizeTextFixpoint(s: string)
    requires Tidy(s)
    ensures NormalizeText(s) == s
  {
    StripUnpadded(s);
    SqueezeFixpoint(s, IsSpace, ' ');
  }

  /** The strings `clean_cell` turns into missing values, compared after
      lower-casing. */
  const Sentinels: set<string> := {"null", "unknown", "error"}

  predicate IsSentinel(s: string) {
    Lower(s) in Sentinels
  }

  /** `clean_cell` (data_cleansing.py lines 35-43). */
  function CleanCell(c: Cell): (r: Cell)
    ensures !c.Str? ==> r == c
    ensures c.Str? ==> (r.Missing? <==> IsSentinel(NormalizeText(c.text)))
    ensures c.Str? && !r.Missing? ==> r == Str(NormalizeText(c.text))
    ensures r.Str? ==> Tidy(r.text) && !IsSentinel(r.text)
  {
    match c
    case Str(s) =>
      var n := NormalizeText(s);
      if IsSentinel(n) then Missing else Str(n)
    case _ => c
  }

  /** Cleaning a cleaned cell changes nothing. */
  lemma CleanCellIdempotent(c: Cell)
    ensures CleanCell(CleanCell(c)) == CleanCell(c)
  {
    var r := CleanCell(c);
    if r.Str? {
      NormalizeTextFixpoint(r.text);
    }
  }

  /** A tidy string whose lower-cased form is one of the three words
      becomes missing. */
  lemma TidySentinel(s: string)
    requires Tidy(s) && IsSentinel(s)
    ensures CleanCell(Str(s)) == Missing
  {
    NormalizeTextFixpoint(s);
  }

  /** A tidy string that is not a sentinel is kept as it is. */
  lemma TidyKept(s: string)
    requires Tidy(s) && !IsSentinel(s)
    ensures CleanCell(Str(s)) == Str(s)
  {
    NormalizeTextFixpoint(s);
  }

  /** A cell holding only whitespace is not missing after cleaning: it
      becomes the empty string. */
  lemma BlankCellCleansToEmpty(s: string)
    requires forall k :: 0 <= k < |s| ==> IsSpace(s[k])
    ensures CleanCell(Str(s)) == Str("")
  {
    assert Lower("") == "";
  }

  /** Stripping recovers a non-empty core that is padded with whitespace. */
  lemma StripPadded(s: string, i: nat, j: nat)
    requires i < j <= |s|
    requires forall k :: 0 <= k < i ==> IsSpace(s[k])
    requires forall k :: j <= k < |s| ==> IsSpace(s[k])
    requires !IsSpace(s[i]) && !IsSpace(s[j - 1])
    ensures Strip(s) == s[i..j]
  {
    var n := RunLength(s, IsSpace);
    var m := TrailingSpace(s);
    assert n == i;
    assert m == |s| - j;
  }

  /** Stripping a text that ends in a non-whitespace character only cuts
      at the front. */
  lemma StripFront(u: string) returns (i: nat)
    requires |u| > 0 && !IsSpace(u[|u| - 1])
    ensures i < |u| && Strip(u) == u[i..] && !IsSpace(u[i])
    ensures forall k :: 0 <= k < i ==> IsSpace(u[k])
  {
    var j;
    i, j := StripBounds(u);
    assert j == |u|;
    assert u[i..j] == u[i..];
    assert |Strip(u)| > 0;
    assert Strip(u)[0] == u[i];
  }

  /** Stripping a text that starts with a non-whitespace character only
      cuts at the back. */
  lemma StripBack(w: string) returns (j: nat)
    requires |w| > 0 && !IsSpace(w[0])
    ensures 0 < j <= |w| && Strip(w) == w[..j] && !IsSpace(w[j - 1])
    ensures forall k :: j <= k < |w| ==> IsSpace(w[k])
  {
    var i;
    i, j := StripBounds(w);
    assert i == 0;
    assert |Strip(w)| > 0;
    assert Strip(w)[|Strip(w)| - 1] == w[j - 1];
  }

  /** Stripping a text whose inner whitespace run sits between two
      non-whitespace characters strips the two sides and keeps the run. */
  lemma StripJoin(u: string, v: string, w: string)
    requires |u| > 0 && !IsSpace(u[|u| - 1])
    requires forall k :: 0 <= k < |v| ==> IsSpace(v[k])
    requires |w| > 0 && !IsSpace(w[0])
    ensures Strip(u + v + w) == Strip(u) + v + Strip(w)
  {
    var i := StripFront(u);
    var j2 := StripBack(w);
    var s := u + v + w;
    var j := |u| + |v| + j2;
    assert !IsSpace(s[i]) && !IsSpace(s[j - 1]) by {
      assert s[i] == u[i] && s[j - 1] == w[j2 - 1];
    }
    assert forall k :: 0 <= k < i ==> IsSpace(s[k]) by {
      forall k | 0 <= k < i ensures IsSpace(s[k]) {
        assert s[k] == u[k];
      }
    }
    assert forall k :: j <= k < |s| ==> IsSpace(s[k]) by {
      forall k | j <= k < |s| ensures IsSpace(s[k]) {
        assert s[k] == w[k - |u| - |v|];
      }
    }
    StripPadded(s, i, j);
    SliceOfJoin(u, v, w, i, j2);
  }

  lemma SliceOfJoin(u: string, v: string, w: string, i: nat, j: nat)
    requires i <= |u| && j <= |w|
    ensures (u + v + w)[i..|u| + |v| + j] == u[i..] + v + w[..j]
  {
    var s := u + v + w;
    var r := u[i..] + v + w[..j];
    assert |s[i..|u| + |v| + j]| == |r|;
    forall k | 0 <= k < |r| ensures s[i + k] == r[k] {
      if k < |u| - i {
        assert r[k] == u[i + k];
      } else if k < |u| - i + |v| {
        assert r[k] == v[k - (|u| - i)];
      } else {
        assert r[k] == w[k - (|u| - i) - |v|];
      }
    }
  }

  /** How normalising treats one inner whitespace run: the text on either
      side is normalised on its own, and the run between them becomes a
      single space. Together with `NormalizeTextFixpoint` this determines
      `NormalizeText` on every input. */
  lemma NormalizeTextRun(u: string, v: string, w: string)
    requires |u| > 0 && !IsSpace(u[|u| - 1])
    requires |v| > 0 && forall k :: 0 <= k < |v| ==> IsSpace(v[k])
    requires |w| > 0 && !IsSpace(w[0])
    ensures NormalizeText(u + v + w) == NormalizeText(u) + " " + NormalizeText(w)
  {
    SqueezeStripJoin(u, v, w);
    NormalizeTextSqueezesStrip(u + v + w);
    NormalizeTextSqueezesStrip(u);
    NormalizeTextSqueezesStrip(w);
  }

  lemma SqueezeStripJoin(u: string, v: string, w: string)
    requires |u| > 0 && !IsSpace(u[|u| - 1])
    requires |v| > 0 && forall k :: 0 <= k < |v| ==> IsSpace(v[k])
    requires |w| > 0 && !IsSpace(w[0])
    ensures Squeeze(Strip(u + v + w), IsSpace, ' ')
         == Squeeze(Strip(u), IsSpace, ' ') + " " + Squeeze(Strip(w), IsSpace, ' ')
  {
    var a, b := Strip(u), Strip(w);
    assert |a| > 0 && !IsSpace(a[|a| - 1]) && |b| > 0 && !IsSpace(b[0]);
    StripJoin(u, v, w);
    SqueezeJoin(a, v, b, IsSpace, ' ');
  }

  lemma NormalizeTextSqueezesStrip(s: string)
    ensures NormalizeText(s) == Squeeze(Strip(s), IsSpace, ' ')
  {
  }

  lemma StripPaddedError(s: string)
    requires s == " error "
    ensures Strip(s) == s[1..6]
  {
    assert !IsSpace(s[1]) && !IsSpace(s[5]) && IsSpace(s[0]) && IsSpace(s[6]);
    StripPadded(s, 1, 6);
  }

  lemma NormalizePaddedError(s: string)
    requires s == " error "
    ensures NormalizeText(s) == s[1..6]
  {
    StripPaddedError(s);
    var w := s[1..6];
    assert Tidy(w);
    SqueezeFixpoint(w, IsSpace, ' ');
  }

  /** A sentinel padded with whitespace is still a sentinel. */
  lemma PaddedErrorIsMissing(s: string)
    requires s == " error "
    ensures CleanCell(Str(s)) == Missing
  {
    NormalizePaddedError(s);
    assert Lower(s[1..6]) == "error";
  }

  /** Sentinels are matched in any letter case. */
  lemma SentinelCaseInsensitive(s: string)
    requires s == "NULL" || s == "Unknown"
    ensures CleanCell(Str(s)) == Missing
  {
    assert Tidy(s);
    assert Lower(s) == "null" || Lower(s) == "unknown";
    TidySentinel(s);
  }

  /** Only the whole cell is compared: a word that merely starts with a
      sentinel is kept. */
  lemma SentinelWholeCellOnly(s: string)
    requires s == "nullable"
    ensures CleanCell(Str(s)) == Str(s)
  {
    assert Tidy(s) && Lower(s) == "nullable";
    TidyKept(s);
  }

  lemma CollapseTabSpace(s: string)
    requires s == "b\t c"
    ensures Squeeze(s, IsSpace, ' ') == "b c"
  {
    assert s == "b" + ("\t " + "c");
    assert Squeeze("c", IsSpace, ' ') == "c";
    SqueezeRun("b", "\t ", "c", IsSpace, ' ');
  }

  lemma CollapseRunsParts(u: string, v: string, t: string)
    requires u == "a" && v == "   " && t == "b\t c"
    ensures Squeeze(u + (v + t), IsSpace, ' ') == "a b c"
  {
    assert forall k :: 0 <= k < |v| ==> IsSpace(v[k]);
    assert !IsSpace(u[0]) && !IsSpace(t[0]);
    SqueezeRun(u, v, t, IsSpace, ' ');
    CollapseTabSpace(t);
  }

  lemma CollapseRuns(s: string)
    requires s == "a   b\t c"
    ensures Squeeze(s, IsSpace, ' ') == "a b c"
  {
    assert s == "a" + ("   " + "b\t c");
    CollapseRunsParts("a", "   ", "b\t c");
  }

  /** Whitespace runs collapse to one space. */
  lemma CollapseExample(s: string)
    requires s == "a   b\t c"
    ensures NormalizeText(s) == "a b c"
  {
    assert !IsSpace(s[0]) && !IsSpace(s[|s| - 1]);
    StripUnpadded(s);
    CollapseRuns(s);
  }

  /** `df.applymap(clean_cell)`: every cell of every column is cleaned;
      names, dtypes and the shape stay. */
  function CleanCells(t: Table): (r: Table)
    requires WellFormed(t)
    ensures WellFormed(r) && r.height == t.height && |r.columns| == |t.columns|
    ensures forall c :: 0 <= c < |t.columns| ==>
      && r.columns[c].name == t.columns[c].name
      && r.columns[c].dtype == t.columns[c].dtype
      && forall i :: 0 <= i < t.height ==> r.columns[c].cells[i] == CleanCell(t.columns[c].cells[i])
  {
    Table(t.height, seq(|t.columns|, c requires 0 <= c < |t.columns| =>
      var col := t.columns[c];
      col.(cells := seq(|col.cells|, i requires 0 <= i < |col.cells| => CleanCell(col.cells[i])))))
  }

  /** After the cell stage no string cell is padded, holds a whitespace run
      other than one space, or is a sentinel; a second pass changes nothing. */
  lemma CleanCellsIdempotent(t: Table)
    requires WellFormed(t)
    ensures var r := CleanCells(t);
      && CleanCells(r) == r
      && forall c, i :: 0 <= c < |r.columns| && 0 <= i < r.height && r.columns[c].cells[i].Str? ==>
           Tidy(r.columns[c].cells[i].text) && !IsSentinel(r.columns[c].cells[i].text)
  {
    var r := CleanCells(t);
    var rr := CleanCells(r);
    forall c | 0 <= c < |r.columns| ensures rr.columns[c] == r.columns[c] {
      forall i | 0 <= i < r.height ensures rr.columns[c].cells[i] == r.columns[c].cells[i] {
        CleanCellIdempotent(t.columns[c].cells[i]);
      }
    }
  }
}
