/** The two pure pieces of the upload loop: choosing a reader from the file
    extension (data_cleansing.py lines 95-104) and naming the cleaned file
    (lines 117-118). Both cut the file name at its last dot. */
module FileNames {
  import opened Text
  import opened Wrappers

  /** The position of the last `.` in `name`, if there is one. */
  function LastDot(name: string): (r: Option<nat>)
    ensures r.None? <==> '.' !in name
    ensures r.Some? ==> r.value < |name| && name[r.value] == '.' && '.' !in name[r.value + 1..]
  {
    if |name| == 0 then None
    else if name[|name| - 1] == '.' then Some(|name| - 1)
    else
      var r := LastDot(name[..|name| - 1]);
      assert name == name[..|name| - 1] + [name[|name| - 1]];
      if r.Some? then
        assert name[r.value + 1..] == name[..|name| - 1][r.value + 1..] + [name[|name| - 1]];
        r
      else r
  }

  /** `file_name.split('.')[-1]`: the text after the last dot, or the whole
      name when there is no dot. */
  function RawExtension(name: string): (e: string)
    ensures '.' !in e
    ensures '.' !in name ==> e == name
    ensures '.' in name ==>
      |e| < |name| && name[|name| - |e| - 1] == '.' && name[|name| - |e|..] == e
  {
    match LastDot(name)
    case None => name
    case Some(i) => name[i + 1..]
  }

  /** `file_name.rsplit('.', 1)[0]`: the text before the last dot, or the
      whole name when there is no dot. */
  function BaseName(name: string): (b: string)
    ensures '.' in name ==> name == b + "." + RawExtension(name)
    ensures '.' !in name ==> b == name
  {
    match LastDot(name)
    case None => name
    case Some(i) =>
      assert name == name[..i] + "." + name[i + 1..];
      name[..i]
  }

  /** Joining a base and a dot-free extension and cutting again at the last
      dot gives back the two parts. */
  lemma SplitJoin(b: string, e: string)
    requires '.' !in e
    ensures BaseName(b + "." + e) == b && RawExtension(b + "." + e) == e
  {
    var name := b + "." + e;
    assert name[|b|] == '.' && name[|b| + 1..] == e && name[..|b|] == b;
    var i := LastDot(name).value;
    assert forall k :: i < k < |name| ==> name[k] != '.' by {
      forall k | i < k < |name| ensures name[k] != '.' {
        assert name[k] == name[i + 1..][k - i - 1];
      }
    }
    assert forall k :: |b| < k < |name| ==> name[k] != '.' by {
      forall k | |b| < k < |name| ensures name[k] != '.' {
        assert name[k] == e[k - |b| - 1];
      }
    }
    assert i == |b|;
  }

  /** The lower-cased extension that picks the reader. */
  function Extension(name: string): (ext: string)
    ensures '.' !in ext
    ensures |ext| == |RawExtension(name)|
    ensures forall k :: 0 <= k < |ext| ==> ext[k] == LowerChar(RawExtension(name)[k])
  {
    var e := RawExtension(name);
    assert forall k :: 0 <= k < |e| ==> LowerChar(e[k]) != '.';
    Lower(e)
  }

  datatype Reader = CsvReader | ExcelReader

  /** The reader for an uploaded file: `csv` selects the CSV reader, `xlsx`
      and `xls` the Excel reader, and any other extension is refused with the
      message the page shows. */
  function ChooseReader(name: string): (r: Result<Reader>)
    ensures r == Ok(CsvReader) <==> Extension(name) == "csv"
    ensures r == Ok(ExcelReader) <==> Extension(name) == "xlsx" || Extension(name) == "xls"
    ensures r.Err? <==> Extension(name) !in {"csv", "xlsx", "xls"}
    ensures r.Err? ==> r.message == "Unsupported file type: " + name
  {
    var ext := Extension(name);
    if ext == "csv" then Ok(CsvReader)
    else if ext == "xlsx" || ext == "xls" then Ok(ExcelReader)
    else Err("Unsupported file type: " + name)
  }

  /** The download name: `clean_`, then the name without its last extension,
      then `.csv`. */
  function OutputName(name: string): (out: string)
    ensures |out| >= 10 && out[..6] == "clean_" && out[|out| - 4..] == ".csv"
    ensures out[6..|out| - 4] == BaseName(name)
  {
    "clean_" + BaseName(name) + ".csv"
  }

  lemma ReportSplit(name: string)
    requires name == "report.xlsx"
    ensures BaseName(name) == "report" && RawExtension(name) == "xlsx"
  {
    assert name == "report" + "." + "xlsx";
    SplitJoin("report", "xlsx");
  }

  lemma ReportExtension(name: string)
    requires name == "report.xlsx"
    ensures Extension(name) == "xlsx"
  {
    ReportSplit(name);
    var e := RawExtension(name);
    assert forall k :: 0 <= k < |e| ==> LowerChar(e[k]) == e[k];
  }

  /** `report.xlsx` is read with the Excel reader and saved as
      `clean_report.csv`. */
  lemma ReportExample(name: string)
    requires name == "report.xlsx"
    ensures ChooseReader(name) == Ok(ExcelReader)
    ensures OutputName(name) == "clean_report.csv"
  {
    ReportSplit(name);
    ReportExtension(name);
  }

  /** A name without a dot is its own extension: a file called `CSV` or
      `csv` is read as CSV. */
  lemma NoDotNameIsExtension(name: string)
    requires '.' !in name
    ensures Extension(name) == Lower(name)
    ensures Lower(name) == "csv" ==> ChooseReader(name) == Ok(CsvReader)
  {
  }
}
