/**
 * The stand-alone profiling script: one HTML report per CSV file of the
 * dataset tree, named after the file's relative path with `.` as the folder
 * separator and the `.csv` removed, case kept.
 */
module YdataProfile {
  import opened Text
  import opened DatasetNaming
  import opened DatasetAnalysis

  /**
   * The report name of a relative path: every `\` and `/` becomes `.`, and
   * every `.csv` (case-sensitively) is removed. No lower-casing.
   */
  function ReportName(relativePath: string): (name: string)
    ensures '/' !in name && '\\' !in name
    ensures forall c :: c in name ==> c == '.' || c in relativePath
  {
    var dotted := Dotted(relativePath);
    assert forall c :: c in dotted ==> c == '.' || c in relativePath;
    RemoveAll(dotted, CsvExt)
  }

  /** `\\` and `/` both turned into `.`. */
  function Dotted(path: string): string {
    ReplaceChar(ReplaceChar(path, '\\', '/'), '/', '.')
  }

  /** Where the report of a file is written. */
  function ReportPath(name: string): string {
    "./profile_report/" + name + ".html"
  }

  /** The report paths of the CSV files of `walk`, in walk order. */
  function ReportPaths(walk: seq<WalkEntry>): (paths: seq<string>)
    decreases |walk|
  {
    if walk == [] then []
    else
      var n := |walk| - 1;
      ReportPaths(walk[..n]) + if IsCsvFile(walk[n].name) then [ReportPath(ReportName(RelativePath(walk[n])))] else []
  }

  lemma ReportPathsStep(walk: seq<WalkEntry>, i: nat)
    requires i < |walk|
    ensures ReportPaths(walk[..i + 1]) ==
      ReportPaths(walk[..i]) + if IsCsvFile(walk[i].name) then [ReportPath(ReportName(RelativePath(walk[i])))] else []
  {
    assert walk[..i + 1][..i] == walk[..i];
  }

  /**
   * The script: walk the tree, read every CSV file and write its report.
   * Reading is unguarded, so the first unreadable CSV file ends the run with
   * the reports written so far.
   */
  method ProfileAll(walk: seq<WalkEntry>) returns (reports: seq<string>, crashed: bool)
    ensures AllReadable(walk) ==> reports == ReportPaths(walk) && !crashed
    ensures !AllReadable(walk) ==>
      && crashed
      && exists k :: 0 <= k < |walk| && AllReadable(walk[..k]) && IsCsvFile(walk[k].name)
           && walk[k].frame.None? && reports == ReportPaths(walk[..k])
  {
    reports := [];
    var i := 0;
    while i < |walk|
      invariant 0 <= i <= |walk|
      invariant AllReadable(walk[..i])
      invariant reports == ReportPaths(walk[..i])
    {
      var e := walk[i];
      ReportPathsStep(walk, i);
      if IsCsvFile(e.name) {
        var name := ReportName(RelativePath(e));
        if e.frame.None? {
          UnreadableAt(walk, i);
          return reports, true;
        }
        reports := reports + [ReportPath(name)];
      }
      AllReadableStep(walk, i);
      i := i + 1;
    }
    assert walk[..i] == walk;
    crashed := false;
  }

  /** One report per CSV file of a readable walk. */
  lemma {:induction false} ReportPathsCount(walk: seq<WalkEntry>)
    ensures |ReportPaths(walk)| == |AnalysisReports(walk)|
    decreases |walk|
  {
    if walk != [] {
      ReportPathsCount(walk[..|walk| - 1]);
    }
  }

  /**
   * For a file `<folder>/<stem>.csv` whose parts hold no dot and no separator
   * and whose stem does not start with `csv`, the report is named `<folder>.<stem>`.
   */
  lemma ReportNameOfFolderFile(folder: string, stem: string)
    requires '.' !in folder && '/' !in folder && '\\' !in folder
    requires '.' !in stem && '/' !in stem && '\\' !in stem
    requires !IsPrefix("csv", stem)
    ensures ReportName(folder + "/" + stem + CsvExt) == folder + "." + stem
  {
    var path := folder + "/" + stem + CsvExt;
    assert ReplaceChar(path, '\\', '/') == path;
    assert ReplaceChar(path, '/', '.') == folder + "." + stem + CsvExt;
    NotContainsDotJoin(folder, stem);
    RemoveCsvSuffix(folder + "." + stem);
  }

  /** `.csv` cannot occur in `a.b` when neither part has a dot and `b` does not start with `csv`. */
  lemma {:induction false} NotContainsDotJoin(a: string, b: string)
    requires '.' !in a && '.' !in b && !IsPrefix("csv", b)
    ensures !Contains(a + "." + b, CsvExt)
    decreases |a|
  {
    var s := a + "." + b;
    if a == [] {
      assert s == "." + b;
      assert s[1..] == b;
      CharAbsent(b, CsvExt, 0);
      if |s| >= 4 {
        assert s[..4][1..] == b[..3];
      }
    } else {
      assert s[0] == a[0] != '.';
      assert forall c :: c in a[1..] ==> c in a;
      NotContainsDotJoin(a[1..], b);
      assert s[1..] == a[1..] + "." + b;
    }
  }

  /**
   * The separator becomes `.` before `.csv` is removed, so a stem starting with
   * `csv` loses those letters with the dot in front of it: `crm/csvdata.csv` is
   * reported as `crmdata`.
   */
  lemma CsvStemLosesPrefix()
    ensures ReportName("crm/csvdata.csv") == "crmdata"
  {
    assert "crm/csvdata.csv" == "crm" + "/csv" + "data" + CsvExt;
    CsvStemLosesPrefixAfterFolder("crm", "data");
    assert "crm" + "data" == "crmdata";
  }

  /**
   * For `<folder>/csv<rest>.csv`, with no dot or separator in the parts, the
   * `.csv` made from the separator and the stem's first letters is removed
   * along with the extension: the report is `<folder><rest>`.
   */
  lemma CsvStemLosesPrefixAfterFolder(folder: string, rest: string)
    requires '.' !in folder && '/' !in folder && '\\' !in folder
    requires '.' !in rest && '/' !in rest && '\\' !in rest
    ensures ReportName(folder + "/csv" + rest + CsvExt) == folder + rest
  {
    var path := folder + "/csv" + rest + CsvExt;
    var dotted := folder + CsvExt + rest + CsvExt;
    assert '\\' !in path;
    assert ReplaceChar(path, '\\', '/') == path;
    assert |dotted| == |path|;
    assert forall i :: 0 <= i < |path| ==> ReplaceChar(path, '/', '.')[i] == dotted[i] by {
      forall i | 0 <= i < |path|
        ensures ReplaceChar(path, '/', '.')[i] == dotted[i]
      {
        if i < |folder| {
          assert path[i] == folder[i] == dotted[i];
        } else if i == |folder| {
          assert path[i] == '/' && dotted[i] == '.';
        } else if i < |folder| + 4 {
          assert path[i] == dotted[i] != '/';
        } else if i < |folder| + 4 + |rest| {
          assert path[i] == rest[i - |folder| - 4] == dotted[i];
        } else {
          assert path[i] == dotted[i] != '/';
        }
      }
    }
    assert Dotted(path) == dotted;
    assert folder + CsvExt + rest + CsvExt == folder + CsvExt + (rest + CsvExt);
    CharAbsent(folder, CsvExt, 0);
    RemoveCsvInfix(folder, rest + CsvExt);
    CharAbsent(rest, CsvExt, 0);
    RemoveCsvSuffix(rest);
  }

  /** The file `source_crm/cust_info.csv` is reported as `source_crm.cust_info.html`. */
  lemma CustInfoExample()
    ensures ReportName("source_crm/cust_info.csv") == "source_crm.cust_info"
  {
    ReportNameOfPlainPath("source_crm/cust_info.csv", "source_crm", "cust_info", "source_crm.cust_info");
  }

  lemma ReportNameOfPlainPath(path: string, folder: string, stem: string, name: string)
    requires path == folder + "/" + stem + CsvExt && name == folder + "." + stem
    requires forall c :: c in folder + stem ==> 'a' <= c <= 'z' || c == '_'
    requires |stem| >= 2 && stem[1] != 's'
    ensures ReportName(path) == name
  {
    assert forall c :: c in folder ==> c in folder + stem;
    assert forall c :: c in stem ==> c in folder + stem;
    ReportNameOfFolderFile(folder, stem);
  }

  /**
   * Unlike the dataset identifier, the report name keeps upper-case letters
   * and an upper-case extension: `CRM/Sales.CSV` is reported as `CRM.Sales.CSV`.
   */
  lemma UpperCaseKept()
    ensures IsCsvFile("Sales.CSV")
    ensures ReportName("CRM/Sales.CSV") == "CRM.Sales.CSV"
  {
    IsCsvFileExactly("Sales.CSV");
    assert ReplaceChar("CRM/Sales.CSV", '/', '.') == "CRM.Sales.CSV";
    ReportNameWithoutLowerC("CRM/Sales.CSV");
  }

  /** A path with no lower-case `c` cannot hold `.csv`: only its separators change. */
  lemma ReportNameWithoutLowerC(path: string)
    requires 'c' !in path && '\\' !in path
    ensures ReportName(path) == ReplaceChar(path, '/', '.')
  {
    var dotted := ReplaceChar(path, '/', '.');
    assert ReplaceChar(path, '\\', '/') == path;
    assert 'c' !in dotted;
    CharAbsent(dotted, CsvExt, 1);
    RemoveAllAbsent(dotted, CsvExt);
  }
}
