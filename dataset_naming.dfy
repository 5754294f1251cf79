/**
 * Which files of the dataset tree are processed, and the dataset identifier
 * (the table name) derived from a file's path relative to the dataset root.
 */
module DatasetNaming {
  import opened Wrappers
  import opened Text

  /** The extension every processed file carries. */
  const CsvExt: string := ".csv"

  /** `file.lower().endswith(".csv")`: the filter on the file's own name. */
  predicate IsCsvFile(name: string) {
    EndsWith(Lower(name), CsvExt)
  }

  /** The filter accepts exactly the names whose last four characters spell `.csv` in any case. */
  lemma IsCsvFileExactly(name: string)
    ensures IsCsvFile(name) <==>
      |name| >= 4 && name[|name| - 4] == '.' && name[|name| - 3] in "cC"
      && name[|name| - 2] in "sS" && name[|name| - 1] in "vV"
  {
    var n := |name|;
    if n >= 4 {
      var low := Lower(name)[n - 4..];
      assert low == [LowerChar(name[n - 4]), LowerChar(name[n - 3]), LowerChar(name[n - 2]), LowerChar(name[n - 1])];
    }
  }

  /**
   * The dataset identifier of a relative path: every `\` and `/` becomes `_`,
   * every `.csv` (case-sensitively) is removed, and the result is lower-cased.
   */
  function DatasetId(relativePath: string): (id: string)
    ensures '/' !in id && '\\' !in id
    ensures IsLowerCase(id)
  {
    var joined := Underscored(relativePath);
    var stripped := RemoveAll(joined, CsvExt);
    assert '/' !in joined && '\\' !in joined;
    Lower(stripped)
  }

  /** `\` and `/` both turned into `_`. */
  function Underscored(path: string): string {
    ReplaceChar(ReplaceChar(path, '\\', '/'), '/', '_')
  }

  /**
   * A `.csv` inside the path is removed like the extension: behind a first
   * part with no separator and no `.csv`, the first `.csv` disappears and the
   * rest of the path is named as usual.
   */
  lemma InnerCsvRemoved(a: string, b: string)
    requires '/' !in a && '\\' !in a && !Contains(a, CsvExt)
    ensures DatasetId(a + CsvExt + b) == Lower(a + RemoveAll(Underscored(b), CsvExt))
  {
    UnderscoredKeepsPlainPrefix(a + CsvExt, b);
    RemoveCsvInfix(a, Underscored(b));
  }

  /** A first part with no separator is left as it is; only the rest is rewritten. */
  lemma UnderscoredKeepsPlainPrefix(a: string, b: string)
    requires '/' !in a && '\\' !in a
    ensures Underscored(a + b) == a + Underscored(b)
  {
    var p := a + b;
    var u := Underscored(p);
    var v := a + Underscored(b);
    assert |u| == |v|;
    forall i | 0 <= i < |p| ensures u[i] == v[i] {
      if i < |a| {
        assert p[i] == a[i];
      } else {
        assert p[i] == b[i - |a|];
      }
    }
  }

  /** A folder named `old.csv` loses its `.csv` too: `old.csv/x.csv` becomes `old_x`. */
  lemma InnerCsvExample()
    ensures DatasetId("old.csv/x.csv") == "old_x"
  {
    assert "old.csv/x.csv" == "old" + CsvExt + "/" + "x" + CsvExt;
    assert "old" + "_" + "x" == "old_x";
    CharAbsent("old", CsvExt, 1);
    CharAbsent("x", CsvExt, 0);
    CsvFolderDropped("old", "x");
  }

  /**
   * `<folder>.csv/<stem>.csv`, with lower-case parts that hold no separator
   * and no `.csv`, is named `<folder>_<stem>`: the folder's `.csv` goes too.
   */
  lemma CsvFolderDropped(folder: string, stem: string)
    requires '/' !in folder && '\\' !in folder && '/' !in stem && '\\' !in stem
    requires !Contains(folder, CsvExt) && !Contains(stem, CsvExt)
    requires IsLowerCase(folder) && IsLowerCase(stem)
    ensures DatasetId(folder + CsvExt + "/" + stem + CsvExt) == folder + "_" + stem
  {
    var b := "/" + stem + CsvExt;
    assert folder + CsvExt + "/" + stem + CsvExt == folder + CsvExt + b;
    InnerCsvRemoved(folder, b);
    SlashFileNamed(stem);
    var id := folder + "_" + stem;
    assert folder + RemoveAll(Underscored(b), CsvExt) == id;
    LowerCaseJoin(folder, stem);
    LowerOfLowerCase(id);
  }

  /** The rest `/<stem>.csv` contributes `_<stem>`. */
  lemma SlashFileNamed(stem: string)
    requires '/' !in stem && '\\' !in stem && !Contains(stem, CsvExt)
    ensures RemoveAll(Underscored("/" + stem + CsvExt), CsvExt) == "_" + stem
  {
    var rest := "_" + stem;
    UnderscoredSlashFile(stem);
    NotContainsJoin([], '_', stem, CsvExt);
    assert [] + ['_'] + stem == rest;
    RemoveCsvSuffix(rest);
  }

  lemma LowerCaseJoin(a: string, b: string)
    requires IsLowerCase(a) && IsLowerCase(b)
    ensures IsLowerCase(a + "_" + b)
  {
    var id := a + "_" + b;
    forall i | 0 <= i < |id| ensures !('A' <= id[i] <= 'Z') {
      if i < |a| {
        assert id[i] == a[i];
      } else if i > |a| {
        assert id[i] == b[i - |a| - 1];
      }
    }
  }

  /** `/<stem>.csv` with no separator in the stem becomes `_<stem>.csv`. */
  lemma UnderscoredSlashFile(stem: string)
    requires '/' !in stem && '\\' !in stem
    ensures Underscored("/" + stem + CsvExt) == "_" + stem + CsvExt
  {
    var p := "/" + stem + CsvExt;
    assert ReplaceChar(p, '\\', '/') == p;
    assert forall i :: 0 < i < |p| ==> p[i] != '/';
  }

  /** A file at `crm/customers.csv` becomes the dataset `crm_customers`. */
  lemma DatasetIdOfNestedFile()
    ensures DatasetId("crm/customers.csv") == "crm_customers"
  {
    assert "crm" + "_" + "customers" == "crm_customers";
    DatasetIdOfPlainPath("crm/customers.csv", "crm", "customers");
  }

  /** `DatasetIdOfFolderFile` for parts with no dot and no upper-case letter. */
  lemma DatasetIdOfPlainPath(path: string, folder: string, stem: string)
    requires path == folder + "/" + stem + CsvExt
    requires '.' !in folder + stem && '/' !in folder + stem && '\\' !in folder + stem
    requires IsLowerCase(folder + "_" + stem)
    ensures DatasetId(path) == folder + "_" + stem
  {
    assert forall c :: c in folder ==> c in folder + stem;
    assert forall c :: c in stem ==> c in folder + stem;
    CharAbsent(folder, CsvExt, 0);
    CharAbsent(stem, CsvExt, 0);
    DatasetIdOfFolderFile(folder, stem);
    LowerOfLowerCase(folder + "_" + stem);
  }

  /**
   * An upper-case extension passes the filter but is not removed: the removal
   * runs before lower-casing and matches only `.csv`, so `A.CSV` is named `a.csv`.
   */
  lemma UpperCaseExtensionKept()
    ensures IsCsvFile("A.CSV")
    ensures DatasetId("A.CSV") == "a.csv"
  {
    IsCsvFileExactly("A.CSV");
    CharAbsent("A.CSV", CsvExt, 1);
    assert ReplaceChar("A.CSV", '\\', '/') == "A.CSV";
    assert ReplaceChar("A.CSV", '/', '_') == "A.CSV";
    RemoveAllAbsent("A.CSV", CsvExt);
  }

  /**
   * For a file `<folder>/<stem>.csv` whose parts carry no separator and no
   * `.csv`, the identifier is `<folder>_<stem>`, lower-cased.
   */
  lemma {:induction false} DatasetIdOfFolderFile(folder: string, stem: string)
    requires '/' !in folder && '\\' !in folder && '/' !in stem && '\\' !in stem
    requires !Contains(folder, CsvExt) && !Contains(stem, CsvExt)
    ensures DatasetId(folder + "/" + stem + CsvExt) == Lower(folder + "_" + stem)
  {
    var path := folder + "/" + stem + CsvExt;
    assert ReplaceChar(path, '\\', '/') == path;
    assert Underscored(path) == folder + "_" + stem + CsvExt;
    NotContainsJoin(folder, '_', stem, CsvExt);
    assert folder + "_" + stem == folder + ['_'] + stem;
    RemoveCsvSuffix(folder + "_" + stem);
  }
}
