/**
 * What the two table-creation scripts share: the arguments they hand to the
 * `dbt` operations `create_table` and `inser_data`, the outside world they
 * consult (the subprocess, the file system), the CSV path a table key is split
 * back into, and how that split relates to the dataset identifier.
 */
module Provisioning {
  import opened Wrappers
  import opened Text
  import opened OrderedDict
  import opened DatasetNaming

  /** The `--args` of `dbt run-operation create_table`: schema, table name and the column-to-type map. */
  datatype CreateArgs = CreateArgs(schema: string, tableName: string, columns: Dict<string>)

  /** The `--args` of `dbt run-operation inser_data`: the absolute CSV path and `<schema>.<table>`. */
  datatype InsertArgs = InsertArgs(filePath: string, tablePath: string)

  /**
   * The outside world as the scripts see it. `runCreate` and `runInsert` give
   * the return code of the `dbt` subprocess, or `None` when it cannot be
   * launched (`subprocess.run` raises); `fileExists` is `Path.exists`,
   * `resolve` is `Path.resolve`, and `canWrite` says whether `open(path, "w")`
   * succeeds.
   */
  datatype Env = Env(
    runCreate: CreateArgs -> Option<int>,
    runInsert: InsertArgs -> Option<int>,
    fileExists: string -> bool,
    resolve: string -> string,
    canWrite: string -> bool)

  /** `Path(a) / b`: an empty segment adds nothing. */
  function JoinPath(a: string, b: string): (p: string)
    ensures b == [] ==> p == a
    ensures a == [] ==> p == b
    ensures a != [] && b != [] ==> p == a + "/" + b
  {
    if b == [] then a else if a == [] then b else a + "/" + b
  }

  /** `Path(datasets) / folder / f"{csvFile}.csv"`. */
  function CsvPath(datasets: string, folder: string, csvFile: string): string {
    JoinPath(JoinPath(datasets, folder), csvFile + CsvExt)
  }

  /** `key.split("_", 1)` and the CSV path built from its two halves; `None` when `key` holds no `_`. */
  function KeyCsvPath(datasets: string, key: string): (r: Option<string>)
    ensures r.None? <==> '_' !in key
  {
    match SplitFirst(key, '_')
    case None => None
    case Some((folder, csvFile)) => Some(CsvPath(datasets, folder, csvFile))
  }

  /** With a non-empty root and folder, the CSV path is `<datasets>/<folder>/<file>.csv`. */
  lemma CsvPathShape(datasets: string, folder: string, csvFile: string)
    requires datasets != [] && folder != []
    ensures CsvPath(datasets, folder, csvFile) == datasets + "/" + folder + "/" + csvFile + CsvExt
  {
    assert csvFile + CsvExt != [];
    assert (datasets + "/" + folder) + "/" + (csvFile + CsvExt) == datasets + "/" + folder + "/" + csvFile + CsvExt;
  }

  /**
   * The CSV path of a key is `<datasets>/<folder>/<file>.csv`, where `<folder>`
   * is the key up to its first `_` and `<file>` the rest.
   */
  lemma KeyCsvPathShape(datasets: string, folder: string, csvFile: string)
    requires '_' !in folder
    requires datasets != [] && folder != []
    ensures KeyCsvPath(datasets, folder + "_" + csvFile) == Some(datasets + "/" + folder + "/" + csvFile + CsvExt)
  {
    SplitFirstUnique(folder + "_" + csvFile, '_', folder, csvFile);
    CsvPathShape(datasets, folder, csvFile);
  }

  /** Lower-casing distributes over concatenation. */
  lemma LowerAppend(a: string, b: string)
    ensures Lower(a + b) == Lower(a) + Lower(b)
  {
  }

  /** The identifier of `<folder>/<stem>.csv` is the two parts lower-cased, joined by `_`. */
  lemma IdOfFolderFileLowered(folder: string, stem: string)
    requires '/' !in folder && '\\' !in folder && '/' !in stem && '\\' !in stem
    requires !Contains(folder, CsvExt) && !Contains(stem, CsvExt)
    ensures DatasetId(folder + "/" + stem + CsvExt) == Lower(folder) + "_" + Lower(stem)
  {
    DatasetIdOfFolderFile(folder, stem);
    LowerAppend(folder + "_", stem);
    LowerAppend(folder, "_");
  }

  /** Splitting `Lower(a) + "_" + Lower(b)` gives back `a` and `b` exactly when `a` has no `_` and neither part has an upper-case letter. */
  lemma SplitOfLowered(a: string, b: string)
    ensures SplitFirst(Lower(a) + "_" + Lower(b), '_') == Some((a, b))
        <==> '_' !in a && IsLowerCase(a) && IsLowerCase(b)
  {
    var s := Lower(a) + "_" + Lower(b);
    LowerIsLowerCase(a);
    LowerIsLowerCase(b);
    if '_' !in a && IsLowerCase(a) && IsLowerCase(b) {
      LowerOfLowerCase(a);
      LowerOfLowerCase(b);
      SplitFirstUnique(s, '_', a, b);
    }
    if SplitFirst(s, '_') == Some((a, b)) {
      assert s[..|a|] == a && s[..|a|] == Lower(a);
      assert s[|a| + 1..] == b && s[|a| + 1..] == Lower(b);
    }
  }

  /**
   * The near round trip between the identifier and the split: for a file
   * `<folder>/<stem>.csv` whose parts carry no separator and no `.csv`, the
   * split of its identifier gives back `folder` and `stem` exactly when the
   * folder has no `_` and neither part has an upper-case letter.
   */
  lemma SplitRecoversFolderFile(folder: string, stem: string)
    requires '/' !in folder && '\\' !in folder && '/' !in stem && '\\' !in stem
    requires !Contains(folder, CsvExt) && !Contains(stem, CsvExt)
    ensures SplitFirst(DatasetId(folder + "/" + stem + CsvExt), '_') == Some((folder, stem))
        <==> '_' !in folder && IsLowerCase(folder) && IsLowerCase(stem)
  {
    IdOfFolderFileLowered(folder, stem);
    SplitOfLowered(folder, stem);
  }

  /**
   * The complete round trip: for such a file directly under a folder of the
   * dataset root, the CSV path built from its identifier is the file itself.
   */
  lemma IdentifierRoundTrip(datasets: string, folder: string, stem: string)
    requires '/' !in folder && '\\' !in folder && '/' !in stem && '\\' !in stem
    requires !Contains(folder, CsvExt) && !Contains(stem, CsvExt)
    requires '_' !in folder && IsLowerCase(folder) && IsLowerCase(stem)
    requires datasets != [] && folder != []
    ensures KeyCsvPath(datasets, DatasetId(folder + "/" + stem + CsvExt)) == Some(datasets + "/" + folder + "/" + stem + CsvExt)
  {
    SplitRecoversFolderFile(folder, stem);
    CsvPathShape(datasets, folder, stem);
  }
}
