# Dataset registry and table provisioning, modelled in Dafny

The repository prepares a small data warehouse from a tree of CSV files. It
does this in three steps:

- **Profiling and type resolution.** Every CSV file under the dataset root gets
  a dataset identifier, which is its relative path with `\` and `/` turned into
  `_`, every `.csv` removed and the result lower-cased. The column names are
  lower-cased into a column-to-dtype dictionary. A list of override rules
  `(key, target)` rewrites a column's type whenever the key occurs in the
  column name, or else in the column's current type. The results are collected
  in one registry and written as JSON. This is `analyse_dataset` and the
  module-level script `scripts/data_profile.py`. A third script,
  `ydata_profile.py`, only names and writes one HTML report per CSV file. Its
  names use `.` as the separator and keep their case.
- **Table provisioning.** `create_table` walks a configuration of
  `table -> {column: type}` in order and asks `dbt` to create each table. For
  every table `dbt` created, it writes a staging-model stub, lists the table
  for the sources YAML file and, when asked to, loads the table's CSV file. To
  find that file it splits the table name at its first `_` into folder and
  file. At the end it writes the sources file.
- **Bronze loading.** The older bronze script does the same create-then-load
  loop with no checks. Nothing is caught, so a key without `_`, or a `dbt` that
  cannot be launched, ends the run.

The model keeps each script's own shape. The loops are Dafny methods
(`ResolveTypes`, `AnalyseDataset`, `ProfileScript`, `ProfileAll`,
`CreateTable` with `ProcessEntry`, `ColumnEntries`, `LoadBronze`). Each method
is proved against a specification function. For the walks and the
configuration loops that function is a fold over the input in order (`Scan`,
`AnalysisReports`, `ReportPaths`, `ProcessAll`, `LoadAll`). `ResolveTypes` is
proved equal to `ResolveAll`, which resolves each column on its own through
the rules in order. `ColumnEntries` is proved to give one entry per column,
element by element. The lemmas state what the scripts promise about those
functions.

The outside world is passed in, never simulated:

- The directory walk is a sequence of `WalkEntry` values in walk order. Each
  entry carries what `pd.read_csv` yields: the column names with their dtype
  labels, or `None` when the read raises.
- `subprocess.run`, `Path.exists`, `Path.resolve` and whether a file can be
  opened for writing are the functions of an `Env`. A `dbt` call gives its
  return code, or `None` when it cannot be launched.
- A configuration that is missing or is not valid JSON is `None`.

Python dictionaries are insertion-ordered sequences of pairs (`OrderedDict`).
Python's `str` operations are in `Text`.

A dtype is kept as `Inferred(label)`, the pandas dtype object read through its
`str()`, or as `Configured(target)`, a type label from the configuration. Rules
match on the text in both cases. The distinction matters only at the final
`json.dump`: it cannot encode a pandas dtype object. So the registry is written
only when every column of every dataset was overridden by some rule (`Encode`,
`UnmatchedColumnBlocksWrite`).

## Model

| member | source | states |
|---|---|---|
| Text.LowerIsLowerCase | scripts/start_dbt_project/data_profile.py:60 | the result of `lower()` has no upper-case letter |
| Text.LowerOfLowerCase | scripts/start_dbt_project/data_profile.py:60 | `lower()` leaves a string with no upper-case letter unchanged |
| Text.ReplaceCharReplacesAll | scripts/start_dbt_project/data_profile.py:60 | after `replace(a, b)` no `a` is left (when `a` differs from `b`), every other character was already in the string, and `b` occurs exactly when the string held an `a` or a `b` |
| Text.RemoveAll | scripts/start_dbt_project/data_profile.py:60 | `replace(p, "")` never lengthens the string and introduces no character that was not there |
| Text.RemoveAllAbsent | scripts/start_dbt_project/data_profile.py:60 | removing a pattern that does not occur leaves the string unchanged |
| Text.RemoveCsvSuffix | scripts/start_dbt_project/data_profile.py:60 | removing every `.csv` from `s + ".csv"` gives back `s` when `s` holds no `.csv` of its own |
| Text.RemoveCsvInfix | scripts/start_dbt_project/data_profile.py:60 | `replace(".csv", "")` cuts out every `.csv`, not only a trailing one: behind a prefix with no `.csv`, the first occurrence is removed and the rest is processed the same way |
| Text.SplitFirst | scripts/start_dbt_project/create_table.py:94 | `split("_", 1)` unpacked into two names fails exactly when there is no `_`; otherwise the key is `folder + "_" + file` and `folder` holds no `_` |
| Text.SplitFirstUnique | scripts/start_dbt_project/create_table.py:94 | any cut of the key at a `_` with no `_` before it is the cut the split makes |
| OrderedDict.PutGet | scripts/start_dbt_project/data_profile.py:77 | after `d[k] = v`, `k` holds `v` and every other key holds what it held |
| OrderedDict.PutKeys | scripts/start_dbt_project/data_profile.py:77 | assigning to a present key keeps the key order; assigning to a new key appends it at the end |
| OrderedDict.PutDistinct | scripts/start_dbt_project/data_profile.py:77 | assignment never creates a duplicate key |
| OrderedDict.FromPairsKeys | scripts/start_dbt_project/data_profile.py:66 | a dict built by a comprehension has exactly the keys the comprehension produced |
| OrderedDict.FromPairsLastWins | scripts/start_dbt_project/data_profile.py:66 | a key produced several times by a comprehension holds the value of its last occurrence |
| OrderedDict.FromPairsDistinct | scripts/start_dbt_project/data_profile.py:66 | a dict built by a comprehension has no duplicate key |
| OrderedDict.FromPairsValues | scripts/start_dbt_project/data_profile.py:66 | a property every value of the comprehension has holds of every value of the built dict |
| DatasetNaming.IsCsvFileExactly | scripts/start_dbt_project/data_profile.py:57 | a file is processed exactly when its name ends in `.` followed by `c`, `s`, `v` in any case |
| DatasetNaming.DatasetId | scripts/start_dbt_project/data_profile.py:59-60 | the identifier holds no `/` or `\` and no upper-case letter |
| DatasetNaming.DatasetIdOfFolderFile | scripts/start_dbt_project/data_profile.py:59-60 | for `<folder>/<stem>.csv` whose parts hold no separator and no `.csv`, the identifier is `lower(folder + "_" + stem)` |
| DatasetNaming.DatasetIdOfNestedFile | scripts/start_dbt_project/data_profile.py:59-60 | `crm/customers.csv` is named `crm_customers` |
| DatasetNaming.UpperCaseExtensionKept | scripts/start_dbt_project/data_profile.py:57-60 | `A.CSV` passes the filter but its identifier is `a.csv`, because the removal is case-sensitive and runs before lower-casing |
| DatasetNaming.InnerCsvRemoved | scripts/start_dbt_project/data_profile.py:60 | a `.csv` inside the path is removed like the extension: for a first part with no separator and no `.csv`, the identifier of `<part>.csv<rest>` is the lower-cased part followed by the named rest |
| DatasetNaming.CsvFolderDropped | scripts/start_dbt_project/data_profile.py:59-60 | a folder named `<folder>.csv` loses its `.csv`: with lower-case parts holding no separator and no `.csv`, `<folder>.csv/<stem>.csv` is named `<folder>_<stem>` |
| DatasetNaming.InnerCsvExample | scripts/start_dbt_project/data_profile.py:60 | `old.csv/x.csv` is named `old_x` |
| TypeResolution.LowerTypeMapKeys | scripts/start_dbt_project/data_profile.py:66 | the keys of the dtype map are exactly the lower-cased column names |
| TypeResolution.LowerTypeMapDistinct | scripts/start_dbt_project/data_profile.py:66 | the dtype map holds each lower-cased name once |
| TypeResolution.LaterColumnWins | scripts/start_dbt_project/data_profile.py:66 | when two columns collide after lower-casing, the map keeps the later column's dtype |
| TypeResolution.LowerTypeMapInferred | scripts/start_dbt_project/data_profile.py:66 | before the override pass every column holds a pandas dtype |
| TypeResolution.ResolveTypes | scripts/start_dbt_project/data_profile.py:68-75 | the in-place nested override loop yields, for every column, the type the rules give it in configuration order, and keeps the keys and their order |
| TypeResolution.UnmatchedColumnKeepsType | scripts/start_dbt_project/data_profile.py:68-75 | a column that no rule key matches, by name or by inferred type, keeps its inferred type |
| TypeResolution.ResolvedIsInferredOrTarget | scripts/start_dbt_project/data_profile.py:68-75 | a resolved type is the inferred dtype or the target of some rule |
| TypeResolution.LastMatchingRuleWins | scripts/start_dbt_project/data_profile.py:68-75 | a rule that fires keeps its target to the end when no later key occurs in the column name or in that target |
| TypeResolution.ResolvedByLastFiringRule | scripts/data_profile.py:60-65 | the resolved type is exactly the target of the last rule that fires along the way |
| TypeResolution.NoFiringRuleKeepsType | scripts/data_profile.py:60-65 | when no rule fires along the way, the column keeps its inferred dtype |
| TypeResolution.IdRuleExample | scripts/start_dbt_project/data_profile.py:68-75 | the rule `id -> BIGINT` rewrites column `id` and leaves `name` with its inferred type |
| TypeResolution.DateKeyMatchesNameAndType | scripts/start_dbt_project/data_profile.py:70-73 | the key `date` matches the column name `order_date` and the type `datetime64` |
| TypeResolution.TypeMatchSeesEarlierOverride | scripts/start_dbt_project/data_profile.py:73-75 | the type match reads the current type: after `int -> float64`, the rule `float -> DOUBLE` also fires |
| DatasetAnalysis.AnalyseDataset | scripts/start_dbt_project/data_profile.py:40-97 | returns `True` exactly when the configuration loads, every CSV file is readable, the registry can be encoded and the output can be written; the file written is then the encoded registry, and a missing configuration returns `False` with nothing written |
| DatasetAnalysis.ProfileScript | scripts/data_profile.py:40-76 | no configuration: the script dies at once; otherwise one report per CSV file in walk order and the encoded registry when writable; an unreadable CSV ends the run at the first such file, with the reports written so far |
| DatasetAnalysis.ScanKeys | scripts/start_dbt_project/data_profile.py:55-77 | the registry holds a dataset for exactly the identifiers of the CSV files walked |
| DatasetAnalysis.CsvIdsHasFile | scripts/start_dbt_project/data_profile.py:57-60 | every CSV file walked contributes its identifier |
| DatasetAnalysis.CsvIdsFromFile | scripts/start_dbt_project/data_profile.py:57-60 | every identifier comes from a CSV file of the walk |
| DatasetAnalysis.ScanDistinct | scripts/start_dbt_project/data_profile.py:77 | the registry never holds an identifier twice |
| DatasetAnalysis.ScanLastFileWins | scripts/start_dbt_project/data_profile.py:77 | a CSV file's resolved types are what the registry holds for its identifier, unless a later file has the same identifier |
| DatasetAnalysis.EncodeTypes | scripts/start_dbt_project/data_profile.py:88 | a dataset's types encode exactly when every column holds a configured label, and then column by column |
| DatasetAnalysis.Encode | scripts/start_dbt_project/data_profile.py:88 | the registry encodes exactly when every dataset does, keeping identifiers and their order |
| DatasetAnalysis.EncodeNeedsConfiguredTypes | scripts/start_dbt_project/data_profile.py:84-93 | one column left with its pandas dtype makes the write fail |
| DatasetAnalysis.UnmatchedColumnBlocksWrite | scripts/start_dbt_project/data_profile.py:66-93 | a column that no rule matches, in a file not overridden by a later one, makes the final write fail |
| YdataProfile.ReportName | scripts/data_profile/ydata_profile.py:36 | the report name holds no `/` or `\`, and each of its characters is `.` or comes from the path |
| YdataProfile.ProfileAll | scripts/data_profile/ydata_profile.py:31-41 | with every CSV readable, one report per CSV file at `./profile_report/<name>.html`, in walk order; otherwise the run ends at the first unreadable CSV with the reports before it |
| YdataProfile.ReportPathsCount | scripts/data_profile/ydata_profile.py:33-41 | this script writes as many reports as the analysis script, one per CSV file |
| YdataProfile.ReportNameOfFolderFile | scripts/data_profile/ydata_profile.py:36 | `<folder>/<stem>.csv` is reported as `<folder>.<stem>` when the parts hold no dot or separator and the stem does not start with `csv` |
| YdataProfile.CustInfoExample | scripts/data_profile/ydata_profile.py:36-41 | `source_crm/cust_info.csv` is reported as `source_crm.cust_info` |
| YdataProfile.UpperCaseKept | scripts/data_profile/ydata_profile.py:33-36 | `Sales.CSV` passes the filter and `CRM/Sales.CSV` is reported as `CRM.Sales.CSV`: no lower-casing, and the upper-case extension stays |
| YdataProfile.CsvStemLosesPrefixAfterFolder | scripts/data_profile/ydata_profile.py:36 | for `<folder>/csv<rest>.csv`, the `.` put in for the separator and the stem's first letters form a `.csv` that is removed too: the report is `<folder><rest>` |
| YdataProfile.CsvStemLosesPrefix | scripts/data_profile/ydata_profile.py:36 | `crm/csvdata.csv` is reported as `crmdata` |
| Provisioning.KeyCsvPath | scripts/start_dbt_project/create_table.py:94-95 | a key names a CSV path exactly when it holds a `_` |
| Provisioning.CsvPathShape | scripts/start_dbt_project/create_table.py:95 | with a non-empty root and folder, the path is `<root>/<folder>/<file>.csv` |
| Provisioning.KeyCsvPathShape | scripts/start_dbt_project/create_table.py:94-95 | the key `<folder>_<file>`, with no `_` in the folder, names `<root>/<folder>/<file>.csv` |
| Provisioning.IdOfFolderFileLowered | scripts/start_dbt_project/data_profile.py:60 | the identifier of `<folder>/<stem>.csv` is `lower(folder) + "_" + lower(stem)` |
| Provisioning.SplitOfLowered | scripts/start_dbt_project/create_table.py:94 | splitting `lower(a) + "_" + lower(b)` gives back `a` and `b` exactly when `a` has no `_` and neither part has an upper-case letter |
| Provisioning.SplitRecoversFolderFile | scripts/start_dbt_project/create_table.py:94 | splitting the identifier of `<folder>/<stem>.csv` gives back `folder` and `stem` exactly when the folder has no `_` and both are lower-case |
| Provisioning.IdentifierRoundTrip | scripts/start_dbt_project/create_table.py:94-95 | for such a file, the CSV path built from its identifier is the file itself |
| TableProvisioning.ColumnEntries | scripts/start_dbt_project/create_table.py:82-88 | one `{name, description: ""}` entry per configured column, in column order |
| TableProvisioning.ProcessEntry | scripts/start_dbt_project/create_table.py:32-125 | one loop iteration does exactly what the iteration function `ProcessKey` says |
| TableProvisioning.CreateTable | scripts/start_dbt_project/create_table.py:18-155 | the method returns the specified outcome: `False` for a missing configuration, otherwise the loop followed by the final write |
| TableProvisioning.RaisedStays | scripts/start_dbt_project/create_table.py:151-153 | once an exception escapes, the remaining entries change nothing |
| TableProvisioning.NoExceptionEffects | scripts/start_dbt_project/create_table.py:32-125 | with no exception, one create request per entry in order; `tables` lists exactly the tables created (return code 0); inserts are exactly those of created tables whose CSV file exists, when loading is asked for |
| TableProvisioning.ProcessKeyListing | scripts/start_dbt_project/create_table.py:52-125 | one iteration with no exception lists the table exactly when `dbt` returned 0, and loads it exactly when asked to and its CSV file is found |
| TableProvisioning.KeyWithoutUnderscoreListedNotLoaded | scripts/start_dbt_project/create_table.py:92-99 | a created table whose key holds no `_` stays in `tables` but is not loaded, and the loop goes on |
| TableProvisioning.FailedCreateOnlyRecorded | scripts/start_dbt_project/create_table.py:50-56 | a create request answered with a non-zero return code only records the request: nothing is written, listed or loaded, no exception escapes, and the loop goes on |
| TableProvisioning.ProcessKeyRaises | scripts/start_dbt_project/create_table.py:50-125 | one iteration raises exactly when its create request cannot be launched, or it returns 0 and then the stub cannot be written or the insert request cannot be launched |
| TableProvisioning.NoExceptionExactly | scripts/start_dbt_project/create_table.py:32-153 | the loop ends without an exception exactly when every entry completes in that sense; a non-zero create never stops it |
| TableProvisioning.TablesPrefixOfCreated | scripts/start_dbt_project/create_table.py:90 | whatever happens, `tables` is a prefix of the created tables, in configuration order |
| TableProvisioning.StubsMatchTables | scripts/start_dbt_project/create_table.py:61-74 | each listed table had its stub `SELECT * FROM {{ source('<schema>', '<table>') }}` written, in the same order, and no other stub was written |
| TableProvisioning.NoLoadWithoutAddInfo | scripts/start_dbt_project/create_table.py:92 | without `add_info`, nothing is loaded |
| TableProvisioning.NoTableCreatedFails | scripts/start_dbt_project/create_table.py:139-153 | when no create returns 0, no table is listed and the call returns `False` (the unbound staging path raises) |
| TableProvisioning.OkExactly | scripts/start_dbt_project/create_table.py:127-155 | returns `True` exactly when every entry completes (no launch failure, no unwritable stub after a successful create), some table is created and the sources file can be written; that file declares one source, named after the schema in `DataWarehouse`, listing every created table |
| TableProvisioning.InsertCodeIgnored | scripts/start_dbt_project/create_table.py:118-125 | the insert's return code is only logged: any return codes with the same launch failures give the same outcome, so a non-zero insert neither stops the loop nor unlists the table |
| BronzeLoad.BronzeCsv | scripts/start_project/create_table.py:36-37 | a key names a CSV file under `datasets` exactly when it holds a `_` |
| BronzeLoad.LoadBronze | scripts/start_project/create_table.py:15-55 | the loop does what the fold `LoadAll` says; a missing configuration ends the script before any request |
| BronzeLoad.CompletedRun | scripts/start_project/create_table.py:18-46 | a run that completes has one `bronze` create request per entry, in order, with the key and its columns, and loads exactly the keys whose CSV file exists into `bronze.<key>` |
| BronzeLoad.CompletesExactly | scripts/start_project/create_table.py:34-55 | the run completes exactly when every key names a CSV path and every `dbt` request can be launched |
| BronzeLoad.KeyWithoutUnderscoreAborts | scripts/start_project/create_table.py:36 | a key without `_` ends the run after its create request, and no later entry is processed |
| BronzeLoad.CrashStays | scripts/start_project/create_table.py:15-55 | once the script has crashed, the remaining entries change nothing |
| BronzeLoad.CreateCodeIgnored | scripts/start_project/create_table.py:34-36 | the create's return code is never read: any return codes with the same launch failures give the same run, so the split and the load follow a failed create too |

The bronze lemmas are stated for any key-to-path function `csvOf`. The script
uses `BronzeCsv`, and `LoadBronze` is proved against `LoadAll(config,
BronzeCsv, env)`. With `BronzeCsv`, "names a CSV path" in `Launches` means
"holds a `_`".

Behaviours of the code that a reader might not expect:

- The identifier code removes every case-sensitive `.csv` anywhere in the
  path, not only the extension (`RemoveCsvInfix`, `InnerCsvRemoved`,
  `InnerCsvExample`). An upper-case `.CSV` passes the filter but is kept
  (`UpperCaseExtensionKept`).
- `ydata_profile.py` names its reports differently from the dataset
  identifier: `.` separators, case kept (`ReportName`, `UpperCaseKept`). A
  stem starting with `csv` loses those letters (`CsvStemLosesPrefix`).
- The bronze script never looks at the create result (`CreateCodeIgnored`).
  `create_table` skips a table whose create fails and goes on
  (`FailedCreateOnlyRecorded`, `NoExceptionExactly`).
- An unreadable CSV file makes `analyse_dataset` return `False`, through its
  outer handler. In both profiling scripts it ends the run.

## Left out

- `lower()` is modelled for ASCII letters only. Python's full Unicode case
  mapping is not modelled.
- Paths use `/` only. `os.path.join`, `os.path.relpath` and pathlib
  normalisation (repeated or trailing separators, absolute segments replacing
  the prefix) are not modelled beyond dropping an empty segment.
- `os.walk`'s order and `pd.read_csv`'s column names and dtype inference are
  inputs (`WalkEntry`), not computed.
- The dtype labels are the `str()` of the pandas dtype, taken as given.
- The configuration is taken as already parsed. The model does not cover JSON
  parsing, JSON values that are not the expected objects, or a non-dict
  `item` whose `.keys()` would raise.
- JSON and YAML output is the value written (`JsonRegistry`, `SourcesFile`),
  not the bytes. A write that fails half-way, leaving a partial file, is
  modelled as writing nothing.
- `os.makedirs` is folded into the single "can write" answer of the `Env`.
- `dbt`'s stdout and stderr, all logging, and `print` are left out.
- `ProfileReport` generation is a recorded report path. A failure inside
  ydata-profiling itself is not modelled.
- `scripts/start_project/log.py`, `create_schema_and_models.py`, `airflow.py`
  and both `main.py` files are not part of this model. They hold orchestration,
  logging setup and a single `dbt` call. `scripts/start_dbt_project/main.py`
  calls `create_table` with a `database=` keyword that the function does not
  accept; the model covers `create_table` as defined.
- ScanKeys: states identifier membership through `CsvIds` (the identifiers
  of the walked CSV files), connected to the walk by `CsvIdsHasFile` and
  `CsvIdsFromFile`. It does not state the registry's key order, which is the
  order of first appearance.
