/**
 * `create_table` of the dbt starter: for every dataset of the configuration,
 * in order, create the table through `dbt`, write a staging model stub for it,
 * list it for the sources file and, when asked to, load the dataset's CSV file
 * into it; finally write the sources file listing every table created.
 */
module TableProvisioning {
  import opened Wrappers
  import opened Text
  import opened OrderedDict
  import opened Provisioning

  /** One column of a table in the sources file. */
  datatype ColumnEntry = ColumnEntry(name: string, description: string)

  /** One table in the sources file. */
  datatype TableEntry = TableEntry(name: string, description: string, columns: seq<ColumnEntry>)

  /** The one source the sources file declares. */
  datatype Source = Source(name: string, database: string, schema: string, tables: seq<TableEntry>)

  /** A staging model stub as written to disk. */
  datatype SqlFile = SqlFile(path: string, content: string)

  /** The sources file as written to disk: the `sources` list of the YAML document. */
  datatype SourcesFile = SourcesFile(path: string, sources: seq<Source>)

  /** The caller's choices: the dataset root, the target schema and whether to load data. */
  datatype Setting = Setting(datasets: string, schema: string, addInfo: bool)

  /**
   * What the loop has done so far: the create and insert requests issued, the
   * stubs written, the `tables` list, and whether an exception has escaped.
   */
  datatype Run = Run(
    creates: seq<CreateArgs>,
    stubs: seq<SqlFile>,
    tables: seq<TableEntry>,
    inserts: seq<InsertArgs>,
    raised: bool)

  const Start := Run([], [], [], [], false)

  /** The database every source is declared in. */
  const Database: string := "DataWarehouse"

  /** `os.path.join("sqlcreator", "models", "staging", schema)`. */
  function StagingDir(schema: string): string {
    JoinPath("sqlcreator/models/staging", schema)
  }

  /** Where the stub of a table is written. */
  function StubPath(schema: string, table: string): string {
    JoinPath(StagingDir(schema), "stg_" + table + ".sql")
  }

  /** The stub: a model selecting every column of the table's source. */
  function StubSql(schema: string, table: string): string {
    "SELECT\n    *\nFROM {{ source('" + schema + "', '" + table + "') }}\n"
  }

  /** The stub of a table, path and content. */
  function Stub(schema: string, table: string): SqlFile {
    SqlFile(StubPath(schema, table), StubSql(schema, table))
  }

  /** Where the sources file is written. */
  function SourcesPath(schema: string): string {
    JoinPath(StagingDir(schema), "_src_" + schema + ".yml")
  }

  /** The column entries of a table: one per configured column, in order, with an empty description. */
  function ColumnsOf(item: Dict<string>): seq<ColumnEntry> {
    seq(|item|, i requires 0 <= i < |item| => ColumnEntry(item[i].0, ""))
  }

  /** The sources-file entry of a created table. */
  function TableEntryOf(schema: string, key: string, item: Dict<string>): TableEntry {
    TableEntry(key, "Tabela origem " + schema + "." + key, ColumnsOf(item))
  }

  /** The insert request for a key, when its CSV file is found. */
  function InsertFor(s: Setting, key: string, env: Env): Option<InsertArgs> {
    match KeyCsvPath(s.datasets, key)
    case None => None
    case Some(p) => if env.fileExists(p) then Some(InsertArgs(env.resolve(p), s.schema + "." + key)) else None
  }

  /** One iteration of the loop, for the configuration entry `key: item`. */
  function ProcessKey(r: Run, key: string, item: Dict<string>, s: Setting, env: Env): Run {
    if r.raised then r
    else
      var args := CreateArgs(s.schema, key, item);
      var created := r.(creates := r.creates + [args]);
      match env.runCreate(args)
      case None => created.(raised := true)
      case Some(rc) =>
        if rc != 0 then created
        else if !env.canWrite(StubPath(s.schema, key)) then created.(raised := true)
        else
          var listed := created.(stubs := created.stubs + [Stub(s.schema, key)],
                                 tables := created.tables + [TableEntryOf(s.schema, key, item)]);
          if !s.addInfo then listed
          else match InsertFor(s, key, env)
            case None => listed
            case Some(ia) =>
              var loaded := listed.(inserts := listed.inserts + [ia]);
              if env.runInsert(ia).None? then loaded.(raised := true) else loaded
  }

  /** The loop over the configuration entries, in order. */
  function ProcessAll(config: Dict<Dict<string>>, s: Setting, env: Env): Run
    decreases |config|
  {
    if config == [] then Start
    else
      var n := |config| - 1;
      ProcessKey(ProcessAll(config[..n], s, env), config[n].0, config[n].1, s, env)
  }

  /** The result of a call: the boolean returned, the effects, and the sources file written. */
  datatype Outcome = Outcome(ok: bool, run: Run, sources: Option<SourcesFile>)

  /**
   * After the loop: an escaped exception returns `False`; with no table
   * created the staging directory was never bound, and the `NameError` returns
   * `False`; otherwise the sources file is written and `True` returned.
   */
  function Finish(r: Run, s: Setting, env: Env): Outcome {
    if r.raised || r.tables == [] || !env.canWrite(SourcesPath(s.schema)) then Outcome(false, r, None)
    else Outcome(true, r, Some(SourcesFile(SourcesPath(s.schema), [Source(s.schema, Database, s.schema, r.tables)])))
  }

  /** `create_table`, given the parsed configuration (`None` when it is missing or not valid JSON). */
  function CreateTableResult(config: Option<Dict<Dict<string>>>, s: Setting, env: Env): Outcome {
    match config
    case None => Outcome(false, Start, None)
    case Some(c) => Finish(ProcessAll(c, s, env), s, env)
  }

  /** The inner loop: one column entry per configured column, in column order. */
  method ColumnEntries(item: Dict<string>) returns (columns: seq<ColumnEntry>)
    ensures |columns| == |item|
    ensures forall i :: 0 <= i < |item| ==> columns[i].name == item[i].0 && columns[i].description == ""
  {
    columns := [];
    for i := 0 to |item|
      invariant |columns| == i
      invariant forall j :: 0 <= j < i ==> columns[j] == ColumnEntry(item[j].0, "")
    {
      columns := columns + [ColumnEntry(item[i].0, "")];
    }
  }

  lemma ProcessAllStep(config: Dict<Dict<string>>, s: Setting, env: Env, i: nat)
    requires i < |config|
    ensures ProcessAll(config[..i + 1], s, env) == ProcessKey(ProcessAll(config[..i], s, env), config[i].0, config[i].1, s, env)
  {
    assert config[..i + 1][..i] == config[..i];
  }

  /** Once an exception has escaped, the remaining entries change nothing. */
  lemma {:induction false} RaisedStays(config: Dict<Dict<string>>, s: Setting, env: Env, k: nat)
    requires k <= |config| && ProcessAll(config[..k], s, env).raised
    ensures ProcessAll(config, s, env) == ProcessAll(config[..k], s, env)
    decreases |config|
  {
    if k < |config| {
      var n := |config| - 1;
      assert config[..n][..k] == config[..k];
      RaisedStays(config[..n], s, env, k);
    } else {
      assert config[..k] == config;
    }
  }

  /**
   * `create_table`: `config` is the parsed configuration, `None` when the file
   * is missing or is not valid JSON.
   */
  method CreateTable(config: Option<Dict<Dict<string>>>, datasets: string, schema: string, addInfo: bool, env: Env)
    returns (out: Outcome)
    ensures out == CreateTableResult(config, Setting(datasets, schema, addInfo), env)
  {
    var s := Setting(datasets, schema, addInfo);
    if config.None? {
      return Outcome(false, Start, None);
    }
    var c := config.value;
    var run := Start;
    var i := 0;
    while i < |c|
      invariant 0 <= i <= |c|
      invariant run == ProcessAll(c[..i], s, env) && !run.raised
    {
      ProcessAllStep(c, s, env, i);
      run := ProcessEntry(run, c[i].0, c[i].1, s, env);
      if run.raised {
        RaisedStays(c, s, env, i + 1);
        return Outcome(false, run, None);
      }
      i := i + 1;
    }
    assert c[..i] == c;
    if run.tables == [] {
      return Outcome(false, run, None);
    }
    var ymlPath := SourcesPath(schema);
    if !env.canWrite(ymlPath) {
      return Outcome(false, run, None);
    }
    out := Outcome(true, run, Some(SourcesFile(ymlPath, [Source(schema, Database, schema, run.tables)])));
  }

  /**
   * The body of the loop for the entry `key: item`: create the table, and when
   * `dbt` returns 0 write its stub, list it and, if asked to, load its CSV file.
   * An exception that escapes is recorded in `raised`.
   */
  method ProcessEntry(run: Run, key: string, item: Dict<string>, s: Setting, env: Env) returns (next: Run)
    requires !run.raised
    ensures next == ProcessKey(run, key, item, s, env)
  {
    var args := CreateArgs(s.schema, key, item);
    next := run.(creates := run.creates + [args]);
    var resultCreate := env.runCreate(args);
    if resultCreate.None? {
      return next.(raised := true);
    }
    if resultCreate.value != 0 {
      return;
    }
    var sqlFilePath := StubPath(s.schema, key);
    if !env.canWrite(sqlFilePath) {
      return next.(raised := true);
    }
    next := next.(stubs := next.stubs + [SqlFile(sqlFilePath, StubSql(s.schema, key))]);
    var columns := ColumnEntries(item);
    assert columns == ColumnsOf(item);
    next := next.(tables := next.tables + [TableEntry(key, "Tabela origem " + s.schema + "." + key, columns)]);
    if s.addInfo {
      var parts := SplitFirst(key, '_');
      if parts.Some? {
        var csvPath := CsvPath(s.datasets, parts.value.0, parts.value.1);
        if env.fileExists(csvPath) {
          var insertArgs := InsertArgs(env.resolve(csvPath), s.schema + "." + key);
          next := next.(inserts := next.inserts + [insertArgs]);
          var insertResult := env.runInsert(insertArgs);
          if insertResult.None? {
            next := next.(raised := true);
          }
        }
      }
    }
  }

  /** Reference: the entries of the tables whose create request returns 0, in configuration order. */
  function Created(config: Dict<Dict<string>>, schema: string, env: Env): seq<TableEntry>
    decreases |config|
  {
    if config == [] then []
    else
      var n := |config| - 1;
      Created(config[..n], schema, env)
        + if env.runCreate(CreateArgs(schema, config[n].0, config[n].1)) == Some(0)
          then [TableEntryOf(schema, config[n].0, config[n].1)] else []
  }

  /** Reference: the insert requests of the created tables whose CSV file is found, when loading is asked for. */
  function Loaded(config: Dict<Dict<string>>, s: Setting, env: Env): seq<InsertArgs>
    decreases |config|
  {
    if config == [] then []
    else
      var n := |config| - 1;
      var key := config[n].0;
      Loaded(config[..n], s, env)
        + if s.addInfo && env.runCreate(CreateArgs(s.schema, key, config[n].1)) == Some(0) && InsertFor(s, key, env).Some?
          then [InsertFor(s, key, env).value] else []
  }

  /**
   * When no exception escapes: one create request per entry, in order, with
   * the configured schema, key and columns; `tables` lists exactly the tables
   * created; and the inserts are exactly those of created tables whose CSV file
   * was found. A failed insert removes nothing.
   */
  lemma NoExceptionEffects(config: Dict<Dict<string>>, s: Setting, env: Env)
    requires !ProcessAll(config, s, env).raised
    ensures var r := ProcessAll(config, s, env);
      && |r.creates| == |config|
      && (forall i :: 0 <= i < |config| ==> r.creates[i] == CreateArgs(s.schema, config[i].0, config[i].1))
      && r.tables == Created(config, s.schema, env)
      && r.inserts == Loaded(config, s, env)
  {
    NoExceptionCreates(config, s, env);
    NoExceptionListing(config, s, env);
  }

  lemma {:induction false} NoExceptionCreates(config: Dict<Dict<string>>, s: Setting, env: Env)
    requires !ProcessAll(config, s, env).raised
    ensures var r := ProcessAll(config, s, env);
      |r.creates| == |config| && forall i :: 0 <= i < |config| ==> r.creates[i] == CreateArgs(s.schema, config[i].0, config[i].1)
    decreases |config|
  {
    if config != [] {
      var n := |config| - 1;
      var init := config[..n];
      var prev := ProcessAll(init, s, env);
      assert !prev.raised;
      NoExceptionCreates(init, s, env);
      assert ProcessAll(config, s, env).creates == prev.creates + [CreateArgs(s.schema, config[n].0, config[n].1)];
      assert forall i :: 0 <= i < n ==> init[i] == config[i];
    }
  }

  lemma {:induction false} NoExceptionListing(config: Dict<Dict<string>>, s: Setting, env: Env)
    requires !ProcessAll(config, s, env).raised
    ensures ProcessAll(config, s, env).tables == Created(config, s.schema, env)
    ensures ProcessAll(config, s, env).inserts == Loaded(config, s, env)
    decreases |config|
  {
    if config != [] {
      var n := |config| - 1;
      var init := config[..n];
      var prev := ProcessAll(init, s, env);
      assert !prev.raised;
      NoExceptionListing(init, s, env);
      ProcessKeyListing(prev, config[n].0, config[n].1, s, env);
    }
  }

  /** One iteration without an exception lists the table exactly when it is created, and loads it exactly when asked to and its CSV file is found. */
  lemma ProcessKeyListing(r: Run, key: string, item: Dict<string>, s: Setting, env: Env)
    requires !r.raised && !ProcessKey(r, key, item, s, env).raised
    ensures var created := env.runCreate(CreateArgs(s.schema, key, item)) == Some(0);
      && ProcessKey(r, key, item, s, env).tables == r.tables + (if created then [TableEntryOf(s.schema, key, item)] else [])
      && ProcessKey(r, key, item, s, env).inserts
         == r.inserts + (if s.addInfo && created && InsertFor(s, key, env).Some? then [InsertFor(s, key, env).value] else [])
  {
  }

  /**
   * A create request that `dbt` answers with a non-zero return code is only
   * recorded: nothing is written, listed or loaded, and no exception escapes,
   * so the loop goes on with the next entry.
   */
  lemma FailedCreateOnlyRecorded(r: Run, key: string, item: Dict<string>, s: Setting, env: Env, rc: int)
    requires !r.raised && env.runCreate(CreateArgs(s.schema, key, item)) == Some(rc) && rc != 0
    ensures ProcessKey(r, key, item, s, env) == r.(creates := r.creates + [CreateArgs(s.schema, key, item)])
  {
  }

  /**
   * No exception escapes the iteration for `key: item`: the create request can
   * be launched and, when it returns 0, the stub can be written and the insert
   * request, if one is made, can be launched. A non-zero create needs nothing more.
   */
  predicate Completes(key: string, item: Dict<string>, s: Setting, env: Env) {
    match env.runCreate(CreateArgs(s.schema, key, item))
    case None => false
    case Some(rc) =>
      rc != 0 ||
      (&& env.canWrite(StubPath(s.schema, key))
       && (s.addInfo && InsertFor(s, key, env).Some? ==> env.runInsert(InsertFor(s, key, env).value).Some?))
  }

  /** One iteration from a running loop raises exactly when its entry does not complete. */
  lemma ProcessKeyRaises(r: Run, key: string, item: Dict<string>, s: Setting, env: Env)
    requires !r.raised
    ensures ProcessKey(r, key, item, s, env).raised <==> !Completes(key, item, s, env)
  {
  }

  /** The loop ends without an exception exactly when every entry completes. */
  lemma {:induction false} NoExceptionExactly(config: Dict<Dict<string>>, s: Setting, env: Env)
    ensures !ProcessAll(config, s, env).raised <==>
      forall i :: 0 <= i < |config| ==> Completes(config[i].0, config[i].1, s, env)
    decreases |config|
  {
    if config != [] {
      var n := |config| - 1;
      var init := config[..n];
      var prev := ProcessAll(init, s, env);
      NoExceptionExactly(init, s, env);
      if !prev.raised {
        ProcessKeyRaises(prev, config[n].0, config[n].1, s, env);
      }
      assert forall i :: 0 <= i < n ==> init[i] == config[i];
    }
  }

  /**
   * A created table whose key holds no `_` is listed but never loaded: the
   * split fails, the load is skipped, and the loop goes on.
   */
  lemma KeyWithoutUnderscoreListedNotLoaded(r: Run, key: string, item: Dict<string>, s: Setting, env: Env)
    requires !r.raised && '_' !in key
    requires env.runCreate(CreateArgs(s.schema, key, item)) == Some(0)
    requires env.canWrite(StubPath(s.schema, key))
    ensures var next := ProcessKey(r, key, item, s, env);
      && !next.raised
      && next.tables == r.tables + [TableEntryOf(s.schema, key, item)]
      && next.inserts == r.inserts
  {
    assert InsertFor(s, key, env).None?;
  }

  /** Whatever happens, `tables` is a prefix of the created tables: the first ones, in configuration order. */
  lemma {:induction false} TablesPrefixOfCreated(config: Dict<Dict<string>>, s: Setting, env: Env)
    ensures ProcessAll(config, s, env).tables <= Created(config, s.schema, env)
    decreases |config|
  {
    if config != [] {
      var n := |config| - 1;
      var init := config[..n];
      TablesPrefixOfCreated(init, s, env);
      if !ProcessAll(init, s, env).raised {
        NoExceptionListing(init, s, env);
      }
    }
  }

  /** Every table listed has had its stub written, and every stub written belongs to a listed table, in the same order. */
  lemma {:induction false} StubsMatchTables(config: Dict<Dict<string>>, s: Setting, env: Env)
    ensures var r := ProcessAll(config, s, env);
      |r.stubs| == |r.tables| && forall i :: 0 <= i < |r.tables| ==> r.stubs[i] == Stub(s.schema, r.tables[i].name)
    decreases |config|
  {
    if config != [] {
      StubsMatchTables(config[..|config| - 1], s, env);
    }
  }

  /** Without `add_info` no data is loaded. */
  lemma {:induction false} NoLoadWithoutAddInfo(config: Dict<Dict<string>>, s: Setting, env: Env)
    requires !s.addInfo
    ensures ProcessAll(config, s, env).inserts == []
    decreases |config|
  {
    if config != [] {
      NoLoadWithoutAddInfo(config[..|config| - 1], s, env);
    }
  }

  /** With no create request returning 0 nothing is created, and the call returns `False`. */
  lemma NoTableCreatedFails(config: Dict<Dict<string>>, s: Setting, env: Env)
    requires forall i :: 0 <= i < |config| ==> env.runCreate(CreateArgs(s.schema, config[i].0, config[i].1)) != Some(0)
    ensures Created(config, s.schema, env) == []
    ensures !CreateTableResult(Some(config), s, env).ok
  {
    CreatedEmpty(config, s.schema, env);
    TablesPrefixOfCreated(config, s, env);
  }

  lemma {:induction false} CreatedEmpty(config: Dict<Dict<string>>, schema: string, env: Env)
    requires forall i :: 0 <= i < |config| ==> env.runCreate(CreateArgs(schema, config[i].0, config[i].1)) != Some(0)
    ensures Created(config, schema, env) == []
    decreases |config|
  {
    if config != [] {
      var init := config[..|config| - 1];
      assert forall i :: 0 <= i < |init| ==> init[i] == config[i];
      CreatedEmpty(init, schema, env);
    }
  }

  /**
   * The call returns `True` exactly when every entry completes (so no
   * exception escapes the loop), at least one table is created and the sources
   * file can be written; the file
   * then declares one source, named after the schema, in `DataWarehouse`,
   * listing every created table.
   */
  lemma OkExactly(config: Dict<Dict<string>>, s: Setting, env: Env)
    ensures var out := CreateTableResult(Some(config), s, env);
      out.ok <==>
        && (forall i :: 0 <= i < |config| ==> Completes(config[i].0, config[i].1, s, env))
        && Created(config, s.schema, env) != []
        && env.canWrite(SourcesPath(s.schema))
    ensures var out := CreateTableResult(Some(config), s, env);
      out.ok ==> out.sources == Some(SourcesFile(SourcesPath(s.schema), [Source(s.schema, Database, s.schema, Created(config, s.schema, env))]))
    ensures var out := CreateTableResult(Some(config), s, env);
      !out.ok ==> out.sources.None?
  {
    NoExceptionExactly(config, s, env);
    if !ProcessAll(config, s, env).raised {
      NoExceptionListing(config, s, env);
    }
  }

  /** The insert's return code is only logged: any codes with the same launch failures give the same outcome. */
  lemma InsertCodeIgnored(config: Option<Dict<Dict<string>>>, s: Setting, env: Env, g: InsertArgs -> Option<int>)
    requires forall a :: g(a).Some? == env.runInsert(a).Some?
    ensures CreateTableResult(config, s, env.(runInsert := g)) == CreateTableResult(config, s, env)
  {
    if config.Some? {
      ProcessAllInsertCode(config.value, s, env, g);
    }
  }

  lemma {:induction false} ProcessAllInsertCode(config: Dict<Dict<string>>, s: Setting, env: Env, g: InsertArgs -> Option<int>)
    requires forall a :: g(a).Some? == env.runInsert(a).Some?
    ensures ProcessAll(config, s, env.(runInsert := g)) == ProcessAll(config, s, env)
    decreases |config|
  {
    if config != [] {
      ProcessAllInsertCode(config[..|config| - 1], s, env, g);
    }
  }
}
