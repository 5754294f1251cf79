/**
 * The bronze loading script: for every dataset of the configuration, in order,
 * ask `dbt` to create the table in the `bronze` schema, then split the key
 * into folder and file and, when that CSV file exists, ask `dbt` to load it.
 * Nothing is checked and nothing is caught: a key without `_` or a `dbt` that
 * cannot be launched ends the script.
 */
module BronzeLoad {
  import opened Wrappers
  import opened Text
  import opened OrderedDict
  import opened Provisioning

  /** The schema every table is created in. */
  const Bronze: string := "bronze"

  /** `os.path.join("datasets")`: the dataset root. */
  const Datasets: string := "datasets"

  /** What the script has done: the create and insert requests issued, and whether it ended on an exception. */
  datatype BronzeRun = BronzeRun(creates: seq<CreateArgs>, inserts: seq<InsertArgs>, crashed: bool)

  /** The CSV file the script loads for a key: the key split at its first `_` into folder and file, under `datasets`. */
  function BronzeCsv(key: string): (r: Option<string>)
    ensures r.None? <==> '_' !in key
  {
    KeyCsvPath(Datasets, key)
  }

  /**
   * One iteration of the loop, for the configuration entry `key: item`;
   * `csvOf` turns a key into its CSV path (the script uses `BronzeCsv`).
   */
  function LoadKey(r: BronzeRun, key: string, item: Dict<string>, csvOf: string -> Option<string>, env: Env): BronzeRun {
    if r.crashed then r
    else
      var args := CreateArgs(Bronze, key, item);
      var created := r.(creates := r.creates + [args]);
      if env.runCreate(args).None? then created.(crashed := true)
      else match csvOf(key)
        case None => created.(crashed := true)
        case Some(p) =>
          if !env.fileExists(p) then created
          else
            var ia := InsertArgs(env.resolve(p), Bronze + "." + key);
            var loaded := created.(inserts := created.inserts + [ia]);
            if env.runInsert(ia).None? then loaded.(crashed := true) else loaded
  }

  /** The loop over the configuration entries, in order. */
  function LoadAll(config: Dict<Dict<string>>, csvOf: string -> Option<string>, env: Env): BronzeRun
    decreases |config|
  {
    if config == [] then BronzeRun([], [], false)
    else
      var n := |config| - 1;
      LoadKey(LoadAll(config[..n], csvOf, env), config[n].0, config[n].1, csvOf, env)
  }

  lemma LoadAllStep(config: Dict<Dict<string>>, csvOf: string -> Option<string>, env: Env, i: nat)
    requires i < |config|
    ensures LoadAll(config[..i + 1], csvOf, env) == LoadKey(LoadAll(config[..i], csvOf, env), config[i].0, config[i].1, csvOf, env)
  {
    assert config[..i + 1][..i] == config[..i];
  }

  /** Once the script has crashed, the remaining entries change nothing. */
  lemma {:induction false} CrashStays(config: Dict<Dict<string>>, csvOf: string -> Option<string>, env: Env, k: nat)
    requires k <= |config| && LoadAll(config[..k], csvOf, env).crashed
    ensures LoadAll(config, csvOf, env) == LoadAll(config[..k], csvOf, env)
    decreases |config|
  {
    if k < |config| {
      var n := |config| - 1;
      assert config[..n][..k] == config[..k];
      CrashStays(config[..n], csvOf, env, k);
    } else {
      assert config[..k] == config;
    }
  }

  /**
   * The script, given the parsed configuration: `None` when the file is
   * missing or not valid JSON, which ends the script before any request.
   */
  method LoadBronze(config: Option<Dict<Dict<string>>>, env: Env) returns (run: BronzeRun)
    ensures config.None? ==> run == BronzeRun([], [], true)
    ensures config.Some? ==> run == LoadAll(config.value, BronzeCsv, env)
  {
    if config.None? {
      return BronzeRun([], [], true);
    }
    var c := config.value;
    run := BronzeRun([], [], false);
    var i := 0;
    while i < |c|
      invariant 0 <= i <= |c|
      invariant run == LoadAll(c[..i], BronzeCsv, env) && !run.crashed
    {
      LoadAllStep(c, BronzeCsv, env, i);
      var (key, item) := c[i];
      var args := CreateArgs(Bronze, key, item);
      run := run.(creates := run.creates + [args]);
      var result := env.runCreate(args);
      if result.None? {
        run := run.(crashed := true);
        CrashStays(c, BronzeCsv, env, i + 1);
        return;
      }
      var parts := SplitFirst(key, '_');
      if parts.None? {
        run := run.(crashed := true);
        CrashStays(c, BronzeCsv, env, i + 1);
        return;
      }
      var (folder, csvFile) := parts.value;
      var csvPath := CsvPath(Datasets, folder, csvFile);
      assert BronzeCsv(key) == Some(csvPath);
      if !env.fileExists(csvPath) {
        i := i + 1;
        continue;
      }
      var insertArgs := InsertArgs(env.resolve(csvPath), Bronze + "." + key);
      run := run.(inserts := run.inserts + [insertArgs]);
      var insertResult := env.runInsert(insertArgs);
      if insertResult.None? {
        run := run.(crashed := true);
        CrashStays(c, BronzeCsv, env, i + 1);
        return;
      }
      i := i + 1;
    }
    assert c[..i] == c;
  }

  /** Reference: the insert requests of the keys whose CSV file exists, in configuration order. */
  function Inserted(config: Dict<Dict<string>>, csvOf: string -> Option<string>, env: Env): seq<InsertArgs>
    decreases |config|
  {
    if config == [] then []
    else
      var n := |config| - 1;
      var key := config[n].0;
      Inserted(config[..n], csvOf, env)
        + match csvOf(key)
          case Some(p) => if env.fileExists(p) then [InsertArgs(env.resolve(p), Bronze + "." + key)] else []
          case None => []
  }

  /**
   * When the script runs to the end: every entry gets a create request in
   * `bronze`, in order, whatever its return code, and exactly the keys whose
   * CSV file exists are loaded into `bronze.<key>`.
   */
  lemma CompletedRun(config: Dict<Dict<string>>, csvOf: string -> Option<string>, env: Env)
    requires !LoadAll(config, csvOf, env).crashed
    ensures var r := LoadAll(config, csvOf, env);
      && |r.creates| == |config|
      && (forall i :: 0 <= i < |config| ==> r.creates[i] == CreateArgs(Bronze, config[i].0, config[i].1))
      && r.inserts == Inserted(config, csvOf, env)
  {
    CompletedCreates(config, csvOf, env);
    CompletedInserts(config, csvOf, env);
  }

  lemma {:induction false} CompletedCreates(config: Dict<Dict<string>>, csvOf: string -> Option<string>, env: Env)
    requires !LoadAll(config, csvOf, env).crashed
    ensures var r := LoadAll(config, csvOf, env);
      |r.creates| == |config| && forall i :: 0 <= i < |config| ==> r.creates[i] == CreateArgs(Bronze, config[i].0, config[i].1)
    decreases |config|
  {
    if config != [] {
      var n := |config| - 1;
      var init := config[..n];
      var prev := LoadAll(init, csvOf, env);
      var r := LoadAll(config, csvOf, env);
      assert r == LoadKey(prev, config[n].0, config[n].1, csvOf, env);
      CrashIsFinal(prev, config[n].0, config[n].1, csvOf, env);
      CompletedCreates(init, csvOf, env);
      LoadKeyCompleted(prev, config[n].0, config[n].1, csvOf, env);
      forall i | 0 <= i < |config|
        ensures r.creates[i] == CreateArgs(Bronze, config[i].0, config[i].1)
      {
        if i < n {
          assert r.creates[i] == prev.creates[i];
          assert init[i] == config[i];
        }
      }
    }
  }

  lemma {:induction false} CompletedInserts(config: Dict<Dict<string>>, csvOf: string -> Option<string>, env: Env)
    requires !LoadAll(config, csvOf, env).crashed
    ensures LoadAll(config, csvOf, env).inserts == Inserted(config, csvOf, env)
    decreases |config|
  {
    if config != [] {
      var n := |config| - 1;
      var init := config[..n];
      var prev := LoadAll(init, csvOf, env);
      assert LoadAll(config, csvOf, env) == LoadKey(prev, config[n].0, config[n].1, csvOf, env);
      CrashIsFinal(prev, config[n].0, config[n].1, csvOf, env);
      CompletedInserts(init, csvOf, env);
      LoadKeyCompleted(prev, config[n].0, config[n].1, csvOf, env);
    }
  }

  lemma CrashIsFinal(r: BronzeRun, key: string, item: Dict<string>, csvOf: string -> Option<string>, env: Env)
    ensures r.crashed ==> LoadKey(r, key, item, csvOf, env).crashed
  {
  }

  lemma LoadKeyCompleted(r: BronzeRun, key: string, item: Dict<string>, csvOf: string -> Option<string>, env: Env)
    requires !r.crashed && !LoadKey(r, key, item, csvOf, env).crashed
    ensures LoadKey(r, key, item, csvOf, env).creates == r.creates + [CreateArgs(Bronze, key, item)]
    ensures LoadKey(r, key, item, csvOf, env).inserts == r.inserts
      + match csvOf(key)
        case Some(p) => if env.fileExists(p) then [InsertArgs(env.resolve(p), Bronze + "." + key)] else []
        case None => []
  {
  }

  /**
   * The script runs to the end exactly when every key holds a `_` and `dbt`
   * can be launched for every request it makes.
   */
  lemma {:induction false} CompletesExactly(config: Dict<Dict<string>>, csvOf: string -> Option<string>, env: Env)
    ensures !LoadAll(config, csvOf, env).crashed <==>
      forall i :: 0 <= i < |config| ==> Launches(config[i].0, config[i].1, csvOf, env)
    decreases |config|
  {
    if config != [] {
      var n := |config| - 1;
      var init := config[..n];
      var prev := LoadAll(init, csvOf, env);
      assert LoadAll(config, csvOf, env) == LoadKey(prev, config[n].0, config[n].1, csvOf, env);
      CrashIsFinal(prev, config[n].0, config[n].1, csvOf, env);
      CompletesExactly(init, csvOf, env);
      if !prev.crashed {
        LoadKeyCrashes(prev, config[n].0, config[n].1, csvOf, env);
      }
      assert forall i :: 0 <= i < n ==> init[i] == config[i];
    }
  }

  /** One iteration from a running script ends it exactly when one of its requests cannot be launched or its key does not split. */
  lemma LoadKeyCrashes(r: BronzeRun, key: string, item: Dict<string>, csvOf: string -> Option<string>, env: Env)
    requires !r.crashed
    ensures LoadKey(r, key, item, csvOf, env).crashed <==> !Launches(key, item, csvOf, env)
  {
  }

  /** The requests for one entry can all be launched and its key names a CSV path (for `BronzeCsv`: holds a `_`). */
  predicate Launches(key: string, item: Dict<string>, csvOf: string -> Option<string>, env: Env) {
    && env.runCreate(CreateArgs(Bronze, key, item)).Some?
    && csvOf(key).Some?
    && (var p := csvOf(key).value;
        env.fileExists(p) ==> env.runInsert(InsertArgs(env.resolve(p), Bronze + "." + key)).Some?)
  }

  /**
   * A key without `_` ends the script: its create request is still issued, but
   * no entry after it is processed.
   */
  lemma KeyWithoutUnderscoreAborts(config: Dict<Dict<string>>, env: Env, k: nat)
    requires k < |config| && '_' !in config[k].0
    requires !LoadAll(config[..k], BronzeCsv, env).crashed
    requires env.runCreate(CreateArgs(Bronze, config[k].0, config[k].1)).Some?
    ensures LoadAll(config, BronzeCsv, env).crashed
    ensures LoadAll(config, BronzeCsv, env).creates == LoadAll(config[..k], BronzeCsv, env).creates + [CreateArgs(Bronze, config[k].0, config[k].1)]
    ensures LoadAll(config, BronzeCsv, env).inserts == LoadAll(config[..k], BronzeCsv, env).inserts
  {
    LoadAllStep(config, BronzeCsv, env, k);
    CrashStays(config, BronzeCsv, env, k + 1);
  }

  /** The create's return code is never read: any codes with the same launch failures give the same run. */
  lemma {:induction false} CreateCodeIgnored(config: Dict<Dict<string>>, csvOf: string -> Option<string>, env: Env, g: CreateArgs -> Option<int>)
    requires forall a :: g(a).Some? == env.runCreate(a).Some?
    ensures LoadAll(config, csvOf, env.(runCreate := g)) == LoadAll(config, csvOf, env)
    decreases |config|
  {
    if config != [] {
      CreateCodeIgnored(config[..|config| - 1], csvOf, env, g);
    }
  }
}
