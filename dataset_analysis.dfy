/**
 * The registry build: walk the dataset tree, give every CSV file its
 * identifier and its resolved column types, collect them in one dictionary and
 * write it out as JSON. Two drivers share this logic: `analyse_dataset`, which
 * reports failure as `False`, and the module-level profiling script, which has
 * no error handling and also renders one profiling report per file.
 */
module DatasetAnalysis {
  import opened Wrappers
  import opened Text
  import opened OrderedDict
  import opened DatasetNaming
  import opened TypeResolution

  /**
   * A file met by the directory walk: its directory relative to the dataset
   * root ("" for the root itself), its name, and what reading it as CSV gives:
   * the (column name, dtype label) pairs, or `None` when the read raises.
   */
  datatype WalkEntry = WalkEntry(dir: string, name: string, frame: Option<seq<(string, string)>>)

  /** `os.path.relpath(os.path.join(root, file), base_path)`, with `/` as the separator. */
  function RelativePath(e: WalkEntry): string {
    if e.dir == [] then e.name else e.dir + "/" + e.name
  }

  /** The identifier of a walked file. */
  function IdOf(e: WalkEntry): string {
    DatasetId(RelativePath(e))
  }

  /** Dataset identifier to resolved column types, in first-seen order. */
  type Registry = Dict<TypeMap>

  /** The registry as JSON holds it: every type is a string. */
  type JsonRegistry = Dict<Dict<string>>

  /** Every CSV file of the walk can be read (other files are never opened). */
  predicate AllReadable(walk: seq<WalkEntry>) {
    forall i :: 0 <= i < |walk| && IsCsvFile(walk[i].name) ==> walk[i].frame.Some?
  }

  lemma AllReadablePrefix(walk: seq<WalkEntry>, n: nat)
    requires n <= |walk| && AllReadable(walk)
    ensures AllReadable(walk[..n])
  {
    assert forall i :: 0 <= i < n ==> walk[..n][i] == walk[i];
  }

  /** The resolved column types of one readable CSV file. */
  function ResolvedTypes(e: WalkEntry, rules: seq<Rule>): TypeMap
    requires e.frame.Some?
  {
    ResolveAll(LowerTypeMap(e.frame.value), rules)
  }

  /** The registry after the files of `walk` have been processed in order. */
  function Scan(walk: seq<WalkEntry>, rules: seq<Rule>): Registry
    requires AllReadable(walk)
    decreases |walk|
  {
    if walk == [] then []
    else
      var n := |walk| - 1;
      AllReadablePrefix(walk, n);
      var prev := Scan(walk[..n], rules);
      if IsCsvFile(walk[n].name) then Put(prev, IdOf(walk[n]), ResolvedTypes(walk[n], rules))
      else prev
  }

  /** The registry never holds an identifier twice. */
  lemma {:induction false} ScanDistinct(walk: seq<WalkEntry>, rules: seq<Rule>)
    requires AllReadable(walk)
    ensures DistinctKeys(Scan(walk, rules))
    decreases |walk|
  {
    if walk != [] {
      var n := |walk| - 1;
      AllReadablePrefix(walk, n);
      ScanDistinct(walk[..n], rules);
      if IsCsvFile(walk[n].name) {
        PutDistinct(Scan(walk[..n], rules), IdOf(walk[n]), ResolvedTypes(walk[n], rules));
      }
    }
  }

  /** A readable file extends the readable prefix of the walk by one. */
  lemma AllReadableStep(walk: seq<WalkEntry>, i: nat)
    requires i < |walk| && AllReadable(walk[..i])
    requires IsCsvFile(walk[i].name) ==> walk[i].frame.Some?
    ensures AllReadable(walk[..i + 1])
  {
    assert forall j :: 0 <= j < i ==> walk[..i + 1][j] == walk[..i][j];
  }

  /** One more file of the walk: what the loop body of both drivers does to the registry. */
  lemma ScanStep(walk: seq<WalkEntry>, rules: seq<Rule>, i: nat)
    requires i < |walk| && AllReadable(walk[..i])
    requires IsCsvFile(walk[i].name) ==> walk[i].frame.Some?
    ensures AllReadable(walk[..i + 1])
    ensures Scan(walk[..i + 1], rules) ==
      if IsCsvFile(walk[i].name) then Put(Scan(walk[..i], rules), IdOf(walk[i]), ResolvedTypes(walk[i], rules))
      else Scan(walk[..i], rules)
  {
    AllReadableStep(walk, i);
    assert walk[..i + 1][..i] == walk[..i];
  }

  /** An unreadable CSV file anywhere in the walk makes the walk unreadable. */
  lemma UnreadableAt(walk: seq<WalkEntry>, i: nat)
    requires i < |walk| && IsCsvFile(walk[i].name) && walk[i].frame.None?
    ensures !AllReadable(walk)
  {
  }

  /** The JSON text of one dataset's types; `None` when a pandas dtype object is left, which `json.dump` cannot encode. */
  function EncodeTypes(m: TypeMap): (r: Option<Dict<string>>)
    ensures r.Some? <==> forall j :: 0 <= j < |m| ==> m[j].1.Configured?
    ensures r.Some? ==> |r.value| == |m| && forall j :: 0 <= j < |m| ==> r.value[j] == (m[j].0, m[j].1.target)
  {
    if m == [] then Some([])
    else match (m[0].1, EncodeTypes(m[1..]))
      case (Configured(t), Some(rest)) => Some([(m[0].0, t)] + rest)
      case _ => None
  }

  /** `json.dump(dataframes, ...)`: `None` when it raises part-way. */
  function Encode(reg: Registry): (r: Option<JsonRegistry>)
    ensures r.Some? <==> forall i :: 0 <= i < |reg| ==> EncodeTypes(reg[i].1).Some?
    ensures r.Some? ==> |r.value| == |reg| && forall i :: 0 <= i < |reg| ==> r.value[i] == (reg[i].0, EncodeTypes(reg[i].1).value)
  {
    if reg == [] then Some([])
    else match (EncodeTypes(reg[0].1), Encode(reg[1..]))
      case (Some(types), Some(rest)) => Some([(reg[0].0, types)] + rest)
      case _ => None
  }

  /**
   * `analyse_dataset`: `config` is the parsed override configuration (`None`
   * when the file is missing or not valid JSON) and `canWrite` says whether the
   * output file can be created. `written` is the registry as it lands on disk.
   */
  method AnalyseDataset(config: Option<seq<Rule>>, walk: seq<WalkEntry>, canWrite: bool)
    returns (ok: bool, written: Option<JsonRegistry>)
    ensures config.None? ==> !ok && written.None?
    ensures ok <==> written.Some?
    ensures ok <==> config.Some? && AllReadable(walk) && Encode(Scan(walk, config.value)).Some? && canWrite
    ensures ok ==> written == Encode(Scan(walk, config.value))
  {
    if config.None? {
      return false, None;
    }
    var rules := config.value;
    var dataframes: Registry := [];
    var i := 0;
    while i < |walk|
      invariant 0 <= i <= |walk|
      invariant AllReadable(walk[..i])
      invariant dataframes == Scan(walk[..i], rules)
    {
      var e := walk[i];
      if IsCsvFile(e.name) {
        var dfName := DatasetId(RelativePath(e));
        if e.frame.None? {
          UnreadableAt(walk, i);
          return false, None;
        }
        var dfTypes := LowerTypeMap(e.frame.value);
        dfTypes := ResolveTypes(dfTypes, rules);
        dataframes := Put(dataframes, dfName, dfTypes);
        ScanStep(walk, rules, i);
      }
      else {
        ScanStep(walk, rules, i);
      }
      i := i + 1;
    }
    assert walk[..i] == walk;
    written := Encode(dataframes);
    if written.None? || !canWrite {
      return false, None;
    }
    ok := true;
  }

  /** What a run of the profiling script leaves behind. */
  datatype ScriptRun = ScriptRun(reports: seq<string>, written: Option<JsonRegistry>, crashed: bool)

  /** Where the profiling script writes the report of a dataset. */
  function AnalysisReportPath(id: string): string {
    "./profile_report/analysis_html/" + id + ".html"
  }

  /** The report paths of the CSV files of `walk`, in walk order. */
  function AnalysisReports(walk: seq<WalkEntry>): (paths: seq<string>)
    decreases |walk|
  {
    if walk == [] then []
    else
      var n := |walk| - 1;
      AnalysisReports(walk[..n]) + if IsCsvFile(walk[n].name) then [AnalysisReportPath(IdOf(walk[n]))] else []
  }

  /** One more file of the walk: what the loop body of the profiling script adds to the report list. */
  lemma AnalysisReportsStep(walk: seq<WalkEntry>, i: nat)
    requires i < |walk|
    ensures AnalysisReports(walk[..i + 1]) ==
      AnalysisReports(walk[..i]) + if IsCsvFile(walk[i].name) then [AnalysisReportPath(IdOf(walk[i]))] else []
  {
    assert walk[..i + 1][..i] == walk[..i];
  }

  /**
   * The profiling script: the same scan as `analyse_dataset` with a report per
   * file, and no error handling, so a missing configuration, an unreadable CSV
   * or a failed write ends the run with an uncaught exception.
   */
  method ProfileScript(config: Option<seq<Rule>>, walk: seq<WalkEntry>, canWrite: bool)
    returns (run: ScriptRun)
    ensures config.None? ==> run == ScriptRun([], None, true)
    ensures config.Some? && AllReadable(walk) ==>
      && run.reports == AnalysisReports(walk)
      && run.written == (if canWrite then Encode(Scan(walk, config.value)) else None)
      && run.crashed == run.written.None?
    ensures config.Some? && !AllReadable(walk) ==>
      && run.crashed && run.written.None?
      && exists k :: 0 <= k < |walk| && AllReadable(walk[..k]) && IsCsvFile(walk[k].name)
           && walk[k].frame.None? && run.reports == AnalysisReports(walk[..k])
  {
    if config.None? {
      return ScriptRun([], None, true);
    }
    var rules := config.value;
    var dataframes: Registry := [];
    var reports: seq<string> := [];
    var i := 0;
    while i < |walk|
      invariant 0 <= i <= |walk|
      invariant AllReadable(walk[..i])
      invariant dataframes == Scan(walk[..i], rules)
      invariant reports == AnalysisReports(walk[..i])
    {
      var e := walk[i];
      if IsCsvFile(e.name) {
        var dfName := DatasetId(RelativePath(e));
        if e.frame.None? {
          UnreadableAt(walk, i);
          return ScriptRun(reports, None, true);
        }
        var dfTypes := LowerTypeMap(e.frame.value);
        dfTypes := ResolveTypes(dfTypes, rules);
        dataframes := Put(dataframes, dfName, dfTypes);
        ScanStep(walk, rules, i);
        AnalysisReportsStep(walk, i);
        reports := reports + [AnalysisReportPath(dfName)];
      }
      else {
        ScanStep(walk, rules, i);
        AnalysisReportsStep(walk, i);
      }
      i := i + 1;
    }
    assert walk[..i] == walk;
    var encoded := Encode(dataframes);
    if !canWrite || encoded.None? {
      return ScriptRun(reports, None, true);
    }
    run := ScriptRun(reports, encoded, false);
  }

  /** The identifier of every CSV file of the walk, in walk order, repeats included. */
  function CsvIds(walk: seq<WalkEntry>): seq<string>
    decreases |walk|
  {
    if walk == [] then []
    else
      var n := |walk| - 1;
      CsvIds(walk[..n]) + if IsCsvFile(walk[n].name) then [IdOf(walk[n])] else []
  }

  /** The registry has a dataset for exactly the identifiers of the CSV files walked. */
  lemma {:induction false} ScanKeys(walk: seq<WalkEntry>, rules: seq<Rule>, id: string)
    requires AllReadable(walk)
    ensures id in Keys(Scan(walk, rules)) <==> id in CsvIds(walk)
    decreases |walk|
  {
    if walk != [] {
      var n := |walk| - 1;
      var init := walk[..n];
      AllReadablePrefix(walk, n);
      ScanKeys(init, rules, id);
      if IsCsvFile(walk[n].name) {
        PutKeys(Scan(init, rules), IdOf(walk[n]), ResolvedTypes(walk[n], rules));
      }
    }
  }

  /** Every CSV file of the walk contributes its identifier. */
  lemma {:induction false} CsvIdsHasFile(walk: seq<WalkEntry>, i: nat)
    requires i < |walk| && IsCsvFile(walk[i].name)
    ensures IdOf(walk[i]) in CsvIds(walk)
    decreases |walk|
  {
    var n := |walk| - 1;
    var init := walk[..n];
    var last := if IsCsvFile(walk[n].name) then [IdOf(walk[n])] else [];
    assert CsvIds(walk) == CsvIds(init) + last;
    if i < n {
      assert init[i] == walk[i];
      CsvIdsHasFile(init, i);
    } else {
      assert last == [IdOf(walk[i])];
    }
  }

  /** Every identifier in the list comes from a CSV file of the walk. */
  lemma {:induction false} CsvIdsFromFile(walk: seq<WalkEntry>, id: string)
    requires id in CsvIds(walk)
    ensures exists i :: 0 <= i < |walk| && IsCsvFile(walk[i].name) && IdOf(walk[i]) == id
    decreases |walk|
  {
    var n := |walk| - 1;
    if !(IsCsvFile(walk[n].name) && IdOf(walk[n]) == id) {
      CsvIdsFromFile(walk[..n], id);
      var i :| 0 <= i < n && IsCsvFile(walk[..n][i].name) && IdOf(walk[..n][i]) == id;
      assert walk[..n][i] == walk[i];
    }
  }

  /** A later CSV file with the same identifier replaces the earlier one's entry. */
  lemma {:induction false} ScanLastFileWins(walk: seq<WalkEntry>, rules: seq<Rule>, i: nat)
    requires AllReadable(walk)
    requires i < |walk| && IsCsvFile(walk[i].name)
    requires forall j :: i < j < |walk| && IsCsvFile(walk[j].name) ==> IdOf(walk[j]) != IdOf(walk[i])
    ensures Get(Scan(walk, rules), IdOf(walk[i])) == Some(ResolvedTypes(walk[i], rules))
    decreases |walk|
  {
    var n := |walk| - 1;
    var init := walk[..n];
    ScanLastGet(walk, rules, IdOf(walk[i]));
    if i < n {
      assert init[i] == walk[i];
      assert forall j :: i < j < |init| ==> init[j] == walk[j];
      ScanLastFileWins(init, rules, i);
    }
  }

  /** Looking an identifier up after the last file of the walk. */
  lemma ScanLastGet(walk: seq<WalkEntry>, rules: seq<Rule>, id: string)
    requires walk != [] && AllReadable(walk)
    ensures AllReadable(walk[..|walk| - 1])
    ensures var last := walk[|walk| - 1];
      Get(Scan(walk, rules), id) ==
        if IsCsvFile(last.name) && IdOf(last) == id then Some(ResolvedTypes(last, rules))
        else Get(Scan(walk[..|walk| - 1], rules), id)
  {
    var n := |walk| - 1;
    AllReadablePrefix(walk, n);
    if IsCsvFile(walk[n].name) {
      PutGet(Scan(walk[..n], rules), IdOf(walk[n]), ResolvedTypes(walk[n], rules), id);
    }
  }

  /** A registry entry is written only when every column of it was overridden. */
  lemma EncodeNeedsConfiguredTypes(reg: Registry, id: string, m: TypeMap, c: nat)
    requires Get(reg, id) == Some(m)
    requires c < |m| && m[c].1.Inferred?
    ensures Encode(reg).None?
  {
    var i :| 0 <= i < |reg| && reg[i].0 == id && reg[i].1 == m by {
      GetFound(reg, id);
    }
  }

  /**
   * A CSV file with a column that no rule matches, by name or by its inferred
   * dtype, makes the final write fail: that column keeps its pandas dtype,
   * which the JSON encoder rejects, unless a later file takes the identifier over.
   */
  lemma UnmatchedColumnBlocksWrite(walk: seq<WalkEntry>, rules: seq<Rule>, i: nat, c: nat)
    requires AllReadable(walk)
    requires i < |walk| && IsCsvFile(walk[i].name)
    requires forall j :: i < j < |walk| && IsCsvFile(walk[j].name) ==> IdOf(walk[j]) != IdOf(walk[i])
    requires c < |LowerTypeMap(walk[i].frame.value)|
    requires var col := LowerTypeMap(walk[i].frame.value)[c];
      forall j :: 0 <= j < |rules| ==> !Contains(col.0, rules[j].0) && !Contains(Str(col.1), rules[j].0)
    ensures Encode(Scan(walk, rules)).None?
  {
    var m := LowerTypeMap(walk[i].frame.value);
    ScanLastFileWins(walk, rules, i);
    LowerTypeMapInferred(walk[i].frame.value, c);
    UnmatchedColumnKeepsType(m[c].0, m[c].1, rules);
    EncodeNeedsConfiguredTypes(Scan(walk, rules), IdOf(walk[i]), ResolvedTypes(walk[i], rules), c);
  }
}
