/**
 * Column types of one dataset: the lower-cased column-to-dtype map, and the
 * override pass that rewrites a column's type when a configured key occurs in
 * the column's name or in its current type.
 */
module TypeResolution {
  import opened Wrappers
  import opened Text
  import opened OrderedDict

  /**
   * A column's type as the scripts hold it: the dtype object pandas inferred
   * (kept by its `str()` label) or a type label taken from the configuration.
   */
  datatype TypeLabel = Inferred(dtype: string) | Configured(target: string)

  /** `str(t)`: the text the type match looks into. */
  function Str(t: TypeLabel): string {
    match t
    case Inferred(d) => d
    case Configured(l) => l
  }

  /** One item of the override configuration: (match key, target type label). */
  type Rule = (string, string)

  /** Column name to type, in column order. */
  type TypeMap = Dict<TypeLabel>

  /** The raw (column name, dtype label) pairs, each name lower-cased. */
  function LoweredColumns(columns: seq<(string, string)>): (ps: seq<(string, TypeLabel)>)
    ensures |ps| == |columns|
    ensures forall i :: 0 <= i < |columns| ==> ps[i] == (Lower(columns[i].0), Inferred(columns[i].1))
  {
    seq(|columns|, i requires 0 <= i < |columns| => (Lower(columns[i].0), Inferred(columns[i].1)))
  }

  /** `{col.lower(): dtype for col, dtype in df.dtypes.to_dict().items()}`. */
  function LowerTypeMap(columns: seq<(string, string)>): TypeMap {
    FromPairs(LoweredColumns(columns))
  }

  /** No two columns of the map share a lower-cased name. */
  lemma LowerTypeMapDistinct(columns: seq<(string, string)>)
    ensures DistinctKeys(LowerTypeMap(columns))
  {
    FromPairsDistinct(LoweredColumns(columns));
  }

  /** Before the override pass every type in the lower-cased map is an inferred dtype. */
  lemma LowerTypeMapInferred(columns: seq<(string, string)>, c: nat)
    requires c < |LowerTypeMap(columns)|
    ensures LowerTypeMap(columns)[c].1.Inferred?
  {
    FromPairsValues(LoweredColumns(columns), c, (t: TypeLabel) => t.Inferred?);
  }

  /** The map's keys are exactly the lower-cased column names. */
  lemma LowerTypeMapKeys(columns: seq<(string, string)>, k: string)
    ensures k in Keys(LowerTypeMap(columns)) <==> exists i :: 0 <= i < |columns| && Lower(columns[i].0) == k
  {
    var ps := LoweredColumns(columns);
    FromPairsKeys(ps, k);
    assert forall i :: 0 <= i < |columns| ==> ps[i].0 == Lower(columns[i].0);
  }

  /** When two columns collide after lower-casing, the later column's dtype is kept. */
  lemma LaterColumnWins(columns: seq<(string, string)>, i: nat)
    requires i < |columns|
    requires forall j :: i < j < |columns| ==> Lower(columns[j].0) != Lower(columns[i].0)
    ensures Get(LowerTypeMap(columns), Lower(columns[i].0)) == Some(Inferred(columns[i].1))
  {
    var ps := LoweredColumns(columns);
    assert forall j :: i < j < |ps| ==> ps[j].0 != ps[i].0 by {
      forall j | i < j < |ps| ensures ps[j].0 != ps[i].0 {
        assert ps[j].0 == Lower(columns[j].0);
      }
    }
    FromPairsLastWins(ps, i);
  }

  /** Whether a rule rewrites a column: its key occurs in the name or else in the current type. */
  predicate Fires(rule: Rule, name: string, current: TypeLabel) {
    Contains(name, rule.0) || Contains(Str(current), rule.0)
  }

  /** One step of the override pass on one column. */
  function ApplyRule(rule: Rule, name: string, current: TypeLabel): TypeLabel {
    if Fires(rule, name, current) then Configured(rule.1) else current
  }

  /** The type of column `name`, inferred as `t`, after the rules have been applied in order. */
  function ResolveColumn(name: string, t: TypeLabel, rules: seq<Rule>): TypeLabel
    decreases |rules|
  {
    if rules == [] then t
    else ApplyRule(rules[|rules| - 1], name, ResolveColumn(name, t, rules[..|rules| - 1]))
  }

  /** Every column of `m` resolved against the rules, in column order. */
  function ResolveAll(m: TypeMap, rules: seq<Rule>): TypeMap {
    seq(|m|, j requires 0 <= j < |m| => (m[j].0, ResolveColumn(m[j].0, m[j].1, rules)))
  }

  /**
   * The override pass of the scripts: for each rule in configuration order,
   * for each column, overwrite the column's type with the rule's target when
   * the rule's key occurs in the column name, or else in the current type.
   */
  method ResolveTypes(m: TypeMap, rules: seq<Rule>) returns (r: TypeMap)
    ensures r == ResolveAll(m, rules)
    ensures Keys(r) == Keys(m)
  {
    r := m;
    var i := 0;
    while i < |rules|
      invariant 0 <= i <= |rules|
      invariant |r| == |m|
      invariant forall j :: 0 <= j < |m| ==> r[j] == (m[j].0, ResolveColumn(m[j].0, m[j].1, rules[..i]))
    {
      var (key, target) := rules[i];
      assert rules[..i + 1][..i] == rules[..i];
      var c := 0;
      while c < |r|
        invariant 0 <= c <= |r| == |m|
        invariant forall j :: 0 <= j < c ==> r[j] == (m[j].0, ResolveColumn(m[j].0, m[j].1, rules[..i + 1]))
        invariant forall j :: c <= j < |m| ==> r[j] == (m[j].0, ResolveColumn(m[j].0, m[j].1, rules[..i]))
      {
        var column := r[c].0;
        if Contains(column, key) {
          r := r[c := (column, Configured(target))];
        } else if Contains(Str(r[c].1), key) {
          r := r[c := (column, Configured(target))];
        }
        c := c + 1;
      }
      i := i + 1;
    }
    assert rules[..|rules|] == rules;
    KeysAt(r);
    KeysAt(m);
  }

  /** A column that no rule's key matches, by name or by its inferred type, keeps its inferred type. */
  lemma {:induction false} UnmatchedColumnKeepsType(name: string, t: TypeLabel, rules: seq<Rule>)
    requires forall j :: 0 <= j < |rules| ==> !Contains(name, rules[j].0) && !Contains(Str(t), rules[j].0)
    ensures ResolveColumn(name, t, rules) == t
    decreases |rules|
  {
    if rules != [] {
      var init := rules[..|rules| - 1];
      assert forall j :: 0 <= j < |init| ==> init[j] == rules[j];
      UnmatchedColumnKeepsType(name, t, init);
    }
  }

  /** The resolved type is the inferred one or the target of some rule. */
  lemma {:induction false} ResolvedIsInferredOrTarget(name: string, t: TypeLabel, rules: seq<Rule>)
    ensures var r := ResolveColumn(name, t, rules);
      r == t || exists j :: 0 <= j < |rules| && r == Configured(rules[j].1)
    decreases |rules|
  {
    if rules != [] {
      var n := |rules| - 1;
      var init := rules[..n];
      ResolvedIsInferredOrTarget(name, t, init);
      var prev := ResolveColumn(name, t, init);
      if prev != t && !Fires(rules[n], name, prev) {
        var j :| 0 <= j < |init| && prev == Configured(init[j].1);
        assert init[j] == rules[j];
      }
    }
  }

  /**
   * A rule that fires keeps its target to the end when no later rule's key
   * occurs in the column name or in that target: the last match wins.
   */
  lemma {:induction false} LastMatchingRuleWins(name: string, t: TypeLabel, rules: seq<Rule>, i: nat)
    requires i < |rules|
    requires Fires(rules[i], name, ResolveColumn(name, t, rules[..i]))
    requires forall j :: i < j < |rules| ==> !Contains(name, rules[j].0) && !Contains(rules[i].1, rules[j].0)
    ensures ResolveColumn(name, t, rules) == Configured(rules[i].1)
    decreases |rules|
  {
    var n := |rules| - 1;
    var init := rules[..n];
    if i < n {
      assert init[..i] == rules[..i];
      assert init[i] == rules[i];
      LastMatchingRuleWins(name, t, init, i);
      assert !Fires(rules[n], name, Configured(rules[i].1));
    } else {
      assert init == rules[..i];
    }
  }

  /**
   * The resolved type, exactly: the target of the last rule that fires as the
   * rules are applied in order, or the inferred type when none fires.
   */
  lemma {:induction false} ResolvedByLastFiringRule(name: string, t: TypeLabel, rules: seq<Rule>, i: nat)
    requires i < |rules|
    requires Fires(rules[i], name, ResolveColumn(name, t, rules[..i]))
    requires forall k :: i < k < |rules| ==> !Fires(rules[k], name, ResolveColumn(name, t, rules[..k]))
    ensures ResolveColumn(name, t, rules) == Configured(rules[i].1)
    decreases |rules|
  {
    var n := |rules| - 1;
    var init := rules[..n];
    if i < n {
      assert init[..i] == rules[..i];
      assert init[i] == rules[i];
      forall k | i < k < |init|
        ensures !Fires(init[k], name, ResolveColumn(name, t, init[..k]))
      {
        assert init[..k] == rules[..k];
        assert init[k] == rules[k];
      }
      ResolvedByLastFiringRule(name, t, init, i);
      assert rules[..n] == init;
    } else {
      assert init == rules[..i];
    }
  }

  /** When no rule fires along the way the column keeps the type it was inferred with. */
  lemma {:induction false} NoFiringRuleKeepsType(name: string, t: TypeLabel, rules: seq<Rule>)
    requires forall k :: 0 <= k < |rules| ==> !Fires(rules[k], name, ResolveColumn(name, t, rules[..k]))
    ensures ResolveColumn(name, t, rules) == t
    decreases |rules|
  {
    if rules != [] {
      var n := |rules| - 1;
      var init := rules[..n];
      forall k | 0 <= k < |init|
        ensures !Fires(init[k], name, ResolveColumn(name, t, init[..k]))
      {
        assert init[..k] == rules[..k];
        assert init[k] == rules[k];
      }
      NoFiringRuleKeepsType(name, t, init);
      assert rules[..n] == init;
    }
  }

  /** A rule `id -> BIGINT` rewrites the column `id` and leaves `name` with its inferred type. */
  lemma IdRuleExample()
    ensures ResolveAll([("id", Inferred("int64")), ("name", Inferred("object"))], [("id", "BIGINT")])
         == [("id", Configured("BIGINT")), ("name", Inferred("object"))]
  {
    var rules: seq<Rule> := [("id", "BIGINT")];
    assert rules[..0] == [];
    assert Contains("id", "id");
    CharAbsent("name", "id", 0);
    CharAbsent("object", "id", 0);
  }

  /** The key `date` matches both a column named `order_date` and a column typed `datetime64`. */
  lemma DateKeyMatchesNameAndType()
    ensures Fires(("date", "DATE"), "order_date", Inferred("int64"))
    ensures Fires(("date", "DATE"), "created", Inferred("datetime64"))
  {
    assert "order_date"[6..][..4] == "date";
    assert "datetime64"[..4] == "date";
  }

  /**
   * The type match reads the current type, not the inferred one: after
   * `int -> float64` has fired, the rule `float -> DOUBLE` matches the column too.
   */
  lemma TypeMatchSeesEarlierOverride()
    ensures ResolveColumn("amount", Inferred("int64"), [("int", "float64"), ("float", "DOUBLE")])
         == Configured("DOUBLE")
  {
    var rules: seq<Rule> := [("int", "float64"), ("float", "DOUBLE")];
    assert rules[..1] == [("int", "float64")];
    assert rules[..1][..0] == [];
    assert "int64"[..3] == "int";
    assert Contains("int64", "int");
    assert "float64"[..5] == "float";
    assert Contains("float64", "float");
  }
}
