/**
 * A Python `dict` with string keys: an insertion-ordered sequence of
 * (key, value) pairs. Assigning to a present key replaces its value where it
 * stands; assigning to a new key appends it.
 */
module OrderedDict {
  import opened Wrappers

  type Dict<V> = seq<(string, V)>

  /** `list(d.keys())`. */
  function Keys<V>(d: Dict<V>): seq<string>
    decreases |d|
  {
    if d == [] then [] else [d[0].0] + Keys(d[1..])
  }

  /** The key list holds the key of every pair, position by position. */
  lemma {:induction false} KeysAt<V>(d: Dict<V>)
    ensures |Keys(d)| == |d|
    ensures forall i :: 0 <= i < |d| ==> Keys(d)[i] == d[i].0
    decreases |d|
  {
    if d != [] {
      KeysAt(d[1..]);
    }
  }

  /** No key appears twice, as in every `dict`. */
  predicate DistinctKeys<V>(d: Dict<V>) {
    forall i, j :: 0 <= i < j < |d| ==> d[i].0 != d[j].0
  }

  /** `d.get(k)`: the value stored under `k`, if any. */
  function Get<V>(d: Dict<V>, k: string): Option<V>
    decreases |d|
  {
    if d == [] then None
    else if d[0].0 == k then Some(d[0].1)
    else Get(d[1..], k)
  }

  /** `d.get(k)` finds nothing exactly when `k` is not a key of `d`. */
  lemma {:induction false} GetNone<V>(d: Dict<V>, k: string)
    ensures Get(d, k).None? <==> k !in Keys(d)
    decreases |d|
  {
    if d != [] && d[0].0 != k {
      GetNone(d[1..], k);
    }
  }

  /** `d[k] = v`. */
  function Put<V>(d: Dict<V>, k: string, v: V): Dict<V>
    decreases |d|
  {
    if d == [] then [(k, v)]
    else if d[0].0 == k then [(k, v)] + d[1..]
    else [d[0]] + Put(d[1..], k, v)
  }

  /** Assigning to a present key keeps the key order; assigning to a new key appends it. */
  lemma {:induction false} PutKeys<V>(d: Dict<V>, k: string, v: V)
    ensures Keys(Put(d, k, v)) == if k in Keys(d) then Keys(d) else Keys(d) + [k]
    decreases |d|
  {
    if d == [] {
    } else if d[0].0 == k {
      assert ([(k, v)] + d[1..])[1..] == d[1..];
    } else {
      var rest := Put(d[1..], k, v);
      PutKeys(d[1..], k, v);
      assert ([d[0]] + rest)[1..] == rest;
    }
  }

  /** After `d[k] = v` the key `k` holds `v` and every other key holds what it held. */
  lemma {:induction false} PutGet<V>(d: Dict<V>, k: string, v: V, k': string)
    ensures Get(Put(d, k, v), k') == if k' == k then Some(v) else Get(d, k')
    decreases |d|
  {
    if d != [] && d[0].0 != k {
      PutGet(d[1..], k, v, k');
    }
  }

  /** Assignment keeps keys distinct. */
  lemma {:induction false} PutDistinct<V>(d: Dict<V>, k: string, v: V)
    requires DistinctKeys(d)
    ensures DistinctKeys(Put(d, k, v))
  {
    var r := Put(d, k, v);
    var ks, rs := Keys(d), Keys(r);
    PutKeys(d, k, v);
    KeysAt(d);
    KeysAt(r);
    forall i, j | 0 <= i < j < |r| ensures r[i].0 != r[j].0 {
      assert rs[i] == r[i].0 && rs[j] == r[j].0;
      if k !in ks && j == |d| {
        assert rs[i] == ks[i] && rs[j] == k;
      } else {
        assert rs[i] == ks[i] && rs[j] == ks[j];
      }
    }
  }

  /** The dictionary built by assigning `ps` one pair at a time, in order. */
  function FromPairs<V>(ps: seq<(string, V)>): Dict<V>
    decreases |ps|
  {
    if ps == [] then []
    else Put(FromPairs(ps[..|ps| - 1]), ps[|ps| - 1].0, ps[|ps| - 1].1)
  }

  /** A dictionary built by assignments has no duplicate key. */
  lemma {:induction false} FromPairsDistinct<V>(ps: seq<(string, V)>)
    ensures DistinctKeys(FromPairs(ps))
    decreases |ps|
  {
    if ps != [] {
      var n := |ps| - 1;
      FromPairsDistinct(ps[..n]);
      PutDistinct(FromPairs(ps[..n]), ps[n].0, ps[n].1);
    }
  }

  /** The keys of `FromPairs(ps)` are exactly the keys assigned in `ps`. */
  lemma {:induction false} FromPairsKeys<V>(ps: seq<(string, V)>, k: string)
    ensures k in Keys(FromPairs(ps)) <==> exists i :: 0 <= i < |ps| && ps[i].0 == k
    decreases |ps|
  {
    if ps != [] {
      var init := ps[..|ps| - 1];
      FromPairsKeys(init, k);
      PutKeys(FromPairs(init), ps[|ps| - 1].0, ps[|ps| - 1].1);
      if exists i :: 0 <= i < |init| && init[i].0 == k {
        var i :| 0 <= i < |init| && init[i].0 == k;
        assert ps[i].0 == k;
      }
      if exists i :: 0 <= i < |ps| && ps[i].0 == k {
        var i :| 0 <= i < |ps| && ps[i].0 == k;
        if i < |init| {
          assert init[i].0 == k;
        }
      }
    }
  }

  /** A key assigned several times holds the value of its last assignment. */
  lemma {:induction false} FromPairsLastWins<V>(ps: seq<(string, V)>, i: nat)
    requires i < |ps|
    requires forall j :: i < j < |ps| ==> ps[j].0 != ps[i].0
    ensures Get(FromPairs(ps), ps[i].0) == Some(ps[i].1)
    decreases |ps|
  {
    var n := |ps| - 1;
    var init := ps[..n];
    var k := ps[i].0;
    var prev := FromPairs(init);
    assert FromPairs(ps) == Put(prev, ps[n].0, ps[n].1);
    PutGet(prev, ps[n].0, ps[n].1, k);
    if i < n {
      assert init[i] == ps[i];
      FromPairsLastWins(init, i);
    }
  }

  /** A key that `Get` finds sits at some position of the dictionary with that value. */
  lemma {:induction false} GetFound<V>(d: Dict<V>, k: string)
    requires Get(d, k).Some?
    ensures exists i :: 0 <= i < |d| && d[i] == (k, Get(d, k).value)
    decreases |d|
  {
    if d[0].0 != k {
      GetFound(d[1..], k);
      var i :| 0 <= i < |d[1..]| && d[1..][i] == (k, Get(d[1..], k).value);
      assert d[i + 1] == d[1..][i];
    }
  }

  /** Each position after `d[k] = v` holds the new pair or the pair that stood there. */
  lemma {:induction false} PutValues<V>(d: Dict<V>, k: string, v: V, c: nat)
    requires c < |Put(d, k, v)|
    ensures Put(d, k, v)[c] == (k, v) || (c < |d| && Put(d, k, v)[c] == d[c])
    decreases |d|
  {
    if d != [] && d[0].0 != k && c > 0 {
      PutValues(d[1..], k, v, c - 1);
    }
  }

  /** A property every value of a comprehension has holds of every value of the dict it builds. */
  lemma {:induction false} FromPairsValues<V>(ps: seq<(string, V)>, c: nat, P: V -> bool)
    requires forall i :: 0 <= i < |ps| ==> P(ps[i].1)
    requires c < |FromPairs(ps)|
    ensures P(FromPairs(ps)[c].1)
    decreases |ps|
  {
    var n := |ps| - 1;
    var prev := FromPairs(ps[..n]);
    PutValues(prev, ps[n].0, ps[n].1, c);
    if c < |prev| && FromPairs(ps)[c] == prev[c] {
      FromPairsValues(ps[..n], c, P);
    }
  }
}
