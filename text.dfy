/**
 * The handful of Python `str` operations the scripts rely on, over `string`:
 * `lower()`, `replace(a, b)`, `in`, `endswith` and `split(sep, 1)`.
 */
module Text {
  import opened Wrappers

  /** `c.lower()` for ASCII letters; every other character is kept as it is. */
  function LowerChar(c: char): (r: char)
    ensures !('A' <= r <= 'Z')
    ensures 'a' <= r <= 'z' || r == c
  {
    if 'A' <= c <= 'Z' then (c as int - 'A' as int + 'a' as int) as char else c
  }

  /** True when no character of `s` is an upper-case ASCII letter. */
  predicate IsLowerCase(s: string) {
    forall i :: 0 <= i < |s| ==> !('A' <= s[i] <= 'Z')
  }

  /** `s.lower()`. */
  function Lower(s: string): (r: string)
    ensures |r| == |s|
    ensures forall i {:trigger r[i]} :: 0 <= i < |s| ==> r[i] == LowerChar(s[i])
  {
    seq(|s|, i requires 0 <= i < |s| => LowerChar(s[i]))
  }

  lemma LowerIsLowerCase(s: string)
    ensures IsLowerCase(Lower(s))
  {
  }

  /** Lower-casing leaves a string with no upper-case letter unchanged. */
  lemma LowerOfLowerCase(s: string)
    requires IsLowerCase(s)
    ensures Lower(s) == s
  {
  }

  /** `s.replace(a, b)` for one-character `a` and `b`: every `a` becomes `b`. */
  function ReplaceChar(s: string, a: char, b: char): (r: string)
    ensures |r| == |s|
    ensures forall i {:trigger r[i]} :: 0 <= i < |s| ==> r[i] == (if s[i] == a then b else s[i])
  {
    seq(|s|, i requires 0 <= i < |s| => if s[i] == a then b else s[i])
  }

  /**
   * What `replace(a, b)` leaves behind: no `a` at all (unless `a` is `b`),
   * nothing that was not in `s` apart from `b`, and a `b` exactly where `s`
   * held an `a` or a `b`.
   */
  lemma ReplaceCharReplacesAll(s: string, a: char, b: char)
    ensures a != b ==> a !in ReplaceChar(s, a, b)
    ensures forall c :: c in ReplaceChar(s, a, b) && c != b ==> c in s
    ensures b in ReplaceChar(s, a, b) <==> a in s || b in s
  {
    var r := ReplaceChar(s, a, b);
    if a in s {
      var i :| 0 <= i < |s| && s[i] == a;
      assert r[i] == b;
    }
    if b in s {
      var i :| 0 <= i < |s| && s[i] == b;
      assert r[i] == b;
    }
  }

  /** `s.startswith(p)`. */
  predicate IsPrefix(p: string, s: string) {
    |p| <= |s| && s[..|p|] == p
  }

  /** `s.endswith(p)`. */
  predicate EndsWith(s: string, p: string) {
    |p| <= |s| && s[|s| - |p|..] == p
  }

  /** Python's `p in s`: `p` occurs in `s` at some position (the empty string occurs everywhere). */
  predicate Contains(s: string, p: string)
    decreases |s|
  {
    IsPrefix(p, s) || (|s| > 0 && Contains(s[1..], p))
  }

  /**
   * `s.replace(p, "")`: scanning from the left, every non-overlapping occurrence
   * of `p` is cut out and the scan resumes right after it.
   */
  function RemoveAll(s: string, p: string): (r: string)
    ensures |r| <= |s|
    ensures forall c :: c in r ==> c in s
    decreases |s|
  {
    if p == [] || |s| < |p| then s
    else if s[..|p|] == p then RemoveAll(s[|p|..], p)
    else [s[0]] + RemoveAll(s[1..], p)
  }

  /** `s.split(sep, 1)` unpacked into two names: `None` is the `ValueError` when `sep` is absent. */
  function SplitFirst(s: string, sep: char): (r: Option<(string, string)>)
    ensures r.None? <==> sep !in s
    ensures r.Some? ==> s == r.value.0 + [sep] + r.value.1 && sep !in r.value.0
  {
    if s == [] then None
    else if s[0] == sep then Some(([], s[1..]))
    else match SplitFirst(s[1..], sep)
      case None => None
      case Some(parts) => Some(([s[0]] + parts.0, parts.1))
  }

  /** The split is the only way to cut `s` at a separator with no separator before it. */
  lemma SplitFirstUnique(s: string, sep: char, a: string, b: string)
    requires s == a + [sep] + b && sep !in a
    ensures SplitFirst(s, sep) == Some((a, b))
  {
    var r := SplitFirst(s, sep);
    assert sep in s by { assert s[|a|] == sep; }
    var a', b' := r.value.0, r.value.1;
    assert forall k :: 0 <= k < |a| ==> s[k] == a[k] != sep;
    assert forall k :: 0 <= k < |a'| ==> s[k] == a'[k] != sep;
    assert s[|a|] == sep && s[|a'|] == sep;
    assert |a'| == |a|;
    assert a' == s[..|a|] == a;
    assert b' == s[|a| + 1..] == b;
  }

  /** A pattern with a character that does not occur in `s` does not occur in `s`. */
  lemma {:induction false} CharAbsent(s: string, p: string, j: nat)
    requires j < |p| && p[j] !in s
    ensures !Contains(s, p)
    decreases |s|
  {
    if |p| <= |s| {
      assert s[..|p|][j] == s[j];
    }
    if s != [] {
      assert forall c :: c in s[1..] ==> c in s;
      CharAbsent(s[1..], p, j);
    }
  }

  /** A string with no occurrence of `p` is left as it is by `RemoveAll`. */
  lemma {:induction false} RemoveAllAbsent(s: string, p: string)
    requires !Contains(s, p)
    ensures RemoveAll(s, p) == s
    decreases |s|
  {
    if p != [] && |s| >= |p| {
      assert s[..|p|] != p;
      RemoveAllAbsent(s[1..], p);
      assert [s[0]] + s[1..] == s;
    }
  }

  /**
   * Removing `.csv` from `s + ".csv"` gives back `s` when `s` has no `.csv` of
   * its own: `.csv` has no proper prefix that is also a suffix, so no occurrence
   * can start inside `s` and run into the extension.
   */
  lemma {:induction false} RemoveCsvSuffix(s: string)
    requires !Contains(s, ".csv")
    ensures RemoveAll(s + ".csv", ".csv") == s
    decreases |s|
  {
    var t := s + ".csv";
    if s == [] {
      assert t == ".csv";
      assert t[4..] == [];
    } else {
      assert t[|s|] == '.';
      if |s| >= 4 {
        assert t[..4] == s[..4];
        assert s[..4] != ".csv";
      } else {
        assert t[..4] != ".csv";
      }
      assert t[1..] == s[1..] + ".csv";
      RemoveCsvSuffix(s[1..]);
    }
  }

  /**
   * Every `.csv` is cut out, not only a trailing one: behind a prefix with no
   * `.csv` of its own, the first occurrence is removed and the scan goes on
   * after it.
   */
  lemma {:induction false} RemoveCsvInfix(a: string, b: string)
    requires !Contains(a, ".csv")
    ensures RemoveAll(a + ".csv" + b, ".csv") == a + RemoveAll(b, ".csv")
    decreases |a|
  {
    var t := a + ".csv" + b;
    if a == [] {
      assert t[..4] == ".csv";
      assert t[4..] == b;
    } else {
      if |a| >= 4 {
        assert t[..4] == a[..4];
        assert a[..4] != ".csv";
      } else {
        assert t[..4][|a|] == '.' != ".csv"[|a|];
      }
      assert !Contains(a[1..], ".csv");
      assert t[1..] == a[1..] + ".csv" + b;
      RemoveCsvInfix(a[1..], b);
      assert [a[0]] + a[1..] == a;
    }
  }

  /** A character that no pattern contains never helps `p` occur across a join. */
  lemma {:induction false} NotContainsJoin(a: string, c: char, b: string, p: string)
    requires !Contains(a, p) && !Contains(b, p) && c !in p
    ensures !Contains(a + [c] + b, p)
    decreases |a|
  {
    var s := a + [c] + b;
    assert p != [] by { assert IsPrefix([], a); }
    if a == [] {
      assert s == [c] + b;
      assert s[0] == c && p[0] != c;
      assert s[1..] == b;
    } else {
      if |p| <= |a| {
        assert s[..|p|] == a[..|p|] != p;
      } else if |p| <= |s| {
        assert s[..|p|][|a|] == c != p[|a|];
      }
      assert !IsPrefix(p, s);
      assert !Contains(a[1..], p);
      NotContainsJoin(a[1..], c, b, p);
      assert s[1..] == a[1..] + [c] + b;
    }
  }
}
