/** Column deduplication as `np.unique(x, axis=1)` performs it: the distinct
    columns of `x`, sorted in lexicographic order (first coordinate most
    significant). Columns are integer vectors (`seq<int>`). */
module Unique {

  /** Strict lexicographic order on integer vectors; a proper prefix is smaller. */
  predicate LexLess(a: seq<int>, b: seq<int>)
    decreases |a|
  {
    |b| > 0 && (|a| == 0 || a[0] < b[0] || (a[0] == b[0] && LexLess(a[1..], b[1..])))
  }

  lemma {:induction false} LexIrreflexive(a: seq<int>)
    ensures !LexLess(a, a)
    decreases |a|
  {
    if |a| > 0 {
      LexIrreflexive(a[1..]);
    }
  }

  lemma {:induction false} LexTransitive(a: seq<int>, b: seq<int>, c: seq<int>)
    requires LexLess(a, b) && LexLess(b, c)
    ensures LexLess(a, c)
    decreases |a|
  {
    if |a| > 0 && a[0] == b[0] && b[0] == c[0] {
      LexTransitive(a[1..], b[1..], c[1..]);
    }
  }

  /** Any two different vectors are ordered one way or the other. */
  lemma {:induction false} LexTotal(a: seq<int>, b: seq<int>)
    requires a != b
    ensures LexLess(a, b) || LexLess(b, a)
    decreases |a|
  {
    if |a| > 0 && |b| > 0 && a[0] == b[0] {
      assert a == [a[0]] + a[1..] && b == [b[0]] + b[1..];
      LexTotal(a[1..], b[1..]);
    }
  }

  /** Every column is strictly smaller than every later column. */
  predicate StrictlySorted(s: seq<seq<int>>)
  {
    forall i, j :: 0 <= i < j < |s| ==> LexLess(s[i], s[j])
  }

  /** No entry occurs twice. */
  predicate Distinct<T(==)>(s: seq<T>)
  {
    forall i, j :: 0 <= i < j < |s| ==> s[i] != s[j]
  }

  lemma SortedIsDistinct(s: seq<seq<int>>)
    requires StrictlySorted(s)
    ensures Distinct(s)
  {
    forall i, j | 0 <= i < j < |s| ensures s[i] != s[j] {
      LexIrreflexive(s[i]);
    }
  }

  /** A sequence without repeated entries has as many entries as distinct values. */
  lemma {:induction false} DistinctCardinality<T>(s: seq<T>)
    requires Distinct(s)
    ensures |set x | x in s| == |s|
  {
    if |s| > 0 {
      var t := s[1..];
      DistinctCardinality(t);
      assert (set x | x in s) == (set x | x in t) + {s[0]};
      assert s[0] !in t by {
        forall k | 0 <= k < |t| ensures t[k] != s[0] {
          assert t[k] == s[k + 1];
        }
      }
    }
  }

  /** A sequence has at most as many distinct values as entries. */
  lemma {:induction false} CardinalityBound<T>(s: seq<T>)
    ensures |set x | x in s| <= |s|
  {
    if |s| > 0 {
      var t := s[1..];
      CardinalityBound(t);
      assert (set x | x in s) == (set x | x in t) + {s[0]};
    }
  }

  /** Insert column `x` into a strictly sorted sequence, unless it is already there. */
  function Insert(s: seq<seq<int>>, x: seq<int>): (r: seq<seq<int>>)
    requires StrictlySorted(s)
    ensures StrictlySorted(r)
    ensures forall y :: y in r <==> y in s || y == x
    decreases |s|
  {
    if |s| == 0 then [x]
    else if x == s[0] then s
    else if LexLess(x, s[0]) then
      assert forall k :: 0 < k < |s| ==> LexLess(x, s[k]) by {
        forall k | 0 < k < |s| ensures LexLess(x, s[k]) { LexTransitive(x, s[0], s[k]); }
      }
      [x] + s
    else
      assert LexLess(s[0], x) by { LexTotal(x, s[0]); }
      var t := Insert(s[1..], x);
      assert forall y :: y in s <==> y == s[0] || y in s[1..] by {
        assert s == [s[0]] + s[1..];
      }
      assert forall k :: 0 <= k < |t| ==> LexLess(s[0], t[k]) by {
        forall k | 0 <= k < |t| ensures LexLess(s[0], t[k]) {
          assert t[k] in t;
          if t[k] != x {
            var j :| 0 <= j < |s| - 1 && s[1..][j] == t[k];
            assert s[j + 1] == t[k];
          }
        }
      }
      [s[0]] + t
  }

  /** The distinct columns of `s` in increasing lexicographic order: exactly
      the values of `s`, nothing added and nothing lost. */
  function Unique(s: seq<seq<int>>): (r: seq<seq<int>>)
    ensures StrictlySorted(r)
    ensures forall y :: y in r <==> y in s
    decreases |s|
  {
    if |s| == 0 then []
    else
      var r := Insert(Unique(s[..|s| - 1]), s[|s| - 1]);
      assert s == s[..|s| - 1] + [s[|s| - 1]];
      r
  }

  /** Deduplication never produces more columns than it was given, and every
      column of its result occurs exactly once. */
  lemma UniqueLength(s: seq<seq<int>>)
    ensures Distinct(Unique(s))
    ensures |Unique(s)| == |set y | y in s| <= |s|
  {
    SortedIsDistinct(Unique(s));
    DistinctCardinality(Unique(s));
    assert (set y | y in Unique(s)) == (set y | y in s);
    CardinalityBound(s);
  }
}
