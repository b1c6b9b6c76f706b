/** The regular grid that `np.meshgrid` builds from one sequence of axis
    values used for every axis (each axis gets its own, identical, linspace
    result), flattened to one column per grid point: every
    vector of a given length whose coordinates are drawn from the axis values.
    The column order (last coordinate fastest) is this model's own; the
    sampler sorts its output, so the order never shows. */
module Grid {
  import opened Unique

  /** `b` raised to the power `e`. */
  function Power(b: int, e: nat): (r: int)
    decreases e
  {
    if e == 0 then 1 else Power(b, e - 1) * b
  }

  /** Every coordinate of `v` is one of the axis values. */
  predicate OnGrid(v: seq<int>, vals: seq<int>)
  {
    forall i :: 0 <= i < |v| ==> v[i] in vals
  }

  /** Every column of `p` extended by every axis value, one column per pair. */
  function Extend(p: seq<seq<int>>, vals: seq<int>): (g: seq<seq<int>>)
    decreases |p|
  {
    if |p| == 0 then []
    else seq(|vals|, k requires 0 <= k < |vals| => p[0] + [vals[k]]) + Extend(p[1..], vals)
  }

  /** The `d`-dimensional grid over `vals`: one column per combination of axis values. */
  function Product(d: nat, vals: seq<int>): (g: seq<seq<int>>)
    decreases d
  {
    if d == 0 then [[]] else Extend(Product(d - 1, vals), vals)
  }

  /** Extension yields one column per (column, axis value) pair. */
  lemma {:induction false} ExtendLength(p: seq<seq<int>>, vals: seq<int>)
    ensures |Extend(p, vals)| == |p| * |vals|
    decreases |p|
  {
    if |p| > 0 {
      ExtendLength(p[1..], vals);
      assert (|p| - 1) * |vals| + |vals| == |p| * |vals|;
    }
  }

  /** A column of the extension is a column of `p` followed by an axis value, and conversely. */
  lemma {:induction false} ExtendMembers(p: seq<seq<int>>, vals: seq<int>, v: seq<int>)
    ensures v in Extend(p, vals) <==> |v| > 0 && v[..|v| - 1] in p && v[|v| - 1] in vals
    decreases |p|
  {
    if |p| > 0 {
      var row := seq(|vals|, k requires 0 <= k < |vals| => p[0] + [vals[k]]);
      assert Extend(p, vals) == row + Extend(p[1..], vals);
      ExtendMembers(p[1..], vals, v);
      assert p == [p[0]] + p[1..];
      if |v| > 0 && v[..|v| - 1] == p[0] && v[|v| - 1] in vals {
        var k :| 0 <= k < |vals| && vals[k] == v[|v| - 1];
        assert v == p[0] + [vals[k]] == row[k];
      }
    }
  }

  /** With distinct axis values and distinct columns, extension repeats nothing. */
  lemma {:induction false} ExtendDistinct(p: seq<seq<int>>, vals: seq<int>)
    requires Distinct(p) && Distinct(vals)
    ensures Distinct(Extend(p, vals))
    decreases |p|
  {
    if |p| > 0 {
      var row := seq(|vals|, k requires 0 <= k < |vals| => p[0] + [vals[k]]);
      var rest := Extend(p[1..], vals);
      assert Extend(p, vals) == row + rest;
      ExtendDistinct(p[1..], vals);
      assert p[0] !in p[1..] by {
        forall k | 0 <= k < |p| - 1 ensures p[1..][k] != p[0] { assert p[1..][k] == p[k + 1]; }
      }
      forall i, j | 0 <= i < j < |row + rest| ensures (row + rest)[i] != (row + rest)[j] {
        if j < |row| {
          assert row[i][|p[0]|] == vals[i] && row[j][|p[0]|] == vals[j];
        } else if i < |row| {
          var v := (row + rest)[j];
          assert v in rest;
          ExtendMembers(p[1..], vals, v);
          assert row[i][..|row[i]| - 1] == p[0];
        } else {
          assert (row + rest)[i] == rest[i - |row|] && (row + rest)[j] == rest[j - |row|];
        }
      }
    }
  }

  /** The grid has `|vals|^d` columns. */
  lemma {:induction false} ProductLength(d: nat, vals: seq<int>)
    ensures |Product(d, vals)| == Power(|vals|, d)
    decreases d
  {
    if d > 0 {
      ProductLength(d - 1, vals);
      ExtendLength(Product(d - 1, vals), vals);
    }
  }

  /** The grid columns are exactly the length-`d` vectors over the axis values. */
  lemma {:induction false} ProductMembers(d: nat, vals: seq<int>, v: seq<int>)
    ensures v in Product(d, vals) <==> |v| == d && OnGrid(v, vals)
    decreases d
  {
    if d == 0 {
      assert |v| == 0 ==> v == [];
    } else {
      ExtendMembers(Product(d - 1, vals), vals, v);
      if |v| > 0 {
        var w := v[..|v| - 1];
        ProductMembers(d - 1, vals, w);
        if |v| == d {
          assert OnGrid(v, vals) <==> OnGrid(w, vals) && v[d - 1] in vals by {
            if OnGrid(w, vals) && v[d - 1] in vals {
              forall i | 0 <= i < d ensures v[i] in vals {
                if i < d - 1 { assert v[i] == w[i]; }
              }
            }
            if OnGrid(v, vals) {
              forall i | 0 <= i < d - 1 ensures w[i] in vals {
                assert w[i] == v[i];
              }
            }
          }
        }
      }
    }
  }

  /** With distinct axis values, no combination occurs twice. */
  lemma {:induction false} ProductDistinct(d: nat, vals: seq<int>)
    requires Distinct(vals)
    ensures Distinct(Product(d, vals))
    decreases d
  {
    if d == 0 {
      assert |Product(d, vals)| == 1;
    } else {
      var p := Product(d - 1, vals);
      ProductDistinct(d - 1, vals);
      ExtendDistinct(p, vals);
    }
  }

  /** The grid holds every length-`d` vector over distinct axis values exactly
      once, `|vals|^d` columns in all. */
  lemma ProductExactlyOnce(d: nat, vals: seq<int>)
    requires Distinct(vals)
    ensures |Product(d, vals)| == Power(|vals|, d)
    ensures Distinct(Product(d, vals))
    ensures forall v :: v in Product(d, vals) <==> |v| == d && OnGrid(v, vals)
  {
    ProductLength(d, vals);
    ProductDistinct(d, vals);
    forall v ensures v in Product(d, vals) <==> |v| == d && OnGrid(v, vals) {
      ProductMembers(d, vals, v);
    }
  }
}
