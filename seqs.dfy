/** Column arithmetic used by the weighting engine: the sum of a column, its
    distinct values in order of first appearance, element-wise division, and
    the selection of the rows that share one group key. */
module Seqs {

  /** Every value of the column is strictly positive. */
  predicate AllPositive(s: seq<real>)
  {
    forall i :: 0 <= i < |s| ==> s[i] > 0.0
  }

  /** The sum of a column, accumulated from its last row. */
  function Sum(s: seq<real>): real
  {
    if s == [] then 0.0 else Sum(s[..|s| - 1]) + s[|s| - 1]
  }

  lemma SumSnoc(s: seq<real>, x: real)
    ensures Sum(s + [x]) == Sum(s) + x
  {
    assert (s + [x])[..|s|] == s;
  }

  lemma {:induction false} SumPositive(s: seq<real>)
    requires s != [] && AllPositive(s)
    ensures Sum(s) > 0.0
  {
    var n := |s| - 1;
    if n > 0 {
      SumPositive(s[..n]);
    } else {
      assert s[..n] == [];
    }
  }

  /** No value of a positive column exceeds its sum. */
  lemma {:induction false} MemberAtMostSum(s: seq<real>, x: real)
    requires AllPositive(s) && x in s
    ensures x <= Sum(s)
  {
    var n := |s| - 1;
    assert s == s[..n] + [s[n]];
    if n == 0 {
      assert s[..n] == [];
    } else if s[n] == x {
      SumPositive(s[..n]);
    } else {
      assert x in s[..n];
      MemberAtMostSum(s[..n], x);
    }
  }

  /** Element-wise division of a column by a constant. */
  function Divide(s: seq<real>, c: real): (r: seq<real>)
    requires c != 0.0
    ensures |r| == |s|
    ensures forall i :: 0 <= i < |s| ==> r[i] == s[i] / c
  {
    seq(|s|, i requires 0 <= i < |s| => s[i] / c)
  }

  /** Dividing every row by `c` divides the sum by `c`. */
  lemma {:induction false} SumDivide(s: seq<real>, c: real)
    requires c != 0.0
    ensures Sum(Divide(s, c)) == Sum(s) / c
  {
    if s != [] {
      var n := |s| - 1;
      assert Divide(s, c)[..n] == Divide(s[..n], c);
      SumDivide(s[..n], c);
      assert Sum(s[..n]) / c + s[n] / c == (Sum(s[..n]) + s[n]) / c;
    }
  }

  /** The distinct values of a column, in order of first appearance. */
  function Distinct(s: seq<real>): (r: seq<real>)
    ensures forall x :: x in r <==> x in s
    ensures forall i, j :: 0 <= i < j < |r| ==> r[i] != r[j]
    ensures AllPositive(s) ==> AllPositive(r)
  {
    if s == [] then []
    else
      var n := |s| - 1;
      var d := Distinct(s[..n]);
      assert s == s[..n] + [s[n]];
      if s[n] in d then d else d + [s[n]]
  }

  /** Division by a non-zero constant keeps values apart. */
  lemma DivideMember(d: seq<real>, c: real, x: real)
    requires c != 0.0
    ensures x / c in Divide(d, c) <==> x in d
  {
    if x / c in Divide(d, c) {
      var j :| 0 <= j < |d| && Divide(d, c)[j] == x / c;
      var y := d[j];
      assert y / c == x / c;
      assert y == (y / c) * c;
      assert x == (x / c) * c;
      assert y == x;
      assert y in d;
    }
    if x in d {
      var j :| 0 <= j < |d| && d[j] == x;
      assert Divide(d, c)[j] == x / c;
      assert x / c in Divide(d, c);
    }
  }

  /** Division by a non-zero constant is injective, so it maps the distinct
      values of a column onto the distinct values of the divided column. */
  lemma {:induction false} DistinctDivide(s: seq<real>, c: real)
    requires c != 0.0
    ensures Distinct(Divide(s, c)) == Divide(Distinct(s), c)
  {
    if s != [] {
      var n := |s| - 1;
      var d := Distinct(s[..n]);
      assert Divide(s, c)[..n] == Divide(s[..n], c);
      DistinctDivide(s[..n], c);
      DivideMember(d, c, s[n]);
      if s[n] !in d {
        assert Divide(d + [s[n]], c) == Divide(d, c) + [s[n] / c];
      }
    }
  }

  /** The values of the rows whose key is `k`, in row order: one group of a
      group-by on `keys`. */
  function Select<K(==)>(vals: seq<real>, keys: seq<K>, k: K): (r: seq<real>)
    requires |vals| == |keys|
    ensures r == [] <==> k !in keys
    ensures AllPositive(vals) ==> AllPositive(r)
  {
    if vals == [] then []
    else
      var n := |vals| - 1;
      assert keys == keys[..n] + [keys[n]];
      assert vals == vals[..n] + [vals[n]];
      Select(vals[..n], keys[..n], k) + (if keys[n] == k then [vals[n]] else [])
  }

  /** Selecting from a prefix of the rows is a prefix step of the selection. */
  lemma SelectPrefix<K>(vals: seq<real>, keys: seq<K>, k: K, n: nat)
    requires |vals| == |keys| && n < |vals|
    ensures Select(vals[..n + 1], keys[..n + 1], k)
         == Select(vals[..n], keys[..n], k) + (if keys[n] == k then [vals[n]] else [])
  {
    assert vals[..n + 1][..n] == vals[..n];
    assert keys[..n + 1][..n] == keys[..n];
  }

  /** Multiplication by a column-wide factor, named so that the proofs below
      stay within linear arithmetic. */
  function Times(x: real, t: real): real
  {
    x * t
  }

  lemma TimesAdd(p: real, x: real, t: real)
    ensures Times(p, t) + Times(x, t) == Times(p + x, t)
  {
  }

  /** The last row adds its value to the sum of its own group only. */
  lemma SumSelectStep<K>(vals: seq<real>, keys: seq<K>, k: K)
    requires |vals| == |keys| && keys != []
    ensures var n := |keys| - 1;
      Sum(Select(vals, keys, k))
      == Sum(Select(vals[..n], keys[..n], k)) + (if keys[n] == k then vals[n] else 0.0)
  {
    var n := |keys| - 1;
    var s := Select(vals[..n], keys[..n], k);
    if keys[n] == k {
      assert Select(vals, keys, k) == s + [vals[n]];
      SumSnoc(s, vals[n]);
    } else {
      assert Select(vals, keys, k) == s;
    }
  }

  /** Selecting one group from a column that, on that group, is another
      column times `t` multiplies the group's sum by `t`. */
  lemma {:induction false} SumSelectTimes<K>(keys: seq<K>, a: seq<real>, b: seq<real>, k: K, t: real)
    requires |keys| == |a| == |b|
    requires forall i :: 0 <= i < |a| && keys[i] == k ==> a[i] == Times(b[i], t)
    ensures Sum(Select(a, keys, k)) == Times(Sum(Select(b, keys, k)), t)
  {
    if a != [] {
      var m := |a| - 1;
      SumSelectTimes(keys[..m], a[..m], b[..m], k, t);
      SumSelectStep(a, keys, k);
      SumSelectStep(b, keys, k);
      if keys[m] == k {
        TimesAdd(Sum(Select(b[..m], keys[..m], k)), b[m], t);
      }
    }
  }

  lemma PrefixSnoc(s: seq<real>, i: nat)
    requires i < |s|
    ensures s[..i + 1] == s[..i] + [s[i]]
  {
  }

  /** The rows of `s` at the positions `idx`, in the order of `idx`. */
  function Pick<T>(s: seq<T>, idx: seq<nat>): (r: seq<T>)
    requires forall j :: 0 <= j < |idx| ==> idx[j] < |s|
    ensures |r| == |idx|
    ensures forall j :: 0 <= j < |idx| ==> r[j] == s[idx[j]]
  {
    seq(|idx|, j requires 0 <= j < |idx| => s[idx[j]])
  }
}
