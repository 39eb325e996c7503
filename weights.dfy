/** The static helpers of `GeoModel`: Euclidean distance, ring binning
    (`relative_distance`), recency buckets (`time_gap`) and inverse-power
    weighting (`inverse_weight`). Values are exact reals and the exponent is
    a natural number. */
module Weights {
  import opened Seqs

  // ---------------------------------------------------------------------
  // Distance

  /** `d` is the Euclidean distance between the center `(xi, yi)` and the
      point `(lat, lon)`: non-negative, and its square is the sum of the
      squared coordinate differences. */
  predicate IsEuclidean(center: (real, real), lat: real, lon: real, d: real)
  {
    d >= 0.0 && d * d == (lat - center.0) * (lat - center.0) + (lon - center.1) * (lon - center.1)
  }

  /** The largest value of a non-empty column (Python's `max`). */
  function MaxReal(xs: seq<real>): (m: real)
    requires xs != []
    ensures m in xs
    ensures forall x :: x in xs ==> x <= m
  {
    var n := |xs| - 1;
    assert xs == xs[..n] + [xs[n]];
    if n == 0 then xs[0]
    else
      var m := MaxReal(xs[..n]);
      if xs[n] > m then xs[n] else m
  }

  /** The ring thresholds grow strictly. */
  predicate StrictlyIncreasing(rs: seq<real>)
  {
    forall i, j :: 0 <= i < j < |rs| ==> rs[i] < rs[j]
  }

  // ---------------------------------------------------------------------
  // Ring binning

  /** The left insertion point of `d` in the ascending thresholds `rs`, as
      numpy's `searchsorted` returns it by default: the number of leading
      thresholds strictly below `d`. */
  function SearchSorted(rs: seq<real>, d: real): (i: nat)
    ensures i <= |rs|
    ensures forall j :: 0 <= j < i ==> rs[j] < d
    ensures i < |rs| ==> d <= rs[i]
  {
    if rs == [] || d <= rs[0] then 0 else 1 + SearchSorted(rs[1..], d)
  }

  /** The number of thresholds strictly below `d`, counted from the last one. */
  function CountBelow(rs: seq<real>, d: real): nat
  {
    if rs == [] then 0
    else CountBelow(rs[..|rs| - 1], d) + (if rs[|rs| - 1] < d then 1 else 0)
  }

  /** `relative_distance` for one row: the 1-based ring of distance `d`. */
  function RelativeDistance(d: real, rs: seq<real>): (k: int)
    ensures 1 <= k <= |rs| + 1
    ensures forall j :: 0 <= j < k - 1 ==> rs[j] < d
    ensures k <= |rs| ==> d <= rs[k - 1]
  {
    1 + SearchSorted(rs, d)
  }

  /** A count of the thresholds below `d` when every threshold before `p` is
      below it and none from `p` on is. */
  lemma {:induction false} CountBelowSplit(rs: seq<real>, d: real, p: nat)
    requires p <= |rs|
    requires forall j :: 0 <= j < p ==> rs[j] < d
    requires forall j :: p <= j < |rs| ==> d <= rs[j]
    ensures CountBelow(rs, d) == p
  {
    if rs != [] {
      var n := |rs| - 1;
      if p == |rs| {
        CountBelowSplit(rs[..n], d, n);
      } else {
        CountBelowSplit(rs[..n], d, p);
      }
    }
  }

  /** On ascending thresholds, `relative_distance` is one plus the number of
      thresholds strictly below the distance. */
  lemma RelativeDistanceCounts(d: real, rs: seq<real>)
    requires StrictlyIncreasing(rs)
    ensures RelativeDistance(d, rs) == 1 + CountBelow(rs, d)
  {
    CountBelowSplit(rs, d, SearchSorted(rs, d));
  }

  /** A distance equal to a threshold falls in that threshold's (inner) ring. */
  lemma {:induction false} RelativeDistanceAtThreshold(rs: seq<real>, j: nat)
    requires StrictlyIncreasing(rs) && j < |rs|
    ensures RelativeDistance(rs[j], rs) == j + 1
  {
    if j > 0 {
      assert rs[0] < rs[j];
      assert rs[1..][j - 1] == rs[j];
      RelativeDistanceAtThreshold(rs[1..], j - 1);
    }
  }

  /** A farther point never falls in a nearer ring. */
  lemma {:induction false} RelativeDistanceMonotone(d1: real, d2: real, rs: seq<real>)
    requires d1 <= d2
    ensures RelativeDistance(d1, rs) <= RelativeDistance(d2, rs)
  {
    if rs != [] && d1 > rs[0] {
      RelativeDistanceMonotone(d1, d2, rs[1..]);
    }
  }

  /** A distance no larger than some threshold gets a ring within the list. */
  lemma {:induction false} RelativeDistanceInRange(d: real, rs: seq<real>)
    requires rs != [] && d <= MaxReal(rs)
    ensures 1 <= RelativeDistance(d, rs) <= |rs|
  {
    if d > rs[0] {
      var m := MaxReal(rs);
      var j :| 0 <= j < |rs| && rs[j] == m;
      assert j > 0;
      assert rs[1..][j - 1] == m;
      assert m in rs[1..];
      assert d <= MaxReal(rs[1..]);
      RelativeDistanceInRange(d, rs[1..]);
    }
  }

  // ---------------------------------------------------------------------
  // Recency buckets

  /** The length of one recency bucket in seconds. */
  function TimeUnit(uom: string): (u: nat)
    ensures uom == "weekly" ==> u == 604800
    ensures uom != "weekly" ==> u == 3600
  {
    if uom == "weekly" then 3600 * 24 * 7 else 3600
  }

  /** The latest timestamp of a non-empty column (`dates.max()`): `MaxReal`
      at `int`, since timestamps are whole seconds. */
  function MaxInt(xs: seq<int>): (m: int)
    requires xs != []
    ensures m in xs
    ensures forall x :: x in xs ==> x <= m
  {
    var n := |xs| - 1;
    assert xs == xs[..n] + [xs[n]];
    if n == 0 then xs[0]
    else
      var m := MaxInt(xs[..n]);
      if xs[n] > m then xs[n] else m
  }

  /** `time_gap`: one plus the number of whole units between each timestamp
      (in seconds) and the latest one. */
  function TimeGaps(dates: seq<int>, uom: string): (gaps: seq<int>)
    ensures |gaps| == |dates|
    ensures forall i :: 0 <= i < |dates| ==> gaps[i] >= 1
    ensures forall i :: 0 <= i < |dates| && dates[i] == MaxInt(dates) ==> gaps[i] == 1
  {
    if dates == [] then []
    else
      var latest := MaxInt(dates);
      ElapsedBuckets(dates, latest, TimeUnit(uom));
      seq(|dates|, i requires 0 <= i < |dates| => 1 + (latest - dates[i]) / TimeUnit(uom))
  }

  /** No timestamp lies after the latest one, so no elapsed bucket count is
      negative. */
  lemma ElapsedBuckets(dates: seq<int>, latest: int, u: nat)
    requires u > 0 && forall x :: x in dates ==> x <= latest
    ensures forall i :: 0 <= i < |dates| ==> (latest - dates[i]) / u >= 0
  {
    forall i | 0 <= i < |dates| ensures (latest - dates[i]) / u >= 0 {
      assert dates[i] in dates;
    }
  }

  /** The gap is one plus the floor of the elapsed time in units: for a row
      with gap `g`, at least `g - 1` whole units and fewer than `g` units
      separate it from the latest timestamp. */
  lemma TimeGapBucket(dates: seq<int>, uom: string, i: nat)
    requires i < |dates|
    ensures (TimeGaps(dates, uom)[i] - 1) * TimeUnit(uom) <= MaxInt(dates) - dates[i]
    ensures MaxInt(dates) - dates[i] < TimeGaps(dates, uom)[i] * TimeUnit(uom)
  {
    var u := TimeUnit(uom);
    var e := MaxInt(dates) - dates[i];
    assert dates[i] in dates;
    assert e == (e / u) * u + e % u;
  }

  /** An older row never gets a smaller gap. */
  lemma TimeGapAntitone(dates: seq<int>, uom: string, i: nat, j: nat)
    requires i < |dates| && j < |dates| && dates[i] <= dates[j]
    ensures TimeGaps(dates, uom)[i] >= TimeGaps(dates, uom)[j]
  {
    var g := TimeGaps(dates, uom);
    TimeGapBucket(dates, uom, i);
    TimeGapBucket(dates, uom, j);
    if uom == "weekly" {
      assert TimeUnit(uom) == 604800;
    } else {
      assert TimeUnit(uom) == 3600;
    }
  }

  // ---------------------------------------------------------------------
  // Inverse-power weights

  /** `x ** n` for a natural exponent. */
  function Pow(x: real, n: nat): real
  {
    if n == 0 then 1.0 else x * Pow(x, n - 1)
  }

  lemma {:induction false} PowPositive(x: real, n: nat)
    requires x > 0.0
    ensures Pow(x, n) > 0.0
  {
    if n > 0 {
      PowPositive(x, n - 1);
    }
  }

  lemma {:induction false} PowMonotone(x: real, y: real, n: nat)
    requires 0.0 < x <= y
    ensures Pow(x, n) <= Pow(y, n)
  {
    if n > 0 {
      PowMonotone(x, y, n - 1);
      PowPositive(x, n - 1);
      var a, b := Pow(x, n - 1), Pow(y, n - 1);
      assert x * a <= x * b;
      assert x * b <= y * b;
    }
  }

  /** `1 / v ** alfa` for one value. */
  function Inverse(v: real, alpha: nat): (w: real)
    requires v > 0.0
    ensures w > 0.0
  {
    PowPositive(v, alpha);
    1.0 / Pow(v, alpha)
  }

  /** A larger value never has a larger inverse power. */
  lemma InverseAntitone(u: real, v: real, alpha: nat)
    requires 0.0 < u <= v
    ensures Inverse(u, alpha) >= Inverse(v, alpha)
  {
    PowMonotone(u, v, alpha);
    PowPositive(u, alpha);
    var a, b := Pow(u, alpha), Pow(v, alpha);
    assert 1.0 / a - 1.0 / b == (b - a) / (a * b);
  }

  /** The column `1 / values ** alfa`. */
  function Inverses(vs: seq<real>, alpha: nat): (ws: seq<real>)
    requires AllPositive(vs)
    ensures |ws| == |vs|
    ensures forall i :: 0 <= i < |vs| ==> ws[i] == Inverse(vs[i], alpha)
    ensures AllPositive(ws)
  {
    seq(|vs|, i requires 0 <= i < |vs| => Inverse(vs[i], alpha))
  }

  /** The denominator of `inverse_weight`: the sum of the distinct inverse
      powers when `inv_split == 'unique'`, the sum of all of them otherwise. */
  function Normaliser(vs: seq<real>, alpha: nat, split: string): (s: real)
    requires vs != [] && AllPositive(vs)
    ensures s > 0.0
  {
    var ws := Inverses(vs, alpha);
    SumPositive(ws);
    SumPositive(Distinct(ws));
    if split == "unique" then Sum(Distinct(ws)) else Sum(ws)
  }

  /** `inverse_weight`: each inverse power divided by the normaliser. */
  function InverseWeight(vs: seq<real>, alpha: nat, split: string): (ws: seq<real>)
    requires AllPositive(vs)
    ensures |ws| == |vs|
    ensures forall i :: 0 <= i < |vs| ==> 0.0 < ws[i] <= 1.0
  {
    if vs == [] then []
    else
      InverseWeightBounded(vs, alpha, split);
      Divide(Inverses(vs, alpha), Normaliser(vs, alpha, split))
  }

  /** Each inverse power is one of the terms the normaliser adds up, in
      either mode, so it is at most the normaliser. */
  lemma InverseAtMostNormaliser(vs: seq<real>, alpha: nat, split: string, x: real)
    requires AllPositive(vs) && x in vs
    ensures Inverse(x, alpha) <= Normaliser(vs, alpha, split)
  {
    var ws := Inverses(vs, alpha);
    var i :| 0 <= i < |vs| && vs[i] == x;
    assert ws[i] == Inverse(x, alpha);
    if split == "unique" {
      MemberAtMostSum(Distinct(ws), ws[i]);
    } else {
      MemberAtMostSum(ws, ws[i]);
    }
  }

  lemma DivideAtMostOne(a: real, s: real)
    requires 0.0 < a <= s
    ensures 0.0 < a / s <= 1.0
  {
  }

  /** Every weight lies in (0, 1]. */
  lemma InverseWeightBounded(vs: seq<real>, alpha: nat, split: string)
    requires vs != [] && AllPositive(vs)
    ensures forall i :: 0 <= i < |vs| ==> 0.0 < Inverse(vs[i], alpha) / Normaliser(vs, alpha, split) <= 1.0
  {
    forall i | 0 <= i < |vs|
      ensures 0.0 < Inverse(vs[i], alpha) / Normaliser(vs, alpha, split) <= 1.0
    {
      InverseAtMostNormaliser(vs, alpha, split, vs[i]);
      DivideAtMostOne(Inverse(vs[i], alpha), Normaliser(vs, alpha, split));
    }
  }

  /** In the default mode the weights of a non-empty series sum to one. */
  lemma InverseWeightSumsToOne(vs: seq<real>, alpha: nat, split: string)
    requires vs != [] && AllPositive(vs) && split != "unique"
    ensures Sum(InverseWeight(vs, alpha, split)) == 1.0
  {
    var ws, s := Inverses(vs, alpha), Normaliser(vs, alpha, split);
    assert s == Sum(ws);
    assert InverseWeight(vs, alpha, split) == Divide(ws, s);
    SumDivide(ws, s);
    assert Sum(ws) / s == 1.0;
  }

  lemma DivideSelf(x: real)
    requires x != 0.0
    ensures x / x == 1.0
  {
  }

  /** In 'unique' mode the distinct weights of a non-empty series sum to one. */
  lemma InverseWeightDistinctSumToOne(vs: seq<real>, alpha: nat, split: string)
    requires vs != [] && AllPositive(vs) && split == "unique"
    ensures Sum(Distinct(InverseWeight(vs, alpha, split))) == 1.0
  {
    var ws, s := Inverses(vs, alpha), Normaliser(vs, alpha, split);
    var t := Sum(Distinct(ws));
    assert s == t;
    assert InverseWeight(vs, alpha, split) == Divide(ws, s);
    DistinctDivide(ws, s);
    assert Distinct(InverseWeight(vs, alpha, split)) == Divide(Distinct(ws), s);
    SumDivide(Distinct(ws), s);
    DivideSelf(s);
  }

  /** In either mode a smaller value gets a larger or equal weight, so equal
      values get equal weights. */
  lemma InverseWeightAntitone(vs: seq<real>, alpha: nat, split: string, i: nat, j: nat)
    requires AllPositive(vs) && i < |vs| && j < |vs| && vs[i] <= vs[j]
    ensures InverseWeight(vs, alpha, split)[i] >= InverseWeight(vs, alpha, split)[j]
  {
    InverseAntitone(vs[i], vs[j], alpha);
    var s := Normaliser(vs, alpha, split);
    var ws := Inverses(vs, alpha);
    assert InverseWeight(vs, alpha, split) == Divide(ws, s);
    DivideMonotone(ws[i], ws[j], s);
  }

  /** Equal values get equal weights, in either mode. */
  lemma InverseWeightEqual(vs: seq<real>, alpha: nat, split: string, i: nat, j: nat)
    requires AllPositive(vs) && i < |vs| && j < |vs| && vs[i] == vs[j]
    ensures InverseWeight(vs, alpha, split)[i] == InverseWeight(vs, alpha, split)[j]
  {
  }

  lemma DivideMonotone(a: real, b: real, s: real)
    requires a >= b && s > 0.0
    ensures a / s >= b / s
  {
    assert a / s - b / s == (a - b) / s;
  }

  /** A column of `n` ones sums to `n`, and its only distinct value is one. */
  lemma {:induction false} Ones(s: seq<real>)
    requires forall i :: 0 <= i < |s| ==> s[i] == 1.0
    ensures Sum(s) == |s| as real
    ensures s != [] ==> Distinct(s) == [1.0]
  {
    if s != [] {
      var n := |s| - 1;
      Ones(s[..n]);
    }
  }

  /** With `alfa = 0` every value weighs the same: `1/n` each in the default
      mode, and one each in 'unique' mode (the only distinct inverse is 1). */
  lemma InverseWeightUniform(vs: seq<real>, split: string)
    requires vs != [] && AllPositive(vs)
    ensures forall i :: 0 <= i < |vs| ==>
      InverseWeight(vs, 0, split)[i] == (if split == "unique" then 1.0 else 1.0 / |vs| as real)
  {
    var ws := Inverses(vs, 0);
    forall i | 0 <= i < |vs| ensures ws[i] == 1.0 {
      assert Pow(vs[i], 0) == 1.0;
    }
    Ones(ws);
    assert [1.0][..0] == [];
    assert Sum([1.0]) == 1.0;
    var s := Normaliser(vs, 0, split);
    assert s == if split == "unique" then 1.0 else |vs| as real;
  }

  /** The inverse powers of the docstring's values [1, 1, 2, 2, 4], `alfa = 1`. */
  lemma DocstringInverses()
    ensures Inverses([1.0, 1.0, 2.0, 2.0, 4.0], 1) == [1.0, 1.0, 0.5, 0.5, 0.25]
  {
    var ws := Inverses([1.0, 1.0, 2.0, 2.0, 4.0], 1);
    assert Pow(2.0, 1) == 2.0 && Pow(4.0, 1) == 4.0 && Pow(1.0, 1) == 1.0;
    assert ws[0] == 1.0 && ws[1] == 1.0 && ws[2] == 0.5 && ws[3] == 0.5 && ws[4] == 0.25;
  }

  /** Their distinct values, in order of first appearance, sum to 1.75. */
  lemma DocstringDistinct()
    ensures Distinct([1.0, 1.0, 0.5, 0.5, 0.25]) == [1.0, 0.5, 0.25]
    ensures Sum([1.0, 0.5, 0.25]) == 1.75
  {
    var ws := [1.0, 1.0, 0.5, 0.5, 0.25];
    assert ws[..4] == [1.0, 1.0, 0.5, 0.5];
    assert ws[..4][..3] == [1.0, 1.0, 0.5];
    assert ws[..4][..3][..2] == [1.0, 1.0];
    assert ws[..4][..3][..2][..1] == [1.0];
    assert [1.0][..0] == [];
    assert Distinct([1.0]) == [1.0];
    assert Distinct([1.0, 1.0]) == [1.0];
    assert Distinct([1.0, 1.0, 0.5]) == [1.0, 0.5];
    assert Distinct([1.0, 1.0, 0.5, 0.5]) == [1.0, 0.5];
    var d := [1.0, 0.5, 0.25];
    assert d[..2] == [1.0, 0.5] && d[..2][..1] == [1.0];
  }

  /** All of them sum to 3.25. */
  lemma DocstringTotal()
    ensures Sum([1.0, 1.0, 0.5, 0.5, 0.25]) == 3.25
  {
    var ws := [1.0, 1.0, 0.5, 0.5, 0.25];
    assert ws[..4] == [1.0, 1.0, 0.5, 0.5];
    assert ws[..4][..3] == [1.0, 1.0, 0.5];
    assert ws[..4][..3][..2] == [1.0, 1.0];
    assert ws[..4][..3][..2][..1] == [1.0];
    assert [1.0][..0] == [];
    assert Sum([1.0]) == 1.0;
    assert Sum([1.0, 1.0]) == 2.0;
    assert Sum([1.0, 1.0, 0.5]) == 2.5;
    assert Sum([1.0, 1.0, 0.5, 0.5]) == 3.0;
  }

  /** The 'unique' column of the `inverse_weight` docstring (`alfa = 1`):
      every inverse power divided by 1.75. */
  lemma DocstringUnique()
    ensures InverseWeight([1.0, 1.0, 2.0, 2.0, 4.0], 1, "unique")
         == [1.0 / 1.75, 1.0 / 1.75, 0.5 / 1.75, 0.5 / 1.75, 0.25 / 1.75]
  {
    DocstringInverses();
    DocstringDistinct();
    var vs := [1.0, 1.0, 2.0, 2.0, 4.0];
    assert Normaliser(vs, 1, "unique") == 1.75;
  }

  /** The default column of the `inverse_weight` docstring (`alfa = 1`):
      every inverse power divided by 3.25. */
  lemma DocstringSum()
    ensures InverseWeight([1.0, 1.0, 2.0, 2.0, 4.0], 1, "")
         == [1.0 / 3.25, 1.0 / 3.25, 0.5 / 3.25, 0.5 / 3.25, 0.25 / 3.25]
  {
    DocstringInverses();
    DocstringTotal();
    var vs := [1.0, 1.0, 2.0, 2.0, 4.0];
    assert Normaliser(vs, 1, "") == 3.25;
  }
}
