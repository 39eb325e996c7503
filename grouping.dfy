/** The semantics of `df.groupby(keys)[column].transform(inverse_weight, ...)`:
    partition the rows by key, weigh each group on its own, and put every
    weight back on the row it came from. */
module Grouping {
  import opened Seqs
  import opened Weights

  /** The transformed column: row `i` gets its inverse power divided by the
      normaliser of the group that shares its key. */
  function GroupWeights<K(==)>(keys: seq<K>, vals: seq<real>, alpha: nat, split: string): (ws: seq<real>)
    requires |keys| == |vals| && AllPositive(vals)
    ensures |ws| == |vals|
    ensures AllPositive(ws)
    ensures forall i :: 0 <= i < |vals| ==> ws[i] <= 1.0
  {
    GroupWeightsBounded(keys, vals, alpha, split);
    seq(|vals|, i requires 0 <= i < |vals| =>
      Inverse(vals[i], alpha) / Normaliser(Select(vals, keys, keys[i]), alpha, split))
  }

  /** Every row belongs to the group of its own key. */
  lemma {:induction false} SelectMember<K>(vals: seq<real>, keys: seq<K>, i: nat)
    requires |vals| == |keys| && i < |vals|
    ensures vals[i] in Select(vals, keys, keys[i])
  {
    var n := |vals| - 1;
    if i < n {
      SelectMember(vals[..n], keys[..n], i);
    }
  }

  /** Each row's weight is its inverse power over a normaliser that includes
      that inverse power, so it lies in (0, 1]. */
  lemma GroupWeightsBounded<K>(keys: seq<K>, vals: seq<real>, alpha: nat, split: string)
    requires |keys| == |vals| && AllPositive(vals)
    ensures forall i :: 0 <= i < |vals| ==>
      0.0 < Inverse(vals[i], alpha) / Normaliser(Select(vals, keys, keys[i]), alpha, split) <= 1.0
  {
    forall i | 0 <= i < |vals|
      ensures 0.0 < Inverse(vals[i], alpha) / Normaliser(Select(vals, keys, keys[i]), alpha, split) <= 1.0
    {
      var group := Select(vals, keys, keys[i]);
      SelectMember(vals, keys, i);
      InverseAtMostNormaliser(group, alpha, split, vals[i]);
      DivideAtMostOne(Inverse(vals[i], alpha), Normaliser(group, alpha, split));
    }
  }

  /** Selecting the rows of one group from a column that holds, on that group,
      each value's inverse power divided by `c`. */
  lemma {:induction false} SelectDivided<K>(keys: seq<K>, vals: seq<real>, ws: seq<real>,
                                            alpha: nat, k: K, c: real, n: nat)
    requires |keys| == |vals| == |ws| && AllPositive(vals) && c != 0.0 && n <= |vals|
    requires forall i :: 0 <= i < |vals| && keys[i] == k ==> ws[i] == Inverse(vals[i], alpha) / c
    ensures AllPositive(Select(vals[..n], keys[..n], k))
    ensures Select(ws[..n], keys[..n], k) == Divide(Inverses(Select(vals[..n], keys[..n], k), alpha), c)
  {
    assert AllPositive(vals[..n]);
    if n > 0 {
      var m := n - 1;
      SelectDivided(keys, vals, ws, alpha, k, c, m);
      SelectPrefix(vals, keys, k, m);
      SelectPrefix(ws, keys, k, m);
      var before := Select(vals[..m], keys[..m], k);
      if keys[m] == k {
        assert vals[m] in vals[..n];
        var after := before + [vals[m]];
        assert Inverses(after, alpha) == Inverses(before, alpha) + [Inverse(vals[m], alpha)];
        assert Divide(Inverses(after, alpha), c)
            == Divide(Inverses(before, alpha), c) + [Inverse(vals[m], alpha) / c];
      }
    }
  }

  /** The group-transform law: the weights the rows of one group receive are
      exactly `inverse_weight` applied to that group's values alone. */
  lemma GroupWeightsRestrict<K>(keys: seq<K>, vals: seq<real>, alpha: nat, split: string, k: K)
    requires |keys| == |vals| && AllPositive(vals) && k in keys
    ensures Select(GroupWeights(keys, vals, alpha, split), keys, k)
         == InverseWeight(Select(vals, keys, k), alpha, split)
  {
    var ws := GroupWeights(keys, vals, alpha, split);
    var group := Select(vals, keys, k);
    var c := Normaliser(group, alpha, split);
    SelectDivided(keys, vals, ws, alpha, k, c, |vals|);
    assert keys[..|keys|] == keys && vals[..|vals|] == vals && ws[..|ws|] == ws;
  }

  /** Within one group of a default-mode transform, the weights sum to one. */
  lemma GroupWeightsSumToOne<K>(keys: seq<K>, vals: seq<real>, alpha: nat, split: string, k: K)
    requires |keys| == |vals| && AllPositive(vals) && k in keys && split != "unique"
    ensures Sum(Select(GroupWeights(keys, vals, alpha, split), keys, k)) == 1.0
  {
    GroupWeightsRestrict(keys, vals, alpha, split, k);
    InverseWeightSumsToOne(Select(vals, keys, k), alpha, split);
  }

  /** Within one group of a 'unique'-mode transform, the distinct weights sum
      to one. */
  lemma GroupWeightsDistinctSumToOne<K>(keys: seq<K>, vals: seq<real>, alpha: nat, split: string, k: K)
    requires |keys| == |vals| && AllPositive(vals) && k in keys && split == "unique"
    ensures Sum(Distinct(Select(GroupWeights(keys, vals, alpha, split), keys, k))) == 1.0
  {
    GroupWeightsRestrict(keys, vals, alpha, split, k);
    InverseWeightDistinctSumToOne(Select(vals, keys, k), alpha, split);
  }

  /** The partition of the rows by key: each key seen maps to the values of
      its rows, in row order. */
  method Partition<K(==,!new)>(keys: seq<K>, vals: seq<real>) returns (groups: map<K, seq<real>>)
    requires |keys| == |vals|
    ensures forall k :: k in groups <==> k in keys
    ensures forall k :: k in groups ==> groups[k] == Select(vals, keys, k)
  {
    groups := map[];
    for i := 0 to |vals|
      invariant IsPartition(groups, vals[..i], keys[..i])
    {
      PartitionStep(groups, vals, keys, i);
      var k := keys[i];
      groups := groups[k := if k in groups then groups[k] + [vals[i]] else [vals[i]]];
    }
    assert keys[..|keys|] == keys && vals[..|vals|] == vals;
  }

  /** `groups` maps exactly the keys present to the values of their rows. */
  ghost predicate IsPartition<K(!new)>(groups: map<K, seq<real>>, vals: seq<real>, keys: seq<K>)
    requires |vals| == |keys|
  {
    (forall k :: k in groups <==> k in keys) &&
    (forall k :: k in groups ==> groups[k] == Select(vals, keys, k))
  }

  /** Appending row `i` to the group of its key extends the partition of the
      first `i` rows to the first `i + 1`. */
  lemma PartitionStep<K(!new)>(groups: map<K, seq<real>>, vals: seq<real>, keys: seq<K>, i: nat)
    requires |vals| == |keys| && i < |vals| && IsPartition(groups, vals[..i], keys[..i])
    ensures var k := keys[i];
      IsPartition(groups[k := if k in groups then groups[k] + [vals[i]] else [vals[i]]],
                  vals[..i + 1], keys[..i + 1])
  {
    var k := keys[i];
    SelectPrefix(vals, keys, k, i);
    assert keys[..i + 1] == keys[..i] + [k];
    forall k' | k' != k && k' in groups
      ensures groups[k'] == Select(vals[..i + 1], keys[..i + 1], k')
    {
      SelectPrefix(vals, keys, k', i);
    }
  }

  /** The transform computed by partitioning: the groups are collected once,
      the normaliser of each group is computed once, and a second pass divides
      each row's inverse power by its group's normaliser. */
  method GroupTransform<K(==,!new)>(keys: seq<K>, vals: seq<real>, alpha: nat, split: string)
    returns (ws: seq<real>)
    requires |keys| == |vals| && AllPositive(vals)
    ensures ws == GroupWeights(keys, vals, alpha, split)
  {
    var groups := Partition(keys, vals);
    var normaliser: map<K, real> := map k | k in groups :: Normaliser(groups[k], alpha, split);
    ws := [];
    for i := 0 to |vals|
      invariant ws == GroupWeights(keys, vals, alpha, split)[..i]
    {
      assert keys[i] in keys;
      var w := Inverse(vals[i], alpha) / normaliser[keys[i]];
      PrefixSnoc(GroupWeights(keys, vals, alpha, split), i);
      ws := ws + [w];
    }
  }
}
