# GeoModel: a verified model of the Uber demand-weighting engine

This project models the weighting and aggregation engine of `model.py`: the class
`GeoModel` and the `Center` record it returns. For one geographic center the engine:

1. keeps the events that lie within the largest ring radius (`filter_df`);
2. assigns each kept event a ring (`relative_distance`) and a weekly recency bucket (`time_gap`);
3. turns both into grouped inverse-power weights (`inverse_weight`, `time_weights`, `distance_weights`);
4. multiplies the two weights into a per-row `Prob` (`get_filter_df_attributes`);
5. sums `Prob` per demand level for every weekday and hour (`get_distribution`, `model`).

The result is a nested weekday -> hour -> demand -> probability table.

The project has four modules:

- `Seqs` (`seqs.dfy`) holds the column arithmetic:
  - the sum of a column;
  - the distinct values in order of first appearance;
  - element-wise division;
  - selecting the rows of one group key.
- `Weights` (`weights.dfy`) holds the static helpers. Ring binning follows numpy's default left `searchsorted`. Recency buckets are `1 + floor(elapsed / unit)`. `inverse_weight` has a 'unique' mode and a default mode.
- `Grouping` (`grouping.dfy`) gives the meaning of pandas `groupby(...).transform(inverse_weight)`. It has two forms:
  - a specification function that weighs each row within the group of its key;
  - a method that partitions the rows once, computes one normaliser per key and maps it back to every row.

  The method is proved equal to the function.
- `GeoEngine` (`geomodel.dfy`) holds the event record and the table with its derived columns. It also holds `Center` and `GeoModel`. The imperative steps are methods that update the table's columns and the center's `distributions` in place. Each is proved against a function of its inputs.

Values are exact reals. The exponent `alpha` is a natural number. Timestamps are integer seconds, and each event carries its weekday and hour as fields.

Points where the code's behaviour is easy to misread:

- **Nested table keys.** One might expect entries only for the (weekday, hour) pairs that occur together. `model` (model.py:124-125) loops over the cross product of the distinct weekdays and the distinct hours of the whole scope, so a pair that never occurs still gets an empty distribution (`CrossProductBucket`).
- **Ring range.** `relative_distance` can return `len(r_lst) + 1` for a distance beyond every threshold. After `filter_df` keeps only rows with `Distance <= max(r_lst)`, every ring index of the scope lies in `1..len(r_lst)` (`ScopeRings`).
- **Distance groups.** Distance weights are grouped by (weekday, hour, timestamp), as `dist_group` says (model.py:41), although the `distance_weights` docstring says `['Date']` (model.py:106). A group's total `Prob` equals the time weight its rows share, not one (`ProbPerInstant`).

## Model

| member | source | states |
|---|---|---|
| Weights.SearchSorted | model.py:60 | numpy's default left insertion point: every threshold before it is strictly below `d`, and the threshold at it, if any, is at least `d` |
| Weights.RelativeDistance | model.py:54-60 | the ring index lies in 1..len(rs) + 1; the thresholds of the inner rings are strictly below `d`, and the threshold of its own ring, if any, is at least `d` |
| Weights.RelativeDistanceCounts | model.py:54-60 | on ascending thresholds the ring of `d` is one plus the number of thresholds strictly below `d` (left insertion point) |
| Weights.RelativeDistanceAtThreshold | model.py:54-60 | a distance equal to the j-th threshold falls in ring j + 1, the inner ring of that threshold |
| Weights.RelativeDistanceMonotone | model.py:54-60 | a farther point never gets a smaller ring index |
| Weights.RelativeDistanceInRange | model.py:54-60 | a distance at most the largest threshold gets a ring between 1 and the number of thresholds |
| Weights.TimeGaps | model.py:63-72 | one gap per timestamp, every gap at least 1, and the rows holding the latest timestamp get exactly 1 |
| Weights.TimeUnit | model.py:69 | a bucket is 604800 s (one week) for 'weekly' and 3600 s (one hour) for any other unit |
| Weights.TimeGapBucket | model.py:69-72 | gap g means at least g - 1 and fewer than g whole units (604800 s if 'weekly', else 3600 s) separate the row from the latest timestamp |
| Weights.TimeGapAntitone | model.py:63-72 | an older row never gets a smaller gap |
| Weights.Inverse | model.py:90 | `1 / v ** alfa` is positive for a positive value |
| Weights.InverseAntitone | model.py:90 | a larger value never has a larger inverse power |
| Weights.Normaliser | model.py:91-94 | the denominator of either mode is positive, so the division is defined for every non-empty series of positive values |
| Weights.InverseWeight | model.py:76-94 | one weight per value, each in (0, 1], because each inverse power is one of the terms of the normaliser |
| Weights.InverseWeightSumsToOne | model.py:93-94 | in the default mode the weights of a non-empty series sum to one |
| Weights.InverseWeightDistinctSumToOne | model.py:91-92 | in 'unique' mode the distinct weights sum to one |
| Weights.InverseWeightAntitone | model.py:90-94 | in either mode a smaller value gets a larger or equal weight |
| Weights.InverseWeightEqual | model.py:90-94 | in either mode equal values get equal weights |
| Weights.InverseWeightUniform | model.py:90-94 | with `alfa = 0` every row weighs `1/n` in the default mode and 1 in 'unique' mode |
| Weights.DocstringUnique | model.py:80-88 | the docstring's 'unique' column for [1, 1, 2, 2, 4]: each inverse divided by 1.75 |
| Weights.DocstringSum | model.py:80-88 | the docstring's default column for [1, 1, 2, 2, 4]: each inverse divided by 3.25 |
| Grouping.GroupWeights | model.py:101-102 | the transformed column has one weight per row, each in (0, 1]; what each group receives is stated by `GroupWeightsRestrict` |
| Grouping.GroupWeightsRestrict | model.py:101-102 | the transform gives the rows of one group exactly `inverse_weight` of that group's values alone |
| Grouping.GroupWeightsSumToOne | model.py:110-111 | in a default-mode transform the weights of every group sum to one |
| Grouping.GroupWeightsDistinctSumToOne | model.py:101-102 | in a 'unique'-mode transform the distinct weights of every group sum to one |
| Grouping.Partition | model.py:101 | the group-by maps exactly the keys present to the values of their rows, in row order |
| Grouping.GroupTransform | model.py:101-102 | partition, one normaliser per key, and a pass over the rows yield the transformed column |
| GeoEngine.KeptIndices | model.py:36 | the kept positions are exactly the rows with distance at most the largest radius, ascending |
| GeoEngine.ScopeEvents | model.py:36 | the scope holds only events of the dataset, one per kept distance, and every event within the largest radius |
| GeoEngine.ScopeDistances | model.py:36 | every scoped `Distance` is at most the largest radius, and every such distance of the dataset is kept |
| GeoEngine.ScopeRings | model.py:36 | every scoped row's `RelativeDistance` lies in 1..len(r_lst) |
| GeoEngine.TimeWeightsOf | model.py:100-102 | `TimeW` is defined and in (0, 1] for every row, because every `TimeGap` is at least 1 |
| GeoEngine.DistanceWeightsOf | model.py:109-111 | `DistanceW` is defined and in (0, 1] for every row, because every `RelativeDistance` is at least 1 |
| GeoEngine.TimeWeightsPerGroup | model.py:96-102 | within each (weekday, hour) group the distinct time weights sum to one |
| GeoEngine.DistanceWeightsPerGroup | model.py:104-111 | within each (weekday, hour, timestamp) group the distance weights sum to one |
| GeoEngine.TimeWeightOfInstant | model.py:40-42 | rows in one distance group share their time weight |
| GeoEngine.Probs | model.py:44 | `Prob` is `DistanceW * TimeW` on every row |
| GeoEngine.ProbsBounded | model.py:44 | with both weight columns in (0, 1], every `Prob` is positive and at most each of its two factors |
| GeoEngine.ProbsOnGroup | model.py:44 | on a group sharing one time weight t, the group's `Prob` sums to t times its distance weights |
| GeoEngine.ProbPerInstant | model.py:39-45 | the total `Prob` of a (weekday, hour, timestamp) group equals the time weight its rows share |
| GeoEngine.Distribution | model.py:114-118 | the demand levels of a bucket's distribution are exactly those of the rows of that weekday and hour |
| GeoEngine.DistributionMass | model.py:114-118 | the mass of each demand level is the sum of `Prob` over exactly the rows of that weekday, hour and demand |
| GeoEngine.Distributions | model.py:120-132 | the table's weekdays are the scope's weekdays, and each weekday has every hour of the scope |
| GeoEngine.CrossProductBucket | model.py:124-125 | a weekday and an hour that never occur together still get an (empty) entry |
| GeoEngine.Table.constructor | model.py:32-35 | a fresh table holds the given events and their `Distance` column, and no derived column yet |
| GeoEngine.Center.constructor | model.py:13-18 | a center holds its coordinate, its scope and an empty table |
| GeoEngine.GeoModel.constructor | model.py:23-28 | the model keeps the dataset, radius, decay, ring list and exponent, and its ring list is non-empty and strictly increasing (`Valid`) |
| GeoEngine.GeoModel.FilterDf | model.py:31-37 | a fresh table of the kept rows, in input order, with their `Distance` column; the dataset is unchanged |
| GeoEngine.GeoModel.TimeWeights | model.py:96-102 | adds the weekly `TimeGap` column and returns the grouped 'unique'-mode weights |
| GeoEngine.GeoModel.DistanceWeights | model.py:104-111 | adds the `RelativeDistance` column and returns the grouped default-mode weights |
| GeoEngine.GeoModel.GetFilterDfAttributes | model.py:39-45 | adds `TimeGap`, `RelativeDistance`, `TimeW`, `DistanceW` and `Prob = DistanceW * TimeW`, and drops no row |
| GeoEngine.GeoModel.FillHours | model.py:125-130 | the inner loop stores, for one weekday, the distribution of every hour in ascending order |
| GeoEngine.GeoModel.FillDistributions | model.py:124-130 | the nested loops leave `distributions` equal to the weekday x hour table |
| GeoEngine.GeoModel.Model | model.py:120-132 | `model` returns a fresh center holding the query coordinate, the scope of kept rows with all five derived columns (`TimeGap`, `RelativeDistance`, `TimeW`, `DistanceW`, `Prob`), and the weekday x hour table of that scope |

## Left out

- Euclidean distance (model.py:49-51): the square root is floating point. The caller supplies each row's `Distance`, and `FilterDf` and `Model` require it to satisfy `IsEuclidean` (non-negative, and its square is the squared coordinate distance).
- `radius_list` is not part of this model, because its body is in `helpers.py`. The ring list is a constructor argument, required to be non-empty and strictly increasing.
- GeoEngine.Distribution: does not fill missing demand levels with zero, because `fill_series_gaps` is not part of this model (it is in `helpers.py`). The distribution holds exactly the observed levels.
- Floating-point rounding, and non-integer or negative `alfa`: values are exact reals and `alpha` is a natural number. Division by zero for a value of 0 is not reachable, since both weighted columns are at least 1.
- Calendar arithmetic (`dt.dayofweek`, `dt.hour`): weekday and hour are fields of each event, assumed consistent with its timestamp.
- Stringified dictionary keys (`str(wkd)`, `str(h)`): the model uses integer keys.
- Column names passed as strings (`'LatQ'`, `'LonQ'`): the event record has fixed fields.
- The pandas group-by machinery: only its meaning (partition, per-group normaliser, map back to rows) is modelled.
- Ordering of the inner maps: Dafny maps are unordered, so the ascending visiting order is stated as a loop invariant (`Before`), not as an ordered result.
- Weights.SearchSorted: a left-to-right scan, equal to numpy's binary search on the ascending ring lists `Valid` guarantees; unsorted thresholds, where the two can differ, are not modelled.
- The `__main__` block (model.py:134-148): file discovery, CSV loading, date parsing and settings are I/O.
