/** The spatio-temporal demand model of one center: the scope of events
    within the largest ring, their recency and proximity weights, and the
    weekday -> hour -> demand -> probability table. */
module GeoEngine {
  import opened Seqs
  import opened Weights
  import opened Grouping

  /** One event record. `date` is the timestamp in seconds; `weekday` (0 is
      Monday) and `hour` are the calendar fields of that timestamp. */
  datatype Event = Event(date: int, weekday: int, hour: int, latQ: real, lonQ: real, demand: int)

  // ---------------------------------------------------------------------
  // Columns and group keys of a table of events

  function Dates(events: seq<Event>): (ds: seq<int>)
    ensures |ds| == |events|
    ensures forall i :: 0 <= i < |events| ==> ds[i] == events[i].date
  {
    seq(|events|, i requires 0 <= i < |events| => events[i].date)
  }

  /** The time-weight grouping `[dayofweek, hour]`. */
  function TimeKeys(events: seq<Event>): (ks: seq<(int, int)>)
    ensures |ks| == |events|
    ensures forall i :: 0 <= i < |events| ==> ks[i] == (events[i].weekday, events[i].hour)
  {
    seq(|events|, i requires 0 <= i < |events| => (events[i].weekday, events[i].hour))
  }

  /** The distance-weight grouping `[dayofweek, hour, Date]`. */
  function DistanceKeys(events: seq<Event>): (ks: seq<(int, int, int)>)
    ensures |ks| == |events|
    ensures forall i :: 0 <= i < |events| ==> ks[i] == (events[i].weekday, events[i].hour, events[i].date)
  {
    seq(|events|, i requires 0 <= i < |events| => (events[i].weekday, events[i].hour, events[i].date))
  }

  /** The histogram grouping of `get_distribution`: the weekday and hour a row
      is filtered on, and the `Demand` it is grouped by. */
  function DemandKeys(events: seq<Event>): (ks: seq<(int, int, int)>)
    ensures |ks| == |events|
    ensures forall i :: 0 <= i < |events| ==> ks[i] == (events[i].weekday, events[i].hour, events[i].demand)
  {
    seq(|events|, i requires 0 <= i < |events| => (events[i].weekday, events[i].hour, events[i].demand))
  }

  function AsReals(xs: seq<int>): (r: seq<real>)
    ensures |r| == |xs|
    ensures forall i :: 0 <= i < |xs| ==> r[i] == xs[i] as real
  {
    seq(|xs|, i requires 0 <= i < |xs| => xs[i] as real)
  }

  /** The distinct weekdays of a table (`dt.dayofweek.unique()`). */
  function Weekdays(events: seq<Event>): set<int>
  {
    set i | 0 <= i < |events| :: events[i].weekday
  }

  /** The distinct hours of a table (`dt.hour.unique()`). */
  function Hours(events: seq<Event>): set<int>
  {
    set i | 0 <= i < |events| :: events[i].hour
  }

  // ---------------------------------------------------------------------
  // filter_df

  /** The positions of the rows whose distance is at most `maxR`, ascending:
      the boolean mask `Distance <= max(r_lst)` followed by `reset_index`. */
  function KeptIndices(distance: seq<real>, maxR: real): (idx: seq<nat>)
    ensures |idx| <= |distance|
    ensures forall j :: 0 <= j < |idx| ==> idx[j] < |distance| && distance[idx[j]] <= maxR
    ensures forall i :: 0 <= i < |distance| && distance[i] <= maxR ==> i in idx
    ensures forall j, j' :: 0 <= j < j' < |idx| ==> idx[j] < idx[j']
  {
    if distance == [] then []
    else
      var n := |distance| - 1;
      var before := KeptIndices(distance[..n], maxR);
      before + (if distance[n] <= maxR then [n] else [])
  }

  /** The events of the scope. */
  function ScopeEvents(events: seq<Event>, distance: seq<real>, rLst: seq<real>): (scope: seq<Event>)
    requires |distance| == |events| && rLst != []
    ensures |scope| == |ScopeDistances(distance, rLst)| <= |events|
    ensures forall e :: e in scope ==> e in events
    ensures forall i :: 0 <= i < |events| && distance[i] <= MaxReal(rLst) ==> events[i] in scope
  {
    Pick(events, KeptIndices(distance, MaxReal(rLst)))
  }

  /** The `Distance` column of the scope. */
  function ScopeDistances(distance: seq<real>, rLst: seq<real>): (scope: seq<real>)
    requires rLst != []
    ensures forall j :: 0 <= j < |scope| ==> scope[j] <= MaxReal(rLst)
    ensures forall i :: 0 <= i < |distance| && distance[i] <= MaxReal(rLst) ==> distance[i] in scope
  {
    Pick(distance, KeptIndices(distance, MaxReal(rLst)))
  }

  /** `relative_distance` over a column. */
  function RelativeDistances(distance: seq<real>, rLst: seq<real>): (rd: seq<int>)
    ensures |rd| == |distance|
    ensures forall i :: 0 <= i < |distance| ==> rd[i] == RelativeDistance(distance[i], rLst)
  {
    seq(|distance|, i requires 0 <= i < |distance| => RelativeDistance(distance[i], rLst))
  }

  /** Every row of the scope lies in one of the rings: its `RelativeDistance`
      is between 1 and the number of thresholds. */
  lemma ScopeRings(distance: seq<real>, rLst: seq<real>)
    requires rLst != []
    ensures forall j :: 0 <= j < |ScopeDistances(distance, rLst)| ==>
      1 <= RelativeDistances(ScopeDistances(distance, rLst), rLst)[j] <= |rLst|
  {
    var scoped := ScopeDistances(distance, rLst);
    forall j | 0 <= j < |scoped|
      ensures 1 <= RelativeDistances(scoped, rLst)[j] <= |rLst|
    {
      RelativeDistanceInRange(scoped[j], rLst);
    }
  }

  // ---------------------------------------------------------------------
  // time_weights, distance_weights, get_filter_df_attributes

  /** `TimeW`: the weekly `TimeGap` of each row, weighted in 'unique' mode
      within its (weekday, hour) group. */
  function TimeWeightsOf(events: seq<Event>, alpha: nat): (tw: seq<real>)
    ensures |tw| == |events|
    ensures AllPositive(tw)
    ensures forall i :: 0 <= i < |tw| ==> tw[i] <= 1.0
  {
    var gaps := AsReals(TimeGaps(Dates(events), "weekly"));
    assert AllPositive(gaps);
    GroupWeights(TimeKeys(events), gaps, alpha, "unique")
  }

  /** `DistanceW`: the `RelativeDistance` of each row, weighted in the default
      mode within its (weekday, hour, date) group. */
  function DistanceWeightsOf(events: seq<Event>, distance: seq<real>, rLst: seq<real>, alpha: nat): (dw: seq<real>)
    requires |distance| == |events|
    ensures |dw| == |events|
    ensures AllPositive(dw)
    ensures forall i :: 0 <= i < |dw| ==> dw[i] <= 1.0
  {
    var rings := AsReals(RelativeDistances(distance, rLst));
    assert AllPositive(rings);
    GroupWeights(DistanceKeys(events), rings, alpha, "")
  }

  /** `Prob = DistanceW * TimeW`, row by row. */
  function Probs(timeW: seq<real>, distanceW: seq<real>): (p: seq<real>)
    requires |timeW| == |distanceW|
    ensures |p| == |timeW|
    ensures forall i :: 0 <= i < |p| ==> p[i] == distanceW[i] * timeW[i]
  {
    seq(|timeW|, i requires 0 <= i < |timeW| => distanceW[i] * timeW[i])
  }

  /** The product of two weights in (0, 1] is positive and at most either. */
  lemma ProductBounds(x: real, y: real)
    requires 0.0 < x <= 1.0 && 0.0 < y <= 1.0
    ensures 0.0 < y * x <= x && y * x <= y
  {
  }

  /** A joint weight is positive and never exceeds either of its factors:
      with both weight columns in (0, 1], so is `Prob`. */
  lemma ProbsBounded(timeW: seq<real>, distanceW: seq<real>)
    requires |timeW| == |distanceW|
    requires forall i :: 0 <= i < |timeW| ==> 0.0 < timeW[i] <= 1.0 && 0.0 < distanceW[i] <= 1.0
    ensures forall i :: 0 <= i < |timeW| ==>
      0.0 < Probs(timeW, distanceW)[i] <= timeW[i] && Probs(timeW, distanceW)[i] <= distanceW[i]
  {
    forall i | 0 <= i < |timeW|
      ensures 0.0 < Probs(timeW, distanceW)[i] <= timeW[i] && Probs(timeW, distanceW)[i] <= distanceW[i]
    {
      var x, y := timeW[i], distanceW[i];
      ProductBounds(x, y);
      assert Probs(timeW, distanceW)[i] == y * x;
    }
  }

  /** Within every (weekday, hour) group, the distinct time weights sum to one. */
  lemma TimeWeightsPerGroup(events: seq<Event>, alpha: nat, k: (int, int))
    requires k in TimeKeys(events)
    ensures Sum(Distinct(Select(TimeWeightsOf(events, alpha), TimeKeys(events), k))) == 1.0
  {
    var gaps := AsReals(TimeGaps(Dates(events), "weekly"));
    GroupWeightsDistinctSumToOne(TimeKeys(events), gaps, alpha, "unique", k);
  }

  /** Within every (weekday, hour, date) group, the distance weights sum to one. */
  lemma DistanceWeightsPerGroup(events: seq<Event>, distance: seq<real>, rLst: seq<real>, alpha: nat,
                                k: (int, int, int))
    requires |distance| == |events| && k in DistanceKeys(events)
    ensures Sum(Select(DistanceWeightsOf(events, distance, rLst, alpha), DistanceKeys(events), k)) == 1.0
  {
    var rings := AsReals(RelativeDistances(distance, rLst));
    GroupWeightsSumToOne(DistanceKeys(events), rings, alpha, "", k);
  }

  /** Two rows with the same timestamp, weekday and hour get the same time
      weight. */
  lemma TimeWeightOfInstant(events: seq<Event>, alpha: nat, i: nat, j: nat)
    requires i < |events| && j < |events|
    requires DistanceKeys(events)[i] == DistanceKeys(events)[j]
    ensures TimeWeightsOf(events, alpha)[i] == TimeWeightsOf(events, alpha)[j]
  {
    var gaps := AsReals(TimeGaps(Dates(events), "weekly"));
    assert gaps[i] == gaps[j];
    assert TimeKeys(events)[i] == TimeKeys(events)[j];
  }

  /** On a group whose rows share one time weight `t`, each probability is
      the row's distance weight times `t`. */
  lemma ProbsTimesOnGroup<K>(timeW: seq<real>, distanceW: seq<real>, keys: seq<K>, k: K, t: real)
    requires |timeW| == |distanceW| == |keys|
    requires forall j :: 0 <= j < |keys| && keys[j] == k ==> timeW[j] == t
    ensures forall j :: 0 <= j < |keys| && keys[j] == k ==> Probs(timeW, distanceW)[j] == Times(distanceW[j], t)
  {
    var p := Probs(timeW, distanceW);
    forall j | 0 <= j < |keys| && keys[j] == k ensures p[j] == Times(distanceW[j], t) {
      var x, y := distanceW[j], timeW[j];
      assert p[j] == x * y;
    }
  }

  /** On a group whose rows share one time weight `t`, the probabilities sum
      to `t` times the group's distance weights. */
  lemma ProbsOnGroup<K>(timeW: seq<real>, distanceW: seq<real>, keys: seq<K>, k: K, t: real)
    requires |timeW| == |distanceW| == |keys|
    requires forall j :: 0 <= j < |keys| && keys[j] == k ==> timeW[j] == t
    ensures Sum(Select(Probs(timeW, distanceW), keys, k)) == Times(Sum(Select(distanceW, keys, k)), t)
  {
    ProbsTimesOnGroup(timeW, distanceW, keys, k, t);
    SumSelectTimes(keys, Probs(timeW, distanceW), distanceW, k, t);
  }

  /** The probability mass of one (weekday, hour, date) group is the time
      weight its rows share: the distance weights split that weight among
      the group's rows. */
  lemma ProbPerInstant(events: seq<Event>, distance: seq<real>, rLst: seq<real>, alpha: nat, i: nat)
    requires |distance| == |events| && i < |events|
    ensures Sum(Select(Probs(TimeWeightsOf(events, alpha), DistanceWeightsOf(events, distance, rLst, alpha)),
                       DistanceKeys(events), DistanceKeys(events)[i]))
         == TimeWeightsOf(events, alpha)[i]
  {
    var tw, dw := TimeWeightsOf(events, alpha), DistanceWeightsOf(events, distance, rLst, alpha);
    var keys, k := DistanceKeys(events), DistanceKeys(events)[i];
    forall j | 0 <= j < |events| && keys[j] == k ensures tw[j] == tw[i] {
      TimeWeightOfInstant(events, alpha, i, j);
    }
    ProbsOnGroup(tw, dw, keys, k, tw[i]);
    DistanceWeightsPerGroup(events, distance, rLst, alpha, k);
  }

  // ---------------------------------------------------------------------
  // get_distribution

  /** `get_distribution`: over the rows of one weekday and hour, the sum of
      `Prob` per `Demand` level. */
  function Distribution(events: seq<Event>, prob: seq<real>, weekday: int, hour: int): (m: map<int, real>)
    requires |prob| == |events|
    ensures forall d :: d in m <==> (weekday, hour, d) in DemandKeys(events)
  {
    if events == [] then map[]
    else
      var n := |events| - 1;
      var m := Distribution(events[..n], prob[..n], weekday, hour);
      var e := events[n];
      assert DemandKeys(events) == DemandKeys(events[..n]) + [(e.weekday, e.hour, e.demand)];
      if e.weekday == weekday && e.hour == hour then
        m[e.demand := (if e.demand in m then m[e.demand] else 0.0) + prob[n]]
      else m
  }

  /** The mass a distribution gives demand level `d`, zero where it has no
      entry. */
  function MassOf(m: map<int, real>, d: int): real
  {
    if d in m then m[d] else 0.0
  }

  lemma DemandKeysPrefix(events: seq<Event>, n: nat)
    requires n <= |events|
    ensures DemandKeys(events[..n]) == DemandKeys(events)[..n]
  {
  }

  /** The last row adds its `Prob` to the mass of its own demand level only. */
  lemma DistributionStep(events: seq<Event>, prob: seq<real>, weekday: int, hour: int, d: int)
    requires |prob| == |events| && events != []
    ensures var n := |events| - 1;
      MassOf(Distribution(events, prob, weekday, hour), d)
      == MassOf(Distribution(events[..n], prob[..n], weekday, hour), d)
         + (if DemandKeys(events)[n] == (weekday, hour, d) then prob[n] else 0.0)
  {
  }

  /** The mass of a demand level is the sum of `Prob` over exactly the rows
      of that weekday, hour and demand. */
  lemma {:induction false} DistributionMass(events: seq<Event>, prob: seq<real>, weekday: int, hour: int, d: int)
    requires |prob| == |events|
    ensures MassOf(Distribution(events, prob, weekday, hour), d)
         == Sum(Select(prob, DemandKeys(events), (weekday, hour, d)))
  {
    if events != [] {
      var n := |events| - 1;
      DistributionMass(events[..n], prob[..n], weekday, hour, d);
      DemandKeysPrefix(events, n);
      DistributionStep(events, prob, weekday, hour, d);
      SumSelectStep(prob, DemandKeys(events), (weekday, hour, d));
    }
  }

  /** The distributions of one weekday, keyed by hour. */
  function DayTable(events: seq<Event>, prob: seq<real>, weekday: int, hours: set<int>): (t: map<int, map<int, real>>)
    requires |prob| == |events|
    ensures t.Keys == hours
  {
    map h | h in hours :: Distribution(events, prob, weekday, h)
  }

  lemma DayTableInsert(events: seq<Event>, prob: seq<real>, weekday: int, hours: set<int>, h: int)
    requires |prob| == |events|
    ensures DayTable(events, prob, weekday, hours + {h})
         == DayTable(events, prob, weekday, hours)[h := Distribution(events, prob, weekday, h)]
  {
  }

  /** The distributions of the given weekdays, each over the given hours. */
  function WeekTable(events: seq<Event>, prob: seq<real>, weekdays: set<int>, hours: set<int>)
    : (t: map<int, map<int, map<int, real>>>)
    requires |prob| == |events|
    ensures t.Keys == weekdays
  {
    map wd | wd in weekdays :: DayTable(events, prob, wd, hours)
  }

  lemma WeekTableInsert(events: seq<Event>, prob: seq<real>, weekdays: set<int>, hours: set<int>, wd: int)
    requires |prob| == |events|
    ensures WeekTable(events, prob, weekdays + {wd}, hours)
         == WeekTable(events, prob, weekdays, hours)[wd := DayTable(events, prob, wd, hours)]
  {
  }

  /** The table `model` builds: every weekday of the scope against every hour
      of the scope. */
  function Distributions(events: seq<Event>, prob: seq<real>): (t: map<int, map<int, map<int, real>>>)
    requires |prob| == |events|
    ensures forall wd :: wd in t <==> wd in Weekdays(events)
    ensures forall wd :: wd in t ==> t[wd].Keys == Hours(events)
    ensures forall wd, h, d :: wd in t && h in t[wd] ==> (d in t[wd][h] <==> (wd, h, d) in DemandKeys(events))
  {
    WeekTable(events, prob, Weekdays(events), Hours(events))
  }

  /** The table is indexed by the cross product of the weekdays and the hours
      seen anywhere in the scope, so a pair that never occurs together still
      gets an (empty) distribution: with one event on Monday at 10 and one on
      Tuesday at 11, Monday at 11 is in the table and holds no mass. */
  lemma CrossProductBucket()
    ensures var events := [Event(0, 0, 10, 0.0, 0.0, 3), Event(90000, 1, 11, 0.0, 0.0, 5)];
      && 0 in Weekdays(events) && 11 in Hours(events)
      && Distribution(events, [0.5, 0.5], 0, 11) == map[]
  {
    var events := [Event(0, 0, 10, 0.0, 0.0, 3), Event(90000, 1, 11, 0.0, 0.0, 5)];
    assert events[0].weekday == 0 && events[1].hour == 11;
    var prob := [0.5, 0.5];
    assert events[..1] == [events[0]] && prob[..1] == [0.5];
    assert [events[0]][..0] == [] && [0.5][..0] == [];
    assert Distribution([events[0]], [0.5], 0, 11) == map[];
  }

  /** A non-empty set of integers has a least element. */
  lemma {:induction false} HasLeast(s: set<int>)
    requires s != {}
    ensures exists m :: m in s && forall x :: x in s ==> m <= x
  {
    EmptyOrMember(s);
    var y :| y in s;
    var rest := s - {y};
    assert s == rest + {y};
    if rest == {} {
      LeastOfInsert(rest, y, y);
    } else {
      HasLeast(rest);
      var m :| m in rest && forall x :: x in rest ==> m <= x;
      LeastOfInsert(rest, y, m);
    }
  }

  /** Adding `y` to a set whose least element is `m` (or to the empty set,
      with `m == y`) gives a set whose least element is the smaller of the two. */
  lemma LeastOfInsert(rest: set<int>, y: int, m: int)
    requires (rest == {} && m == y) || (m in rest && forall x :: x in rest ==> m <= x)
    ensures var least := if y < m then y else m;
      least in rest + {y} && forall x :: x in rest + {y} ==> least <= x
  {
  }

  /** Every value already visited is below every value still to visit. */
  predicate Before(done: set<int>, left: set<int>)
  {
    forall x, y :: x in done && y in left ==> x < y
  }

  /** Visiting the least value left keeps the visit in ascending order. */
  lemma BeforeStep(all: set<int>, left: set<int>, m: int)
    requires left <= all && m in left && Before(all - left, left)
    requires forall x :: x in left ==> m <= x
    ensures all - (left - {m}) == (all - left) + {m}
    ensures Before(all - (left - {m}), left - {m})
  {
  }

  /** A set is empty or has a member. */
  lemma EmptyOrMember(s: set<int>)
    ensures s == {} || exists y :: y in s
  {
    if forall y :: y !in s {
      assert s == {};
    }
  }

  // ---------------------------------------------------------------------
  // The tables and the model

  /** A table of events with the columns the model adds to it. A column that
      has not been added yet is empty. */
  class Table {
    const events: seq<Event>
    const distance: seq<real>
    var timeGap: seq<int>
    var relativeDistance: seq<int>
    var timeW: seq<real>
    var distanceW: seq<real>
    var prob: seq<real>

    /** A table holding the given events and their `Distance` column, and no
        derived column yet. */
    constructor (events: seq<Event>, distance: seq<real>)
      ensures this.events == events && this.distance == distance
      ensures timeGap == [] && relativeDistance == []
      ensures timeW == [] && distanceW == [] && prob == []
    {
      this.events, this.distance := events, distance;
      timeGap, relativeDistance := [], [];
      timeW, distanceW, prob := [], [], [];
    }
  }

  /** The result of `model`: the center, its weighted scope and the nested
      weekday -> hour -> demand -> probability table. */
  class Center {
    const center: (real, real)
    const scopeDf: Table
    var distributions: map<int, map<int, map<int, real>>>

    constructor (center: (real, real), df: Table)
      ensures this.center == center && scopeDf == df && distributions == map[]
    {
      this.center := center;
      scopeDf := df;
      distributions := map[];
    }
  }

  class GeoModel {
    const df: seq<Event>
    const radius: real
    const decay: real
    const rLst: seq<real>
    const alpha: nat

    /** The ring list is non-empty and strictly increasing. */
    predicate Valid()
    {
      rLst != [] && StrictlyIncreasing(rLst)
    }

    /** `rLst` is `radius_list(r, r_decay)`: a non-empty list of strictly
        increasing ring thresholds. */
    constructor (df: seq<Event>, r: real, rDecay: real, alpha: nat, rLst: seq<real>)
      requires rLst != [] && StrictlyIncreasing(rLst)
      ensures Valid()
      ensures this.df == df && radius == r && decay == rDecay
      ensures this.alpha == alpha && this.rLst == rLst
    {
      this.df := df;
      radius := r;
      decay := rDecay;
      this.rLst := rLst;
      this.alpha := alpha;
    }

    /** `filter_df`: a fresh copy of the dataset with its `Distance` column,
        keeping the rows within the largest ring in their original order.
        `distance` holds the Euclidean distance of every row to `center`. */
    method FilterDf(center: (real, real), distance: seq<real>) returns (fltrDf: Table)
      requires Valid()
      requires |distance| == |df|
      requires forall i :: 0 <= i < |df| ==> IsEuclidean(center, df[i].latQ, df[i].lonQ, distance[i])
      ensures fresh(fltrDf)
      ensures fltrDf.events == ScopeEvents(df, distance, rLst)
      ensures fltrDf.distance == ScopeDistances(distance, rLst)
      ensures |fltrDf.distance| == |fltrDf.events|
      ensures fltrDf.timeGap == [] && fltrDf.relativeDistance == []
      ensures fltrDf.timeW == [] && fltrDf.distanceW == [] && fltrDf.prob == []
    {
      var keep := KeptIndices(distance, MaxReal(rLst));
      fltrDf := new Table(Pick(df, keep), Pick(distance, keep));
    }

    /** `time_weights`: adds the weekly `TimeGap` column and returns `TimeW`. */
    method TimeWeights(scopeDf: Table) returns (w: seq<real>)
      modifies scopeDf`timeGap
      ensures scopeDf.timeGap == TimeGaps(Dates(scopeDf.events), "weekly")
      ensures w == TimeWeightsOf(scopeDf.events, alpha)
    {
      scopeDf.timeGap := TimeGaps(Dates(scopeDf.events), "weekly");
      assert AllPositive(AsReals(scopeDf.timeGap));
      w := GroupTransform(TimeKeys(scopeDf.events), AsReals(scopeDf.timeGap), alpha, "unique");
    }

    /** `distance_weights`: adds the `RelativeDistance` column and returns
        `DistanceW`. */
    method DistanceWeights(scopeDf: Table) returns (w: seq<real>)
      requires |scopeDf.distance| == |scopeDf.events|
      modifies scopeDf`relativeDistance
      ensures scopeDf.relativeDistance == RelativeDistances(scopeDf.distance, rLst)
      ensures w == DistanceWeightsOf(scopeDf.events, scopeDf.distance, rLst, alpha)
    {
      scopeDf.relativeDistance := RelativeDistances(scopeDf.distance, rLst);
      assert AllPositive(AsReals(scopeDf.relativeDistance));
      w := GroupTransform(DistanceKeys(scopeDf.events), AsReals(scopeDf.relativeDistance), alpha, "");
    }

    /** `get_filter_df_attributes`: adds `TimeGap`, `TimeW`,
        `RelativeDistance`, `DistanceW` and `Prob`; no row is dropped. */
    method GetFilterDfAttributes(scopeDf: Table)
      requires |scopeDf.distance| == |scopeDf.events|
      modifies scopeDf`timeGap, scopeDf`relativeDistance, scopeDf`timeW, scopeDf`distanceW, scopeDf`prob
      ensures scopeDf.timeGap == TimeGaps(Dates(scopeDf.events), "weekly")
      ensures scopeDf.relativeDistance == RelativeDistances(scopeDf.distance, rLst)
      ensures scopeDf.timeW == TimeWeightsOf(scopeDf.events, alpha)
      ensures scopeDf.distanceW == DistanceWeightsOf(scopeDf.events, scopeDf.distance, rLst, alpha)
      ensures scopeDf.prob == Probs(scopeDf.timeW, scopeDf.distanceW)
      ensures |scopeDf.prob| == |scopeDf.events|
    {
      var tw := TimeWeights(scopeDf);
      var dw := DistanceWeights(scopeDf);
      scopeDf.timeW, scopeDf.distanceW, scopeDf.prob := tw, dw, Probs(tw, dw);
    }

    /** One pass of the inner loop of `model`: for weekday `wd`, the table of
        every hour in `hours`, filled in ascending order of hour. */
    method FillHours(point: Center, events: seq<Event>, prob: seq<real>, wd: int, hours: set<int>)
      requires |prob| == |events| && wd !in point.distributions && hours != {}
      modifies point`distributions
      ensures point.distributions == old(point.distributions)[wd := DayTable(events, prob, wd, hours)]
    {
      ghost var before := point.distributions;
      var hLeft := hours;
      while hLeft != {}
        invariant hLeft <= hours
        invariant hLeft == hours ==> point.distributions == before
        invariant hLeft != hours ==> point.distributions == before[wd := DayTable(events, prob, wd, hours - hLeft)]
        invariant Before(hours - hLeft, hLeft)
        decreases hLeft
      {
        HasLeast(hLeft);
        var h :| h in hLeft && forall x :: x in hLeft ==> h <= x;
        var dist := Distribution(events, prob, wd, h);
        ghost var done := hours - hLeft;
        DayTableInsert(events, prob, wd, done, h);
        BeforeStep(hours, hLeft, h);
        if wd in point.distributions {
          assert point.distributions == before[wd := DayTable(events, prob, wd, done)];
          point.distributions := point.distributions[wd := point.distributions[wd][h := dist]];
          assert point.distributions == before[wd := DayTable(events, prob, wd, done + {h})];
        } else {
          assert done == {};
          assert DayTable(events, prob, wd, done) == map[];
          point.distributions := point.distributions[wd := map[h := dist]];
        }
        hLeft := hLeft - {h};
      }
      assert hours - hLeft == hours;
    }

    /** The loops of `model`: for every weekday of the scope in ascending
        order, and within it every hour of the scope in ascending order, the
        distribution of that weekday and hour. */
    method FillDistributions(point: Center, events: seq<Event>, prob: seq<real>)
      requires |prob| == |events| && point.distributions == map[]
      modifies point`distributions
      ensures point.distributions == Distributions(events, prob)
    {
      var weekdays, hours := Weekdays(events), Hours(events);
      var wdLeft := weekdays;
      while wdLeft != {}
        invariant wdLeft <= weekdays
        invariant point.distributions == WeekTable(events, prob, weekdays - wdLeft, hours)
        invariant Before(weekdays - wdLeft, wdLeft)
        decreases wdLeft
      {
        HasLeast(wdLeft);
        var wd :| wd in wdLeft && forall x :: x in wdLeft ==> wd <= x;
        var i :| 0 <= i < |events| && events[i].weekday == wd;
        assert events[i].hour in hours;
        FillHours(point, events, prob, wd, hours);
        WeekTableInsert(events, prob, weekdays - wdLeft, hours, wd);
        BeforeStep(weekdays, wdLeft, wd);
        wdLeft := wdLeft - {wd};
      }
      assert weekdays - wdLeft == weekdays;
    }

    /** `model`: filters the dataset to the center's scope, weighs it, and
        fills the table for every weekday in the scope and every hour in
        the scope, both in ascending order. */
    method Model(center: (real, real), distance: seq<real>) returns (point: Center)
      requires Valid()
      requires |distance| == |df|
      requires forall i :: 0 <= i < |df| ==> IsEuclidean(center, df[i].latQ, df[i].lonQ, distance[i])
      ensures fresh(point) && fresh(point.scopeDf)
      ensures point.center == center
      ensures point.scopeDf.events == ScopeEvents(df, distance, rLst)
      ensures point.scopeDf.distance == ScopeDistances(distance, rLst)
      ensures point.scopeDf.timeGap == TimeGaps(Dates(point.scopeDf.events), "weekly")
      ensures point.scopeDf.relativeDistance == RelativeDistances(point.scopeDf.distance, rLst)
      ensures point.scopeDf.timeW == TimeWeightsOf(point.scopeDf.events, alpha)
      ensures point.scopeDf.distanceW
           == DistanceWeightsOf(point.scopeDf.events, point.scopeDf.distance, rLst, alpha)
      ensures point.scopeDf.prob == Probs(point.scopeDf.timeW, point.scopeDf.distanceW)
      ensures point.distributions == Distributions(point.scopeDf.events, point.scopeDf.prob)
    {
      var scopeDf := FilterDf(center, distance);
      GetFilterDfAttributes(scopeDf);
      point := new Center(center, scopeDf);
      FillDistributions(point, scopeDf.events, scopeDf.prob);
    }
  }
}
