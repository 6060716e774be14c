/**
 * The difficulty scorer and resampling-weight allocator of `strategyrl.py`.
 *
 * Each row of the per-image stats table is scored as
 *   D = ALPHA_FP * FP + BETA_FN * FN + GAMMA_CONF * (1 - avg_conf)
 * and the score is mapped to a weight by a first-match scan over threshold bands.
 * The script then reports the share of rows that received a weight above 1 and
 * gives one of three pieces of advice about the band thresholds.
 */
module Strategy {
  import opened Common

  const AlphaFp: real := 2.0
  const BetaFn: real := 3.0
  const GammaConf: real := 1.0

  /** A threshold band: a score at or above `threshold` is given `weight`. */
  datatype Band = Band(threshold: real, weight: real)

  /** WEIGHT_LEVELS: scanned in list order, the first band that matches wins. */
  const WeightLevels: seq<Band> := [Band(2.5, 3.0), Band(1.0, 2.0), Band(0.0, 1.0)]

  /** The weight returned when no band matches. */
  const FallbackWeight: real := 1.0

  /**
   * One row of the stats table as the scorer reads it. A field is `None` when the
   * row has no such key, in which case `row.get(key, default)` substitutes a default.
   */
  datatype ScoreRow = ScoreRow(filename: string, fp: Option<real>, fn: Option<real>, avgConf: Option<real>)

  // The explicit default-substitution step: a missing FP or FN counts as 0, a missing
  // avg_conf as 1.0 (so a missing confidence adds no uncertainty).
  function Fp(row: ScoreRow): real { row.fp.GetOr(0.0) }
  function Fn(row: ScoreRow): real { row.fn.GetOr(0.0) }
  function Conf(row: ScoreRow): real { row.avgConf.GetOr(1.0) }

  /** The uncertainty term `1 - conf`. */
  function Uncertainty(row: ScoreRow): real { 1.0 - Conf(row) }

  /** A row whose counts are non-negative and whose confidence is at most 1. */
  predicate InRange(row: ScoreRow) {
    Fp(row) >= 0.0 && Fn(row) >= 0.0 && Conf(row) <= 1.0
  }

  /**
   * calculate_difficulty. On a row in range the score is non-negative, and it is zero
   * exactly for a row without errors whose confidence is 1.
   */
  function Difficulty(row: ScoreRow): (score: real)
    ensures InRange(row) ==> score >= 0.0
    ensures InRange(row) ==> (score == 0.0 <==> Fp(row) == 0.0 && Fn(row) == 0.0 && Conf(row) == 1.0)
  {
    AlphaFp * Fp(row) + BetaFn * Fn(row) + GammaConf * Uncertainty(row)
  }

  /** More errors or less confidence never lowers the score. */
  lemma DifficultyMonotone(a: ScoreRow, b: ScoreRow)
    requires Fp(a) <= Fp(b) && Fn(a) <= Fn(b) && Conf(b) <= Conf(a)
    ensures Difficulty(a) <= Difficulty(b)
  {
  }

  /**
   * The defaults: a row with no avg_conf key contributes no uncertainty, a present
   * confidence of 0 contributes the full uncertainty 1, and rows without FP or FN
   * keys are scored as if those were 0.
   */
  lemma DifficultyDefaults(name: string, fp: real, fn: real, conf: real)
    ensures Difficulty(ScoreRow(name, Some(fp), Some(fn), Some(conf))) == 2.0 * fp + 3.0 * fn + (1.0 - conf)
    ensures Difficulty(ScoreRow(name, Some(fp), Some(fn), None)) == 2.0 * fp + 3.0 * fn
    ensures Difficulty(ScoreRow(name, Some(fp), Some(fn), Some(0.0))) == 2.0 * fp + 3.0 * fn + 1.0
    ensures Difficulty(ScoreRow(name, None, None, Some(conf))) == 1.0 - conf
    ensures Difficulty(ScoreRow(name, None, None, None)) == 0.0
  {
  }

  /** Band `k` is the first one, in list order, whose threshold the score reaches. */
  predicate IsFirstMatch(score: real, bands: seq<Band>, k: int) {
    0 <= k < |bands| && bands[k].threshold <= score &&
    forall j :: 0 <= j < k ==> bands[j].threshold > score
  }

  /** The score is below every threshold. */
  predicate NoBandMatches(score: real, bands: seq<Band>) {
    forall j :: 0 <= j < |bands| ==> bands[j].threshold > score
  }

  /**
   * The allocation policy: the weight of the first matching band, or the fallback
   * weight when no band matches. `GetWeightStrategy` computes it with a loop.
   */
  function Allocate(score: real, bands: seq<Band>): (w: real)
    ensures NoBandMatches(score, bands) ==> w == FallbackWeight
    ensures forall k :: IsFirstMatch(score, bands, k) ==> w == bands[k].weight
    decreases |bands|
  {
    if bands == [] then FallbackWeight
    else if score >= bands[0].threshold then bands[0].weight
    else
      var w := Allocate(score, bands[1..]);
      assert forall k :: IsFirstMatch(score, bands, k) ==> IsFirstMatch(score, bands[1..], k - 1);
      w
  }

  /** Either no band matches or some band is the first match, so `Allocate` is fully specified. */
  lemma {:induction false} FirstMatchExists(score: real, bands: seq<Band>)
    ensures NoBandMatches(score, bands) || exists k :: IsFirstMatch(score, bands, k)
    decreases |bands|
  {
    if bands != [] && score < bands[0].threshold {
      FirstMatchExists(score, bands[1..]);
      if !NoBandMatches(score, bands[1..]) {
        var k :| IsFirstMatch(score, bands[1..], k);
        assert IsFirstMatch(score, bands, k + 1);
      }
    } else if bands != [] {
      assert IsFirstMatch(score, bands, 0);
    }
  }

  /** get_weight_strategy: a scan over the bands that returns at the first match. */
  method GetWeightStrategy(score: real, bands: seq<Band>) returns (w: real)
    ensures w == Allocate(score, bands)
  {
    for i := 0 to |bands|
      invariant forall j :: 0 <= j < i ==> bands[j].threshold > score
    {
      if score >= bands[i].threshold {
        assert IsFirstMatch(score, bands, i);
        return bands[i].weight;
      }
    }
    return FallbackWeight;
  }

  /**
   * The weight the script assigns to a score, with its own bands: a step function
   * with inclusive lower bounds 2.5 and 1.0, and weight 1 below 1.0 (negative
   * scores included, through the fallback).
   */
  function DefaultWeight(score: real): (w: real)
    ensures score >= 2.5 ==> w == 3.0
    ensures 1.0 <= score < 2.5 ==> w == 2.0
    ensures score < 1.0 ==> w == 1.0
  {
    assert score >= 2.5 ==> IsFirstMatch(score, WeightLevels, 0);
    assert 1.0 <= score < 2.5 ==> IsFirstMatch(score, WeightLevels, 1);
    assert 0.0 <= score < 1.0 ==> IsFirstMatch(score, WeightLevels, 2);
    assert score < 0.0 ==> NoBandMatches(score, WeightLevels);
    Allocate(score, WeightLevels)
  }

  /** With the default bands a higher score never gets a lower weight. */
  lemma DefaultWeightMonotone(s1: real, s2: real)
    requires s1 <= s2
    ensures DefaultWeight(s1) <= DefaultWeight(s2)
  {
  }

  /** A row of the weights table handed to the dataset materializer. */
  datatype WeightRow = WeightRow(filename: string, weight: real)

  /** Number of weights above 1 (the rows `df[df['weight'] > 1.0]`). */
  function HardSampleCount(weights: seq<real>): (n: nat)
    ensures n == |HardIndices(weights)|
    ensures n <= |weights|
    ensures n == 0 <==> forall i :: 0 <= i < |weights| ==> weights[i] <= 1.0
  {
    if weights == [] then 0
    else
      var init := weights[..|weights| - 1];
      var last := |weights| - 1;
      var m := HardSampleCount(init);
      assert HardIndices(weights) == HardIndices(init) + (if weights[last] > 1.0 then {last} else {});
      assert last !in HardIndices(init);
      m + (if weights[last] > 1.0 then 1 else 0)
  }

  /** The positions of the weights above 1. */
  function HardIndices(weights: seq<real>): set<int> {
    set i | 0 <= i < |weights| && weights[i] > 1.0
  }

  /** Share of hard samples; 0 for an empty table. */
  function HighWeightRatio(weights: seq<real>): (r: real)
    ensures 0.0 <= r <= 1.0
    ensures |weights| == 0 ==> r == 0.0
    ensures |weights| > 0 ==> r * |weights| as real == HardSampleCount(weights) as real
  {
    if |weights| > 0 then
      var n := HardSampleCount(weights) as real;
      var t := |weights| as real;
      RatioAtMostOne(n, t);
      n / t
    else 0.0
  }

  /** The three messages printed after the distribution analysis. */
  datatype Advice = RaiseThresholds | LowerThresholds | Healthy

  /** Above 40% hard samples: raise thresholds; below 5%: lower them; otherwise healthy. */
  function Advise(ratio: real): (a: Advice)
    ensures a == RaiseThresholds <==> ratio > 0.4
    ensures a == LowerThresholds <==> ratio < 0.05
    ensures a == Healthy <==> 0.05 <= ratio <= 0.4
  {
    if ratio > 0.4 then RaiseThresholds
    else if ratio < 0.05 then LowerThresholds
    else Healthy
  }

  /**
   * The table `main` reads: its column names and its rows. A row's fields are
   * optional and not tied to `columns`, so that the `row.get` defaults of the
   * scorer are part of the model; once the column check has passed, every row of
   * a real table has all three fields.
   */
  datatype StatsTable = StatsTable(columns: set<string>, rows: seq<ScoreRow>)

  /** The columns `main` insists on, checked in this order. */
  const RequiredColumns: seq<string> := ["FP", "FN", "avg_conf"]

  /** The first of `cols` that is not among `present`. */
  function FirstMissing(cols: seq<string>, present: set<string>): (m: Option<string>)
    ensures m == None <==> forall i :: 0 <= i < |cols| ==> cols[i] in present
    ensures m.Some? ==> exists i :: 0 <= i < |cols| && cols[i] == m.value && m.value !in present &&
                                    forall j :: 0 <= j < i ==> cols[j] in present
  {
    if cols == [] then None
    else if cols[0] !in present then Some(cols[0])
    else
      var m := FirstMissing(cols[1..], present);
      assert m.Some? ==> exists i :: 0 <= i < |cols| && cols[i] == m.value && m.value !in present &&
                                      forall j :: 0 <= j < i ==> cols[j] in present by {
        if m.Some? {
          var i :| 0 <= i < |cols| - 1 && cols[1..][i] == m.value && m.value !in present &&
                   forall j :: 0 <= j < i ==> cols[1..][j] in present;
          assert cols[i + 1] == m.value;
        }
      }
      m
  }

  /** Outcome of `main`: it stops at a missing required column, or produces the weights and the advice. */
  datatype StrategyOutcome =
    | MissingColumn(column: string)
    | Weighted(weights: seq<WeightRow>, hardRatio: real, advice: Advice)

  /**
   * The `weight` column: one allocated weight per row, in row order, each 1, 2 or 3,
   * and above 1 exactly for the rows scoring at least 1.
   */
  function AssignWeights(rows: seq<ScoreRow>): (weights: seq<WeightRow>)
    ensures |weights| == |rows|
    ensures forall i :: 0 <= i < |rows| ==>
              weights[i].filename == rows[i].filename &&
              weights[i].weight == DefaultWeight(Difficulty(rows[i])) &&
              weights[i].weight in {1.0, 2.0, 3.0} &&
              (weights[i].weight > 1.0 <==> Difficulty(rows[i]) >= 1.0)
  {
    seq(|rows|, i requires 0 <= i < |rows| => WeightRow(rows[i].filename, DefaultWeight(Difficulty(rows[i]))))
  }

  function WeightColumn(weights: seq<WeightRow>): seq<real> {
    seq(|weights|, i requires 0 <= i < |weights| => weights[i].weight)
  }

  /**
   * The decision part of `main`: refuse a table that lacks FP, FN or avg_conf;
   * otherwise weight every row, one output row per input row, and classify the
   * share of rows weighted above 1.
   */
  function RunStrategy(table: StatsTable): (out: StrategyOutcome)
    ensures out.MissingColumn? <==> exists c :: c in RequiredColumns && c !in table.columns
    ensures out.MissingColumn? ==>
              exists k :: 0 <= k < |RequiredColumns| && RequiredColumns[k] == out.column &&
                          out.column !in table.columns &&
                          forall j :: 0 <= j < k ==> RequiredColumns[j] in table.columns
    ensures out.Weighted? ==> |out.weights| == |table.rows|
    ensures out.Weighted? ==> forall i :: 0 <= i < |out.weights| ==>
              out.weights[i].filename == table.rows[i].filename &&
              out.weights[i].weight == DefaultWeight(Difficulty(table.rows[i])) &&
              out.weights[i].weight in {1.0, 2.0, 3.0} &&
              (out.weights[i].weight > 1.0 <==> Difficulty(table.rows[i]) >= 1.0)
    ensures out.Weighted? ==> out.hardRatio == HighWeightRatio(WeightColumn(out.weights))
    ensures out.Weighted? ==> 0.0 <= out.hardRatio <= 1.0 && out.advice == Advise(out.hardRatio)
  {
    match FirstMissing(RequiredColumns, table.columns)
    case Some(c) => MissingColumn(c)
    case None =>
      var weights := AssignWeights(table.rows);
      var ratio := HighWeightRatio(WeightColumn(weights));
      Weighted(weights, ratio, Advise(ratio))
  }
}
