/**
 * How the scripts fit together: `apply/state.py` writes `state.csv`, which
 * `strategyrl.py` turns into `weights.csv`, which `create_weighted_dataset.py`
 * materializes. The lemmas here follow a row across those hand-offs.
 */
module Pipeline {
  import opened Common
  import opened Strategy
  import opened Evaluation
  import opened Replication

  /** The header `apply/state.py` writes. */
  const StateColumns: set<string> := {"filename", "gt", "pred", "TP", "FP", "FN", "avg_conf"}

  /** A row of `state.csv` as `strategyrl.py` reads it: every column present. */
  function ScoreRowOf(r: StateRow): ScoreRow {
    ScoreRow(r.filename, Some(r.fp as real), Some(r.fn as real), Some(r.avgConf))
  }

  /** `state.csv` as `strategyrl.py` reads it. */
  function StatsTableOf(rows: seq<StateRow>): StatsTable {
    StatsTable(StateColumns, seq(|rows|, i requires 0 <= i < |rows| => ScoreRowOf(rows[i])))
  }

  /** A row produced by the evaluator with confidences in [0, 1] gets a non-negative score. */
  lemma DerivedRowScoreNonNegative(name: string, confs: seq<real>, labelLines: map<string, nat>)
    requires AllUnit(confs)
    ensures Difficulty(ScoreRowOf(DeriveRow(name, confs, labelLines))) >= 0.0
  {
    MeanOfUnitBounds(confs);
  }

  /**
   * An image whose boxes match its labels in number and whose confidences are all
   * 1 gets score 0, weight 1, and a single copy in the weighted dataset.
   */
  lemma PerfectImageCopiedOnce(name: string, confs: seq<real>, labelLines: map<string, nat>)
    requires |confs| == GroundTruth(name, labelLines)
    requires forall i :: 0 <= i < |confs| ==> confs[i] == 1.0
    requires confs != []
    ensures var s := ScoreRowOf(DeriveRow(name, confs, labelLines));
            Difficulty(s) == 0.0 && DefaultWeight(Difficulty(s)) == 1.0 &&
            RepeatTimes(DefaultWeight(Difficulty(s))) == 1
  {
    MeanOfOnes(confs);
    var r := DeriveRow(name, confs, labelLines);
    assert r.fp == 0 && r.fn == 0 && r.avgConf == 1.0;
    var s := ScoreRowOf(r);
    assert Difficulty(s) == 0.0;
    RepeatTimesOfWholeWeight(1);
  }

  /**
   * An image without detections gets avg_conf 0, which the scorer reads as full
   * uncertainty: its score is at least 1, so it gets weight at least 2 and is
   * copied at least twice. Without ground truth it scores exactly 1, gets weight 2
   * and is copied twice.
   */
  lemma EmptyImageCopiedTwice(name: string, labelLines: map<string, nat>)
    ensures var s := ScoreRowOf(DeriveRow(name, [], labelLines));
            Difficulty(s) >= 1.0 && DefaultWeight(Difficulty(s)) >= 2.0 &&
            RepeatTimes(DefaultWeight(Difficulty(s))) >= 2
    ensures GroundTruth(name, labelLines) == 0 ==>
            var s := ScoreRowOf(DeriveRow(name, [], labelLines));
            Difficulty(s) == 1.0 && DefaultWeight(Difficulty(s)) == 2.0 &&
            RepeatTimes(DefaultWeight(Difficulty(s))) == 2
  {
    var r := DeriveRow(name, [], labelLines);
    assert r.fp == 0 && r.avgConf == 0.0;
    assert r.fn == r.gt;
    RepeatTimesOfWholeWeight(2);
    RepeatTimesOfWholeWeight(3);
  }

  /** The mean of ones is 1. */
  lemma MeanOfOnes(xs: seq<real>)
    requires forall i :: 0 <= i < |xs| ==> xs[i] == 1.0
    requires xs != []
    ensures Mean(xs) == 1.0
  {
    SumOfOnes(xs);
    var n := |xs| as real;
    assert Mean(xs) == n / n;
  }

  /** A sum of ones is the number of terms. */
  lemma {:induction false} SumOfOnes(xs: seq<real>)
    requires forall i :: 0 <= i < |xs| ==> xs[i] == 1.0
    ensures Sum(xs) == |xs| as real
  {
    if xs != [] {
      SumOfOnes(xs[..|xs| - 1]);
    }
  }

  /**
   * A table written by the evaluator always has the columns the allocator needs,
   * and every weight it assigns is copied exactly that many times.
   */
  lemma WeightsReplicateExactly(rows: seq<StateRow>)
    ensures RunStrategy(StatsTableOf(rows)).Weighted?
    ensures var out := RunStrategy(StatsTableOf(rows));
            forall i :: 0 <= i < |out.weights| ==> RepeatTimes(out.weights[i].weight) as real == out.weights[i].weight
  {
    assert forall c :: c in RequiredColumns ==> c in StateColumns;
    var out := RunStrategy(StatsTableOf(rows));
    forall i | 0 <= i < |out.weights|
      ensures RepeatTimes(out.weights[i].weight) as real == out.weights[i].weight
    {
      var w := out.weights[i].weight;
      if w == 1.0 { RepeatTimesOfWholeWeight(1); }
      else if w == 2.0 { RepeatTimesOfWholeWeight(2); }
      else { RepeatTimesOfWholeWeight(3); }
    }
  }

  /**
   * For an ordinary image name the evaluator and the materializer look for the same
   * label file.
   */
  lemma LabelNamesAgree(stem: string, ext: string)
    requires IsPlainStem(stem) && IsExtension(ext)
    ensures LabelNameOf(stem + ext) == SourceLabel(stem + ext)
  {
    SplitExtOfPlainName(stem, ext);
    var p := stem + ext;
    assert p[|stem|] == '.';
    assert forall k :: |stem| < k < |p| ==> p[k] == ext[k - |stem|];
    assert p[..|stem|] == stem;
  }

  /**
   * For a name whose only dot starts it, such as `.png`, they do not: the evaluator
   * reads `.txt` while the materializer copies `.png.txt`.
   */
  lemma LabelNamesDifferForDotFile(name: string)
    requires |name| >= 2 && name[0] == '.'
    requires forall k :: 1 <= k < |name| ==> name[k] != '.' && name[k] != '/'
    ensures LabelNameOf(name) == ".txt"
    ensures SourceLabel(name) == name + ".txt"
    ensures LabelNameOf(name) != SourceLabel(name)
  {
    SplitExtOfDotFile(name);
    assert name[..0] == [];
  }

  /**
   * For an ordinary image name the evaluator counts the lines of exactly the label
   * file the materializer copies along with the image, and 0 when there is none.
   */
  lemma GroundTruthOfCopiedLabel(stem: string, ext: string, labelLines: map<string, nat>)
    requires IsPlainStem(stem) && IsExtension(ext)
    ensures SourceLabel(stem + ext) !in labelLines ==> GroundTruth(stem + ext, labelLines) == 0
    ensures SourceLabel(stem + ext) in labelLines ==>
              GroundTruth(stem + ext, labelLines) == labelLines[SourceLabel(stem + ext)]
  {
    LabelNamesAgree(stem, ext);
  }
}
