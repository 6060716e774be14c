/**
 * The per-image statistics pass of `apply/state.py`.
 *
 * Every file of the image directory whose lower-cased name ends in `.jpg`, `.png`
 * or `.jpeg` is run through the detector; its predicted boxes are compared by
 * count with the lines of its label file, and one row
 * `filename, gt, pred, TP, FP, FN, avg_conf` is written per image.
 *
 * The detector is a parameter: `detect(name)` is the list of box confidences it
 * returns for that image. The label directory is a map from label file name to its
 * number of lines.
 */
module Evaluation {
  import opened Common
  import opened Text

  /** One row of `state.csv`, fields in header order. */
  datatype StateRow = StateRow(filename: string, gt: nat, pred: nat, tp: nat, fp: nat, fn: nat, avgConf: real)

  /** The extensions accepted by the filter; an accepted name has at least four characters. */
  predicate IsImageName(name: string)
    ensures IsImageName(name) ==> |name| >= 4
  {
    var l := Lower(name);
    EndsWith(l, ".jpg") || EndsWith(l, ".png") || EndsWith(l, ".jpeg")
  }

  /** Case does not matter to the filter. */
  lemma ImageNameExamples()
    ensures IsImageName("IMG_01.JPG") && IsImageName("a.Jpeg") && IsImageName("b.png")
    ensures !IsImageName("notes.txt") && !IsImageName("jpg")
  {
    assert Lower("IMG_01.JPG")[6..] == ".jpg";
    assert Lower("a.Jpeg")[1..] == ".jpeg";
    assert Lower("b.png")[1..] == ".png";
    assert Lower("notes.txt")[5..] == ".txt";
    assert Lower("notes.txt")[4..] == "s.txt";
  }

  /** `name.rsplit(".", 1)[0]`: the name up to its last dot, or the whole name when it has none. */
  function StemBeforeLastDot(name: string): string {
    var d := LastIndexOf(name, '.');
    if d < 0 then name else name[..d]
  }

  /**
   * The label file of an image. For a name with a dot it is the part before the last
   * dot followed by `.txt`; for a name without one it is the whole name followed by `.txt`.
   */
  function LabelNameOf(name: string): (labelName: string)
    ensures EndsWith(labelName, ".txt")
    ensures (forall k :: 0 <= k < |name| ==> name[k] != '.') ==> labelName == name + ".txt"
    ensures forall d :: 0 <= d < |name| && name[d] == '.' && (forall k :: d < k < |name| ==> name[k] != '.') ==>
              labelName == name[..d] + ".txt"
  {
    StemBeforeLastDot(name) + ".txt"
  }

  function Sum(xs: seq<real>): real {
    if xs == [] then 0.0 else Sum(xs[..|xs| - 1]) + xs[|xs| - 1]
  }

  /** The arithmetic mean, 0 for no values. */
  function Mean(xs: seq<real>): (m: real)
    ensures |xs| == 0 ==> m == 0.0
    ensures |xs| > 0 ==> m * |xs| as real == Sum(xs)
  {
    if |xs| > 0 then Sum(xs) / |xs| as real else 0.0
  }

  /** Every value lies in [0, 1]. */
  predicate AllUnit(xs: seq<real>) {
    forall i :: 0 <= i < |xs| ==> 0.0 <= xs[i] <= 1.0
  }

  /** A sum of values in [0, 1] lies between 0 and the number of values. */
  lemma {:induction false} SumOfUnitBounds(xs: seq<real>)
    requires AllUnit(xs)
    ensures 0.0 <= Sum(xs) <= |xs| as real
  {
    if xs != [] {
      SumOfUnitBounds(xs[..|xs| - 1]);
    }
  }

  /** The mean of values in [0, 1] lies in [0, 1]. */
  lemma MeanOfUnitBounds(xs: seq<real>)
    requires AllUnit(xs)
    ensures 0.0 <= Mean(xs) <= 1.0
  {
    if |xs| > 0 {
      SumOfUnitBounds(xs);
      RatioAtMostOne(Sum(xs), |xs| as real);
    }
  }

  /** The count-matching result for one image. */
  datatype Counts = Counts(tp: nat, fp: nat, fn: nat)

  /**
   * TP = min(gt, pred), FP = max(0, pred - gt), FN = max(0, gt - pred): the matched
   * boxes plus the missed ones make up the ground truth, the matched plus the
   * spurious ones make up the predictions, and an image never has both missed
   * and spurious boxes.
   */
  function MatchCounts(gt: nat, pred: nat): (c: Counts)
    ensures c.tp + c.fn == gt && c.tp + c.fp == pred
    ensures c.fp == 0 || c.fn == 0
  {
    Counts(if gt <= pred then gt else pred,
           if pred - gt > 0 then pred - gt else 0,
           if gt - pred > 0 then gt - pred else 0)
  }

  /** Those three facts leave only one choice of counts. */
  lemma MatchCountsUnique(gt: nat, pred: nat, c: Counts)
    requires c.tp + c.fn == gt && c.tp + c.fp == pred && (c.fp == 0 || c.fn == 0)
    ensures c == MatchCounts(gt, pred)
  {
  }

  /** A row whose counts obey the count-matching identities. */
  predicate Consistent(r: StateRow) {
    r.tp + r.fn == r.gt && r.tp + r.fp == r.pred && (r.fp == 0 || r.fn == 0)
  }

  /** The ground-truth count of an image: the label's line count, or 0 without a label file. */
  function GroundTruth(name: string, labelLines: map<string, nat>): nat {
    var labelName := LabelNameOf(name);
    if labelName in labelLines then labelLines[labelName] else 0
  }

  /**
   * The ground truth of an image reads only that image's own label file: label
   * directories that agree on it give the same count.
   */
  lemma GroundTruthLocal(name: string, l1: map<string, nat>, l2: map<string, nat>)
    requires LabelNameOf(name) in l1 <==> LabelNameOf(name) in l2
    requires LabelNameOf(name) in l1 ==> l1[LabelNameOf(name)] == l2[LabelNameOf(name)]
    ensures GroundTruth(name, l1) == GroundTruth(name, l2)
  {
  }

  /** The row written for one accepted image, given the confidences of its predicted boxes. */
  function DeriveRow(name: string, confs: seq<real>, labelLines: map<string, nat>): (r: StateRow)
    ensures r.filename == name && r.pred == |confs| && r.gt == GroundTruth(name, labelLines)
    ensures Consistent(r)
    ensures r.avgConf == Mean(confs)
  {
    var gt := GroundTruth(name, labelLines);
    var c := MatchCounts(gt, |confs|);
    StateRow(name, gt, |confs|, c.tp, c.fp, c.fn, Mean(confs))
  }

  /** The names the filter lets through, in listing order. */
  function AcceptedNames(listing: seq<string>): (names: seq<string>)
    ensures forall x :: x in names <==> x in listing && IsImageName(x)
    ensures |names| <= |listing|
  {
    if listing == [] then []
    else AcceptedNames(listing[..|listing| - 1]) +
         (if IsImageName(listing[|listing| - 1]) then [listing[|listing| - 1]] else [])
  }

  /**
   * The rows written for a directory listing, in listing order: no more rows than
   * listed names, each for a listed image name and obeying the count identities.
   */
  function StateTable(listing: seq<string>, detect: string -> seq<real>, labelLines: map<string, nat>): (rows: seq<StateRow>)
    ensures |rows| <= |listing|
    ensures forall r :: r in rows ==> r.filename in listing && IsImageName(r.filename) && Consistent(r)
  {
    if listing == [] then []
    else
      var name := listing[|listing| - 1];
      StateTable(listing[..|listing| - 1], detect, labelLines) +
      (if IsImageName(name) then [DeriveRow(name, detect(name), labelLines)] else [])
  }

  /** Exactly one row per accepted image, in order, each derived from that image alone. */
  lemma {:induction false} StateTableRows(listing: seq<string>, detect: string -> seq<real>, labelLines: map<string, nat>)
    ensures |StateTable(listing, detect, labelLines)| == |AcceptedNames(listing)|
    ensures forall k :: 0 <= k < |AcceptedNames(listing)| ==>
              StateTable(listing, detect, labelLines)[k] ==
              DeriveRow(AcceptedNames(listing)[k], detect(AcceptedNames(listing)[k]), labelLines)
  {
    if listing != [] {
      StateTableRows(listing[..|listing| - 1], detect, labelLines);
    }
  }

  /** Every row of the table obeys the count identities; confidences in [0, 1] give averages in [0, 1]. */
  lemma {:induction false} StateTableConsistent(listing: seq<string>, detect: string -> seq<real>, labelLines: map<string, nat>)
    ensures forall r :: r in StateTable(listing, detect, labelLines) ==> Consistent(r)
    ensures (forall x :: x in listing ==> AllUnit(detect(x))) ==>
              forall r :: r in StateTable(listing, detect, labelLines) ==> 0.0 <= r.avgConf <= 1.0
  {
    if listing != [] {
      var init := listing[..|listing| - 1];
      var name := listing[|listing| - 1];
      StateTableConsistent(init, detect, labelLines);
      if forall x :: x in listing ==> AllUnit(detect(x)) {
        assert forall x :: x in init ==> x in listing;
        MeanOfUnitBounds(detect(name));
      }
    }
  }

  /** One more name of the listing adds its row, if the filter accepts it. */
  lemma StateTableStep(listing: seq<string>, detect: string -> seq<real>, labelLines: map<string, nat>, i: nat)
    requires i < |listing|
    ensures StateTable(listing[..i + 1], detect, labelLines) ==
            StateTable(listing[..i], detect, labelLines) +
            (if IsImageName(listing[i]) then [DeriveRow(listing[i], detect(listing[i]), labelLines)] else [])
  {
    assert listing[..i + 1][..i] == listing[..i];
  }

  /**
   * The top-level loop of the script: walk the listing, skip names the filter
   * rejects, and append one row per remaining image.
   */
  method CollectStats(listing: seq<string>, detect: string -> seq<real>, labelLines: map<string, nat>)
    returns (rows: seq<StateRow>)
    ensures rows == StateTable(listing, detect, labelLines)
    ensures |rows| == |AcceptedNames(listing)|
    ensures forall r :: r in rows ==> Consistent(r) && IsImageName(r.filename) && r.filename in listing
  {
    rows := [];
    for i := 0 to |listing|
      invariant rows == StateTable(listing[..i], detect, labelLines)
      invariant forall r :: r in rows ==> IsImageName(r.filename) && r.filename in listing[..i]
    {
      var imgName := listing[i];
      StateTableStep(listing, detect, labelLines, i);
      if !IsImageName(imgName) {
        continue;
      }
      var confs := detect(imgName);
      var predCount := |confs|;
      var avgConf := if |confs| > 0 then Sum(confs) / |confs| as real else 0.0;
      var gtCount := GroundTruth(imgName, labelLines);
      var tp := if gtCount <= predCount then gtCount else predCount;
      var fp := if predCount - gtCount > 0 then predCount - gtCount else 0;
      var fn := if gtCount - predCount > 0 then gtCount - predCount else 0;
      assert StateRow(imgName, gtCount, predCount, tp, fp, fn, avgConf) == DeriveRow(imgName, confs, labelLines);
      rows := rows + [StateRow(imgName, gtCount, predCount, tp, fp, fn, avgConf)];
    }
    assert listing[..|listing|] == listing;
    StateTableRows(listing, detect, labelLines);
    StateTableConsistent(listing, detect, labelLines);
  }
}
