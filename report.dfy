/**
 * The evaluation summary of `report/state_raw.py`: column totals over the rows of
 * `state.csv`, the mean of the per-image average confidences, and four rates, each
 * guarded against a zero denominator.
 */
module Report {
  import opened Common
  import opened Evaluation

  /** The count columns of `state.csv`. */
  datatype Column = Gt | Pred | Tp | Fp | Fn

  function Cell(r: StateRow, c: Column): nat {
    match c
    case Gt => r.gt
    case Pred => r.pred
    case Tp => r.tp
    case Fp => r.fp
    case Fn => r.fn
  }

  /** `df[column].sum()`: at least every single cell, and 0 exactly when every cell is 0. */
  function Total(rows: seq<StateRow>, c: Column): (t: nat)
    ensures forall k :: 0 <= k < |rows| ==> Cell(rows[k], c) <= t
    ensures t == 0 <==> forall k :: 0 <= k < |rows| ==> Cell(rows[k], c) == 0
  {
    if rows == [] then 0 else Cell(rows[0], c) + Total(rows[1..], c)
  }

  /** A column total is additive over a split of the table. */
  lemma {:induction false} TotalSplit(a: seq<StateRow>, b: seq<StateRow>, c: Column)
    ensures Total(a + b, c) == Total(a, c) + Total(b, c)
  {
    if a != [] {
      assert (a + b)[1..] == a[1..] + b;
      TotalSplit(a[1..], b, c);
    } else {
      assert a + b == b;
    }
  }

  /** `num / den if den > 0 else 0`. */
  function GuardedRatio(num: nat, den: nat): (q: real)
    ensures den == 0 ==> q == 0.0
    ensures den > 0 ==> q * den as real == num as real
    ensures num <= den ==> 0.0 <= q <= 1.0
  {
    if den > 0 then
      RatioAtMostOne(if num <= den then num as real else 0.0, den as real);
      num as real / den as real
    else 0.0
  }

  /** The single row of `error_summary.csv`. An empty table has no mean confidence. */
  datatype Summary = Summary(
    totalImages: nat, totalGt: nat, totalPred: nat, totalTp: nat, totalFp: nat, totalFn: nat,
    avgConf: Option<real>,
    fnPerImage: real, fpPerImage: real, fnRateOverGt: real, fpRateOverPred: real)

  function Confidences(rows: seq<StateRow>): seq<real> {
    seq(|rows|, i requires 0 <= i < |rows| => rows[i].avgConf)
  }

  /**
   * The summary of a table. Each rate is its numerator over its denominator when
   * the denominator is positive and 0 otherwise, so no division by zero occurs.
   */
  function Summarize(rows: seq<StateRow>): (s: Summary)
    ensures s.totalImages == |rows|
    ensures s.totalGt == Total(rows, Gt) && s.totalPred == Total(rows, Pred) && s.totalTp == Total(rows, Tp)
    ensures s.totalFp == Total(rows, Fp) && s.totalFn == Total(rows, Fn)
    ensures rows == [] ==> s.avgConf == None
    ensures rows != [] ==> s.avgConf == Some(Mean(Confidences(rows)))
    ensures s.fnPerImage == GuardedRatio(s.totalFn, s.totalImages)
    ensures s.fpPerImage == GuardedRatio(s.totalFp, s.totalImages)
    ensures s.fnRateOverGt == GuardedRatio(s.totalFn, s.totalGt)
    ensures s.fpRateOverPred == GuardedRatio(s.totalFp, s.totalPred)
  {
    var totalImages := |rows|;
    var totalGt, totalPred := Total(rows, Gt), Total(rows, Pred);
    var totalTp, totalFp, totalFn := Total(rows, Tp), Total(rows, Fp), Total(rows, Fn);
    Summary(totalImages, totalGt, totalPred, totalTp, totalFp, totalFn,
            if rows == [] then None else Some(Mean(Confidences(rows))),
            GuardedRatio(totalFn, totalImages), GuardedRatio(totalFp, totalImages),
            GuardedRatio(totalFn, totalGt), GuardedRatio(totalFp, totalPred))
  }

  /** Over rows that obey the count identities, the totals obey them too. */
  lemma {:induction false} TotalsConsistent(rows: seq<StateRow>)
    requires forall r :: r in rows ==> Consistent(r)
    ensures Total(rows, Tp) + Total(rows, Fn) == Total(rows, Gt)
    ensures Total(rows, Tp) + Total(rows, Fp) == Total(rows, Pred)
  {
    if rows != [] {
      assert rows[0] in rows;
      assert forall r :: r in rows[1..] ==> r in rows;
      TotalsConsistent(rows[1..]);
    }
  }

  /** Over rows that obey the count identities, both error rates lie in [0, 1]. */
  lemma RatesBounded(rows: seq<StateRow>)
    requires forall r :: r in rows ==> Consistent(r)
    ensures 0.0 <= Summarize(rows).fnRateOverGt <= 1.0
    ensures 0.0 <= Summarize(rows).fpRateOverPred <= 1.0
  {
    TotalsConsistent(rows);
  }

  /** With per-image averages in [0, 1], the mean confidence lies in [0, 1]. */
  lemma MeanConfidenceBounded(rows: seq<StateRow>)
    requires rows != []
    requires forall r :: r in rows ==> 0.0 <= r.avgConf <= 1.0
    ensures 0.0 <= Summarize(rows).avgConf.value <= 1.0
  {
    var cs := Confidences(rows);
    assert forall i :: 0 <= i < |cs| ==> cs[i] == rows[i].avgConf && rows[i] in rows;
    MeanOfUnitBounds(cs);
  }

  /** Two images, one with a missed box and one with a spurious box. */
  lemma SummaryExample()
    ensures var s := Summarize([StateRow("a.jpg", 2, 1, 1, 0, 1, 0.9), StateRow("b.jpg", 0, 1, 0, 1, 0, 0.4)]);
            s.totalImages == 2 && s.totalGt == 2 && s.totalPred == 2 && s.totalTp == 1 &&
            s.totalFp == 1 && s.totalFn == 1 && s.fnRateOverGt == 0.5 && s.fpRateOverPred == 0.5 &&
            s.fnPerImage == 0.5 && s.fpPerImage == 0.5 && s.avgConf == Some(0.65)
  {
    var rows := [StateRow("a.jpg", 2, 1, 1, 0, 1, 0.9), StateRow("b.jpg", 0, 1, 0, 1, 0, 0.4)];
    assert rows[1..] == [rows[1]] && rows[1..][1..] == [];
    assert Confidences(rows) == [0.9, 0.4];
    assert [0.9, 0.4][..1] == [0.9];
    assert Sum([0.9, 0.4]) == 1.3;
  }
}
