/**
 * The pure parts of the forecasting engine in src/forecast.py: the metrics of
 * `evaluate_model` over the pairs that have both values, the cumulative-sum
 * reconstruction of price levels in `run_model`, the choice of the best
 * model in `best_model_forecast`, and the values its future loop produces.
 */
module Evaluation {
  import opened Base
  import opened Series

  // ------------------------------------------------------------- metrics

  /** `valid_mask = ~isnan(y_true) & ~isnan(y_pred)`: the (actual, predicted) pairs where both are present, in order. */
  function Pairs(actual: Column, predicted: Column): (r: seq<(real, real)>)
    requires |actual| == |predicted|
    ensures |r| <= |actual|
    decreases |actual|
  {
    if |actual| == 0 then []
    else
      var n := |actual| - 1;
      Pairs(actual[..n], predicted[..n])
        + (if actual[n].Some? && predicted[n].Some? then [(actual[n].value, predicted[n].value)] else [])
  }

  /** The mask keeps the order of the rows: the pairs of two stretches of rows are those of the first, then those of the second. */
  lemma {:induction false} PairsConcat(a1: Column, p1: Column, a2: Column, p2: Column)
    requires |a1| == |p1| && |a2| == |p2|
    ensures Pairs(a1 + a2, p1 + p2) == Pairs(a1, p1) + Pairs(a2, p2)
    decreases |a2|
  {
    if |a2| == 0 {
      assert a1 + a2 == a1 && p1 + p2 == p1;
    } else {
      var n := |a2| - 1;
      assert (a1 + a2)[..|a1| + n] == a1 + a2[..n];
      assert (p1 + p2)[..|p1| + n] == p1 + p2[..n];
      PairsConcat(a1, p1, a2[..n], p2[..n]);
    }
  }

  /** A pair is kept exactly when some row has both of its values. */
  lemma {:induction false} PairsMembers(actual: Column, predicted: Column, x: real, y: real)
    requires |actual| == |predicted|
    ensures (x, y) in Pairs(actual, predicted) <==>
      exists i :: 0 <= i < |actual| && actual[i] == Some(x) && predicted[i] == Some(y)
    decreases |actual|
  {
    if |actual| > 0 {
      var n := |actual| - 1;
      PairsMembers(actual[..n], predicted[..n], x, y);
      if exists i :: 0 <= i < |actual| && actual[i] == Some(x) && predicted[i] == Some(y) {
        var i :| 0 <= i < |actual| && actual[i] == Some(x) && predicted[i] == Some(y);
        if i < n {
          assert actual[..n][i] == Some(x) && predicted[..n][i] == Some(y);
        }
      }
    }
  }

  /** When nothing is missing, every row gives its pair. */
  lemma {:induction false} PairsOfComplete(actual: Column, predicted: Column)
    requires |actual| == |predicted| && Complete(actual) && Complete(predicted)
    ensures |Pairs(actual, predicted)| == |actual|
    ensures forall i :: 0 <= i < |actual| ==> Pairs(actual, predicted)[i] == (actual[i].value, predicted[i].value)
    decreases |actual|
  {
    if |actual| > 0 {
      var n := |actual| - 1;
      PairsOfComplete(actual[..n], predicted[..n]);
    }
  }

  function Abs(x: real): real {
    if x < 0.0 then -x else x
  }

  function Square(x: real): real {
    x * x
  }

  /** The squared errors of the pairs: none is negative, and an exact forecast has none. */
  function SquaredErrors(ps: seq<(real, real)>): (r: seq<real>)
    ensures |r| == |ps|
    ensures forall i :: 0 <= i < |ps| ==> r[i] >= 0.0 && (ps[i].0 == ps[i].1 ==> r[i] == 0.0)
  {
    seq(|ps|, i requires 0 <= i < |ps| => Square(ps[i].0 - ps[i].1))
  }

  /** The absolute errors of the pairs. */
  function AbsoluteErrors(ps: seq<(real, real)>): (r: seq<real>)
    ensures |r| == |ps|
    ensures forall i :: 0 <= i < |ps| ==> r[i] >= 0.0 && (r[i] == 0.0 <==> ps[i].0 == ps[i].1)
  {
    seq(|ps|, i requires 0 <= i < |ps| => Abs(ps[i].0 - ps[i].1))
  }

  /** A sum of terms none of which is negative is not negative, and is zero exactly when every term is. */
  lemma {:induction false} SumOfNonNegative(xs: seq<real>)
    requires forall i :: 0 <= i < |xs| ==> xs[i] >= 0.0
    ensures Sum(xs) >= 0.0
    ensures Sum(xs) == 0.0 <==> forall i :: 0 <= i < |xs| ==> xs[i] == 0.0
    decreases |xs|
  {
    if |xs| > 0 {
      var n := |xs| - 1;
      SumOfNonNegative(xs[..n]);
      assert forall i :: 0 <= i < n ==> xs[..n][i] == xs[i];
    }
  }

  /** The mean of the values of a non-empty sequence. */
  function Mean(xs: seq<real>): real
    requires |xs| > 0
  {
    Sum(xs) / |xs| as real
  }

  /** The mean of values that are never negative is never negative. */
  lemma MeanOfNonNegative(xs: seq<real>)
    requires |xs| > 0 && forall i :: 0 <= i < |xs| ==> xs[i] >= 0.0
    ensures Mean(xs) >= 0.0
  {
    SumOfNonNegative(xs);
    NonNegativeQuotient(Sum(xs), |xs| as real);
  }

  /** A quotient of a non-negative number by a positive one is non-negative. */
  lemma NonNegativeQuotient(a: real, n: real)
    requires a >= 0.0 && n > 0.0
    ensures a / n >= 0.0
  {
  }

  /** What `evaluate_model` returns: mean squared error, mean absolute error and R². */
  datatype Metrics = Metrics(mse: real, mae: real, r2: Option<real>)

  /**
   * `r2_score` of scikit-learn: undefined (NaN) for fewer than two samples;
   * 1 or 0 when the actual values do not vary, as the fit is exact or not;
   * otherwise one minus the residual over the total sum of squares.
   */
  function R2(ps: seq<(real, real)>): Option<real> {
    if |ps| < 2 then None
    else
      var actual := seq(|ps|, i requires 0 <= i < |ps| => ps[i].0);
      var m := Mean(actual);
      var total := Sum(seq(|ps|, i requires 0 <= i < |ps| => Square(ps[i].0 - m)));
      var residual := Sum(SquaredErrors(ps));
      if total == 0.0 then Some(if residual == 0.0 then 1.0 else 0.0)
      else Some(1.0 - residual / total)
  }

  /**
   * `evaluate_model`: the metrics over the pairs that have both values; with
   * no such pair scikit-learn rejects the empty input.
   */
  function Evaluate(actual: Column, predicted: Column): (r: Result<Metrics>)
    requires |actual| == |predicted|
    ensures r.Failure? <==> |Pairs(actual, predicted)| == 0
    ensures r.Failure? ==> r.error == NoValidPairs
    ensures r.Success? ==> r.value.mse >= 0.0 && r.value.mae >= 0.0
  {
    var ps := Pairs(actual, predicted);
    if |ps| == 0 then Failure(NoValidPairs)
    else
      MeanOfNonNegative(SquaredErrors(ps));
      MeanOfNonNegative(AbsoluteErrors(ps));
      Success(Metrics(Mean(SquaredErrors(ps)), Mean(AbsoluteErrors(ps)), R2(ps)))
  }

  /**
   * The mean absolute error is zero exactly when every kept pair is an exact
   * forecast, and then the mean squared error is zero too.
   */
  lemma ExactExactlyWhenErrorless(actual: Column, predicted: Column)
    requires |actual| == |predicted| && Evaluate(actual, predicted).Success?
    ensures var m := Evaluate(actual, predicted).value; var ps := Pairs(actual, predicted);
      && (m.mae == 0.0 <==> forall i :: 0 <= i < |ps| ==> ps[i].0 == ps[i].1)
      && ((forall i :: 0 <= i < |ps| ==> ps[i].0 == ps[i].1) ==> m.mse == 0.0)
  {
    var ps := Pairs(actual, predicted);
    ErrorsOf(actual, predicted);
    SquaredErrorsZero(ps);
    AbsoluteErrorsZero(ps);
  }

  /** The two errors `evaluate_model` reports are the means of the squared and the absolute errors of the kept pairs. */
  lemma ErrorsOf(actual: Column, predicted: Column)
    requires |actual| == |predicted| && Evaluate(actual, predicted).Success?
    ensures |Pairs(actual, predicted)| > 0
    ensures Evaluate(actual, predicted).value.mse == Mean(SquaredErrors(Pairs(actual, predicted)))
    ensures Evaluate(actual, predicted).value.mae == Mean(AbsoluteErrors(Pairs(actual, predicted)))
  {
  }

  /** Exact forecasts throughout have no squared error. */
  lemma SquaredErrorsZero(ps: seq<(real, real)>)
    requires |ps| > 0
    ensures (forall i :: 0 <= i < |ps| ==> ps[i].0 == ps[i].1) ==> Mean(SquaredErrors(ps)) == 0.0
  {
    var squares := SquaredErrors(ps);
    MeanZero(squares);
  }

  /** The absolute errors vanish on average exactly when every forecast is exact. */
  lemma AbsoluteErrorsZero(ps: seq<(real, real)>)
    requires |ps| > 0
    ensures Mean(AbsoluteErrors(ps)) == 0.0 <==> forall i :: 0 <= i < |ps| ==> ps[i].0 == ps[i].1
  {
    var gaps := AbsoluteErrors(ps);
    MeanZero(gaps);
    assert (forall i :: 0 <= i < |ps| ==> gaps[i] == 0.0) <==> (forall i :: 0 <= i < |ps| ==> ps[i].0 == ps[i].1);
  }

  /** The mean of terms none of which is negative is zero exactly when every term is. */
  lemma MeanZero(xs: seq<real>)
    requires |xs| > 0 && forall i :: 0 <= i < |xs| ==> xs[i] >= 0.0
    ensures Mean(xs) == 0.0 <==> forall i :: 0 <= i < |xs| ==> xs[i] == 0.0
  {
    SumOfNonNegative(xs);
    var n := |xs| as real;
    if Sum(xs) != 0.0 {
      assert Sum(xs) / n > 0.0;
    }
  }

  // -------------------------------------------------------- reconstruction

  /** `np.cumsum(d) + anchor`: the levels reached from the anchor by the predicted differences. */
  function Reconstruct(anchor: real, d: seq<real>): (r: seq<real>)
    ensures |r| == |d|
  {
    seq(|d|, i requires 0 <= i < |d| => anchor + Sum(d[..i + 1]))
  }

  /** The one-step differences of levels, the first taken from the anchor. */
  function Differences(anchor: real, levels: seq<real>): (d: seq<real>)
    ensures |d| == |levels|
  {
    seq(|levels|, i requires 0 <= i < |levels| => levels[i] - if i == 0 then anchor else levels[i - 1])
  }

  /** The first level is the anchor plus the first difference, and each next level adds the next difference. */
  lemma ReconstructSteps(anchor: real, d: seq<real>)
    ensures var r := Reconstruct(anchor, d);
      && (|d| > 0 ==> r[0] == anchor + d[0])
      && forall i :: 0 < i < |d| ==> r[i] == r[i - 1] + d[i]
  {
    var r := Reconstruct(anchor, d);
    if |d| > 0 {
      assert d[..1][..0] == [];
      assert Sum(d[..1]) == d[0];
    }
    forall i | 0 < i < |d| ensures r[i] == r[i - 1] + d[i] {
      assert d[..i + 1][..i] == d[..i];
    }
  }

  /** Differencing the reconstructed levels gives the predicted differences back. */
  lemma DifferencesOfReconstruct(anchor: real, d: seq<real>)
    ensures Differences(anchor, Reconstruct(anchor, d)) == d
  {
    ReconstructSteps(anchor, d);
  }

  /** Reconstructing from the differences of any levels gives those levels back. */
  lemma ReconstructOfDifferences(anchor: real, levels: seq<real>)
    ensures Reconstruct(anchor, Differences(anchor, levels)) == levels
  {
    var d := Differences(anchor, levels);
    var r := Reconstruct(anchor, d);
    ReconstructSteps(anchor, d);
    forall i | 0 <= i < |levels| ensures r[i] == levels[i] {
      Telescopes(anchor, levels, d, r, i);
    }
  }

  lemma {:induction false} Telescopes(anchor: real, levels: seq<real>, d: seq<real>, r: seq<real>, i: int)
    requires d == Differences(anchor, levels) && |r| == |d| && 0 <= i < |levels|
    requires |d| > 0 ==> r[0] == anchor + d[0]
    requires forall j :: 0 < j < |d| ==> r[j] == r[j - 1] + d[j]
    ensures r[i] == levels[i]
  {
    if i > 0 {
      Telescopes(anchor, levels, d, r, i - 1);
    }
  }

  /** The worked example: anchor 100 and differences 1, -0.5, 2 give the levels 101, 100.5, 102.5. */
  lemma ReconstructExample()
    ensures Reconstruct(100.0, [1.0, -0.5, 2.0]) == [101.0, 100.5, 102.5]
  {
    var d := [1.0, -0.5, 2.0];
    var r := Reconstruct(100.0, d);
    ReconstructSteps(100.0, d);
    assert r[0] == 101.0 && r[1] == 100.5 && r[2] == 102.5;
  }

  // -------------------------------------------------------------- selection

  /** The models of `compare_models`, in the order of its dictionary. */
  const Roster: seq<string> :=
    ["Linear Regression", "Ridge Regression", "Lasso Regression", "Random Forest", "XGBoost", "LightGBM"]

  /**
   * `min(results, key=...)` over the scores in roster order: the position of
   * the smallest score, the earliest one on a tie.
   */
  function FirstBest(scores: seq<real>): (b: nat)
    requires |scores| > 0
    ensures b < |scores|
    ensures forall j :: 0 <= j < |scores| ==> scores[b] <= scores[j]
    ensures forall j :: 0 <= j < b ==> scores[j] > scores[b]
  {
    if |scores| == 1 then 0
    else
      var n := |scores| - 1;
      var b := FirstBest(scores[..n]);
      assert forall j :: 0 <= j < n ==> scores[..n][j] == scores[j];
      if scores[n] < scores[b] then n else b
  }

  /** Any position with the properties of the earliest smallest score is the one chosen. */
  lemma FirstBestUnique(scores: seq<real>, b: nat)
    requires b < |scores|
    requires forall j :: 0 <= j < |scores| ==> scores[b] <= scores[j]
    requires forall j :: 0 <= j < b ==> scores[j] > scores[b]
    ensures FirstBest(scores) == b
  {
  }

  // ---------------------------------------------------------- future values

  /** The values 'start + k * d' for k = 1 .. n: a constant predicted difference accumulated n times. */
  function Progression(start: real, d: real, n: nat): (r: seq<real>)
    ensures |r| == n
  {
    seq(n, k requires 0 <= k < n => start + (k + 1) as real * d)
  }

  /** One more day extends the progression by the start plus one more difference. */
  lemma ProgressionStep(start: real, d: real, n: nat)
    ensures Progression(start, d, n + 1) == Progression(start, d, n) + [start + n as real * d + d]
  {
    var longer, shorter := Progression(start, d, n + 1), Progression(start, d, n) + [start + n as real * d + d];
    forall k | 0 <= k <= n ensures longer[k] == shorter[k] {
      if k == n {
        assert (n + 1) as real * d == n as real * d + d;
      }
    }
  }

  /** A sequence of n equal values sums to n times the value. */
  lemma {:induction false} SumConstant(d: real, n: nat)
    ensures Sum(seq(n, _ => d)) == n as real * d
  {
    if n > 0 {
      assert seq(n, _ => d)[..n - 1] == seq(n - 1, _ => d);
      SumConstant(d, n - 1);
    }
  }

  /** The future values are the reconstruction from the last close of the same difference repeated. */
  lemma ProgressionIsReconstruct(start: real, d: real, n: nat)
    ensures Progression(start, d, n) == Reconstruct(start, seq(n, _ => d))
  {
    var ds := seq(n, _ => d);
    forall k | 0 <= k < n ensures Progression(start, d, n)[k] == Reconstruct(start, ds)[k] {
      assert ds[..k + 1] == seq(k + 1, _ => d);
      SumConstant(d, k + 1);
    }
  }
}
