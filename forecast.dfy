/**
 * The `Forecasting` class of src/forecast.py. It keeps the loaded table, the
 * training and test rows, the fitted scaler, the fitted models and the name
 * of the best one as fields, and its methods update them:
 * `split_data` adds the `diff_close` column, drops incomplete rows and cuts
 * the table chronologically; `scale_data` standardizes the feature columns;
 * `compare_models` fits every model of the roster on the training rows and
 * scores its reconstructed forecast on the test rows; `best_model_forecast`
 * picks the model with the smallest mean squared error and extends its
 * forecast past the last test day.
 *
 * A regression model is a function value: a learner takes the feature rows
 * and the targets of the training rows and gives a predictor, which maps one
 * feature row to a predicted change of the close.
 */
module Forecast {
  import opened Base
  import opened Series
  import opened Frames
  import opened Daily
  import opened Scaling
  import opened Evaluation

  /** One feature row, keyed by column label. */
  type Row = map<string, Option<real>>

  /** A fitted model: the predicted change of the close for a feature row. */
  type Predictor = Row -> real

  /** A model before fitting: `fit` on the feature table and the target column gives the fitted model. */
  type Learner = (Frame, Column) -> Predictor

  // ------------------------------------------------------------ splitting

  /** `int(len(df) * 0.8)`: the number of training rows, from the row count before cleaning. */
  function TrainSize(n: nat): (k: nat)
    ensures k <= n && 5 * k <= 4 * n < 5 * (k + 1)
  {
    (4 * n) / 5
  }

  /** The table after `df["diff_close"] = df["close"].diff()` and `dropna()`. */
  function Cleaned(df: Frame): (r: Frame)
    requires WellFormed(df) && "close" in df.data
    ensures WellFormed(r) && NoMissing(r) && r.indexName == df.indexName && "diff_close" in r.data && "close" in r.data
    ensures r.columns == if "diff_close" in df.data then df.columns else df.columns + ["diff_close"]
    ensures StrictlyIncreasing(df.index) ==> StrictlyIncreasing(r.index)
  {
    DropNa(WithColumn(df, "diff_close", Diff(df.data["close"], 1)))
  }

  /**
   * `df.iloc[:k]` and `df.iloc[k:]` (a cut past the end takes every row),
   * failing as the source does when it reads the last training date of an
   * empty training part or the first test date of an empty test part.
   */
  function Partition(cleaned: Frame, k: nat): (r: Result<(Frame, Frame)>)
    requires WellFormed(cleaned)
    ensures r.Failure? <==> k == 0 || |cleaned.index| <= k
    ensures r.Failure? ==> r.error == (if k == 0 || |cleaned.index| == 0 then EmptyTrain else EmptyTest)
    ensures r.Success? ==> r.value == (Slice(cleaned, 0, k), Slice(cleaned, k, |cleaned.index|))
  {
    var cut := if k < |cleaned.index| then k else |cleaned.index|;
    var train, test := Slice(cleaned, 0, cut), Slice(cleaned, cut, |cleaned.index|);
    if |train.index| == 0 then Failure(EmptyTrain)
    else if |test.index| == 0 then Failure(EmptyTest)
    else Success((train, test))
  }

  /** The two parts of a split, put back together, are the cleaned table; the training part has k rows. */
  lemma PartitionRejoins(cleaned: Frame, k: nat)
    requires WellFormed(cleaned) && Partition(cleaned, k).Success?
    ensures var (train, test) := Partition(cleaned, k).value;
      && Append(train, test) == cleaned
      && |train.index| == k && |test.index| == |cleaned.index| - k
  {
    SliceAppend(cleaned, k);
  }

  /** Every row of a table without missing cells, except the first, has a change of the close. */
  lemma ChangedRowsComplete(df: Frame)
    requires WellFormed(df) && "close" in df.data && NoMissing(df)
    ensures var g := WithColumn(df, "diff_close", Diff(df.data["close"], 1));
      forall i :: 0 <= i < |g.index| ==> (RowComplete(g, i) <==> i >= 1)
  {
    forall i | 0 <= i < |df.index|
      ensures RowComplete(WithColumn(df, "diff_close", Diff(df.data["close"], 1)), i) <==> i >= 1
    {
      ChangedRowComplete(df, i);
    }
  }

  /** Row i of a table without missing cells has a change of the close exactly when it is not the first. */
  lemma ChangedRowComplete(df: Frame, i: int)
    requires WellFormed(df) && "close" in df.data && NoMissing(df) && 0 <= i < |df.index|
    ensures RowComplete(WithColumn(df, "diff_close", Diff(df.data["close"], 1)), i) <==> i >= 1
  {
    var close := df.data["close"];
    var change := Diff(close, 1);
    var g := WithColumn(df, "diff_close", change);
    if i == 0 {
      assert g.data["diff_close"][0].None?;
    } else {
      assert RowComplete(df, i) && RowComplete(df, i - 1);
      assert close[i].Some? && close[i - 1].Some?;
      assert change[i] == Minus(close[i], close[i - 1]);
      forall c | c in g.data ensures g.data[c][i].Some? {
        if c != "diff_close" {
          assert c in df.data;
        }
      }
    }
  }

  /** On a table without missing cells, cleaning removes exactly the first row. */
  lemma CleanedOfComplete(df: Frame)
    requires WellFormed(df) && "close" in df.data && NoMissing(df) && |df.index| > 0
    ensures var g := WithColumn(df, "diff_close", Diff(df.data["close"], 1));
      Cleaned(df) == Slice(g, 1, |df.index|)
  {
    ChangedRowsComplete(df);
    DropNaKeepsTail(WithColumn(df, "diff_close", Diff(df.data["close"], 1)), 1);
  }

  /** On a table without missing cells, the cleaned table has every date but the first. */
  lemma CleanedIndex(df: Frame)
    requires WellFormed(df) && "close" in df.data && NoMissing(df) && |df.index| > 0
    ensures Cleaned(df).index == df.index[1..]
  {
    CleanedOfComplete(df);
  }

  /**
   * On a table without missing cells, each kept row's `diff_close` is its
   * close minus the close of the day before.
   */
  lemma CleanedChanges(df: Frame)
    requires WellFormed(df) && "close" in df.data && NoMissing(df) && |df.index| > 0
    ensures |Cleaned(df).index| == |df.index| - 1
    ensures forall i :: 0 <= i < |df.index| - 1 ==>
      Cleaned(df).data["diff_close"][i] == Minus(df.data["close"][i + 1], df.data["close"][i])
  {
    CleanedIndex(df);
    CleanedColumn(df);
    ChangesAfterFirst(df.data["close"]);
  }

  /** The change column without its first cell holds, at i, the close of row i + 1 minus that of row i. */
  lemma ChangesAfterFirst(close: Column)
    requires |close| > 0
    ensures forall i :: 0 <= i < |close| - 1 ==> Diff(close, 1)[1..|close|][i] == Minus(close[i + 1], close[i])
  {
    var change := Diff(close, 1);
    forall i | 0 <= i < |close| - 1 ensures change[1..|close|][i] == Minus(close[i + 1], close[i]) {
      assert change[1..|close|][i] == change[i + 1];
    }
  }

  /** On a table without missing cells, the cleaned `diff_close` column is the change column without its first cell. */
  lemma CleanedColumn(df: Frame)
    requires WellFormed(df) && "close" in df.data && NoMissing(df) && |df.index| > 0
    ensures Cleaned(df).data["diff_close"] == Diff(df.data["close"], 1)[1..|df.index|]
  {
    var n := |df.index|;
    var g := WithColumn(df, "diff_close", Diff(df.data["close"], 1));
    CleanedOfComplete(df);
    assert "diff_close" in g.data;
    assert Slice(g, 1, n).data["diff_close"] == g.data["diff_close"][1..n];
  }

  /**
   * On a table without missing cells and with at least six rows, the split
   * succeeds, with floor(4n/5) training rows and n - 1 - floor(4n/5) test
   * rows: cleaning removes only the first row.
   */
  lemma SplitOfCompleteTable(df: Frame)
    requires WellFormed(df) && "close" in df.data && NoMissing(df) && |df.index| >= 6
    ensures var n := |df.index|; var r := Partition(Cleaned(df), TrainSize(n));
      r.Success? && |r.value.0.index| == TrainSize(n) && |r.value.1.index| == n - 1 - TrainSize(n)
  {
    var n := |df.index|;
    var k := TrainSize(n);
    var cleaned := Cleaned(df);
    CleanedIndex(df);
    assert 0 < k < |cleaned.index| == n - 1;
    PartitionInside(cleaned, k);
  }

  /** A cut strictly inside the table succeeds: the training part is the first k rows, the test part the others. */
  lemma PartitionInside(cleaned: Frame, k: nat)
    requires WellFormed(cleaned) && 0 < k < |cleaned.index|
    ensures var r := Partition(cleaned, k);
      && r.Success? && r.value.0.index == cleaned.index[..k] && |r.value.1.index| == |cleaned.index| - k
  {
  }

  // -------------------------------------------------------------- models

  /** The rows of a table the models see: `drop(columns=["diff_close"])`. */
  function Inputs(f: Frame): (r: Frame)
    requires WellFormed(f)
    ensures WellFormed(r) && r.index == f.index && "diff_close" !in r.data
  {
    DropColumn(f, "diff_close")
  }

  /** The training and test rows as `scale_data` leaves them: same columns, no missing cell, none empty, dates increasing. */
  predicate Ready(train: Frame, test: Frame) {
    && WellFormed(train) && WellFormed(test) && train.columns == test.columns
    && "close" in train.data && "diff_close" in train.data
    && |train.index| > 0 && |test.index| > 0
    && NoMissing(train) && NoMissing(test)
    && StrictlyIncreasing(test.index)
  }

  /** A column of a table without missing cells has no missing cell. */
  lemma ColumnComplete(f: Frame, c: string)
    requires WellFormed(f) && NoMissing(f) && c in f.data
    ensures Complete(f.data[c])
  {
    forall i | 0 <= i < |f.data[c]| ensures f.data[c][i].Some? {
      assert RowComplete(f, i);
    }
  }

  /** The rows lo..hi-1 of a table without missing cells have no missing cell, and keep increasing dates. */
  lemma SliceKeepsReady(f: Frame, lo: int, hi: int)
    requires WellFormed(f) && NoMissing(f) && StrictlyIncreasing(f.index) && 0 <= lo <= hi <= |f.index|
    ensures NoMissing(Slice(f, lo, hi)) && StrictlyIncreasing(Slice(f, lo, hi).index)
  {
    var g := Slice(f, lo, hi);
    forall i | 0 <= i < |g.index| ensures RowComplete(g, i) {
      assert RowComplete(f, lo + i);
    }
  }

  /**
   * A split of a table with increasing dates is ready for the models: both
   * parts have rows, the same columns and no missing cell, they hold
   * `close` and `diff_close`, and the test dates increase.
   */
  lemma SplitReady(d: Frame)
    requires WellFormed(d) && StrictlyIncreasing(d.index) && "close" in d.data
    requires Partition(Cleaned(d), TrainSize(|d.index|)).Success?
    ensures var (train, test) := Partition(Cleaned(d), TrainSize(|d.index|)).value;
      Ready(train, test)
  {
    var c := Cleaned(d);
    var k := TrainSize(|d.index|);
    SliceKeepsReady(c, 0, k);
    SliceKeepsReady(c, k, |c.index|);
  }

  /** Scaling parts that are ready for the models keeps them ready. */
  lemma ScaledReady(train: Frame, test: Frame, root: real -> real)
    requires Ready(train, test) && PositiveRoot(root) && ScaleFeatures(train, test, root).Success?
    ensures var s := ScaleFeatures(train, test, root).value;
      Ready(s.train, s.test)
  {
    ScaleFeaturesColumns(train, test, root);
    ScaledComplete(train, test, root);
  }

  /**
   * `split_data` on the table `d`: the table it leaves in `df`, and the
   * parts it returns. A split of a table with increasing dates is ready for
   * the models.
   */
  function SplitStep(d: Frame): (r: (Frame, Result<(Frame, Frame)>))
    requires WellFormed(d)
    ensures WellFormed(r.0)
    ensures r.1.Success? ==> WellFormed(r.1.value.0) && WellFormed(r.1.value.1) && r.1.value.0.columns == r.1.value.1.columns
    ensures r.1.Success? && StrictlyIncreasing(d.index) ==> Ready(r.1.value.0, r.1.value.1)
  {
    if "close" !in d.data then (d, Failure(MissingColumn("close")))
    else
      var c := Cleaned(d);
      var p := Partition(c, TrainSize(|d.index|));
      if p.Success? && StrictlyIncreasing(d.index) then
        SplitReady(d);
        (c, p)
      else (c, p)
  }

  /**
   * `scale_data` on the two parts and the scaler: the parts and the scaler
   * it leaves, and whether it failed. Scaling parts that are ready for the
   * models keeps them ready.
   */
  function ScaleStep(train: Frame, test: Frame, scaler: map<string, Option<Standard>>, root: real -> real):
    (r: (Frame, Frame, map<string, Option<Standard>>, Result<()>))
    requires WellFormed(train) && WellFormed(test) && PositiveRoot(root)
    ensures r.3.Success? && Ready(train, test) ==> Ready(r.0, r.1)
  {
    match ScaleFeatures(train, test, root)
    case Failure(e) => (train, test, scaler, Failure(e))
    case Success(s) =>
      if Ready(train, test) then
        ScaledReady(train, test, root);
        (s.train, s.test, s.params, Success(()))
      else (s.train, s.test, s.params, Success(()))
  }

  /**
   * What the rest of `__init__` leaves in `df`, `train`, `test` and `scaler`,
   * and its outcome: `split_data`, its parts assigned, then `scale_data`;
   * the first step that fails ends it. On a table with increasing dates, a
   * success leaves parts ready for the models.
   */
  function Initialized(d: Frame, train: Frame, test: Frame, scaler: map<string, Option<Standard>>, root: real -> real):
    (r: (Frame, Frame, Frame, map<string, Option<Standard>>, Result<()>))
    requires WellFormed(d) && PositiveRoot(root)
    ensures r.4.Success? && StrictlyIncreasing(d.index) ==> Ready(r.1, r.2)
  {
    var (c, split) := SplitStep(d);
    if split.Failure? then (c, train, test, scaler, Failure(split.error))
    else
      var (tr, te, sc, outcome) := ScaleStep(split.value.0, split.value.1, scaler, root);
      (c, tr, te, sc, outcome)
  }

  /** The close on the last row of a table (`f["close"].iloc[-1]`). */
  function LastClose(f: Frame): real
    requires WellFormed(f) && NoMissing(f) && "close" in f.data && |f.index| > 0
  {
    assert RowComplete(f, |f.index| - 1);
    f.data["close"][|f.index| - 1].value
  }

  /** `model.fit(X_train, y_train)`. */
  function Fitted(train: Frame, learner: Learner): Predictor
    requires WellFormed(train) && "diff_close" in train.data
  {
    learner(Inputs(train), train.data["diff_close"])
  }

  /** `model.predict(X)`: one predicted change per row. */
  function Predicted(model: Predictor, x: Frame): (r: seq<real>)
    requires WellFormed(x)
    ensures |r| == |x.index|
    ensures forall i :: 0 <= i < |x.index| ==> r[i] == model(RowAt(x, i))
  {
    seq(|x.index|, i requires 0 <= i < |x.index| => model(RowAt(x, i)))
  }

  /** The forecast levels over the test rows: the predicted changes accumulated from the last training close. */
  function TestForecast(train: Frame, test: Frame, model: Predictor): (r: seq<real>)
    requires Ready(train, test)
    ensures |r| == |test.index|
  {
    Reconstruct(LastClose(train), Predicted(model, Inputs(test)))
  }

  /**
   * The first forecast level is the last training close plus the first
   * predicted change; each later level is the one before plus its change.
   */
  lemma TestForecastSteps(train: Frame, test: Frame, model: Predictor)
    requires Ready(train, test)
    ensures var r := TestForecast(train, test, model);
      && r[0] == LastClose(train) + model(RowAt(Inputs(test), 0))
      && forall i :: 0 < i < |r| ==> r[i] == r[i - 1] + model(RowAt(Inputs(test), i))
  {
    ReconstructSteps(LastClose(train), Predicted(model, Inputs(test)));
  }

  /** `run_model`'s evaluation: the metrics of the forecast levels against the test closes. */
  function Score(train: Frame, test: Frame, learner: Learner): (r: Result<Metrics>)
    requires Ready(train, test)
    ensures r.Success?
  {
    var f := TestForecast(train, test, Fitted(train, learner));
    ColumnComplete(test, "close");
    PairsOfComplete(test.data["close"], Lift(f));
    Evaluate(test.data["close"], Lift(f))
  }

  /**
   * Both errors of a model are nonnegative, and its mean absolute error is
   * zero exactly when its forecast hits every test close (its mean squared
   * error is then zero too).
   */
  lemma ScoreExact(train: Frame, test: Frame, learner: Learner)
    requires Ready(train, test)
    ensures var m := Score(train, test, learner).value; var f := TestForecast(train, test, Fitted(train, learner));
      && m.mse >= 0.0 && m.mae >= 0.0
      && (m.mae == 0.0 <==> forall i :: 0 <= i < |test.index| ==> test.data["close"][i] == Some(f[i]))
      && ((forall i :: 0 <= i < |test.index| ==> test.data["close"][i] == Some(f[i])) ==> m.mse == 0.0)
  {
    var f := TestForecast(train, test, Fitted(train, learner));
    var actual := test.data["close"];
    ColumnComplete(test, "close");
    PairsOfComplete(actual, Lift(f));
    ExactExactlyWhenErrorless(actual, Lift(f));
  }

  /** The mean squared error of each entry of a comparison, in order (`results[x][0]`). */
  function MeanSquaredErrors(results: seq<Metrics>): (r: seq<real>)
    ensures |r| == |results|
  {
    seq(|results|, k requires 0 <= k < |results| => results[k].mse)
  }

  /** The metrics of each model, in roster order. */
  function Scores(train: Frame, test: Frame, learners: seq<Learner>): (r: seq<Metrics>)
    requires Ready(train, test)
    ensures |r| == |learners|
  {
    seq(|learners|, k requires 0 <= k < |learners| => Score(train, test, learners[k]).value)
  }

  /** The test forecast of each model, in roster order. */
  function Forecasts(train: Frame, test: Frame, learners: seq<Learner>): (r: seq<seq<real>>)
    requires Ready(train, test)
    ensures |r| == |learners|
  {
    seq(|learners|, k requires 0 <= k < |learners| => TestForecast(train, test, Fitted(train, learners[k])))
  }

  /** The mean squared error of each roster model, in roster order. */
  function Errors(train: Frame, test: Frame, learners: seq<Learner>): (r: seq<real>)
    requires Ready(train, test)
    ensures |r| == |learners|
    ensures forall k :: 0 <= k < |learners| ==> r[k] == Score(train, test, learners[k]).value.mse
  {
    MeanSquaredErrors(Scores(train, test, learners))
  }

  /** Scoring one more model at the end of the roster appends its metrics. */
  lemma ScoresStep(train: Frame, test: Frame, learners: seq<Learner>, k: nat)
    requires Ready(train, test) && k < |learners|
    ensures Scores(train, test, learners[..k + 1]) == Scores(train, test, learners[..k]) + [Score(train, test, learners[k]).value]
  {
    var longer, front := learners[..k + 1], learners[..k];
    var lhs := Scores(train, test, longer);
    var rhs := Scores(train, test, front) + [Score(train, test, learners[k]).value];
    forall j | 0 <= j < k + 1 ensures lhs[j] == rhs[j] {
      if j < k {
        assert longer[j] == front[j];
      }
    }
  }

  /** Forecasting one more model appends its test forecast. */
  lemma ForecastsStep(train: Frame, test: Frame, learners: seq<Learner>, k: nat)
    requires Ready(train, test) && k < |learners|
    ensures Forecasts(train, test, learners[..k + 1]) == Forecasts(train, test, learners[..k]) + [TestForecast(train, test, Fitted(train, learners[k]))]
  {
    var longer, front := learners[..k + 1], learners[..k];
    var lhs := Forecasts(train, test, longer);
    var rhs := Forecasts(train, test, front) + [TestForecast(train, test, Fitted(train, learners[k]))];
    forall j | 0 <= j < k + 1 ensures lhs[j] == rhs[j] {
      if j < k {
        assert longer[j] == front[j];
      }
    }
  }

  /** `self.models` after `compare_models`: each name mapped to its model fitted on the training rows. */
  function Trained(train: Frame, names: seq<string>, learners: seq<Learner>): (m: map<string, Predictor>)
    requires WellFormed(train) && "diff_close" in train.data && |names| == |learners| && Distinct(names)
  {
    map k | 0 <= k < |names| :: names[k] := Fitted(train, learners[k])
  }

  /** The trained models are stored under exactly the roster's names. */
  lemma TrainedKeys(train: Frame, names: seq<string>, learners: seq<Learner>)
    requires WellFormed(train) && "diff_close" in train.data && |names| == |learners| && Distinct(names)
    ensures Trained(train, names, learners).Keys == set k | 0 <= k < |names| :: names[k]
  {
  }

  /** Each name holds its own model, fitted on the training rows. */
  lemma TrainedAt(train: Frame, names: seq<string>, learners: seq<Learner>, k: nat)
    requires WellFormed(train) && "diff_close" in train.data && |names| == |learners| && Distinct(names)
    requires k < |names|
    ensures names[k] in Trained(train, names, learners)
    ensures Trained(train, names, learners)[names[k]] == Fitted(train, learners[k])
  {
  }

  /** Fitting one more model adds it under its name and keeps the others. */
  lemma TrainedStep(train: Frame, names: seq<string>, learners: seq<Learner>, k: nat)
    requires WellFormed(train) && "diff_close" in train.data && |names| == |learners| && Distinct(names)
    requires k < |names|
    ensures Trained(train, names[..k + 1], learners[..k + 1])
      == Trained(train, names[..k], learners[..k])[names[k] := Fitted(train, learners[k])]
  {
    var front, longer := names[..k], names[..k + 1];
    var before, after := Trained(train, front, learners[..k]), Trained(train, longer, learners[..k + 1]);
    var updated := before[names[k] := Fitted(train, learners[k])];
    forall key | key in after ensures key in updated && after[key] == updated[key] {
      var j :| 0 <= j < k + 1 && longer[j] == key;
      if j < k {
        assert front[j] == key && key != names[k];
      }
    }
    forall key | key in updated ensures key in after {
      if key != names[k] {
        var j :| 0 <= j < k && front[j] == key;
        assert longer[j] == key;
      } else {
        assert longer[k] == key;
      }
    }
  }

  /** The roster names no model twice. */
  lemma RosterDistinct()
    ensures Distinct(Roster)
  {
  }

  // ------------------------------------------------------ the output table

  /** One row of the forecast file: its date, the actual close where known, and the forecast. */
  datatype ForecastRow = ForecastRow(date: int, actual: Option<real>, forecast: real)

  /** The test part of the output: each test day with its close and its forecast. */
  function TestRows(test: Frame, forecast: seq<real>): (r: seq<ForecastRow>)
    requires WellFormed(test) && "close" in test.data && |forecast| == |test.index|
    ensures |r| == |test.index|
    ensures forall i :: 0 <= i < |r| ==> r[i] == ForecastRow(test.index[i], test.data["close"][i], forecast[i])
  {
    seq(|test.index|, i requires 0 <= i < |test.index| => ForecastRow(test.index[i], test.data["close"][i], forecast[i]))
  }

  /**
   * The future part: `pd.date_range(start=max, periods=n + 1)[1:]`, the n
   * days after the last test day, with the given values and no actual close.
   */
  function FutureRows(last: int, values: seq<real>): (r: seq<ForecastRow>)
    ensures |r| == |values|
    ensures forall k :: 0 <= k < |r| ==> r[k] == ForecastRow(last + k + 1, None, values[k])
  {
    seq(|values|, k requires 0 <= k < |values| => ForecastRow(last + k + 1, None, values[k]))
  }

  /** The dates of the output rows. */
  function Dates(rows: seq<ForecastRow>): (r: seq<int>)
    ensures |r| == |rows| && forall i :: 0 <= i < |rows| ==> r[i] == rows[i].date
  {
    seq(|rows|, i requires 0 <= i < |rows| => rows[i].date)
  }

  /** The output dates are strictly increasing: the test days in order, then the days after the last one. */
  lemma OutputDatesIncrease(test: Frame, forecast: seq<real>, values: seq<real>)
    requires WellFormed(test) && "close" in test.data && |forecast| == |test.index| > 0
    requires StrictlyIncreasing(test.index)
    ensures StrictlyIncreasing(Dates(TestRows(test, forecast) + FutureRows(Latest(test.index), values)))
  {
    var rows := TestRows(test, forecast) + FutureRows(Latest(test.index), values);
    var n := |test.index|;
    var ds := Dates(rows);
    forall i, j | 0 <= i < j < |ds| ensures ds[i] < ds[j] {
      if j < n {
        assert ds[i] == test.index[i] && ds[j] == test.index[j];
      } else if i < n {
        assert ds[i] == test.index[i] <= Latest(test.index);
      }
    }
  }

  /** The position in the roster of the first model with the smallest mean squared error (`min(results, key=...)`). */
  function Best(train: Frame, test: Frame, learners: seq<Learner>): (b: nat)
    requires Ready(train, test) && |learners| > 0
    ensures b < |learners|
  {
    FirstBest(Errors(train, test, learners))
  }

  /** The model inputs of the last row of a table (`X_test.iloc[-1:]`). */
  function LastInput(f: Frame): (row: map<string, Option<real>>)
    requires WellFormed(f) && |f.index| > 0
    ensures row.Keys == f.data.Keys - {"diff_close"}
  {
    RowAt(Inputs(f), |f.index| - 1)
  }

  /**
   * The table `best_model_forecast` writes for a chosen model: each test day
   * with its close and the model's forecast level, then `futureDays` days
   * after the last test day, each one predicted change further on from the
   * last test close, the change being the model's prediction for the last
   * test row.
   */
  function OutputTable(train: Frame, test: Frame, model: Predictor, futureDays: nat): (r: seq<ForecastRow>)
    requires Ready(train, test)
    ensures |r| == |test.index| + futureDays
  {
    TestRows(test, TestForecast(train, test, model))
      + FutureRows(Latest(test.index), Progression(LastClose(test), model(LastInput(test)), futureDays))
  }

  /** The output table is the test rows followed by the future rows. */
  lemma OutputTableParts(train: Frame, test: Frame, model: Predictor, futureDays: nat)
    requires Ready(train, test)
    ensures OutputTable(train, test, model, futureDays)
      == TestRows(test, TestForecast(train, test, model))
         + FutureRows(Latest(test.index), Progression(LastClose(test), model(LastInput(test)), futureDays))
  {
  }

  /** The k-th future row (from 0): k + 1 days after the last day, no actual close, k + 1 steps beyond the start. */
  function FutureRow(last: int, start: real, step: real, k: nat): ForecastRow {
    ForecastRow(last + k + 1, None, start + (k + 1) as real * step)
  }

  /** Past the n rows in front of it, row j of the future part is future row j - n. */
  lemma FutureAfter(r: seq<ForecastRow>, head: seq<ForecastRow>, n: int, last: int, start: real, step: real, days: nat)
    requires r == head + FutureRows(last, Progression(start, step, days)) && n == |head|
    ensures forall j :: n <= j < |r| ==> r[j] == FutureRow(last, start, step, j - n)
  {
  }

  /** The dates of the output table increase strictly: the test days, then the days after the last one. */
  lemma OutputTableDatesIncrease(train: Frame, test: Frame, model: Predictor, futureDays: nat)
    requires Ready(train, test)
    ensures StrictlyIncreasing(Dates(OutputTable(train, test, model, futureDays)))
  {
    OutputTableParts(train, test, model, futureDays);
    OutputDatesIncrease(test, TestForecast(train, test, model), Progression(LastClose(test), model(LastInput(test)), futureDays));
  }

  /** Row i of the output table is test day i with its actual close and its forecast level. */
  lemma OutputTableTestRows(train: Frame, test: Frame, model: Predictor, futureDays: nat)
    requires Ready(train, test)
    ensures var r := OutputTable(train, test, model, futureDays);
      forall i :: 0 <= i < |test.index| ==>
        r[i] == ForecastRow(test.index[i], test.data["close"][i], TestForecast(train, test, model)[i])
  {
    OutputTableParts(train, test, model, futureDays);
  }

  /**
   * Past the n test rows, row j is future row j - n: j - n + 1 days after the
   * last test day, no actual close, and j - n + 1 predicted changes beyond the
   * last test close, the change being the model's prediction for the last
   * test row.
   */
  lemma OutputTableFutureRows(train: Frame, test: Frame, model: Predictor, futureDays: nat)
    requires Ready(train, test)
    ensures forall j :: |test.index| <= j < |OutputTable(train, test, model, futureDays)| ==>
      OutputTable(train, test, model, futureDays)[j]
        == FutureRow(Latest(test.index), LastClose(test), model(LastInput(test)), j - |test.index|)
  {
    var head := TestRows(test, TestForecast(train, test, model));
    OutputTableParts(train, test, model, futureDays);
    FutureAfter(OutputTable(train, test, model, futureDays), head, |test.index|, Latest(test.index), LastClose(test),
                model(LastInput(test)), futureDays);
  }

  // --------------------------------------------------------------- the class

  class Forecasting {
    /** The daily table, cleaned by `split_data`. */
    var df: Frame
    var train: Frame
    var test: Frame
    /** The scaler's parameters per feature column; empty before fitting. */
    var scaler: map<string, Option<Standard>>
    /** The fitted models by name, as `compare_models` stores them. */
    var models: map<string, Predictor>
    var bestModel: Option<string>

    /** What the model methods need: the two parts ready and the table well formed. */
    predicate Valid()
      reads this`df, this`train, this`test
    {
      WellFormed(df) && Ready(train, test)
    }

    /** The object as `__init__` starts it: the loaded table, no parts, an unfitted scaler and no models. */
    constructor Start(loaded: Frame)
      requires WellFormed(loaded)
      ensures df == loaded && train == Slice(loaded, 0, 0) && test == Slice(loaded, 0, 0)
      ensures scaler == map[] && models == map[] && bestModel == None
    {
      df := loaded;
      train := Slice(loaded, 0, 0);
      test := Slice(loaded, 0, 0);
      scaler := map[];
      models := map[];
      bestModel := None;
    }

    /**
     * `split_data`: the training size is taken from the row count first;
     * then `diff_close` is recomputed and incomplete rows are dropped, in
     * place, before the table is cut. Without a `close` column nothing
     * changes and the step fails.
     */
    method SplitData() returns (r: Result<(Frame, Frame)>)
      requires WellFormed(df)
      modifies this`df
      ensures (df, r) == SplitStep(old(df))
    {
      var trainSize := TrainSize(|df.index|);
      if "close" !in df.data {
        return Failure(MissingColumn("close"));
      }
      df := WithColumn(df, "diff_close", Diff(df.data["close"], 1));
      df := DropNa(df);
      r := Partition(df, trainSize);
    }

    /**
     * `scale_data`: the scaler fitted on the training rows' feature columns,
     * then both parts transformed with it. A missing feature column fails
     * the step and leaves every field as it was.
     */
    method ScaleData(root: real -> real) returns (r: Result<()>)
      requires WellFormed(train) && WellFormed(test) && PositiveRoot(root)
      modifies this`train, this`test, this`scaler
      ensures (train, test, scaler, r) == ScaleStep(old(train), old(test), old(scaler), root)
    {
      var s := ScaleFeatures(train, test, root);
      if s.Failure? {
        return Failure(s.error);
      }
      train, test, scaler := s.value.train, s.value.test, s.value.params;
      r := Success(());
    }

    /**
     * The rest of `__init__` once the table is loaded: `split_data`, its two
     * parts assigned to `train` and `test`, then `scale_data`. The loaded
     * table has increasing dates, as `LoadDaily` guarantees. The first step
     * that fails ends it; a success leaves the object ready for the models.
     */
    method Init(root: real -> real) returns (r: Result<()>)
      requires WellFormed(df) && StrictlyIncreasing(df.index) && PositiveRoot(root)
      modifies this`df, this`train, this`test, this`scaler
      ensures (df, train, test, scaler, r) == Initialized(old(df), old(train), old(test), old(scaler), root)
      ensures r.Success? ==> Valid()
    {
      var split := SplitData();
      if split.Failure? {
        return Failure(split.error);
      }
      train, test := split.value.0, split.value.1;
      r := ScaleData(root);
    }

    /**
     * `run_model`: the model fitted on the training rows, its predicted
     * changes over the test rows accumulated from the last training close,
     * and the metrics of those levels against the test closes.
     */
    method RunModel(learner: Learner) returns (metrics: Metrics, forecast: seq<real>, model: Predictor)
      requires Valid()
      ensures model == Fitted(train, learner)
      ensures forecast == TestForecast(train, test, model)
      ensures metrics == Score(train, test, learner).value
    {
      model := learner(Inputs(train), train.data["diff_close"]);
      var changes := Predicted(model, Inputs(test));
      forecast := Reconstruct(LastClose(train), changes);
      var scored := Evaluate(test.data["close"], Lift(forecast));
      assert scored == Score(train, test, learner);
      metrics := scored.value;
    }

    /**
     * `compare_models`: every model of the roster (its names and its unfitted
     * models, in order) fitted and scored in that order, and stored under
     * its name.
     */
    method CompareModels(names: seq<string>, learners: seq<Learner>) returns (results: seq<Metrics>, forecasts: seq<seq<real>>)
      requires Valid() && |names| == |learners| && Distinct(names)
      modifies this`models
      ensures models == Trained(train, names, learners)
      ensures results == Scores(train, test, learners)
      ensures forecasts == Forecasts(train, test, learners)
    {
      var tr, te := train, test;
      models := map[];
      results, forecasts := [], [];
      for k := 0 to |names|
        invariant tr == train && te == test && Ready(tr, te)
        invariant models == Trained(tr, names[..k], learners[..k])
        invariant results == Scores(tr, te, learners[..k])
        invariant forecasts == Forecasts(tr, te, learners[..k])
      {
        ScoresStep(tr, te, learners, k);
        ForecastsStep(tr, te, learners, k);
        TrainedStep(tr, names, learners, k);
        var m, f, model := RunModel(learners[k]);
        results, forecasts := results + [m], forecasts + [f];
        models := models[names[k] := model];
      }
      assert names[..|names|] == names && learners[..|names|] == learners;
    }

    /**
     * `best_model_forecast`: the roster (the names of `Roster` with their
     * unfitted models, in order) compared, the first model with the
     * smallest mean squared error chosen, and the output table built from
     * the test rows with that model's forecast, followed by `futureDays`
     * rows on the days after the last test day. The future loop feeds the
     * chosen model the same last test row every time and accumulates its
     * predicted change from the last test close. The source's default for
     * `future_days` is 5; here the caller passes it.
     */
    method BestModelForecast(names: seq<string>, learners: seq<Learner>, futureDays: nat) returns (table: seq<ForecastRow>)
      requires Valid() && |learners| == |names| > 0 && Distinct(names)
      modifies this`models, this`bestModel
      ensures models == Trained(train, names, learners)
      ensures bestModel == Some(names[Best(train, test, learners)])
      ensures table == OutputTable(train, test, Fitted(train, learners[Best(train, test, learners)]), futureDays)
    {
      var tr, te := train, test;
      var results, forecasts := CompareModels(names, learners);
      var b := FirstBest(MeanSquaredErrors(results));
      bestModel := Some(names[b]);
      TrainedAt(tr, names, learners, b);
      var best := models[names[b]];
      assert forecasts[b] == TestForecast(tr, te, best);
      var testRows := TestRows(te, forecasts[b]);

      var lastDay := Latest(te.index);
      var future := FutureValues(best, LastInput(te), LastClose(te), futureDays);
      table := testRows + FutureRows(lastDay, future);
      OutputTableParts(tr, te, best, futureDays);
      assert b == Best(train, test, learners);
    }
  }

  /**
   * The future loop of `best_model_forecast`: the chosen model is fed the
   * same last test row on every day, and each predicted change is added to
   * the last known value, which starts at the last test close.
   */
  method FutureValues(model: Predictor, input: Row, start: real, days: nat) returns (future: seq<real>)
    ensures future == Progression(start, model(input), days)
  {
    ghost var step := model(input);
    var lastKnown := start;
    future := [];
    for k := 0 to days
      invariant future == Progression(start, step, k)
      invariant lastKnown == start + k as real * step
    {
      var predictedChange := model(input);
      lastKnown := lastKnown + predictedChange;
      ProgressionStep(start, step, k);
      assert (k + 1) as real * step == k as real * step + step;
      future := future + [lastKnown];
    }
  }
}
