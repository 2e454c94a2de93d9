/**
 * `Forecasting.scale_data` of src/forecast.py: scikit-learn's StandardScaler
 * fitted on the six feature columns of the training rows and applied, with
 * those same parameters, to the training and the test rows. Fitting ignores
 * missing cells; a column is centred on its mean and divided by its
 * population standard deviation, or by 1 when the column does not vary. The
 * square root is a parameter of the model.
 */
module Scaling {
  import opened Base
  import opened Series
  import opened Frames
  import opened Evaluation

  /** The columns that are scaled, in the order they are listed. */
  const Features: seq<string> := ["ma_7", "volatility_10", "volatility_ratio_10", "lag_1", "trend_5", "inflation"]

  /** What the scaler learns about one column: `mean_` and `scale_`. */
  datatype Standard = Standard(mean: real, scale: real)

  /** The present values of a column, in row order (what the scaler fits on). */
  function Present(s: Column): (r: seq<real>)
    ensures |r| <= |s|
    ensures |r| == 0 <==> forall i :: 0 <= i < |s| ==> s[i].None?
    ensures Complete(s) ==> r == Values(s)
  {
    if |s| == 0 then []
    else
      var n := |s| - 1;
      assert forall i :: 0 <= i < n ==> s[..n][i] == s[i];
      assert Complete(s) ==> Values(s) == Values(s[..n]) + [s[n].value];
      Present(s[..n]) + (if s[n].Some? then [s[n].value] else [])
  }

  /** The squared distances of the values from m. */
  function Deviations(xs: seq<real>, m: real): (r: seq<real>)
    ensures |r| == |xs|
    ensures forall i :: 0 <= i < |xs| ==> r[i] >= 0.0
  {
    seq(|xs|, i requires 0 <= i < |xs| => Square(xs[i] - m))
  }

  /** The population variance (`ddof=0`) of a non-empty sequence; never negative. */
  function Variance(xs: seq<real>): (v: real)
    requires |xs| > 0
    ensures v >= 0.0
  {
    SumOfNonNegative(Deviations(xs, Mean(xs)));
    Sum(Deviations(xs, Mean(xs))) / |xs| as real
  }

  /** The square root the scaler uses is positive on positive arguments. */
  ghost predicate PositiveRoot(root: real -> real) {
    forall v :: v > 0.0 ==> root(v) > 0.0
  }

  /**
   * `StandardScaler.fit` on one column: no parameters when the column has no
   * present value (scikit-learn then learns NaN); otherwise the mean, and the
   * standard deviation as scale, replaced by 1 for a constant column.
   */
  function Fit(s: Column, root: real -> real): (p: Option<Standard>)
    requires PositiveRoot(root)
    ensures p.None? <==> forall i :: 0 <= i < |s| ==> s[i].None?
    ensures p.Some? ==> p.value.scale > 0.0 && p.value.mean == Mean(Present(s))
    ensures p.Some? && Variance(Present(s)) == 0.0 ==> p.value.scale == 1.0
    ensures p.Some? && Variance(Present(s)) > 0.0 ==> p.value.scale == root(Variance(Present(s)))
  {
    var xs := Present(s);
    if |xs| == 0 then None
    else
      var v := Variance(xs);
      Some(Standard(Mean(xs), if v == 0.0 then 1.0 else root(v)))
  }

  /** One value centred on the mean and divided by the scale. */
  function Scaled(x: real, p: Standard): real
    requires p.scale != 0.0
  {
    (x - p.mean) / p.scale
  }

  /** One value multiplied back by the scale and shifted back by the mean. */
  function Unscaled(y: real, p: Standard): real {
    y * p.scale + p.mean
  }

  /** `transform` of one column: each present value scaled; a missing one stays missing, as does every cell without parameters. */
  function Standardize(s: Column, p: Option<Standard>): (r: Column)
    requires p.Some? ==> p.value.scale != 0.0
    ensures |r| == |s|
    ensures forall i :: 0 <= i < |s| ==> (r[i].Some? <==> s[i].Some? && p.Some?)
  {
    seq(|s|, i requires 0 <= i < |s| => if s[i].Some? && p.Some? then Some(Scaled(s[i].value, p.value)) else None)
  }

  /** `inverse_transform` of one column. */
  function Restore(s: Column, p: Standard): (r: Column)
    ensures |r| == |s|
    ensures forall i :: 0 <= i < |s| ==> (r[i].Some? <==> s[i].Some?)
  {
    seq(|s|, i requires 0 <= i < |s| => if s[i].Some? then Some(Unscaled(s[i].value, p)) else None)
  }

  /** Unscaling undoes scaling, value by value. */
  lemma UnscaledScaled(x: real, p: Standard)
    requires p.scale != 0.0
    ensures Unscaled(Scaled(x, p), p) == x
  {
  }

  /** Scaling undoes unscaling, value by value. */
  lemma ScaledUnscaled(y: real, p: Standard)
    requires p.scale != 0.0
    ensures Scaled(Unscaled(y, p), p) == y
  {
  }

  /** Restoring a standardized column gives the column back. */
  lemma RestoreStandardized(s: Column, p: Standard)
    requires p.scale != 0.0
    ensures Restore(Standardize(s, Some(p)), p) == s
  {
    forall i | 0 <= i < |s| ensures Restore(Standardize(s, Some(p)), p)[i] == s[i] {
      if s[i].Some? {
        UnscaledScaled(s[i].value, p);
      }
    }
  }

  /** Standardizing a restored column gives the column back. */
  lemma StandardizeRestored(s: Column, p: Standard)
    requires p.scale != 0.0
    ensures Standardize(Restore(s, p), Some(p)) == s
  {
    forall i | 0 <= i < |s| ensures Standardize(Restore(s, p), Some(p))[i] == s[i] {
      if s[i].Some? {
        ScaledUnscaled(s[i].value, p);
      }
    }
  }

  /** The values, each centred on m and divided by sc. */
  function Centred(xs: seq<real>, m: real, sc: real): (r: seq<real>)
    requires sc != 0.0
    ensures |r| == |xs|
  {
    seq(|xs|, i requires 0 <= i < |xs| => (xs[i] - m) / sc)
  }

  /** Centring on m lowers the sum by m for each value. */
  lemma {:induction false} SumShifted(xs: seq<real>, m: real)
    ensures Sum(seq(|xs|, i requires 0 <= i < |xs| => xs[i] - m)) == Sum(xs) - |xs| as real * m
    decreases |xs|
  {
    if |xs| > 0 {
      var n := |xs| - 1;
      var ys := seq(|xs|, i requires 0 <= i < |xs| => xs[i] - m);
      assert ys[..n] == seq(n, i requires 0 <= i < n => xs[..n][i] - m);
      SumShifted(xs[..n], m);
      assert (n + 1) as real * m == n as real * m + m;
    }
  }

  /** Dividing every value by sc divides the sum by sc. */
  lemma {:induction false} SumDivided(ys: seq<real>, sc: real)
    requires sc != 0.0
    ensures Sum(seq(|ys|, i requires 0 <= i < |ys| => ys[i] / sc)) == Sum(ys) / sc
    decreases |ys|
  {
    if |ys| > 0 {
      var n := |ys| - 1;
      var zs := seq(|ys|, i requires 0 <= i < |ys| => ys[i] / sc);
      assert zs[..n] == seq(n, i requires 0 <= i < n => ys[..n][i] / sc);
      SumDivided(ys[..n], sc);
      assert Sum(ys[..n]) / sc + ys[n] / sc == (Sum(ys[..n]) + ys[n]) / sc;
    }
  }

  /** Centring and dividing commutes with summing. */
  lemma SumCentred(xs: seq<real>, m: real, sc: real)
    requires sc != 0.0
    ensures Sum(Centred(xs, m, sc)) == (Sum(xs) - |xs| as real * m) / sc
  {
    var ys := seq(|xs|, i requires 0 <= i < |xs| => xs[i] - m);
    assert Centred(xs, m, sc) == seq(|ys|, i requires 0 <= i < |ys| => ys[i] / sc);
    SumShifted(xs, m);
    SumDivided(ys, sc);
  }

  /** Values centred on their own mean have mean zero. */
  lemma CentredMeanZero(xs: seq<real>, sc: real)
    requires |xs| > 0 && sc != 0.0
    ensures Mean(Centred(xs, Mean(xs), sc)) == 0.0
  {
    var n := |xs| as real;
    var m := Sum(xs) / n;
    SumCentred(xs, m, sc);
    assert n * m == Sum(xs);
    assert Sum(Centred(xs, m, sc)) == 0.0 / sc;
  }

  /** The values of a standardized complete column are its values, scaled. */
  lemma StandardizedValues(s: Column, p: Standard)
    requires Complete(s) && p.scale != 0.0
    ensures Complete(Standardize(s, Some(p)))
    ensures Values(Standardize(s, Some(p))) == Centred(Values(s), p.mean, p.scale)
  {
  }

  /** A complete column standardized with its own parameters has mean zero. */
  lemma StandardizedMeanZero(s: Column, root: real -> real)
    requires PositiveRoot(root) && Complete(s) && |s| > 0
    ensures Fit(s, root).Some? && Complete(Standardize(s, Fit(s, root)))
    ensures Mean(Values(Standardize(s, Fit(s, root)))) == 0.0
  {
    var p := Fit(s, root).value;
    StandardizedValues(s, p);
    CentredMeanZero(Values(s), p.scale);
  }

  /** The first of `names` that is not a key, if any (pandas reports a missing label with a KeyError). */
  function FirstMissing(names: seq<string>, keys: set<string>): (r: Option<string>)
    ensures r.None? <==> forall k :: 0 <= k < |names| ==> names[k] in keys
    ensures r.Some? ==> exists k :: 0 <= k < |names| && names[k] == r.value && r.value !in keys
                                     && forall j :: 0 <= j < k ==> names[j] in keys
  {
    if |names| == 0 then None
    else if names[0] !in keys then
      assert names[0] == names[0];
      Some(names[0])
    else
      var r := FirstMissing(names[1..], keys);
      assert forall k :: 1 <= k < |names| ==> names[1..][k - 1] == names[k];
      if r.Some? then
        var k :| 0 <= k < |names[1..]| && names[1..][k] == r.value && r.value !in keys
                 && forall j :: 0 <= j < k ==> names[1..][j] in keys;
        assert names[k + 1] == r.value;
        r
      else r
  }

  /** The parameters of each listed column, every scale nonzero. */
  predicate Usable(params: map<string, Option<Standard>>) {
    forall c :: c in params && params[c].Some? ==> params[c].value.scale != 0.0
  }

  /** `fit` on the feature columns of the training rows. */
  function FitFeatures(train: Frame, root: real -> real): (params: map<string, Option<Standard>>)
    requires PositiveRoot(root) && forall c :: c in Features ==> c in train.data
    ensures Usable(params) && params.Keys == set c | c in Features
    ensures forall c :: c in params ==> params[c] == Fit(train.data[c], root)
  {
    map c | c in Features :: Fit(train.data[c], root)
  }

  /** What `scale_data` leaves behind: both tables transformed, and the fitted scaler. */
  datatype Transformed = Transformed(train: Frame, test: Frame, params: map<string, Option<Standard>>)

  /** `f.loc[:, cols] = transform(f[cols])`: the listed columns replaced by their standardized values, the others untouched. */
  function Apply(f: Frame, params: map<string, Option<Standard>>): (r: Frame)
    requires WellFormed(f) && Usable(params)
    ensures WellFormed(r) && r.indexName == f.indexName && r.index == f.index && r.columns == f.columns
    ensures r.data.Keys == f.data.Keys
  {
    Frame(f.indexName, f.index, f.columns,
          map c | c in f.data :: if c in params then Standardize(f.data[c], params[c]) else f.data[c])
  }

  /**
   * `scale_data`: the scaler fitted on the feature columns of the training
   * rows, then both tables transformed with it. A feature column the
   * training rows lack fails the step before anything changes.
   */
  function ScaleFeatures(train: Frame, test: Frame, root: real -> real): (r: Result<Transformed>)
    requires WellFormed(train) && WellFormed(test) && PositiveRoot(root)
    ensures r.Failure? <==> exists c :: c in Features && c !in train.data
    ensures r.Failure? ==> r.error.MissingColumn? && r.error.name in Features && r.error.name !in train.data
  {
    match FirstMissing(Features, train.data.Keys)
    case Some(c) => Failure(MissingColumn(c))
    case None =>
      var params := FitFeatures(train, root);
      Success(Transformed(Apply(train, params), Apply(test, params), params))
  }

  /**
   * A successful scaling changes only the feature columns, each of both
   * tables standardized with the parameters fitted on the training rows;
   * every other column, the dates and the labels are untouched.
   */
  lemma ScaleFeaturesColumns(train: Frame, test: Frame, root: real -> real)
    requires WellFormed(train) && WellFormed(test) && train.data.Keys == test.data.Keys && PositiveRoot(root)
    requires ScaleFeatures(train, test, root).Success?
    ensures var Transformed(tr, te, params) := ScaleFeatures(train, test, root).value;
      && (forall c :: c in Features ==> c in train.data)
      && params == FitFeatures(train, root)
      && WellFormed(tr) && WellFormed(te)
      && tr.indexName == train.indexName && te.indexName == test.indexName
      && tr.index == train.index && tr.columns == train.columns && tr.data.Keys == train.data.Keys
      && te.index == test.index && te.columns == test.columns && te.data.Keys == test.data.Keys
      && (forall c :: c in train.data && c !in Features ==> tr.data[c] == train.data[c] && te.data[c] == test.data[c])
      && (forall c :: c in Features ==>
            && tr.data[c] == Standardize(train.data[c], Fit(train.data[c], root))
            && te.data[c] == Standardize(test.data[c], Fit(train.data[c], root)))
  {
  }

  /**
   * After a successful scaling, every feature column of the training rows
   * has mean zero, when the training rows are complete and not empty.
   */
  lemma ScaledTrainCentred(train: Frame, test: Frame, root: real -> real, c: string)
    requires WellFormed(train) && WellFormed(test) && train.data.Keys == test.data.Keys && PositiveRoot(root)
    requires ScaleFeatures(train, test, root).Success? && NoMissing(train) && |train.index| > 0 && c in Features
    ensures Complete(ScaleFeatures(train, test, root).value.train.data[c])
    ensures Mean(Values(ScaleFeatures(train, test, root).value.train.data[c])) == 0.0
  {
    var s := train.data[c];
    assert Complete(s) by {
      forall i | 0 <= i < |s| ensures s[i].Some? {
        assert RowComplete(train, i);
      }
    }
    ScaleFeaturesColumns(train, test, root);
    StandardizedMeanZero(s, root);
  }

  /**
   * Scaling tables without missing cells, with parameters fitted on a
   * training part that has rows, leaves no missing cell: every feature
   * column then has a fitted mean and scale.
   */
  lemma ScaledComplete(train: Frame, test: Frame, root: real -> real)
    requires WellFormed(train) && WellFormed(test) && train.data.Keys == test.data.Keys && PositiveRoot(root)
    requires ScaleFeatures(train, test, root).Success? && NoMissing(train) && NoMissing(test) && |train.index| > 0
    ensures var Transformed(tr, te, _) := ScaleFeatures(train, test, root).value;
      WellFormed(tr) && WellFormed(te) && NoMissing(tr) && NoMissing(te)
  {
    ScaleFeaturesColumns(train, test, root);
    var Transformed(tr, te, _) := ScaleFeatures(train, test, root).value;
    forall c | c in Features ensures Fit(train.data[c], root).Some? {
      assert RowComplete(train, 0);
    }
    forall i | 0 <= i < |tr.index| ensures RowComplete(tr, i) {
      forall c | c in tr.data ensures tr.data[c][i].Some? {
        assert train.data[c][i].Some? by { assert RowComplete(train, i); }
      }
    }
    forall i | 0 <= i < |te.index| ensures RowComplete(te, i) {
      forall c | c in te.data ensures te.data[c][i].Some? {
        assert test.data[c][i].Some? by { assert RowComplete(test, i); }
      }
    }
  }

  /** Restoring a scaled feature column of either table with the training parameters gives the column back. */
  lemma ScaledFeaturesRestore(train: Frame, test: Frame, root: real -> real, c: string)
    requires WellFormed(train) && WellFormed(test) && train.data.Keys == test.data.Keys && PositiveRoot(root)
    requires ScaleFeatures(train, test, root).Success? && c in Features && Fit(train.data[c], root).Some?
    ensures var p := Fit(train.data[c], root).value; var Transformed(tr, te, _) := ScaleFeatures(train, test, root).value;
      Restore(tr.data[c], p) == train.data[c] && Restore(te.data[c], p) == test.data[c]
  {
    var p := Fit(train.data[c], root).value;
    ScaleFeaturesColumns(train, test, root);
    RestoreStandardized(train.data[c], p);
    RestoreStandardized(test.data[c], p);
  }
}
