/**
 * Whole-column operations of pandas that the pipeline uses on the close
 * series and on the macro columns: `diff`, `shift`, `rolling(...)`,
 * forward-fill and back-fill. A column is a sequence of cells, one per row,
 * where `None` is NaN.
 */
module Series {
  import opened Base

  /** One column of a table. */
  type Column = seq<Option<real>>

  /** No cell of the column is missing. */
  predicate Complete(s: Column) {
    forall i :: 0 <= i < |s| ==> s[i].Some?
  }

  /** The cells of the column are present exactly from position `a` on. */
  predicate PresentFrom(s: Column, a: int) {
    forall j :: 0 <= j < |s| ==> (s[j].Some? <==> j >= a)
  }

  /** The values of a complete column. */
  function Values(s: Column): (r: seq<real>)
    requires Complete(s)
    ensures |r| == |s|
    ensures forall i :: 0 <= i < |s| ==> s[i] == Some(r[i])
  {
    seq(|s|, i requires 0 <= i < |s| => s[i].value)
  }

  /** A column holding the given values, none missing. */
  function Lift(xs: seq<real>): (r: Column)
    ensures |r| == |xs| && Complete(r)
    ensures forall i :: 0 <= i < |xs| ==> r[i] == Some(xs[i])
  {
    seq(|xs|, i requires 0 <= i < |xs| => Some(xs[i]))
  }

  function Sum(xs: seq<real>): real {
    if |xs| == 0 then 0.0 else Sum(xs[..|xs| - 1]) + xs[|xs| - 1]
  }

  /** Sum is additive over concatenation. */
  lemma {:induction false} SumConcat(xs: seq<real>, ys: seq<real>)
    ensures Sum(xs + ys) == Sum(xs) + Sum(ys)
    decreases |ys|
  {
    if |ys| == 0 {
      assert xs + ys == xs;
    } else {
      assert (xs + ys)[..|xs + ys| - 1] == xs + ys[..|ys| - 1];
      SumConcat(xs, ys[..|ys| - 1]);
    }
  }

  /** A sum of values each at least `lo` (at most `hi`) is at least n * lo (at most n * hi). */
  lemma {:induction false} SumBounds(xs: seq<real>, lo: real, hi: real)
    requires forall j :: 0 <= j < |xs| ==> lo <= xs[j] <= hi
    ensures |xs| as real * lo <= Sum(xs) <= |xs| as real * hi
    decreases |xs|
  {
    if |xs| > 0 {
      SumBounds(xs[..|xs| - 1], lo, hi);
      var n := |xs| as real;
      assert (n - 1.0) * lo + lo == n * lo;
      assert (n - 1.0) * hi + hi == n * hi;
    }
  }

  /** Subtraction of two cells; NaN if either is NaN. */
  function Minus(a: Option<real>, b: Option<real>): Option<real> {
    if a.Some? && b.Some? then Some(a.value - b.value) else None
  }

  /** `Series.diff(k)`: the change over the last k rows. */
  function Diff(s: Column, k: nat): (r: Column)
    ensures |r| == |s|
  {
    seq(|s|, i requires 0 <= i < |s| => if i < k then None else Minus(s[i], s[i - k]))
  }

  /** `Series.shift(k)`: the value k rows earlier. */
  function Shift(s: Column, k: nat): (r: Column)
    ensures |r| == |s|
  {
    seq(|s|, i requires 0 <= i < |s| => if i < k then None else s[i - k])
  }

  /** Row-by-row difference of two columns (`a - b` on two Series). */
  function Difference(a: Column, b: Column): (r: Column)
    requires |a| == |b|
    ensures |r| == |a|
  {
    seq(|a|, i requires 0 <= i < |a| => Minus(a[i], b[i]))
  }

  /**
   * Row-by-row quotient `a / b`. A zero divisor gives a missing cell: pandas
   * gives NaN for 0/0 and an infinity otherwise, which this model does not have.
   */
  function Ratio(a: Column, b: Column): (r: Column)
    requires |a| == |b|
    ensures |r| == |a|
  {
    seq(|a|, i requires 0 <= i < |a| =>
      if a[i].Some? && b[i].Some? && b[i].value != 0.0 then Some(a[i].value / b[i].value) else None)
  }

  /** The values of the k cells ending at row i, when all of them exist and are present. */
  function Window(s: Column, i: int, k: nat): (w: Option<seq<real>>)
    requires 0 <= i < |s|
    ensures w.Some? <==> k <= i + 1 && forall j :: i + 1 - k <= j <= i ==> s[j].Some?
    ensures w.Some? ==> |w.value| == k && forall j :: 0 <= j < k ==> s[i + 1 - k + j] == Some(w.value[j])
  {
    if k <= i + 1 && Complete(s[i + 1 - k .. i + 1]) then Some(Values(s[i + 1 - k .. i + 1])) else None
  }

  /**
   * `rolling(window=k).agg()` with `min_periods` equal to the window: NaN until
   * k rows exist and wherever the window holds a NaN. The aggregate (median,
   * standard deviation) is left abstract.
   */
  function Rolling(s: Column, k: nat, agg: seq<real> -> real): (r: Column)
    requires k >= 1
    ensures |r| == |s|
  {
    seq(|s|, i requires 0 <= i < |s| =>
      var w := Window(s, i, k); if w.Some? then Some(agg(w.value)) else None)
  }

  /** `rolling(window=k).mean()`. */
  function RollingMean(s: Column, k: nat): (r: Column)
    requires k >= 1
    ensures |r| == |s|
  {
    seq(|s|, i requires 0 <= i < |s| =>
      var w := Window(s, i, k); if w.Some? then Some(Sum(w.value) / k as real) else None)
  }

  /** The values in rows lo .. hi - 1 of a column that has no gap there. */
  function Span(s: Column, lo: int, hi: int): (r: seq<real>)
    requires 0 <= lo <= hi <= |s| && forall j :: lo <= j < hi ==> s[j].Some?
    ensures |r| == hi - lo
    decreases hi - lo
  {
    if lo == hi then [] else Span(s, lo, hi - 1) + [s[hi - 1].value]
  }

  lemma {:induction false} SpanAt(s: Column, lo: int, hi: int, j: int)
    requires 0 <= lo <= hi <= |s| && forall j :: lo <= j < hi ==> s[j].Some?
    requires 0 <= j < hi - lo
    ensures Span(s, lo, hi)[j] == s[lo + j].value
    decreases hi - lo
  {
    if j < hi - lo - 1 {
      SpanAt(s, lo, hi - 1, j);
    }
  }

  /** A full window without gaps holds the span of values it covers. */
  lemma WindowIsSpan(s: Column, i: int, k: nat)
    requires 1 <= k <= i + 1 <= |s| && forall j :: i + 1 - k <= j <= i ==> s[j].Some?
    ensures Window(s, i, k) == Some(Span(s, i + 1 - k, i + 1))
  {
    var w := Window(s, i, k);
    assert w.Some?;
    forall j | 0 <= j < k ensures w.value[j] == Span(s, i + 1 - k, i + 1)[j] {
      SpanAt(s, i + 1 - k, i + 1, j);
    }
    assert w.value == Span(s, i + 1 - k, i + 1);
  }

  /** `rolling(window=k).mean()` at a row whose window is full and has no gap: the mean of the window's values. */
  lemma RollingMeanAt(s: Column, k: nat, i: int)
    requires 1 <= k <= i + 1 <= |s| && forall j :: i + 1 - k <= j <= i ==> s[j].Some?
    ensures RollingMean(s, k)[i] == Some(Sum(Span(s, i + 1 - k, i + 1)) / k as real)
  {
    WindowIsSpan(s, i, k);
  }

  /** A rolling aggregate at a row whose window is full and has no gap: the aggregate of the window's values. */
  lemma RollingAt(s: Column, k: nat, agg: seq<real> -> real, i: int)
    requires 1 <= k <= i + 1 <= |s| && forall j :: i + 1 - k <= j <= i ==> s[j].Some?
    ensures Rolling(s, k, agg)[i] == Some(agg(Span(s, i + 1 - k, i + 1)))
  {
    WindowIsSpan(s, i, k);
  }

  /** The one-day changes into rows lo .. hi - 1 of a column that has no gap in rows lo - 1 .. hi - 1. */
  function Changes(s: Column, lo: int, hi: int): (r: seq<real>)
    requires 1 <= lo <= hi <= |s| && forall j :: lo - 1 <= j < hi ==> s[j].Some?
    ensures |r| == hi - lo
    decreases hi - lo
  {
    if lo == hi then [] else Changes(s, lo, hi - 1) + [s[hi - 1].value - s[hi - 2].value]
  }

  /** The span of the differenced column is the changes of the column. */
  lemma {:induction false} SpanOfDiff(s: Column, lo: int, hi: int)
    requires 1 <= lo <= hi <= |s| && forall j :: lo - 1 <= j < hi ==> s[j].Some?
    ensures forall j :: lo <= j < hi ==> Diff(s, 1)[j].Some?
    ensures Span(Diff(s, 1), lo, hi) == Changes(s, lo, hi)
    decreases hi - lo
  {
    if lo < hi {
      SpanOfDiff(s, lo, hi - 1);
    }
  }

  /** A full window of the one-day changes holds the changes it covers. */
  lemma DiffWindowIsChanges(s: Column, i: int, k: nat)
    requires 1 <= k <= i < |s| && forall j :: i - k <= j <= i ==> s[j].Some?
    ensures Window(Diff(s, 1), i, k) == Some(Changes(s, i + 1 - k, i + 1))
  {
    SpanOfDiff(s, i + 1 - k, i + 1);
    WindowIsSpan(Diff(s, 1), i, k);
  }

  /** The difference of two moving averages at a row where both windows are full and have no gap. */
  lemma MeanDifferenceAt(s: Column, k: nat, m: nat, i: int)
    requires 1 <= k <= m <= i + 1 <= |s| && forall j :: i + 1 - m <= j <= i ==> s[j].Some?
    ensures Difference(RollingMean(s, k), RollingMean(s, m))[i]
      == Some(Sum(Span(s, i + 1 - k, i + 1)) / k as real - Sum(Span(s, i + 1 - m, i + 1)) / m as real)
  {
    RollingMeanAt(s, k, i);
    RollingMeanAt(s, m, i);
  }

  /** The quotient at a row where both cells are present and the divisor is not zero. */
  lemma RatioAt(a: Column, b: Column, i: int, x: real)
    requires |a| == |b| && 0 <= i < |a| && a[i] == Some(x) && b[i].Some? && b[i].value != 0.0
    ensures Ratio(a, b)[i] == Some(x / b[i].value)
  {
  }

  /** Differencing over k rows is the column minus its k-row lag (`diff(k) == s - shift(k)`). */
  lemma DiffIsMinusLag(s: Column, k: nat)
    ensures Diff(s, k) == Difference(s, Shift(s, k))
  {
  }

  /** A moving mean lies between the smallest and the largest value of its window. */
  lemma {:induction false} RollingMeanWithinWindow(s: Column, k: nat, i: int, lo: real, hi: real)
    requires k >= 1 && 0 <= i < |s|
    requires forall j :: i + 1 - k <= j <= i && 0 <= j ==> s[j].Some? && lo <= s[j].value <= hi
    ensures RollingMean(s, k)[i].Some? <==> i + 1 >= k
    ensures RollingMean(s, k)[i].Some? ==> lo <= RollingMean(s, k)[i].value <= hi
  {
    var w := Window(s, i, k);
    if w.Some? {
      forall j | 0 <= j < |w.value| ensures lo <= w.value[j] <= hi {
        assert s[i + 1 - k + j] == Some(w.value[j]);
      }
      SumBounds(w.value, lo, hi);
      DivideBounds(Sum(w.value), k as real, lo, hi);
    }
  }

  /** A total of n values between lo and hi, divided by n, lies between lo and hi. */
  lemma DivideBounds(total: real, n: real, lo: real, hi: real)
    requires n > 0.0 && n * lo <= total <= n * hi
    ensures lo <= total / n <= hi
  {
    assert total / n - lo == (total - n * lo) / n;
    assert hi - total / n == (n * hi - total) / n;
  }

  /**
   * The moving mean slides: from one row to the next, the mean grows by the
   * value entering the window minus the one leaving it, divided by k.
   */
  lemma RollingMeanSlides(s: Column, k: nat, i: int)
    requires k >= 1 && k <= i < |s|
    requires forall j :: i - k <= j <= i ==> s[j].Some?
    ensures RollingMean(s, k)[i].Some? && RollingMean(s, k)[i - 1].Some?
    ensures RollingMean(s, k)[i].value == RollingMean(s, k)[i - 1].value + (s[i].value - s[i - k].value) / k as real
  {
    WindowSumSlides(s, k, i);
    var now, before := Window(s, i, k).value, Window(s, i - 1, k).value;
    assert RollingMean(s, k)[i] == Some(Sum(now) / k as real);
    assert RollingMean(s, k)[i - 1] == Some(Sum(before) / k as real);
    QuotientDifference(Sum(now), Sum(before), k as real, RollingMean(s, k)[i].value, RollingMean(s, k)[i - 1].value,
                       s[i].value - s[i - k].value);
  }

  /** Sliding a full window one row on adds the new value to its sum and removes the oldest. */
  lemma WindowSumSlides(s: Column, k: nat, i: int)
    requires k >= 1 && k <= i < |s|
    requires forall j :: i - k <= j <= i ==> s[j].Some?
    ensures Window(s, i, k).Some? && Window(s, i - 1, k).Some?
    ensures Sum(Window(s, i, k).value) - Sum(Window(s, i - 1, k).value) == s[i].value - s[i - k].value
  {
    var now := Window(s, i, k).value;
    var before := Window(s, i - 1, k).value;
    var middle := now[..k - 1];
    assert middle == before[1..];
    assert before == [before[0]] + middle;
    assert now == middle + [now[k - 1]];
    SumConcat([before[0]], middle);
    SumConcat(middle, [now[k - 1]]);
    assert Sum([before[0]]) == before[0] by {
      assert [before[0]][..0] == [];
    }
    assert Sum([now[k - 1]]) == now[k - 1] by {
      assert [now[k - 1]][..0] == [];
    }
    assert s[i - k] == Some(before[0]);
    assert s[i] == Some(now[k - 1]);
  }

  /** Two quotients by n differ by the difference of their dividends over n. */
  lemma QuotientDifference(a: real, b: real, n: real, x: real, y: real, d: real)
    requires n != 0.0 && x == a / n && y == b / n && a - b == d
    ensures x == y + d / n
  {
    assert a / n == b / n + (a - b) / n;
  }

  // ---------------------------------------------------------------------
  // Where each engineered column starts to hold values
  // ---------------------------------------------------------------------

  lemma DiffPresentFrom(s: Column, k: nat, a: nat)
    requires PresentFrom(s, a)
    ensures PresentFrom(Diff(s, k), a + k)
  {
  }

  lemma ShiftPresentFrom(s: Column, k: nat, a: nat)
    requires PresentFrom(s, a)
    ensures PresentFrom(Shift(s, k), a + k)
  {
  }

  lemma RollingPresentFrom(s: Column, k: nat, agg: seq<real> -> real, a: nat)
    requires k >= 1 && PresentFrom(s, a)
    ensures PresentFrom(Rolling(s, k, agg), a + k - 1)
  {
    forall i | 0 <= i < |s| ensures Rolling(s, k, agg)[i].Some? <==> i >= a + k - 1 {
      assert Rolling(s, k, agg)[i].Some? <==> Window(s, i, k).Some?;
      if i >= a + k - 1 {
        assert Window(s, i, k).Some?;
      } else if k <= i + 1 {
        assert !s[i + 1 - k].Some?;
      }
    }
  }

  lemma RollingMeanPresentFrom(s: Column, k: nat, a: nat)
    requires k >= 1 && PresentFrom(s, a)
    ensures PresentFrom(RollingMean(s, k), a + k - 1)
  {
    forall i | 0 <= i < |s| ensures RollingMean(s, k)[i].Some? <==> i >= a + k - 1 {
      if i >= a + k - 1 {
        assert Window(s, i, k).Some?;
      } else if k <= i + 1 {
        assert !s[i + 1 - k].Some?;
      }
    }
  }

  lemma DifferencePresentFrom(x: Column, y: Column, a: nat, b: nat)
    requires |x| == |y| && PresentFrom(x, a) && PresentFrom(y, b)
    ensures PresentFrom(Difference(x, y), if a < b then b else a)
  {
  }

  lemma RatioPresentFrom(x: Column, y: Column, a: nat)
    requires |x| == |y| && PresentFrom(x, a) && Complete(y)
    requires forall j :: 0 <= j < |y| ==> y[j].value != 0.0
    ensures PresentFrom(Ratio(x, y), a)
  {
  }

  // ---------------------------------------------------------------------
  // Nearest present cells, forward-fill and back-fill
  // ---------------------------------------------------------------------

  /** The last row at or before i whose cell is present. */
  function LastPresent(s: Column, i: int): (r: Option<nat>)
    requires -1 <= i < |s|
    ensures r.Some? ==> r.value <= i && s[r.value].Some?
    ensures r.Some? ==> forall j :: r.value < j <= i ==> s[j].None?
    ensures r.None? ==> forall j :: 0 <= j <= i ==> s[j].None?
    decreases i + 1
  {
    if i < 0 then None
    else if s[i].Some? then Some(i)
    else LastPresent(s, i - 1)
  }

  /** The first row at or after i whose cell is present. */
  function NextPresent(s: Column, i: int): (r: Option<nat>)
    requires 0 <= i <= |s|
    ensures r.Some? ==> i <= r.value < |s| && s[r.value].Some?
    ensures r.Some? ==> forall j :: i <= j < r.value ==> s[j].None?
    ensures r.None? ==> forall j :: i <= j < |s| ==> s[j].None?
    decreases |s| - i
  {
    if i == |s| then None
    else if s[i].Some? then Some(i)
    else NextPresent(s, i + 1)
  }

  /** `fillna(method="ffill")`: each missing cell takes the value carried down from above. */
  function ForwardFill(s: Column): (r: Column)
    ensures |r| == |s|
    decreases |s|
  {
    if |s| == 0 then []
    else
      var above := ForwardFill(s[..|s| - 1]);
      var last := s[|s| - 1];
      above + [if last.Some? || |above| == 0 then last else above[|above| - 1]]
  }

  /** `fillna(method="bfill")`: each missing cell takes the value carried up from below. */
  function BackwardFill(s: Column): (r: Column)
    ensures |r| == |s|
    decreases |s|
  {
    if |s| == 0 then []
    else
      var below := BackwardFill(s[1..]);
      [if s[0].Some? || |below| == 0 then s[0] else below[0]] + below
  }

  /** Forward-fill gives every cell the value of the nearest present cell at or above it. */
  lemma {:induction false} ForwardFillAt(s: Column, i: int)
    requires 0 <= i < |s|
    ensures ForwardFill(s)[i] == match LastPresent(s, i)
                                   case Some(j) => s[j]
                                   case None => None
    decreases |s|
  {
    var init := s[..|s| - 1];
    if i < |s| - 1 {
      ForwardFillAt(init, i);
      LastPresentPrefix(s, init, i);
    } else if s[i].None? && i > 0 {
      ForwardFillAt(init, i - 1);
      LastPresentPrefix(s, init, i - 1);
    }
  }

  /** Back-fill gives every cell the value of the nearest present cell at or below it. */
  lemma {:induction false} BackwardFillAt(s: Column, i: int)
    requires 0 <= i < |s|
    ensures BackwardFill(s)[i] == match NextPresent(s, i)
                                    case Some(j) => s[j]
                                    case None => None
    decreases |s|
  {
    var tail := s[1..];
    if i > 0 {
      BackwardFillAt(tail, i - 1);
      NextPresentSuffix(s, tail, i);
    } else if s[0].None? && |s| > 1 {
      BackwardFillAt(tail, 0);
      NextPresentSuffix(s, tail, 1);
    }
  }

  lemma {:induction false} LastPresentPrefix(s: Column, init: Column, i: int)
    requires -1 <= i < |init| <= |s| && init == s[..|init|]
    ensures LastPresent(init, i) == LastPresent(s, i)
    decreases i + 1
  {
    if i >= 0 && s[i].None? {
      LastPresentPrefix(s, init, i - 1);
    }
  }

  lemma {:induction false} NextPresentSuffix(s: Column, tail: Column, i: int)
    requires |s| >= 1 && tail == s[1..] && 1 <= i <= |s|
    ensures NextPresent(s, i) == match NextPresent(tail, i - 1)
                                   case Some(j) => Some(j + 1)
                                   case None => None
    decreases |s| - i
  {
    if i < |s| && s[i].None? {
      NextPresentSuffix(s, tail, i + 1);
    }
  }

  /**
   * Forward-fill then back-fill (the macro columns' gap filling): each missing
   * cell takes the nearest earlier value if there is one, otherwise the
   * nearest later one; present cells are untouched.
   */
  lemma FillNearest(s: Column, i: int)
    requires 0 <= i < |s|
    ensures BackwardFill(ForwardFill(s))[i] ==
      match LastPresent(s, i)
      case Some(j) => s[j]
      case None => match NextPresent(s, i)
                   case Some(j) => s[j]
                   case None => None
  {
    var f := ForwardFill(s);
    BackwardFillAt(f, i);
    ForwardFillAt(s, i);
    if LastPresent(s, i).None? {
      // Above the first present cell, forward-fill leaves everything missing,
      // and the first present cell keeps its own value.
      forall j | i <= j < |s| && (NextPresent(s, i).None? || j < NextPresent(s, i).value)
        ensures f[j].None?
      {
        ForwardFillAt(s, j);
        assert forall t :: 0 <= t <= j ==> s[t].None?;
      }
      match NextPresent(s, i)
      case Some(n) =>
        ForwardFillAt(s, n);
        assert f[n] == s[n];
        NextPresentIs(f, i, n);
      case None =>
        assert NextPresent(f, i).None? by {
          NextPresentNone(f, i);
        }
    }
  }

  /** The nearest present cell at or before i is p when none lies strictly between. */
  lemma LastPresentIs(s: Column, p: int, i: int)
    requires 0 <= p <= i < |s| && s[p].Some? && forall j :: p < j <= i ==> s[j].None?
    ensures LastPresent(s, i) == Some(p)
  {
    var r := LastPresent(s, i);
    assert r.Some?;
  }

  /** The nearest present cell at or after i is n when none lies between. */
  lemma {:induction false} NextPresentIs(s: Column, i: int, n: int)
    requires 0 <= i <= n < |s| && s[n].Some?
    requires forall j :: i <= j < n ==> s[j].None?
    ensures NextPresent(s, i) == Some(n)
    decreases n - i
  {
    if i < n {
      NextPresentIs(s, i + 1, n);
    }
  }

  lemma {:induction false} NextPresentNone(s: Column, i: int)
    requires 0 <= i <= |s|
    requires forall j :: i <= j < |s| ==> s[j].None?
    ensures NextPresent(s, i).None?
    decreases |s| - i
  {
    if i < |s| {
      NextPresentNone(s, i + 1);
    }
  }

  /** A column with at least one value has no gap left after forward-fill then back-fill. */
  lemma FillLeavesNoGap(s: Column)
    requires exists j :: 0 <= j < |s| && s[j].Some?
    ensures Complete(BackwardFill(ForwardFill(s)))
  {
    var w :| 0 <= w < |s| && s[w].Some?;
    forall i | 0 <= i < |s| ensures BackwardFill(ForwardFill(s))[i].Some? {
      FillNearest(s, i);
      if LastPresent(s, i).None? {
        assert w > i;
        assert NextPresent(s, i).Some?;
      }
    }
  }
}
