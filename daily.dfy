/**
 * `Forecasting.load_data` of src/forecast.py: the preprocessed table, indexed
 * by day, is given one row per calendar day from its first to its last date
 * (`asfreq("D")`), and every column's gaps are filled by interpolation linear
 * in time (`interpolate(method="time")`).
 */
module Daily {
  import opened Base
  import opened Series
  import opened Frames

  /** The earliest day of a non-empty index. */
  function Earliest(days: seq<int>): (m: int)
    requires |days| > 0
    ensures m in days && forall k :: 0 <= k < |days| ==> m <= days[k]
  {
    if |days| == 1 then days[0]
    else
      var m := Earliest(days[..|days| - 1]);
      assert forall k :: 0 <= k < |days| - 1 ==> days[..|days| - 1][k] == days[k];
      if days[|days| - 1] < m then days[|days| - 1] else m
  }

  /** The latest day of a non-empty index. */
  function Latest(days: seq<int>): (m: int)
    requires |days| > 0
    ensures m in days && forall k :: 0 <= k < |days| ==> days[k] <= m
  {
    if |days| == 1 then days[0]
    else
      var m := Latest(days[..|days| - 1]);
      assert forall k :: 0 <= k < |days| - 1 ==> days[..|days| - 1][k] == days[k];
      if days[|days| - 1] > m then days[|days| - 1] else m
  }

  /**
   * `asfreq("D")`: one row per day from the earliest to the latest date, a
   * row of the table on each of its own days and a row of missing cells on
   * every other day. A table without rows is returned as it is; repeated
   * dates make the reindexing fail.
   */
  function AsFreq(f: Frame): (r: Result<Frame>)
    requires WellFormed(f)
    ensures |f.index| == 0 ==> r == Success(f)
    ensures r.Failure? <==> !Distinct(f.index)
    ensures r.Failure? ==> r.error == DuplicateDates
    ensures r.Success? ==> WellFormed(r.value) && r.value.indexName == f.indexName && r.value.columns == f.columns
    ensures r.Success? && |f.index| > 0 ==> r.value.index == Range(Earliest(f.index), Latest(f.index) + 1)
  {
    if |f.index| == 0 then Success(f)
    else if !Distinct(f.index) then Failure(DuplicateDates)
    else
      var days := Range(Earliest(f.index), Latest(f.index) + 1);
      Success(Frame(f.indexName, days, f.columns,
                    map c | c in f.data :: seq(|days|, i requires 0 <= i < |days| => Lookup(f.index, f.data[c], days[i]))))
  }

  /** Each row of the table reappears, with its cells, at the position of its day. */
  lemma AsFreqKeepsRows(f: Frame, c: string, k: int)
    requires WellFormed(f) && AsFreq(f).Success? && c in f.data && 0 <= k < |f.index|
    ensures var g := AsFreq(f).value; var at := f.index[k] - Earliest(f.index);
      0 <= at < |g.index| && g.index[at] == f.index[k] && g.data[c][at] == f.data[c][k]
  {
    assert f.index[k] !in f.index[..k];
  }

  /** A day the table does not have gets a row of missing cells. */
  lemma AsFreqFillsGapsWithMissing(f: Frame, c: string, i: int)
    requires WellFormed(f) && AsFreq(f).Success? && c in f.data
    requires 0 <= i < |AsFreq(f).value.index| && AsFreq(f).value.index[i] !in f.index
    ensures AsFreq(f).value.data[c][i] == None
  {
  }

  /** The value a fraction x / w of the way from a to b. */
  function Line(a: real, b: real, x: int, w: int): real
    requires w > 0
  {
    a + (b - a) * (x as real / w as real)
  }

  /**
   * The cell at row i after time interpolation: a present cell is kept; a
   * missing one between two present cells lies on the line joining them,
   * measured in days; one after the last present cell takes that cell's
   * value; one before the first present cell stays missing.
   */
  function Interpolated(days: seq<int>, s: Column, i: int): Option<real>
    requires |days| == |s| && StrictlyIncreasing(days) && 0 <= i < |s|
  {
    if s[i].Some? then s[i]
    else match LastPresent(s, i)
      case None => None
      case Some(p) =>
        match NextPresent(s, i)
        case None => s[p]
        case Some(q) => Some(Line(s[p].value, s[q].value, days[i] - days[p], days[q] - days[p]))
  }

  /** `Series.interpolate(method="time")`. */
  function Interpolate(days: seq<int>, s: Column): (r: Column)
    requires |days| == |s| && StrictlyIncreasing(days)
    ensures |r| == |s|
  {
    seq(|s|, i requires 0 <= i < |s| => Interpolated(days, s, i))
  }

  /** Interpolation keeps every present cell and fills exactly the cells that follow some present cell. */
  lemma InterpolateFills(days: seq<int>, s: Column, i: int)
    requires |days| == |s| && StrictlyIncreasing(days) && 0 <= i < |s|
    ensures s[i].Some? ==> Interpolate(days, s)[i] == s[i]
    ensures Interpolate(days, s)[i].Some? <==> exists j :: 0 <= j <= i && s[j].Some?
  {
    if exists j :: 0 <= j <= i && s[j].Some? {
      var j :| 0 <= j <= i && s[j].Some?;
      assert LastPresent(s, i).Some?;
    }
  }

  /** A point a fraction of the way between two values lies between them. */
  lemma LineBetween(a: real, b: real, x: int, w: int)
    requires 0 <= x <= w && w > 0
    ensures a <= b ==> a <= Line(a, b, x, w) <= b
    ensures b <= a ==> b <= Line(a, b, x, w) <= a
  {
    var t := x as real / w as real;
    FractionWithinUnit(x, w);
    ScaledWithin(b - a, t);
  }

  /** A fraction whose numerator lies between zero and its denominator lies in [0, 1]. */
  lemma FractionWithinUnit(x: int, w: int)
    requires 0 <= x <= w && w > 0
    ensures 0.0 <= x as real / w as real <= 1.0
  {
    var t := x as real / w as real;
    assert t * w as real == x as real;
  }

  /** Scaling by a factor in [0, 1] keeps a difference between zero and itself. */
  lemma ScaledWithin(d: real, t: real)
    requires 0.0 <= t <= 1.0
    ensures d >= 0.0 ==> 0.0 <= d * t <= d
    ensures d <= 0.0 ==> d <= d * t <= 0.0
  {
    assert d - d * t == d * (1.0 - t);
  }

  /** An interpolated cell inside a gap lies between the present cells that bound the gap. */
  lemma InterpolateBetween(days: seq<int>, s: Column, p: int, i: int, q: int)
    requires |days| == |s| && StrictlyIncreasing(days)
    requires 0 <= p < i < q < |s| && s[p].Some? && s[q].Some?
    requires forall j :: p < j < q ==> s[j].None?
    ensures var v := Interpolate(days, s)[i].value;
      v == Line(s[p].value, s[q].value, days[i] - days[p], days[q] - days[p])
      && (s[p].value <= s[q].value ==> s[p].value <= v <= s[q].value)
      && (s[q].value <= s[p].value ==> s[q].value <= v <= s[p].value)
  {
    LastPresentIs(s, p, i);
    NextPresentIs(s, i, q);
    LineBetween(s[p].value, s[q].value, days[i] - days[p], days[q] - days[p]);
  }

  /** Within a gap each day moves the interpolated value by the same amount: the slope of the gap in days. */
  lemma InterpolateLinear(days: seq<int>, s: Column, p: int, i: int, q: int)
    requires |days| == |s| && StrictlyIncreasing(days)
    requires 0 <= p <= i < i + 1 < q < |s| && s[p].Some? && s[q].Some?
    requires forall j :: p < j < q ==> s[j].None?
    ensures var r := Interpolate(days, s); var w := (days[q] - days[p]) as real;
      r[i + 1].value - r[i].value == (s[q].value - s[p].value) * ((days[i + 1] - days[i]) as real / w)
  {
    var r := Interpolate(days, s);
    var a, b := s[p].value, s[q].value;
    var w := (days[q] - days[p]) as real;
    LastPresentIs(s, p, i + 1);
    NextPresentIs(s, i + 1, q);
    assert r[i + 1].value == a + (b - a) * ((days[i + 1] - days[p]) as real / w);
    if i == p {
      assert r[i].value == a;
    } else {
      LastPresentIs(s, p, i);
      NextPresentIs(s, i, q);
      assert r[i].value == a + (b - a) * ((days[i] - days[p]) as real / w);
    }
    assert (days[i + 1] - days[p]) as real / w - (days[i] - days[p]) as real / w == (days[i + 1] - days[i]) as real / w;
  }

  /** After the last present cell every cell takes its value. */
  lemma InterpolateTrailing(days: seq<int>, s: Column, p: int, i: int)
    requires |days| == |s| && StrictlyIncreasing(days)
    requires 0 <= p <= i < |s| && s[p].Some? && forall j :: p < j < |s| ==> s[j].None?
    ensures Interpolate(days, s)[i] == s[p]
  {
    if i > p {
      LastPresentIs(s, p, i);
      assert NextPresent(s, i).None?;
    }
  }

  /** `interpolate(method="time")` applied to every column of a table indexed by increasing days. */
  function InterpolateFrame(f: Frame): (r: Frame)
    requires WellFormed(f) && StrictlyIncreasing(f.index)
    ensures WellFormed(r) && r.indexName == f.indexName && r.index == f.index && r.columns == f.columns
    ensures r.data.Keys == f.data.Keys
    ensures forall c :: c in f.data ==> r.data[c] == Interpolate(f.index, f.data[c])
  {
    Frame(f.indexName, f.index, f.columns, map c | c in f.data :: Interpolate(f.index, f.data[c]))
  }

  /** Consecutive days are increasing. */
  lemma RangeIncreasing(lo: int, hi: int)
    requires lo <= hi
    ensures StrictlyIncreasing(Range(lo, hi))
  {
  }

  /**
   * `load_data` of the forecasting engine: the table read from the file, put
   * on a daily index and interpolated.
   */
  function LoadDaily(f: Frame): (r: Result<Frame>)
    requires WellFormed(f)
    ensures r.Failure? <==> !Distinct(f.index)
    ensures r.Success? ==> WellFormed(r.value) && StrictlyIncreasing(r.value.index)
    ensures r.Success? ==> r.value.indexName == f.indexName && r.value.columns == f.columns
    ensures r.Success? && |f.index| > 0 ==> r.value.index == Range(Earliest(f.index), Latest(f.index) + 1)
  {
    match AsFreq(f)
    case Failure(e) => Failure(e)
    case Success(g) =>
      if |f.index| == 0 then Success(InterpolateFrame(g))
      else
        RangeIncreasing(Earliest(f.index), Latest(f.index) + 1);
        Success(InterpolateFrame(g))
  }

  /** A present cell of the file keeps its value on its own day after loading. */
  lemma LoadDailyKeepsValues(f: Frame, c: string, k: int)
    requires WellFormed(f) && Distinct(f.index) && c in f.data && 0 <= k < |f.index| && f.data[c][k].Some?
    ensures var g := LoadDaily(f).value; var at := f.index[k] - Earliest(f.index);
      0 <= at < |g.index| && g.index[at] == f.index[k] && g.data[c][at] == f.data[c][k]
  {
    AsFreqKeepsRows(f, c, k);
    var a := AsFreq(f).value;
    RangeIncreasing(Earliest(f.index), Latest(f.index) + 1);
    InterpolateFills(a.index, a.data[c], f.index[k] - Earliest(f.index));
  }
}
