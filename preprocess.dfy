/**
 * `DataPreprocessor` of preprocess.py: loading the exchange-rate table,
 * deriving the forecasting features from the close series, joining the
 * macro-economic table, and preparing the table that is written out.
 * The class's only state is three file paths, so each step is modelled as an
 * operation from table to table; reading and writing the files is left out,
 * the file contents being inputs and outputs.
 */
module Preprocess {
  import opened Base
  import opened Series
  import opened Calendar
  import opened Frames

  // ---------------------------------------------------------------- loading

  /** A CSV file as read: the header, the number of data rows, and for each column its cell texts. */
  datatype Csv = Csv(header: seq<string>, rows: nat, cells: map<string, seq<string>>)

  predicate CsvWellFormed(t: Csv) {
    && Distinct(t.header)
    && t.cells.Keys == set c | c in t.header
    && (forall c :: c in t.cells ==> |t.cells[c]| == t.rows)
  }

  /** The column that becomes the index: `date` when the header has it, the first column otherwise. */
  function DateKey(header: seq<string>): (key: string)
    requires |header| > 0
    ensures key in header
    ensures "date" in header ==> key == "date"
    ensures "date" !in header ==> key == header[0]
  {
    if "date" in header then "date" else header[0]
  }

  /** `pd.to_datetime` over a column of texts: the day of each cell, or nothing when some cell is not a date. */
  function ParseDays(texts: seq<string>, toDay: string -> Option<int>): (r: Option<seq<int>>)
    ensures r.Some? <==> forall i :: 0 <= i < |texts| ==> toDay(texts[i]).Some?
    ensures r.Some? ==> |r.value| == |texts| && forall i :: 0 <= i < |texts| ==> toDay(texts[i]) == Some(r.value[i])
  {
    if |texts| == 0 then Some([])
    else
      var init := ParseDays(texts[..|texts| - 1], toDay);
      var last := toDay(texts[|texts| - 1]);
      if init.Some? && last.Some? then Some(init.value + [last.value])
      else None
  }

  /** The table as read, indexed by the parsed days, before sorting: every other column read as numbers. */
  function Indexed(t: Csv, key: string, days: seq<int>, toValue: string -> Option<real>): (f: Frame)
    requires CsvWellFormed(t) && key in t.cells && |days| == t.rows
    ensures WellFormed(f) && f.indexName == key && f.index == days
    ensures f.columns == Without(t.header, key) && f.data.Keys == t.cells.Keys - {key}
    ensures forall c, i :: c in f.data && 0 <= i < t.rows ==> f.data[c][i] == toValue(t.cells[c][i])
  {
    Frame(key, days, Without(t.header, key),
          map c | c in t.cells && c != key :: seq(t.rows, i requires 0 <= i < t.rows => toValue(t.cells[c][i])))
  }

  /** The positions are in ascending order of their days. */
  predicate SortedBy(days: seq<int>, pos: seq<int>)
    requires forall k :: 0 <= k < |pos| ==> 0 <= pos[k] < |days|
  {
    forall k, l :: 0 <= k < l < |pos| ==> days[pos[k]] <= days[pos[l]]
  }

  /** Inserts position p into positions ordered by day, after every position with the same or an earlier day. */
  function Insert(days: seq<int>, pos: seq<int>, p: int): (r: seq<int>)
    requires 0 <= p < |days| && forall k :: 0 <= k < |pos| ==> 0 <= pos[k] < |days|
    requires SortedBy(days, pos)
    ensures |r| == |pos| + 1
    ensures forall k :: 0 <= k < |r| ==> 0 <= r[k] < |days|
    ensures forall x :: x in r <==> x in pos || x == p
    ensures SortedBy(days, r)
  {
    if |pos| == 0 then [p]
    else if days[pos[|pos| - 1]] <= days[p] then pos + [p]
    else
      var init := Insert(days, pos[..|pos| - 1], p);
      assert forall x :: x in pos[..|pos| - 1] ==> days[x] <= days[pos[|pos| - 1]];
      init + [pos[|pos| - 1]]
  }

  /** `sort_index()`: the row positions ordered by day, each position once. */
  function SortOrder(days: seq<int>, n: int): (r: seq<int>)
    requires 0 <= n <= |days|
    ensures |r| == n && Distinct(r)
    ensures forall k :: 0 <= k < |r| ==> 0 <= r[k] < n
    ensures SortedBy(days, r)
  {
    if n == 0 then []
    else
      var init := SortOrder(days, n - 1);
      var r := Insert(days, init, n - 1);
      assert n - 1 !in init;
      assert forall k :: 0 <= k < |r| ==> r[k] < n by {
        forall k | 0 <= k < |r| ensures r[k] < n {
          assert r[k] in r;
        }
      }
      assert Distinct(r) by {
        forall k, l | 0 <= k < l < |r| ensures r[k] != r[l] {
          InsertPositions(days, init, n - 1, k, l);
        }
      }
      r
  }

  lemma InsertPositions(days: seq<int>, pos: seq<int>, p: int, k: int, l: int)
    requires 0 <= p < |days| && forall k :: 0 <= k < |pos| ==> 0 <= pos[k] < |days|
    requires SortedBy(days, pos) && Distinct(pos) && p !in pos
    requires 0 <= k < l < |pos| + 1
    ensures Insert(days, pos, p)[k] != Insert(days, pos, p)[l]
  {
    InsertDistinct(days, pos, p);
  }

  lemma {:induction false} InsertDistinct(days: seq<int>, pos: seq<int>, p: int)
    requires 0 <= p < |days| && forall k :: 0 <= k < |pos| ==> 0 <= pos[k] < |days|
    requires SortedBy(days, pos) && Distinct(pos) && p !in pos
    ensures Distinct(Insert(days, pos, p))
    decreases |pos|
  {
    if |pos| > 0 && days[pos[|pos| - 1]] > days[p] {
      var init, last := pos[..|pos| - 1], pos[|pos| - 1];
      InsertDistinct(days, init, p);
      assert last !in init;
      assert last !in Insert(days, init, p);
    }
  }

  /**
   * `load_data`: the day column becomes the index (a KeyError-free lookup of
   * `date`, else the first column), the rows are sorted by day and every row
   * with a missing value is dropped.
   */
  function Load(t: Csv, toDay: string -> Option<int>, toValue: string -> Option<real>): (r: Result<Frame>)
    requires CsvWellFormed(t)
    ensures |t.header| == 0 ==> r == Failure(NoColumns)
    ensures |t.header| > 0 ==>
      (r.Failure? <==> exists i :: 0 <= i < t.rows && toDay(t.cells[DateKey(t.header)][i]).None?)
    ensures r.Failure? ==> r.error == NoColumns || r.error == UnparsableDate
    ensures r.Success? ==> |t.header| > 0 && WellFormed(r.value) && NoMissing(r.value)
    ensures r.Success? ==> r.value.indexName == DateKey(t.header) && r.value.columns == Without(t.header, DateKey(t.header))
    ensures r.Success? ==> forall i, j :: 0 <= i < j < |r.value.index| ==> r.value.index[i] <= r.value.index[j]
  {
    if |t.header| == 0 then Failure(NoColumns)
    else
      var key := DateKey(t.header);
      var days := ParseDays(t.cells[key], toDay);
      if days.None? then Failure(UnparsableDate)
      else
        var f := Indexed(t, key, days.value, toValue);
        var order := SortOrder(days.value, t.rows);
        DropNaSelect(f, order);
        KeepCompleteSorted(f, order);
        Success(DropNa(Select(f, order)))
  }

  /** Dropping rows from positions ordered by day leaves them ordered by day. */
  lemma {:induction false} KeepCompleteSorted(f: Frame, pos: seq<int>)
    requires WellFormed(f) && forall k :: 0 <= k < |pos| ==> 0 <= pos[k] < |f.index|
    requires SortedBy(f.index, pos)
    ensures SortedBy(f.index, KeepComplete(f, pos))
    decreases |pos|
  {
    if |pos| > 0 {
      var init, last := pos[..|pos| - 1], pos[|pos| - 1];
      KeepCompleteSorted(f, init);
      KeepCompleteMembers(f, init);
      var r := KeepComplete(f, pos);
      forall k, l | 0 <= k < l < |r| ensures f.index[r[k]] <= f.index[r[l]] {
        if l == |r| - 1 && RowComplete(f, last) {
          assert r[k] in KeepComplete(f, init);
        }
      }
    }
  }

  /** The loaded table is the file's table with its complete rows selected in the order of their days. */
  lemma LoadSelects(t: Csv, toDay: string -> Option<int>, toValue: string -> Option<real>)
    requires CsvWellFormed(t) && Load(t, toDay, toValue).Success?
    ensures var key := DateKey(t.header);
      var f := Indexed(t, key, ParseDays(t.cells[key], toDay).value, toValue);
      Load(t, toDay, toValue).value == Select(f, KeepComplete(f, SortOrder(f.index, t.rows)))
  {
    var key := DateKey(t.header);
    var f := Indexed(t, key, ParseDays(t.cells[key], toDay).value, toValue);
    DropNaSelect(f, SortOrder(f.index, t.rows));
  }

  /** The positions kept are the complete rows of the file, each once. */
  lemma KeptPositions(f: Frame, n: nat)
    requires WellFormed(f) && n == |f.index|
    ensures var pos := KeepComplete(f, SortOrder(f.index, n));
      && Distinct(pos)
      && (forall i :: 0 <= i < n ==> (i in pos <==> RowComplete(f, i)))
  {
    var order := SortOrder(f.index, n);
    SortOrderCovers(f.index, n);
    KeepCompleteMembers(f, order);
  }

  /** The sort order holds every position below n. */
  lemma SortOrderCovers(days: seq<int>, n: nat)
    requires n <= |days|
    ensures forall i :: 0 <= i < n ==> i in SortOrder(days, n)
  {
    var order := SortOrder(days, n);
    forall i | 0 <= i < n ensures i in order {
      RangeCovered(order, n, i);
    }
  }

  /** The loaded rows are exactly the complete rows of the file, each once, in the order of their days. */
  lemma LoadKeepsCompleteRows(t: Csv, toDay: string -> Option<int>, toValue: string -> Option<real>)
    requires CsvWellFormed(t) && Load(t, toDay, toValue).Success?
    ensures var key := DateKey(t.header);
      var f := Indexed(t, key, ParseDays(t.cells[key], toDay).value, toValue);
      var pos := KeepComplete(f, SortOrder(f.index, t.rows));
      && Load(t, toDay, toValue).value == Select(f, pos)
      && Distinct(pos)
      && (forall i :: 0 <= i < t.rows ==> (i in pos <==> RowComplete(f, i)))
  {
    var key := DateKey(t.header);
    var f := Indexed(t, key, ParseDays(t.cells[key], toDay).value, toValue);
    LoadSelects(t, toDay, toValue);
    KeptPositions(f, t.rows);
  }

  /** n distinct positions below n include every position below n. */
  lemma {:induction false} RangeCovered(pos: seq<int>, n: int, i: int)
    requires |pos| == n && Distinct(pos) && forall k :: 0 <= k < |pos| ==> 0 <= pos[k] < n
    requires 0 <= i < n
    ensures i in pos
  {
    if i !in pos {
      var shrunk := seq(n, k requires 0 <= k < n => if pos[k] < i then pos[k] else pos[k] - 1);
      assert forall k, l :: 0 <= k < l < n ==> shrunk[k] != shrunk[l];
      PigeonHole(shrunk, n - 1);
      assert false;
    }
  }

  /** More distinct positions than values below m is impossible. */
  lemma {:induction false} PigeonHole(pos: seq<int>, m: int)
    requires 0 <= m && Distinct(pos) && forall k :: 0 <= k < |pos| ==> 0 <= pos[k] < m
    ensures |pos| <= m
    decreases |pos|
  {
    if |pos| > 0 {
      var top := pos[|pos| - 1];
      var rest := seq(|pos| - 1, k requires 0 <= k < |pos| - 1 => if pos[k] < top then pos[k] else pos[k] - 1);
      assert forall k, l :: 0 <= k < l < |rest| ==> rest[k] != rest[l] by {
        forall k, l | 0 <= k < l < |rest| ensures rest[k] != rest[l] {
          assert pos[k] != pos[l] && pos[k] != top && pos[l] != top;
        }
      }
      PigeonHole(rest, m - 1);
    }
  }

  // ------------------------------------------------------------- features

  /** The columns `add_features` assigns, in the order it assigns them. */
  const FeatureNames: seq<string> := [
    "diff_close", "rolling_median_10", "ma_3", "ma_7", "ma_30", "momentum_10",
    "volatility_10", "volatility_30", "volatility_ratio_10", "lag_1", "lag_3", "lag_7",
    "trend_5", "day_of_week", "month"]

  /** A column computed from each row's own day. */
  function DayColumn(days: seq<int>, of: int -> int): (r: Column)
    ensures |r| == |days| && Complete(r)
    ensures forall i :: 0 <= i < |days| ==> r[i] == Some(of(days[i]) as real)
  {
    seq(|days|, i requires 0 <= i < |days| => Some(of(days[i]) as real))
  }

  /**
   * The fifteen feature columns derived from the close series and the days,
   * in the order of FeatureNames. The rolling median and standard deviation
   * are the parameters `median` and `std`.
   */
  function FeatureColumns(close: Column, days: seq<int>, median: seq<real> -> real, std: seq<real> -> real): (cols: seq<Column>)
    requires |close| == |days|
    ensures |cols| == |FeatureNames|
    ensures forall k :: 0 <= k < |cols| ==> |cols[k]| == |close|
  {
    var diff := Diff(close, 1);
    var volatility10 := Rolling(diff, 10, std);
    [diff, Rolling(close, 10, median), RollingMean(close, 3), RollingMean(close, 7), RollingMean(close, 30),
     Diff(close, 10), volatility10, Rolling(diff, 30, std), Ratio(volatility10, close),
     Shift(close, 1), Shift(close, 3), Shift(close, 7),
     Difference(RollingMean(close, 5), RollingMean(close, 10)),
     DayColumn(days, DayOfWeek), DayColumn(days, MonthOfDay)]
  }

  /** The labels of `names` that are not in `present`, in their order. */
  function Fresh(names: seq<string>, present: set<string>): (r: seq<string>)
    ensures forall c :: c in r <==> c in names && c !in present
  {
    if |names| == 0 then []
    else Fresh(names[..|names| - 1], present) + (if names[|names| - 1] in present then [] else [names[|names| - 1]])
  }

  /** `df[names[0]] = cols[0]`, then `df[names[1]] = cols[1]`, and so on. */
  function AssignAll(f: Frame, names: seq<string>, cols: seq<Column>): (r: Frame)
    requires WellFormed(f) && |names| == |cols| && forall k :: 0 <= k < |cols| ==> |cols[k]| == |f.index|
    ensures WellFormed(r) && r.index == f.index && r.indexName == f.indexName
    decreases |names|
  {
    if |names| == 0 then f
    else WithColumn(AssignAll(f, names[..|names| - 1], cols[..|cols| - 1]), names[|names| - 1], cols[|cols| - 1])
  }

  /** Assigning labels in turn adds exactly the assigned labels to the table's keys. */
  lemma {:induction false} AssignAllKeys(f: Frame, names: seq<string>, cols: seq<Column>)
    requires WellFormed(f) && |names| == |cols| && forall k :: 0 <= k < |cols| ==> |cols[k]| == |f.index|
    ensures forall c :: c in AssignAll(f, names, cols).data <==> c in f.data || c in names
    decreases |names|
  {
    if |names| > 0 {
      var n := |names|;
      AssignAllKeys(f, names[..n - 1], cols[..n - 1]);
      assert names == names[..n - 1] + [names[n - 1]];
    }
  }

  /** Assigning distinct labels in turn: each assigned label holds its column. */
  lemma {:induction false} AssignAllAssigned(f: Frame, names: seq<string>, cols: seq<Column>)
    requires WellFormed(f) && |names| == |cols| && forall k :: 0 <= k < |cols| ==> |cols[k]| == |f.index|
    requires Distinct(names)
    ensures forall j :: 0 <= j < |names| ==>
      names[j] in AssignAll(f, names, cols).data && AssignAll(f, names, cols).data[names[j]] == cols[j]
    decreases |names|
  {
    if |names| > 0 {
      var n := |names|;
      var init, last := names[..n - 1], names[n - 1];
      AssignAllAssigned(f, init, cols[..n - 1]);
      var r0 := AssignAll(f, init, cols[..n - 1]);
      var r := AssignAll(f, names, cols);
      assert r.data == r0.data[last := cols[n - 1]];
      forall j | 0 <= j < n ensures names[j] in r.data && r.data[names[j]] == cols[j] {
        if j < n - 1 {
          assert names[j] == init[j] && names[j] != last;
        }
      }
    }
  }

  /** Assigning labels in turn leaves every column it does not assign untouched. */
  lemma {:induction false} AssignAllUntouched(f: Frame, names: seq<string>, cols: seq<Column>)
    requires WellFormed(f) && |names| == |cols| && forall k :: 0 <= k < |cols| ==> |cols[k]| == |f.index|
    ensures forall c :: c in f.data && c !in names ==>
      c in AssignAll(f, names, cols).data && AssignAll(f, names, cols).data[c] == f.data[c]
    decreases |names|
  {
    if |names| > 0 {
      var n := |names|;
      var init, last := names[..n - 1], names[n - 1];
      AssignAllUntouched(f, init, cols[..n - 1]);
      forall c | c in f.data && c !in names ensures c in AssignAll(f, names, cols).data && AssignAll(f, names, cols).data[c] == f.data[c] {
        assert c !in init && c != last;
      }
    }
  }

  /**
   * Assigning distinct labels in turn: each assigned label holds its column
   * and every other column is untouched.
   */
  lemma AssignAllData(f: Frame, names: seq<string>, cols: seq<Column>)
    requires WellFormed(f) && |names| == |cols| && forall k :: 0 <= k < |cols| ==> |cols[k]| == |f.index|
    requires Distinct(names)
    ensures var r := AssignAll(f, names, cols);
      && (forall c :: c in r.data <==> c in f.data || c in names)
      && (forall j :: 0 <= j < |names| ==> r.data[names[j]] == cols[j])
      && (forall c :: c in f.data && c !in names ==> r.data[c] == f.data[c])
  {
    AssignAllKeys(f, names, cols);
    AssignAllAssigned(f, names, cols);
    AssignAllUntouched(f, names, cols);
  }

  /** Assigning distinct labels in turn appends the new ones in order; the ones already there keep their place. */
  lemma {:induction false} AssignAllColumns(f: Frame, names: seq<string>, cols: seq<Column>)
    requires WellFormed(f) && |names| == |cols| && forall k :: 0 <= k < |cols| ==> |cols[k]| == |f.index|
    requires Distinct(names)
    ensures AssignAll(f, names, cols).columns == f.columns + Fresh(names, f.data.Keys)
    decreases |names|
  {
    if |names| > 0 {
      var n := |names|;
      var init, last := names[..n - 1], names[n - 1];
      var r0 := AssignAll(f, init, cols[..n - 1]);
      var tail := if last in f.data then [] else [last];
      var before := Fresh(init, f.data.Keys);
      assert AssignAll(f, names, cols).columns == r0.columns + tail by {
        AssignAllKeys(f, init, cols[..n - 1]);
        assert last !in init;
        assert AssignAll(f, names, cols) == WithColumn(r0, last, cols[n - 1]);
      }
      assert r0.columns == f.columns + before by {
        AssignAllColumns(f, init, cols[..n - 1]);
      }
      assert Fresh(names, f.data.Keys) == before + tail;
      ConcatAssoc(f.columns, before, tail);
    }
  }

  /** The table with the feature columns assigned, before rows are dropped. */
  function WithFeatures(df: Frame, median: seq<real> -> real, std: seq<real> -> real): (r: Frame)
    requires WellFormed(df) && "close" in df.data
    ensures WellFormed(r) && r.index == df.index && r.indexName == df.indexName
  {
    AssignAll(df, FeatureNames, FeatureColumns(df.data["close"], df.index, median, std))
  }

  /**
   * `add_features`: assigns the fifteen feature columns in turn and drops the
   * rows with a missing value. A table without `close` raises a KeyError.
   */
  method AddFeatures(df: Frame, median: seq<real> -> real, std: seq<real> -> real) returns (r: Result<Frame>)
    requires WellFormed(df)
    ensures "close" !in df.data ==> r == Failure(MissingColumn("close"))
    ensures "close" in df.data ==> r == Success(DropNa(WithFeatures(df, median, std)))
  {
    if "close" !in df.data {
      return Failure(MissingColumn("close"));
    }
    var cols := FeatureColumns(df.data["close"], df.index, median, std);
    var out := AssignColumns(df, FeatureNames, cols);
    return Success(DropNa(out));
  }

  /** `df[names[k]] = cols[k]` for each k in turn. */
  method AssignColumns(df: Frame, names: seq<string>, cols: seq<Column>) returns (out: Frame)
    requires WellFormed(df) && |names| == |cols| && forall k :: 0 <= k < |cols| ==> |cols[k]| == |df.index|
    ensures out == AssignAll(df, names, cols)
  {
    out := df;
    for k := 0 to |names|
      invariant out == AssignAll(df, names[..k], cols[..k])
    {
      assert names[..k + 1][..k] == names[..k] && cols[..k + 1][..k] == cols[..k];
      out := WithColumn(out, names[k], cols[k]);
    }
    assert names[..|names|] == names && cols[..|cols|] == cols;
  }

  /** The first row at which each feature column has a value, for a close series without gaps. */
  const FeatureStart: seq<int> := [1, 9, 2, 6, 29, 10, 10, 30, 10, 1, 3, 7, 9, 0, 0]

  lemma FeatureNamesDistinct()
    ensures Distinct(FeatureNames)
  {
  }

  /**
   * For a close series without gaps and without a zero, each feature column
   * has values exactly from its start row on; the 30-row deviation of the
   * differenced series starts last, at row 30.
   */
  lemma FeaturesPresent(close: Column, days: seq<int>, median: seq<real> -> real, std: seq<real> -> real)
    requires |close| == |days| && Complete(close)
    requires forall i :: 0 <= i < |close| ==> close[i].value != 0.0
    ensures var cols := FeatureColumns(close, days, median, std);
      forall j :: 0 <= j < |cols| ==> PresentFrom(cols[j], FeatureStart[j]) && FeatureStart[j] <= 30
  {
    var cols := FeatureColumns(close, days, median, std);
    var diff := Diff(close, 1);
    DiffPresentFrom(close, 1, 0);
    RollingPresentFrom(close, 10, median, 0);
    RollingMeanPresentFrom(close, 3, 0);
    RollingMeanPresentFrom(close, 7, 0);
    RollingMeanPresentFrom(close, 30, 0);
    DiffPresentFrom(close, 10, 0);
    RollingPresentFrom(diff, 10, std, 1);
    RollingPresentFrom(diff, 30, std, 1);
    RatioPresentFrom(Rolling(diff, 10, std), close, 10);
    ShiftPresentFrom(close, 1, 0);
    ShiftPresentFrom(close, 3, 0);
    ShiftPresentFrom(close, 7, 0);
    RollingMeanPresentFrom(close, 5, 0);
    RollingMeanPresentFrom(close, 10, 0);
    DifferencePresentFrom(RollingMean(close, 5), RollingMean(close, 10), 4, 9);
  }

  /**
   * On a table without gaps whose closes are never zero, `add_features`
   * keeps exactly the rows from position 30 on, in order.
   */
  lemma AddFeaturesKeepsTail(df: Frame, median: seq<real> -> real, std: seq<real> -> real)
    requires WellFormed(df) && "close" in df.data && NoMissing(df)
    requires forall i :: 0 <= i < |df.index| ==> df.data["close"][i] != Some(0.0)
    ensures var n := |df.index|;
      DropNa(WithFeatures(df, median, std)) == Slice(WithFeatures(df, median, std), if n < 30 then n else 30, n)
  {
    var n := |df.index|;
    var w := WithFeatures(df, median, std);
    var cols := FeatureColumns(df.data["close"], df.index, median, std);
    FeatureNamesDistinct();
    assert Complete(df.data["close"]) by {
      forall i | 0 <= i < n ensures df.data["close"][i].Some? {
        assert RowComplete(df, i);
      }
    }
    FeaturesPresent(df.data["close"], df.index, median, std);
    assert FeatureStart[7] == 30;
    AssignedKeepsTail(df, FeatureNames, cols, FeatureStart, 7);
  }

  /**
   * After assigning columns to a table without gaps, `dropna()` keeps the
   * rows from the latest start among the assigned columns on.
   */
  lemma AssignedKeepsTail(df: Frame, names: seq<string>, cols: seq<Column>, starts: seq<int>, last: int)
    requires WellFormed(df) && NoMissing(df) && Distinct(names)
    requires |names| == |cols| == |starts| && 0 <= last < |starts| && starts[last] >= 0
    requires forall k :: 0 <= k < |cols| ==> |cols[k]| == |df.index|
    requires forall j :: 0 <= j < |cols| ==> PresentFrom(cols[j], starts[j]) && starts[j] <= starts[last]
    ensures var w := AssignAll(df, names, cols); var n := |w.index|;
      DropNa(w) == Slice(w, if n < starts[last] then n else starts[last], n)
  {
    var w := AssignAll(df, names, cols);
    var n := |w.index|;
    var a := if n < starts[last] then n else starts[last];
    forall i | 0 <= i < n ensures RowComplete(w, i) <==> i >= a {
      AssignedRowComplete(df, names, cols, starts, last, i);
    }
    DropNaKeepsTail(w, a);
  }

  /**
   * After assigning columns to a table without gaps, a row is complete
   * exactly when it is at or after the latest start among the assigned columns.
   */
  lemma AssignedRowComplete(df: Frame, names: seq<string>, cols: seq<Column>, starts: seq<int>, last: int, i: int)
    requires WellFormed(df) && NoMissing(df) && Distinct(names)
    requires |names| == |cols| == |starts| && 0 <= last < |starts|
    requires forall k :: 0 <= k < |cols| ==> |cols[k]| == |df.index|
    requires forall j :: 0 <= j < |cols| ==> PresentFrom(cols[j], starts[j]) && starts[j] <= starts[last]
    requires 0 <= i < |df.index|
    ensures RowComplete(AssignAll(df, names, cols), i) <==> i >= starts[last]
  {
    var w := AssignAll(df, names, cols);
    AssignAllData(df, names, cols);
    if i >= starts[last] {
      forall c | c in w.data ensures w.data[c][i].Some? {
        if c in names {
          var j :| 0 <= j < |names| && names[j] == c;
          assert w.data[c] == cols[j];
        } else {
          assert RowComplete(df, i);
        }
      }
    } else {
      assert w.data[names[last]][i].None?;
    }
  }

  /** After assigning distinct labels in turn, label j holds column j. */
  lemma AssignedColumn(f: Frame, names: seq<string>, cols: seq<Column>, j: int)
    requires WellFormed(f) && |names| == |cols| && forall k :: 0 <= k < |cols| ==> |cols[k]| == |f.index|
    requires Distinct(names) && 0 <= j < |names|
    ensures names[j] in AssignAll(f, names, cols).data && AssignAll(f, names, cols).data[names[j]] == cols[j]
  {
    AssignAllData(f, names, cols);
  }

  /** In the table with the features assigned, feature j's label holds feature j's column. */
  lemma FeatureColumnOf(df: Frame, median: seq<real> -> real, std: seq<real> -> real, j: int)
    requires WellFormed(df) && "close" in df.data
    requires 0 <= j < |FeatureNames|
    ensures var w := WithFeatures(df, median, std);
      FeatureNames[j] in w.data && w.data[FeatureNames[j]] == FeatureColumns(df.data["close"], df.index, median, std)[j]
  {
    FeatureNamesDistinct();
    AssignedColumn(df, FeatureNames, FeatureColumns(df.data["close"], df.index, median, std), j);
  }

  lemma CloseComplete(df: Frame)
    requires WellFormed(df) && "close" in df.data && NoMissing(df)
    ensures Complete(df.data["close"])
  {
    forall i | 0 <= i < |df.index| ensures df.data["close"][i].Some? {
      assert RowComplete(df, i);
    }
  }

  /** Which series expression each difference-style feature column is. */
  lemma DifferenceColumns(close: Column, days: seq<int>, median: seq<real> -> real, std: seq<real> -> real)
    requires |close| == |days|
    ensures var cols := FeatureColumns(close, days, median, std);
      && cols[0] == Diff(close, 1) && cols[5] == Diff(close, 10)
      && cols[9] == Shift(close, 1) && cols[10] == Shift(close, 3) && cols[11] == Shift(close, 7)
  {
  }

  /** Which series expression each window-mean feature column is. */
  lemma MeanColumns(close: Column, days: seq<int>, median: seq<real> -> real, std: seq<real> -> real)
    requires |close| == |days|
    ensures var cols := FeatureColumns(close, days, median, std);
      && cols[2] == RollingMean(close, 3) && cols[3] == RollingMean(close, 7) && cols[4] == RollingMean(close, 30)
      && cols[12] == Difference(RollingMean(close, 5), RollingMean(close, 10))
  {
  }

  /** Which series expression each rolling-aggregate feature column is. */
  lemma AggregateColumns(close: Column, days: seq<int>, median: seq<real> -> real, std: seq<real> -> real)
    requires |close| == |days|
    ensures var cols := FeatureColumns(close, days, median, std); var diff := Diff(close, 1);
      && cols[1] == Rolling(close, 10, median) && cols[6] == Rolling(diff, 10, std) && cols[7] == Rolling(diff, 30, std)
      && cols[8] == Ratio(Rolling(diff, 10, std), close)
  {
  }

  /** The volatility ratio column is the 10-day volatility column divided by the close. */
  lemma VolatilityRatioColumn(close: Column, days: seq<int>, median: seq<real> -> real, std: seq<real> -> real)
    requires |close| == |days|
    ensures var cols := FeatureColumns(close, days, median, std); cols[8] == Ratio(cols[6], close)
  {
    AggregateColumns(close, days, median, std);
  }

  /** Which series expression each calendar feature column is. */
  lemma CalendarColumns(close: Column, days: seq<int>, median: seq<real> -> real, std: seq<real> -> real)
    requires |close| == |days|
    ensures var cols := FeatureColumns(close, days, median, std);
      cols[13] == DayColumn(days, DayOfWeek) && cols[14] == DayColumn(days, MonthOfDay)
  {
  }

  /**
   * The difference-style features at a row s with ten rows before it: the
   * one-day and ten-day changes of the close (`diff_close`, `momentum_10`)
   * and its 1-, 3- and 7-day lags (`lag_1`, `lag_3`, `lag_7`).
   */
  lemma DifferenceFeatures(close: Column, days: seq<int>, median: seq<real> -> real, std: seq<real> -> real, s: int)
    requires |close| == |days| && Complete(close) && 10 <= s < |close|
    ensures var cols := FeatureColumns(close, days, median, std);
      && cols[0][s] == Some(close[s].value - close[s - 1].value)
      && cols[5][s] == Some(close[s].value - close[s - 10].value)
      && cols[9][s] == Some(close[s - 1].value)
      && cols[10][s] == Some(close[s - 3].value)
      && cols[11][s] == Some(close[s - 7].value)
  {
    DifferenceColumns(close, days, median, std);
  }

  /**
   * The moving averages `ma_3`, `ma_7` and `ma_30` (features 2, 3 and 4):
   * at a row with a full window, the mean of the last k closes.
   */
  lemma MovingAverageFeature(close: Column, days: seq<int>, median: seq<real> -> real, std: seq<real> -> real, j: int, k: nat, s: int)
    requires |close| == |days| && Complete(close)
    requires (j, k) == (2, 3) || (j, k) == (3, 7) || (j, k) == (4, 30)
    requires k - 1 <= s < |close|
    ensures FeatureColumns(close, days, median, std)[j][s] == Some(Sum(Span(close, s + 1 - k, s + 1)) / k as real)
  {
    MeanColumns(close, days, median, std);
    RollingMeanAt(close, k, s);
  }

  /** The trend indicator `trend_5` (feature 12): the mean of the last 5 closes minus the mean of the last 10. */
  lemma TrendFeature(close: Column, days: seq<int>, median: seq<real> -> real, std: seq<real> -> real, s: int)
    requires |close| == |days| && Complete(close) && 9 <= s < |close|
    ensures FeatureColumns(close, days, median, std)[12][s]
      == Some(Sum(Span(close, s - 4, s + 1)) / 5.0 - Sum(Span(close, s - 9, s + 1)) / 10.0)
  {
    var trend := Difference(RollingMean(close, 5), RollingMean(close, 10));
    assert FeatureColumns(close, days, median, std)[12] == trend by {
      MeanColumns(close, days, median, std);
    }
    MeanDifferenceAt(close, 5, 10, s);
    assert 5 as real == 5.0 && 10 as real == 10.0;
  }

  /** The calendar features of a row (`day_of_week`, `month`) depend on nothing but the row's own day. */
  lemma CalendarFeatures(close: Column, days: seq<int>, median: seq<real> -> real, std: seq<real> -> real, s: int)
    requires |close| == |days| && 0 <= s < |close|
    ensures var cols := FeatureColumns(close, days, median, std);
      && cols[13][s] == Some(DayOfWeek(days[s]) as real)
      && cols[14][s] == Some(MonthOfDay(days[s]) as real)
  {
    CalendarColumns(close, days, median, std);
  }

  /** The rolling median `rolling_median_10` (feature 1): the median of the last ten closes. */
  lemma MedianFeature(close: Column, days: seq<int>, median: seq<real> -> real, std: seq<real> -> real, s: int)
    requires |close| == |days| && Complete(close) && 9 <= s < |close|
    ensures FeatureColumns(close, days, median, std)[1][s] == Some(median(Span(close, s - 9, s + 1)))
  {
    AggregateColumns(close, days, median, std);
    RollingAt(close, 10, median, s);
  }

  /**
   * The volatilities `volatility_10` and `volatility_30` (features 6 and 7):
   * the deviation of the last k one-day changes of the close.
   */
  lemma VolatilityFeature(close: Column, days: seq<int>, median: seq<real> -> real, std: seq<real> -> real, j: int, k: nat, s: int)
    requires |close| == |days| && Complete(close)
    requires (j, k) == (6, 10) || (j, k) == (7, 30)
    requires k <= s < |close|
    ensures FeatureColumns(close, days, median, std)[j][s] == Some(std(Changes(close, s + 1 - k, s + 1)))
  {
    AggregateColumns(close, days, median, std);
    DiffWindowIsChanges(close, s, k);
  }

  /** The volatility ratio `volatility_ratio_10` (feature 8): the 10-day volatility divided by the close. */
  lemma VolatilityRatioFeature(close: Column, days: seq<int>, median: seq<real> -> real, std: seq<real> -> real, s: int)
    requires |close| == |days| && Complete(close) && 10 <= s < |close| && close[s] != Some(0.0)
    ensures FeatureColumns(close, days, median, std)[8][s] == Some(std(Changes(close, s - 9, s + 1)) / close[s].value)
  {
    var volatility := Rolling(Diff(close, 1), 10, std);
    assert FeatureColumns(close, days, median, std)[8] == Ratio(volatility, close) by {
      AggregateColumns(close, days, median, std);
    }
    VolatilityAt(close, std, s);
    RatioAt(volatility, close, s, std(Changes(close, s - 9, s + 1)));
  }

  /** The 10-day volatility at row s is the aggregate of the ten changes of the close ending at s. */
  lemma VolatilityAt(close: Column, std: seq<real> -> real, s: int)
    requires Complete(close) && 10 <= s < |close|
    ensures Rolling(Diff(close, 1), 10, std)[s] == Some(std(Changes(close, s - 9, s + 1)))
  {
    DiffWindowIsChanges(close, s, 10);
  }

  // ------------------------------------------------------------ macro data

  /** The first label of `labels` that is also in `taken`. */
  function FirstShared(labels: seq<string>, taken: set<string>): (r: Option<string>)
    ensures r.None? <==> forall k :: 0 <= k < |labels| ==> labels[k] !in taken
    ensures r.Some? ==> r.value in labels && r.value in taken
  {
    if |labels| == 0 then None
    else if labels[0] in taken then Some(labels[0])
    else FirstShared(labels[1..], taken)
  }

  /**
   * `df.join(macro, how="left")` on the day index, when no label is shared:
   * the rows of `df` in their order, its columns followed by the macro
   * columns, each macro cell looked up by the row's day.
   */
  function Join(f: Frame, m: Frame): (r: Frame)
    requires WellFormed(f) && WellFormed(m) && forall c :: c in m.data ==> c !in f.data
    ensures WellFormed(r) && r.indexName == f.indexName && r.index == f.index
    ensures r.columns == f.columns + m.columns && r.data.Keys == f.data.Keys + m.data.Keys
    ensures forall c :: c in f.data ==> r.data[c] == f.data[c]
  {
    var cols := f.columns + m.columns;
    assert Distinct(cols) by {
      forall i, j | 0 <= i < j < |cols| ensures cols[i] != cols[j] {
        if i < |f.columns| <= j {
          assert cols[i] in f.data && cols[j] in m.data;
        }
      }
    }
    Frame(f.indexName, f.index, cols,
          map c | c in f.data.Keys + m.data.Keys ::
            if c in f.data then f.data[c]
            else seq(|f.index|, i requires 0 <= i < |f.index| => Lookup(m.index, m.data[c], f.index[i])))
  }

  /** A left-join row takes the macro row of the same day; a day the macro table lacks gets missing macro cells. */
  lemma JoinMatchesDays(f: Frame, m: Frame, c: string, i: int)
    requires WellFormed(f) && WellFormed(m) && forall c :: c in m.data ==> c !in f.data
    requires Distinct(m.index) && c in m.data && 0 <= i < |f.index|
    ensures f.index[i] !in m.index ==> Join(f, m).data[c][i] == None
    ensures forall k :: 0 <= k < |m.index| && m.index[k] == f.index[i] ==> Join(f, m).data[c][i] == m.data[c][k]
  {
    forall k | 0 <= k < |m.index| && m.index[k] == f.index[i]
      ensures Join(f, m).data[c][i] == m.data[c][k]
    {
      assert f.index[i] !in m.index[..k];
    }
  }

  /** `fillna(method="ffill")` then `fillna(method="bfill")` on one column. */
  function Fill(s: Column): (r: Column)
    ensures |r| == |s|
  {
    BackwardFill(ForwardFill(s))
  }

  /** The fill applied to the columns `names`, one after the other. */
  function FillAll(f: Frame, names: seq<string>): (r: Frame)
    requires WellFormed(f) && forall k :: 0 <= k < |names| ==> names[k] in f.data
    ensures WellFormed(r) && r.indexName == f.indexName && r.index == f.index && r.columns == f.columns
    ensures r.data.Keys == f.data.Keys
    decreases |names|
  {
    if |names| == 0 then f
    else
      var g := FillAll(f, names[..|names| - 1]);
      WithColumn(g, names[|names| - 1], Fill(g.data[names[|names| - 1]]))
  }

  /** Filling distinct columns fills each of them once and leaves the others as they were. */
  lemma {:induction false} FillAllData(f: Frame, names: seq<string>)
    requires WellFormed(f) && Distinct(names) && forall k :: 0 <= k < |names| ==> names[k] in f.data
    ensures forall c :: c in f.data && c in names ==> FillAll(f, names).data[c] == Fill(f.data[c])
    ensures forall c :: c in f.data && c !in names ==> FillAll(f, names).data[c] == f.data[c]
    decreases |names|
  {
    if |names| > 0 {
      var init := names[..|names| - 1];
      FillAllData(f, init);
      assert forall c :: c in names <==> c in init || c == names[|names| - 1];
      assert names[|names| - 1] !in init;
    }
  }

  /** When no label of `f` is a macro label, the two label sets are disjoint. */
  lemma NoSharedLabel(f: Frame, m: Frame)
    requires WellFormed(f) && FirstShared(f.columns, m.data.Keys).None?
    ensures forall c :: c in m.data ==> c !in f.data
  {
    forall c | c in m.data ensures c !in f.data {
      assert c in f.data ==> c in f.columns;
    }
  }

  /** Filling one more of the labels `names` fills column `names[k]` of the table filled so far. */
  lemma FillAllStep(f: Frame, names: seq<string>, k: int)
    requires WellFormed(f) && 0 <= k < |names| && forall j :: 0 <= j < |names| ==> names[j] in f.data
    ensures names[k] in FillAll(f, names[..k]).data
    ensures FillAll(f, names[..k + 1])
      == WithColumn(FillAll(f, names[..k]), names[k], Fill(FillAll(f, names[..k]).data[names[k]]))
  {
    assert names[..k + 1][..k] == names[..k];
  }

  /** The joined table with every macro column filled, one after the other. */
  function WithMacro(df: Frame, m: Frame): (r: Frame)
    requires WellFormed(df) && WellFormed(m) && forall c :: c in m.data ==> c !in df.data
    ensures WellFormed(r) && r.index == df.index && r.data.Keys == df.data.Keys + m.data.Keys
  {
    var j := Join(df, m);
    assert forall k :: 0 <= k < |m.columns| ==> m.columns[k] in j.data by {
      forall k | 0 <= k < |m.columns| ensures m.columns[k] in j.data {
        assert m.columns[k] in m.data;
      }
    }
    FillAll(j, m.columns)
  }

  /**
   * `add_macro_data`: without a macro table the rows come back unchanged;
   * a label the two tables share makes the join fail; otherwise the macro
   * columns are joined on the day and each of them is filled forward, then
   * backward, one column after the other.
   */
  method AddMacroData(df: Frame, macro: Option<Frame>) returns (r: Result<Frame>)
    requires WellFormed(df)
    requires macro.Some? ==> WellFormed(macro.value) && Distinct(macro.value.index)
    ensures macro.None? ==> r == Success(df)
    ensures macro.Some? && FirstShared(df.columns, macro.value.data.Keys).Some? ==>
      r == Failure(OverlappingColumns(FirstShared(df.columns, macro.value.data.Keys).value))
    ensures macro.Some? && FirstShared(df.columns, macro.value.data.Keys).None? ==>
      (forall c :: c in macro.value.data ==> c !in df.data) &&
      r == Success(WithMacro(df, macro.value))
  {
    if macro.None? {
      return Success(df);
    }
    var m := macro.value;
    var shared := FirstShared(df.columns, m.data.Keys);
    if shared.Some? {
      return Failure(OverlappingColumns(shared.value));
    }
    NoSharedLabel(df, m);
    var joined := Join(df, m);
    var out := joined;
    for k := 0 to |m.columns|
      invariant out == FillAll(joined, m.columns[..k])
    {
      var c := m.columns[k];
      FillAllStep(joined, m.columns, k);
      out := WithColumn(out, c, Fill(out.data[c]));
    }
    assert m.columns[..|m.columns|] == m.columns;
    return Success(out);
  }

  /** What the macro step makes of the table: the same rows, the macro columns appended and filled, the rest untouched. */
  lemma MacroColumns(df: Frame, m: Frame)
    requires WellFormed(df) && WellFormed(m) && forall c :: c in m.data ==> c !in df.data
    ensures var r := WithMacro(df, m);
      && r.index == df.index && r.indexName == df.indexName && r.columns == df.columns + m.columns
      && (forall c :: c in df.data ==> r.data[c] == df.data[c])
      && (forall c :: c in m.data ==> r.data[c] == Fill(Join(df, m).data[c]))
  {
    var j := Join(df, m);
    assert forall k :: 0 <= k < |m.columns| ==> m.columns[k] in j.data by {
      forall k | 0 <= k < |m.columns| ensures m.columns[k] in j.data {
        assert m.columns[k] in m.data;
      }
    }
    FillAllData(j, m.columns);
  }

  /**
   * After the macro step a macro cell holds the joined value of the nearest
   * earlier day that has one, else that of the nearest later day, else stays
   * missing.
   */
  lemma MacroCellNearest(df: Frame, m: Frame, c: string, i: int)
    requires WellFormed(df) && WellFormed(m) && forall c :: c in m.data ==> c !in df.data
    requires c in m.data && 0 <= i < |df.index|
    ensures var joined := Join(df, m).data[c];
      WithMacro(df, m).data[c][i] ==
        match LastPresent(joined, i)
        case Some(k) => joined[k]
        case None => match NextPresent(joined, i)
                     case Some(k) => joined[k]
                     case None => None
  {
    MacroColumns(df, m);
    FillNearest(Join(df, m).data[c], i);
  }

  /** A macro column with a value on at least one day of the table has no gap after the macro step. */
  lemma MacroNoGap(df: Frame, m: Frame, c: string, i: int, k: int)
    requires WellFormed(df) && WellFormed(m) && forall c :: c in m.data ==> c !in df.data
    requires Distinct(m.index) && c in m.data && 0 <= i < |df.index| && 0 <= k < |m.index|
    requires m.index[k] == df.index[i] && m.data[c][k].Some?
    ensures Complete(WithMacro(df, m).data[c])
  {
    MacroColumns(df, m);
    JoinMatchesDays(df, m, c, i);
    FillLeavesNoGap(Join(df, m).data[c]);
  }

  // ---------------------------------------------------------------- saving

  /** The table handed to `to_csv`: the labels of the header, the date cells as written, and the other columns. */
  datatype Written = Written(header: seq<string>, dates: seq<string>, columns: seq<Column>)

  /**
   * `save_preprocessed_data`: `interest_rate` is dropped when present, the
   * index is turned back into the first column (which fails when a column
   * already carries the index's name) and that column is called `date`.
   */
  function Save(df: Frame): (r: Result<Written>)
    requires WellFormed(df)
    ensures r.Failure? <==> df.indexName in df.data && df.indexName != "interest_rate"
    ensures r.Failure? ==> r.error == IndexNameTaken(df.indexName)
    ensures r.Success? ==> && r.value.header == ["date"] + Without(df.columns, "interest_rate")
                           && "interest_rate" !in r.value.header
                           && |r.value.columns| == |r.value.header| - 1
                           && (forall k :: 0 <= k < |r.value.columns| ==> r.value.columns[k] == df.data[r.value.header[k + 1]])
                           && |r.value.dates| == |df.index|
                           && (forall i :: 0 <= i < |df.index| ==> r.value.dates[i] == FormatIso(df.index[i]))
  {
    var kept := DropColumn(df, "interest_rate");
    if kept.indexName in kept.data then Failure(IndexNameTaken(kept.indexName))
    else
      var labels := kept.columns;
      assert forall k :: 0 <= k < |labels| ==> labels[k] in kept.data;
      Success(Written(["date"] + labels,
                      seq(|df.index|, i requires 0 <= i < |df.index| => FormatIso(df.index[i])),
                      seq(|labels|, k requires 0 <= k < |labels| => kept.data[labels[k]])))
  }

  /**
   * The written header repeats no label exactly when the table has no other
   * column called `date`: an index with another name is renamed to `date`
   * next to such a column.
   */
  lemma SavedHeaderDistinct(df: Frame)
    requires WellFormed(df) && Save(df).Success?
    ensures Distinct(Save(df).value.header) <==> "date" !in df.data
  {
    var h := Save(df).value.header;
    var rest := Without(df.columns, "interest_rate");
    assert h == ["date"] + rest;
    if "date" in df.data {
      assert "date" in rest;
      var k :| 0 <= k < |rest| && rest[k] == "date";
      assert h[0] == h[k + 1];
    } else {
      assert "date" !in rest;
      forall i, j | 0 <= i < j < |h| ensures h[i] != h[j] {
        if i > 0 {
          assert h[i] == rest[i - 1] && h[j] == rest[j - 1];
        } else {
          assert h[j] in rest;
        }
      }
    }
  }

  /** The written date cells read back, through the ISO parser, as the days of the index (four-digit years). */
  lemma SavedDatesReadBack(df: Frame, i: int)
    requires WellFormed(df) && Save(df).Success? && 0 <= i < |df.index|
    requires 0 <= ToDate(df.index[i]).year <= 9999
    ensures ParseIso(Save(df).value.dates[i]) == Some(df.index[i])
  {
    ParseFormatted(df.index[i]);
  }
}
