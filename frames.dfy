/**
 * The pandas DataFrame as a value: an index of days (with the index's name),
 * the ordered column labels, and for each label the column's cells in row
 * order. The operations are the ones the pipeline applies: column assignment
 * and removal, `iloc` selection and slicing, `dropna()` and `concat`.
 */
module Frames {
  import opened Base
  import opened Series

  datatype Frame = Frame(indexName: string, index: seq<int>, columns: seq<string>, data: map<string, Column>)

  /** Labels are distinct, every label has a column, and every column has one cell per row. */
  predicate WellFormed(f: Frame) {
    && Distinct(f.columns)
    && f.data.Keys == set c | c in f.columns
    && (forall c :: c in f.data ==> |f.data[c]| == |f.index|)
  }

  /** Row i has no missing cell. */
  predicate RowComplete(f: Frame, i: int)
    requires WellFormed(f) && 0 <= i < |f.index|
  {
    forall c :: c in f.data ==> f.data[c][i].Some?
  }

  /** No cell of the table is missing. */
  predicate NoMissing(f: Frame)
    requires WellFormed(f)
  {
    forall i :: 0 <= i < |f.index| ==> RowComplete(f, i)
  }

  /** The cells of row i (`iloc[i]`), keyed by column label. */
  function RowAt(f: Frame, i: int): (row: map<string, Option<real>>)
    requires WellFormed(f) && 0 <= i < |f.index|
    ensures row.Keys == f.data.Keys
    ensures forall c :: c in row ==> row[c] == f.data[c][i]
  {
    map c | c in f.data :: f.data[c][i]
  }

  function Pick(s: Column, pos: seq<int>): (r: Column)
    requires forall k :: 0 <= k < |pos| ==> 0 <= pos[k] < |s|
    ensures |r| == |pos|
    ensures forall k :: 0 <= k < |pos| ==> r[k] == s[pos[k]]
  {
    seq(|pos|, k requires 0 <= k < |pos| => s[pos[k]])
  }

  /** The rows at the given positions, in that order (`iloc` with a list of positions). */
  function Select(f: Frame, pos: seq<int>): (r: Frame)
    requires WellFormed(f)
    requires forall k :: 0 <= k < |pos| ==> 0 <= pos[k] < |f.index|
    ensures WellFormed(r) && r.indexName == f.indexName && r.columns == f.columns && r.data.Keys == f.data.Keys
    ensures |r.index| == |pos|
    ensures forall k :: 0 <= k < |pos| ==> r.index[k] == f.index[pos[k]]
    ensures forall c, k :: c in r.data && 0 <= k < |pos| ==> r.data[c][k] == f.data[c][pos[k]]
  {
    Frame(f.indexName, seq(|pos|, k requires 0 <= k < |pos| => f.index[pos[k]]), f.columns,
          map c | c in f.data :: Pick(f.data[c], pos))
  }

  /** `iloc[lo:hi]`. */
  function Slice(f: Frame, lo: int, hi: int): (r: Frame)
    requires WellFormed(f) && 0 <= lo <= hi <= |f.index|
    ensures WellFormed(r) && r.indexName == f.indexName && r.columns == f.columns && r.data.Keys == f.data.Keys
    ensures r.index == f.index[lo..hi]
    ensures forall c :: c in r.data ==> r.data[c] == f.data[c][lo..hi]
  {
    Frame(f.indexName, f.index[lo..hi], f.columns, map c | c in f.data :: f.data[c][lo..hi])
  }

  /** `pd.concat([a, b])` of two tables with the same columns: the rows of a, then those of b. */
  function Append(a: Frame, b: Frame): (r: Frame)
    requires WellFormed(a) && WellFormed(b) && a.columns == b.columns
    ensures WellFormed(r) && r.columns == a.columns
    ensures r.index == a.index + b.index
    ensures forall c :: c in r.data ==> r.data[c] == a.data[c] + b.data[c]
  {
    Frame(a.indexName, a.index + b.index, a.columns, map c | c in a.data :: a.data[c] + b.data[c])
  }

  /** Cutting a table at any row and appending the two parts gives the table back. */
  lemma SliceAppend(f: Frame, k: int)
    requires WellFormed(f) && 0 <= k <= |f.index|
    ensures Append(Slice(f, 0, k), Slice(f, k, |f.index|)) == f
  {
    var r := Append(Slice(f, 0, k), Slice(f, k, |f.index|));
    assert r.index == f.index;
    forall c | c in f.data ensures r.data[c] == f.data[c] {
      assert f.data[c][0..k] + f.data[c][k..|f.index|] == f.data[c];
    }
    assert r.data == f.data;
  }

  /** Positions, below n, of the complete rows, in ascending order. */
  function CompleteRows(f: Frame, n: int): (r: seq<int>)
    requires WellFormed(f) && 0 <= n <= |f.index|
    ensures forall k :: 0 <= k < |r| ==> 0 <= r[k] < n && RowComplete(f, r[k])
    ensures forall k, l :: 0 <= k < l < |r| ==> r[k] < r[l]
    ensures forall i :: 0 <= i < n && RowComplete(f, i) ==> i in r
  {
    if n == 0 then [] else CompleteRows(f, n - 1) + (if RowComplete(f, n - 1) then [n - 1] else [])
  }

  /** `dropna()`: the rows without a missing cell, in their order. */
  function DropNa(f: Frame): (r: Frame)
    requires WellFormed(f)
    ensures WellFormed(r) && NoMissing(r)
    ensures r.indexName == f.indexName && r.columns == f.columns && r.data.Keys == f.data.Keys
    ensures |r.index| <= |f.index|
    ensures StrictlyIncreasing(f.index) ==> StrictlyIncreasing(r.index)
  {
    var pos := CompleteRows(f, |f.index|);
    RangeLength(pos, |f.index|);
    Select(f, pos)
  }

  /** An ascending sequence of positions below n has at most n elements. */
  lemma {:induction false} RangeLength(pos: seq<int>, n: int)
    requires 0 <= n && forall k :: 0 <= k < |pos| ==> 0 <= pos[k] < n
    requires forall k, l :: 0 <= k < l < |pos| ==> pos[k] < pos[l]
    ensures |pos| <= n
    decreases |pos|
  {
    if |pos| > 0 {
      var init, last := pos[..|pos| - 1], pos[|pos| - 1];
      assert forall k :: 0 <= k < |init| ==> 0 <= init[k] < last by {
        forall k | 0 <= k < |init| ensures 0 <= init[k] < last {
          assert init[k] == pos[k];
        }
      }
      RangeLength(init, last);
    }
  }

  /** When exactly the rows from position a on are complete, `dropna()` keeps exactly those. */
  lemma DropNaKeepsTail(f: Frame, a: int)
    requires WellFormed(f) && 0 <= a <= |f.index|
    requires forall i :: 0 <= i < |f.index| ==> (RowComplete(f, i) <==> i >= a)
    ensures DropNa(f) == Slice(f, a, |f.index|)
  {
    CompleteRowsTail(f, a, |f.index|);
    SelectRange(f, a, |f.index|);
  }

  /** Selecting consecutive positions is slicing. */
  lemma SelectRange(f: Frame, lo: int, hi: int)
    requires WellFormed(f) && 0 <= lo <= hi <= |f.index|
    ensures Select(f, Range(lo, hi)) == Slice(f, lo, hi)
  {
    var r := Select(f, Range(lo, hi));
    var s := Slice(f, lo, hi);
    assert r.index == s.index;
    forall c | c in f.data ensures r.data[c] == s.data[c] {
      assert r.data[c] == s.data[c];
    }
    assert r.data == s.data;
  }

  lemma {:induction false} CompleteRowsTail(f: Frame, a: int, n: int)
    requires WellFormed(f) && 0 <= a <= |f.index| && 0 <= n <= |f.index|
    requires forall i :: 0 <= i < |f.index| ==> (RowComplete(f, i) <==> i >= a)
    ensures CompleteRows(f, n) == if n <= a then [] else Range(a, n)
    decreases n
  {
    if n > 0 {
      CompleteRowsTail(f, a, n - 1);
      CompleteRowsTailStep(f, a, n);
    }
  }

  lemma CompleteRowsTailStep(f: Frame, a: int, n: int)
    requires WellFormed(f) && 0 <= a && 0 < n <= |f.index|
    requires RowComplete(f, n - 1) <==> n - 1 >= a
    requires CompleteRows(f, n - 1) == if n - 1 <= a then [] else Range(a, n - 1)
    ensures CompleteRows(f, n) == if n <= a then [] else Range(a, n)
  {
    if n > a {
      RangeSnoc(a, n);
    }
  }

  /** The cell of `col` on day d: the first row of `days` that is d, or missing when no row is. */
  function Lookup(days: seq<int>, col: Column, d: int): (r: Option<real>)
    requires |days| == |col|
    ensures d !in days ==> r == None
    ensures forall k :: 0 <= k < |days| && days[k] == d && d !in days[..k] ==> r == col[k]
  {
    if |days| == 0 then None
    else if days[0] == d then col[0]
    else
      assert forall k :: 1 <= k < |days| ==> days[1..][..k - 1] == days[..k][1..];
      Lookup(days[1..], col[1..], d)
  }

  /** `df[name] = col`: replaces the column in place, or appends it as the last column. */
  function WithColumn(f: Frame, name: string, col: Column): (r: Frame)
    requires WellFormed(f) && |col| == |f.index|
    ensures WellFormed(r) && r.indexName == f.indexName && r.index == f.index
    ensures r.data == f.data[name := col]
    ensures r.columns == if name in f.data then f.columns else f.columns + [name]
  {
    Frame(f.indexName, f.index, if name in f.data then f.columns else f.columns + [name], f.data[name := col])
  }

  /** The labels other than `name`, in their order. */
  function Without(cols: seq<string>, name: string): (r: seq<string>)
    ensures forall c :: c in r <==> c in cols && c != name
    ensures Distinct(cols) ==> Distinct(r)
  {
    if |cols| == 0 then []
    else
      var init := Without(cols[..|cols| - 1], name);
      assert Distinct(cols) ==> cols[|cols| - 1] !in cols[..|cols| - 1];
      init + (if cols[|cols| - 1] == name then [] else [cols[|cols| - 1]])
  }

  /** `drop(columns=[name])`. */
  function DropColumn(f: Frame, name: string): (r: Frame)
    requires WellFormed(f)
    ensures WellFormed(r) && r.indexName == f.indexName && r.index == f.index
    ensures r.columns == Without(f.columns, name) && r.data == f.data - {name}
  {
    Frame(f.indexName, f.index, Without(f.columns, name), f.data - {name})
  }

  /** The positions of `pos` whose rows are complete, in their order. */
  function KeepComplete(f: Frame, pos: seq<int>): (r: seq<int>)
    requires WellFormed(f) && forall k :: 0 <= k < |pos| ==> 0 <= pos[k] < |f.index|
    ensures forall k :: 0 <= k < |r| ==> 0 <= r[k] < |f.index| && RowComplete(f, r[k])
  {
    if |pos| == 0 then []
    else
      var last := pos[|pos| - 1];
      KeepComplete(f, pos[..|pos| - 1]) + (if RowComplete(f, last) then [last] else [])
  }

  /** The positions kept are those of `pos` whose rows are complete; none is repeated if `pos` repeats none. */
  lemma {:induction false} KeepCompleteMembers(f: Frame, pos: seq<int>)
    requires WellFormed(f) && forall k :: 0 <= k < |pos| ==> 0 <= pos[k] < |f.index|
    ensures forall x :: x in KeepComplete(f, pos) <==> x in pos && 0 <= x < |f.index| && RowComplete(f, x)
    ensures Distinct(pos) ==> Distinct(KeepComplete(f, pos))
    decreases |pos|
  {
    if |pos| > 0 {
      var init, last := pos[..|pos| - 1], pos[|pos| - 1];
      KeepCompleteMembers(f, init);
      assert pos == init + [last];
      assert Distinct(pos) ==> last !in init;
    }
  }

  /** `dropna()` after selecting rows is selecting the complete ones among them. */
  lemma DropNaSelect(f: Frame, pos: seq<int>)
    requires WellFormed(f) && forall k :: 0 <= k < |pos| ==> 0 <= pos[k] < |f.index|
    ensures DropNa(Select(f, pos)) == Select(f, KeepComplete(f, pos))
  {
    var g := Select(f, pos);
    var q := CompleteRows(g, |pos|);
    forall k | 0 <= k < |pos| ensures RowComplete(g, k) <==> RowComplete(f, pos[k]) {
      forall c | c in f.data ensures g.data[c][k] == f.data[c][pos[k]] {
      }
    }
    CompleteRowsSelect(f, g, pos, |pos|);
    assert pos[..|pos|] == pos;
    SelectCompose(f, pos, q, KeepComplete(f, pos));
  }

  /** Selecting q from a selection of p is selecting the composed positions. */
  lemma SelectCompose(f: Frame, p: seq<int>, q: seq<int>, pq: seq<int>)
    requires WellFormed(f) && forall k :: 0 <= k < |p| ==> 0 <= p[k] < |f.index|
    requires forall k :: 0 <= k < |q| ==> 0 <= q[k] < |p|
    requires |pq| == |q| && forall k :: 0 <= k < |q| ==> pq[k] == p[q[k]]
    ensures Select(Select(f, p), q) == Select(f, pq)
  {
    var r, s := Select(Select(f, p), q), Select(f, pq);
    assert r.index == s.index;
    forall c | c in f.data ensures r.data[c] == s.data[c] {
    }
    assert r.data == s.data;
  }

  lemma {:induction false} CompleteRowsSelect(f: Frame, g: Frame, pos: seq<int>, n: int)
    requires WellFormed(f) && forall k :: 0 <= k < |pos| ==> 0 <= pos[k] < |f.index|
    requires WellFormed(g) && |g.index| == |pos|
    requires forall k {:trigger RowComplete(g, k)} :: 0 <= k < |pos| ==> (RowComplete(g, k) <==> RowComplete(f, pos[k]))
    requires 0 <= n <= |pos|
    ensures var q := CompleteRows(g, n);
      |q| == |KeepComplete(f, pos[..n])| && forall k :: 0 <= k < |q| ==> pos[q[k]] == KeepComplete(f, pos[..n])[k]
    decreases n
  {
    if n > 0 {
      CompleteRowsSelect(f, g, pos, n - 1);
      CompleteRowsSelectStep(f, g, pos, n);
    }
  }

  lemma CompleteRowsSelectStep(f: Frame, g: Frame, pos: seq<int>, n: int)
    requires WellFormed(f) && forall k :: 0 <= k < |pos| ==> 0 <= pos[k] < |f.index|
    requires WellFormed(g) && |g.index| == |pos| && 0 < n <= |pos|
    requires forall k {:trigger RowComplete(g, k)} :: 0 <= k < |pos| ==> (RowComplete(g, k) <==> RowComplete(f, pos[k]))
    requires var q := CompleteRows(g, n - 1);
      |q| == |KeepComplete(f, pos[..n - 1])| && forall k :: 0 <= k < |q| ==> pos[q[k]] == KeepComplete(f, pos[..n - 1])[k]
    ensures var q := CompleteRows(g, n);
      |q| == |KeepComplete(f, pos[..n])| && forall k :: 0 <= k < |q| ==> pos[q[k]] == KeepComplete(f, pos[..n])[k]
  {
    var q0, k0 := CompleteRows(g, n - 1), KeepComplete(f, pos[..n - 1]);
    var q, kk := CompleteRows(g, n), KeepComplete(f, pos[..n]);
    KeepCompleteStep(f, pos, n);
    if RowComplete(g, n - 1) {
      assert q == q0 + [n - 1];
      assert kk == k0 + [pos[n - 1]];
    } else {
      assert q == q0;
      assert kk == k0;
    }
  }

  /** Keeping the complete rows among one more position appends that position when its row is complete. */
  lemma KeepCompleteStep(f: Frame, pos: seq<int>, n: int)
    requires WellFormed(f) && forall k :: 0 <= k < |pos| ==> 0 <= pos[k] < |f.index|
    requires 0 < n <= |pos|
    ensures KeepComplete(f, pos[..n]) == KeepComplete(f, pos[..n - 1]) + (if RowComplete(f, pos[n - 1]) then [pos[n - 1]] else [])
  {
    var p := pos[..n];
    assert p[..n - 1] == pos[..n - 1] && p[n - 1] == pos[n - 1];
  }
}
