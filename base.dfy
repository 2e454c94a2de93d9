/**
 * Values shared by every stage of the forecasting pipeline: optional cells
 * (a missing cell is pandas' NaN), results, and the exceptions the pipeline
 * can raise, named by their cause.
 */
module Base {

  /** A cell that may be missing; `None` stands for NaN / NaT. */
  datatype Option<+T> = None | Some(value: T)

  /** The exceptions raised by the pipeline, named by what provokes them. */
  datatype Error =
    | MissingColumn(name: string)       // KeyError when a column is looked up
    | NoColumns                          // `iloc[:, 0]` on a table without columns
    | UnparsableDate                     // `pd.to_datetime` rejects a cell
    | DuplicateDates                     // `asfreq` on an index with repeated dates
    | OverlappingColumns(name: string)   // `join` without suffixes on a shared column
    | IndexNameTaken(name: string)       // `reset_index` onto an existing column
    | EmptyTrain                         // IndexError on `train.index[-1]`
    | EmptyTest                          // IndexError on `test.index[0]`
    | NoValidPairs                       // a metric computed over zero samples

  datatype Result<+T> = Success(value: T) | Failure(error: Error)

  /** No element occurs twice. */
  predicate Distinct<T(==)>(s: seq<T>) {
    forall i, j :: 0 <= i < j < |s| ==> s[i] != s[j]
  }

  /** Strictly increasing integers (dates of a table ordered by day). */
  predicate StrictlyIncreasing(s: seq<int>) {
    forall i, j :: 0 <= i < j < |s| ==> s[i] < s[j]
  }

  /** The integers lo, lo + 1, ..., hi - 1. */
  function Range(lo: int, hi: int): (r: seq<int>)
    requires lo <= hi
    ensures |r| == hi - lo
    ensures forall k :: 0 <= k < |r| ==> r[k] == lo + k
  {
    seq(hi - lo, k requires 0 <= k < hi - lo => lo + k)
  }

  /** Concatenation is associative. */
  lemma ConcatAssoc<T>(a: seq<T>, b: seq<T>, c: seq<T>)
    ensures (a + b) + c == a + (b + c)
  {
  }

  /** A range one longer ends with one more number. */
  lemma RangeSnoc(lo: int, hi: int)
    requires lo < hi
    ensures Range(lo, hi) == Range(lo, hi - 1) + [hi - 1]
  {
  }
}
