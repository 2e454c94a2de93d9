/**
 * `predict(date)` of predict.py: the forecast of one day, looked up by exact
 * date in the table `best_model_forecast` wrote, with the HTTP outcome of
 * every failure.
 *
 * `pd.to_datetime` is a library parser, so the query's parser is a parameter
 * that gives either a day or the text of the exception it raises; the file
 * is given as what reading it produces.
 */
module Lookup {
  import opened Base
  import opened Series
  import opened Frames
  import opened Calendar
  import opened Daily
  import opened Evaluation
  import opened Forecast

  /** What `pd.to_datetime(date)` does with the query: a day, or an exception with its message. */
  datatype Parsed = Day(day: int) | Rejected(message: string)

  /** The forecast file on the server: absent, unreadable (with the exception's message), or its rows. */
  datatype ForecastFile = Missing | Unreadable(message: string) | Rows(rows: seq<ForecastRow>)

  /** The endpoint's answer: the found forecast, or an `HTTPException` with its status and detail. */
  datatype Response = Found(date: string, predicted: real) | HttpError(status: int, detail: string)

  const MissingFileDetail := "Forecast file not found on the server."
  const AbsentDateDetail := "Prediction for this date is not available."
  const BadRequestPrefix := "Invalid date format. Use YYYY-MM-DD. Error: "

  /** `str(e)` of an `HTTPException`: its status, a colon and its detail. */
  function ExceptionText(status: int, detail: string): string {
    StatusText(status) + ": " + detail
  }

  /** The decimal text of a status code. */
  function StatusText(status: int): string {
    if status < 0 then "-" + Digits(-status, 1) else Digits(status, 1)
  }

  /** The position of the first row dated `day` (`.loc[date == day].values[0]`), if any row is. */
  function FirstMatch(rows: seq<ForecastRow>, day: int): (r: Option<nat>)
    ensures r.Some? ==> r.value < |rows|
  {
    if |rows| == 0 then None
    else if rows[0].date == day then Some(0)
    else
      var rest := FirstMatch(rows[1..], day);
      if rest.None? then None else Some(rest.value + 1)
  }

  /** There is no match exactly when no row has the day; a match is a row with the day, and no earlier row has it. */
  lemma {:induction false} FirstMatchFinds(rows: seq<ForecastRow>, day: int)
    ensures FirstMatch(rows, day).None? <==> forall i :: 0 <= i < |rows| ==> rows[i].date != day
    ensures FirstMatch(rows, day).Some? ==>
      && FirstMatch(rows, day).value < |rows| && rows[FirstMatch(rows, day).value].date == day
      && forall i :: 0 <= i < FirstMatch(rows, day).value ==> rows[i].date != day
  {
    if |rows| > 0 && rows[0].date != day {
      FirstMatchFinds(rows[1..], day);
      assert forall i :: 1 <= i < |rows| ==> rows[i] == rows[1..][i - 1];
    }
  }

  /**
   * The body of the `try` block: the outcome before the `except` clause sees
   * it. A rejected query or an unreadable file raises its own exception,
   * kept here as a 400 whose detail is that exception's text.
   */
  function Attempt(parse: string -> Parsed, query: string, file: ForecastFile): (r: Response)
    ensures r.Found? ==> parse(query).Day? && file.Rows? && r.date == FormatIso(parse(query).day)
  {
    match parse(query)
    case Rejected(message) => HttpError(400, message)
    case Day(day) =>
      match file
      case Missing => HttpError(500, MissingFileDetail)
      case Unreadable(message) => HttpError(400, message)
      case Rows(rows) =>
        match FirstMatch(rows, day)
        case Some(i) => Found(FormatIso(day), rows[i].forecast)
        case None => HttpError(404, AbsentDateDetail)
  }

  /**
   * `predict(date)` as written: every exception raised in the `try` block,
   * the 404 and the 500 included, is caught by `except Exception` and
   * re-raised as a 400 whose detail is the fixed prefix and `str(e)`.
   */
  function Predict(parse: string -> Parsed, query: string, file: ForecastFile): (r: Response)
    ensures r.Found? ==> parse(query).Day? && file.Rows? && r.date == FormatIso(parse(query).day)
  {
    match Attempt(parse, query, file)
    case Found(date, value) => Found(date, value)
    case HttpError(status, detail) =>
      if status == 400 then HttpError(400, BadRequestPrefix + detail)
      else HttpError(400, BadRequestPrefix + ExceptionText(status, detail))
  }

  /**
   * `predict(date)` as evidently intended: only a query that does not parse
   * is a bad request; a missing file is a server error and an absent date is
   * not found.
   */
  function PredictIntended(parse: string -> Parsed, query: string, file: ForecastFile): (r: Response)
    ensures r.Found? ==> parse(query).Day? && file.Rows? && r.date == FormatIso(parse(query).day)
    ensures r.HttpError? && r.status == 400 ==> parse(query).Rejected? || file.Unreadable?
  {
    match Attempt(parse, query, file)
    case Found(date, value) => Found(date, value)
    case HttpError(status, detail) =>
      if status == 400 then HttpError(400, BadRequestPrefix + detail)
      else HttpError(status, detail)
  }

  /**
   * The intended endpoint answers each outcome with its own status: 400 only
   * for a query or file that cannot be read, 500 for a missing file, 404 for
   * a day no row has, and the forecast otherwise.
   */
  lemma IntendedStatuses(parse: string -> Parsed, query: string, file: ForecastFile)
    ensures var r := PredictIntended(parse, query, file);
      && (r.Found? <==> parse(query).Day? && file.Rows? && exists i :: 0 <= i < |file.rows| && file.rows[i].date == parse(query).day)
      && (r == HttpError(500, MissingFileDetail) <==> parse(query).Day? && file.Missing?)
      && (r == HttpError(404, AbsentDateDetail) <==>
            parse(query).Day? && file.Rows? && forall i :: 0 <= i < |file.rows| ==> file.rows[i].date != parse(query).day)
      && (r.HttpError? && r.status == 400 <==> parse(query).Rejected? || (parse(query).Day? && file.Unreadable?))
  {
    if parse(query).Day? && file.Rows? {
      FirstMatchFinds(file.rows, parse(query).day);
    }
  }

  /** When the date parses, the file is read and some row has that date, the first such row's forecast is returned, under the date written `YYYY-MM-DD`. */
  lemma PredictFound(parse: string -> Parsed, query: string, rows: seq<ForecastRow>, i: int)
    requires parse(query).Day? && 0 <= i < |rows| && rows[i].date == parse(query).day
    requires forall j :: 0 <= j < i ==> rows[j].date != parse(query).day
    ensures Predict(parse, query, Rows(rows)) == Found(FormatIso(parse(query).day), rows[i].forecast)
  {
    var m := FirstMatch(rows, parse(query).day);
    FirstMatchFinds(rows, parse(query).day);
    assert m.Some?;
    assert m.value == i;
  }

  /** A forecast is returned only for a day that some row has exactly: there is no nearest-date fallback. */
  lemma PredictExactOnly(parse: string -> Parsed, query: string, file: ForecastFile)
    ensures Predict(parse, query, file).Found? ==>
      && parse(query).Day? && file.Rows?
      && exists i :: 0 <= i < |file.rows| && file.rows[i].date == parse(query).day
                     && Predict(parse, query, file).predicted == file.rows[i].forecast
  {
    if Predict(parse, query, file).Found? {
      FirstMatchFinds(file.rows, parse(query).day);
      var i := FirstMatch(file.rows, parse(query).day).value;
      assert file.rows[i].date == parse(query).day;
    }
  }

  /** Every failure, whatever raised it, reaches the caller as a 400 with the "Invalid date format" prefix. */
  lemma PredictFailsAs400(parse: string -> Parsed, query: string, file: ForecastFile)
    ensures var r := Predict(parse, query, file);
      r.HttpError? ==> r.status == 400 && r.detail[..|BadRequestPrefix|] == BadRequestPrefix
  {
  }

  /** A query that parses to a day the file does not have gets a 400 where a 404 was meant. */
  lemma AbsentDateBecomes400(parse: string -> Parsed, query: string, rows: seq<ForecastRow>)
    requires parse(query).Day? && forall i :: 0 <= i < |rows| ==> rows[i].date != parse(query).day
    ensures Predict(parse, query, Rows(rows)) == HttpError(400, BadRequestPrefix + ExceptionText(404, AbsentDateDetail))
    ensures PredictIntended(parse, query, Rows(rows)) == HttpError(404, AbsentDateDetail)
  {
    FirstMatchFinds(rows, parse(query).day);
  }

  /** A query that parses, with no forecast file on the server, gets a 400 where a 500 was meant. */
  lemma MissingFileBecomes400(parse: string -> Parsed, query: string)
    requires parse(query).Day?
    ensures Predict(parse, query, Missing) == HttpError(400, BadRequestPrefix + ExceptionText(500, MissingFileDetail))
    ensures PredictIntended(parse, query, Missing) == HttpError(500, MissingFileDetail)
  {
  }

  /** A concrete case: the day 2030-01-01 asked of a file without rows. */
  lemma AbsentDateExample()
    ensures var parse := (q: string) => Day(21915);
      && Predict(parse, "2030-01-01", Rows([])).status == 400
      && PredictIntended(parse, "2030-01-01", Rows([])).status == 404
  {
    var parse := (q: string) => Day(21915);
    AbsentDateBecomes400(parse, "2030-01-01", []);
  }

  /**
   * The endpoint as written is the intended one with every non-400 error
   * folded into a 400 carrying the exception's text; where the intended
   * endpoint succeeds or rejects the query, both agree.
   */
  lemma PredictFoldsIntended(parse: string -> Parsed, query: string, file: ForecastFile)
    ensures var w, r := Predict(parse, query, file), PredictIntended(parse, query, file);
      && (r.Found? ==> w == r)
      && (r.HttpError? && r.status == 400 ==> w == r)
      && (r.HttpError? && r.status != 400 ==> w == HttpError(400, BadRequestPrefix + ExceptionText(r.status, r.detail)))
      && (w.Found? <==> r.Found?)
  {
  }

  /** With the `YYYY-MM-DD` parser, a found date is echoed exactly as it was asked. */
  lemma PredictEchoesIsoQuery(query: string, rows: seq<ForecastRow>)
    requires ParseIso(query).Some?
    ensures var parse := (q: string) => if ParseIso(q).Some? then Day(ParseIso(q).value) else Rejected("unparsable");
      Predict(parse, query, Rows(rows)).Found? ==> Predict(parse, query, Rows(rows)).date == query
  {
    FormatParsed(query);
  }

  /**
   * Asking for the k-th day after the last test day, of the file holding the
   * output table of a model, finds that model's k-th future value: the last
   * test close plus k + 1 predicted changes (the date it is returned under is
   * the query's day, by the contract of `Predict`).
   */
  lemma PredictFutureDay(train: Frame, test: Frame, model: Predictor, futureDays: nat,
                         parse: string -> Parsed, query: string, k: nat)
    requires Ready(train, test) && k < futureDays
    requires parse(query) == Day(Latest(test.index) + k + 1)
    ensures Predict(parse, query, Rows(OutputTable(train, test, model, futureDays))).Found?
    ensures Predict(parse, query, Rows(OutputTable(train, test, model, futureDays))).predicted
      == FutureRow(Latest(test.index), LastClose(test), model(LastInput(test)), k).forecast
  {
    FutureDayRow(train, test, model, futureDays, k);
    PredictIncreasing(parse, query, OutputTable(train, test, model, futureDays), |test.index| + k,
                      FutureRow(Latest(test.index), LastClose(test), model(LastInput(test)), k), Latest(test.index) + k + 1);
  }

  /** Row |test| + k of the output table is the k-th future row, in a table whose dates increase. */
  lemma FutureDayRow(train: Frame, test: Frame, model: Predictor, futureDays: nat, k: nat)
    requires Ready(train, test) && k < futureDays
    ensures StrictlyIncreasing(Dates(OutputTable(train, test, model, futureDays)))
    ensures OutputTable(train, test, model, futureDays)[|test.index| + k]
      == FutureRow(Latest(test.index), LastClose(test), model(LastInput(test)), k)
  {
    OutputTableDatesIncrease(train, test, model, futureDays);
    OutputTableFutureRows(train, test, model, futureDays);
  }

  /** In rows with strictly increasing dates, asking for the date of row p gives row p's forecast. */
  lemma PredictIncreasing(parse: string -> Parsed, query: string, rows: seq<ForecastRow>, p: int, row: ForecastRow, day: int)
    requires StrictlyIncreasing(Dates(rows)) && 0 <= p < |rows| && rows[p] == row
    requires row.date == day && parse(query) == Day(day)
    ensures Predict(parse, query, Rows(rows)) == Found(FormatIso(day), row.forecast)
  {
    forall j | 0 <= j < p ensures rows[j].date != rows[p].date {
      assert Dates(rows)[j] < Dates(rows)[p];
    }
    PredictFound(parse, query, rows, p);
  }
}
