/**
 * `get_earnings`: check the two dates, walk the EPS table, switch to the revenue tab, walk
 * the revenue table, and merge the two dictionaries. The browser is not modelled: each walk
 * is given the pages it would read, and the tab switch is the change from the EPS pages to
 * the revenue pages. The result is the dictionary (`pandas=False`); the DataFrame built
 * from it is output formatting.
 */
module Earnings {
  import opened Wrappers
  import opened Records
  import opened Extract
  import opened Merge

  /**
   * A `start` or `end` argument as the caller passes it: a date, a string (carrying what
   * `pd.to_datetime` makes of it, `None` when it raises), or any other value.
   */
  datatype DateArg = DateValue(date: Date) | Text(parsed: Option<Date>) | NotADate

  /** After string conversion the argument is a date. */
  predicate IsDate(a: DateArg)
  {
    a.DateValue? || (a.Text? && a.parsed.Some?)
  }

  function DateOf(a: DateArg): Date
    requires IsDate(a)
  {
    if a.DateValue? then a.date else a.parsed.value
  }

  /**
   * The date check: `start` and then `end` are converted when they are strings (a string
   * that cannot be read fails there), and then both must be dates or the type check raises.
   */
  function CheckDates(start: DateArg, end: DateArg): (r: Result<(Date, Date), Failure>)
    ensures r.Ok? <==> IsDate(start) && IsDate(end)
    ensures r.Ok? ==> r.value == (DateOf(start), DateOf(end))
    ensures r.Err? ==> (r.error == DateParseError <==> start == Text(None) || end == Text(None))
    ensures r.Err? ==> r.error == DateParseError || r.error == DateTypeError
  {
    if start == Text(None) || end == Text(None) then Err(DateParseError)
    else if start == NotADate || end == NotADate then Err(DateTypeError)
    else Ok((DateOf(start), DateOf(end)))
  }

  /**
   * What `get_earnings` may return: a date error before anything is read; otherwise the
   * error of the EPS walk, or else of the revenue walk; otherwise the merge of the two
   * dictionaries, or a `KeyError` on an EPS date the revenue walk did not store.
   */
  predicate Outcome(ticker: string, start: DateArg, end: DateArg, eps: seq<Page>, revenue: seq<Page>,
                    numeric: string -> bool, r: Result<Index, Failure>)
  {
    match CheckDates(start, end)
    case Err(f) => r == Err(f)
    case Ok(window) =>
      var a := Extracted(eps, window.0, window.1, EpsTable, numeric, Url(ticker));
      var b := Extracted(revenue, window.0, window.1, RevenueTable, numeric, Url(ticker));
      if a.Err? then r == Err(a.error)
      else if b.Err? then r == Err(b.error)
      else if a.value.Keys <= b.value.Keys then r == Ok(Merged(a.value, b.value))
      else r.Err? && r.error.MissingKey? && r.error.date in a.value && r.error.date !in b.value
  }

  /**
   * `get_earnings(ticker, start, end, pandas=False)` over the pages of the two tables;
   * `numeric` stands for the strings Python's `float` accepts.
   */
  method GetEarnings(ticker: string, start: DateArg, end: DateArg, eps: seq<Page>, revenue: seq<Page>,
                     numeric: string -> bool)
    returns (r: Result<Index, Failure>)
    ensures Outcome(ticker, start, end, eps, revenue, numeric, r)
  {
    var dates := CheckDates(start, end);
    if dates.Err? {
      return Err(dates.error);
    }
    var (s, e) := dates.value;
    var url := Url(ticker);
    var epsIndex := GetTable(eps, s, e, EpsTable, numeric, url);
    if epsIndex.Err? {
      return Err(epsIndex.error);
    }
    var revenueIndex := GetTable(revenue, s, e, RevenueTable, numeric, url);
    if revenueIndex.Err? {
      return Err(revenueIndex.error);
    }
    r := MergeDicts(epsIndex.value, revenueIndex.value);
  }

  /**
   * A successful result holds one record per EPS date, every date inside [start, end), and
   * every record carries all nine columns, its period ending taken from the revenue table.
   */
  lemma EarningsRecords(ticker: string, start: DateArg, end: DateArg, eps: seq<Page>, revenue: seq<Page>,
                        numeric: string -> bool, r: Result<Index, Failure>)
    requires Outcome(ticker, start, end, eps, revenue, numeric, r) && r.Ok?
    ensures IsDate(start) && IsDate(end)
    ensures var a := Extracted(eps, DateOf(start), DateOf(end), EpsTable, numeric, Url(ticker));
            var b := Extracted(revenue, DateOf(start), DateOf(end), RevenueTable, numeric, Url(ticker));
            && a.Ok? && b.Ok? && r.value.Keys == a.value.Keys
            && forall d :: d in r.value ==>
                 && DateOf(start) <= d < DateOf(end)
                 && r.value[d].Keys == AllColumns
                 && r.value[d][PeriodEnding] == b.value[d][PeriodEnding]
  {
    var s, e := DateOf(start), DateOf(end);
    var a := Extracted(eps, s, e, EpsTable, numeric, Url(ticker)).value;
    var b := Extracted(revenue, s, e, RevenueTable, numeric, Url(ticker)).value;
    MergedKeys(a, b);
    forall d | d in r.value
      ensures r.value[d].Keys == AllColumns && r.value[d][PeriodEnding] == b[d][PeriodEnding]
    {
      MergedRecord(a, b, d, PeriodEnding);
    }
  }
}
