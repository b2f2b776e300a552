/**
 * What the scraper reads and what it builds. A page is what one fetch of the rendered
 * announcements tab yields: either no table with the expected id, or the table's rows in
 * document order. A row is already parsed: its report date (column 0), its period-ending
 * date (column 1) and the four figure cells (columns 2 to 5) as display text.
 */
module Records {
  import opened Wrappers
  import Cleaning

  /** A calendar day as a day ordinal, so that date comparisons are exact. */
  type Date = int

  datatype Row = Row(
    date: Date,
    periodEnding: Date,
    estimated: string,
    reported: string,
    surprise: string,
    surprisePercent: string)

  datatype Page = NoTable | Table(rows: seq<Row>)

  /**
   * One value of a record: the period-ending date, a cleaned figure, or a cleaned figure
   * that the source divides by 100 (a percentage). A figure is the text handed to `float`,
   * or `None` for NaN; NaN divided by 100 stays NaN.
   */
  datatype Field = When(date: Date) | Amount(figure: Option<string>) | Percent(figure: Option<string>)

  /** A record is the per-row dictionary keyed by column name. */
  type Record = map<string, Field>

  /** The dictionary of records keyed by report date. */
  type Index = map<Date, Record>

  /** The id of a table and the names under which its figure columns are stored. */
  datatype TableSpec = TableSpec(
    id: string,
    estimated: string,
    reported: string,
    surprise: string,
    surprisePercent: string)

  const PeriodEnding: string := "Period Ending"

  const EpsTable: TableSpec := TableSpec(
    "earnings_announcements_earnings_table",
    "Estimated_EPS", "Reported_EPS", "Surprise_EPS", "Surprise_%_EPS")

  const RevenueTable: TableSpec := TableSpec(
    "earnings_announcements_sales_table",
    "Estimated_Revenue", "Reported_Revenue", "Surprise_Revenue", "Surprise_%_Revenue")

  /** The five column names of a table are pairwise different, as they are for both tables. */
  predicate Distinct(t: TableSpec)
  {
    && PeriodEnding != t.estimated && PeriodEnding != t.reported
    && PeriodEnding != t.surprise && PeriodEnding != t.surprisePercent
    && t.estimated != t.reported && t.estimated != t.surprise && t.estimated != t.surprisePercent
    && t.reported != t.surprise && t.reported != t.surprisePercent
    && t.surprise != t.surprisePercent
  }

  /** The column names a record built from table `t` carries. */
  function Columns(t: TableSpec): set<string>
  {
    {PeriodEnding, t.estimated, t.reported, t.surprise, t.surprisePercent}
  }

  /** Every record of the dictionary carries exactly the columns of table `t`. */
  predicate RecordsOf(m: Index, t: TableSpec)
  {
    forall d :: d in m ==> m[d].Keys == Columns(t)
  }

  /**
   * The errors the source raises. `DateParseError` is what `pd.to_datetime` raises on a
   * string it cannot read and `DateTypeError` the `ValueError` of the type check, both
   * subclasses of `ValueError`. `TableNotFound` is raised as `KeyError` by the EPS walk and
   * as a bare `Exception` by the revenue walk, with the same message. `MissingKey` is the
   * `KeyError` of the merge. `ValueFormat` is the `ValueError` that `float` raises on a
   * cleaned cell text it cannot read.
   */
  datatype Failure =
    | DateParseError
    | DateTypeError
    | TableNotFound(table: string, message: string)
    | MissingKey(date: Date)
    | ValueFormat(text: string)

  function Url(ticker: string): string
  {
    "https://www.zacks.com/stock/research/" + ticker + "/earnings-announcements"
  }

  function NotFoundMessage(url: string): string
  {
    "Encountered an error trying to access " + url
      + ". The ticker you specified may not be available on Zacks.com."
  }

  /** The columns of a merged record: the period ending and the eight figures of both tables. */
  const AllColumns: set<string> := Columns(EpsTable) + Columns(RevenueTable)

  /** Each table has five different columns, and a merged record nine. */
  lemma ColumnCounts()
    ensures Distinct(EpsTable) && Distinct(RevenueTable)
    ensures |Columns(EpsTable)| == 5 && |Columns(RevenueTable)| == 5
    ensures |AllColumns| == 9
  {
    assert AllColumns == {PeriodEnding, "Estimated_EPS", "Reported_EPS", "Surprise_EPS", "Surprise_%_EPS",
                          "Estimated_Revenue", "Reported_Revenue", "Surprise_Revenue", "Surprise_%_Revenue"};
  }

  /** The four figure cells of a row in the order the source cleans them (columns 2 to 5). */
  function Figures(row: Row): (r: seq<string>)
    ensures |r| == 4
  {
    [row.estimated, row.reported, row.surprise, row.surprisePercent]
  }

  /** A cell `float` accepts once `__clean_vals` has cleaned it: NaN, or text that `numeric` accepts. */
  predicate Parses(cell: string, numeric: string -> bool)
  {
    var v := Cleaning.CleanVals(cell);
    v.None? || numeric(v.value)
  }

  /**
   * The cleaned text of the first cell, in order, that `float` rejects, or `None` when all
   * cells are read. `numeric` stands for the set of strings Python's `float` accepts.
   */
  function FirstUnparsed(cells: seq<string>, numeric: string -> bool): (r: Option<string>)
    ensures r.None? <==> forall i :: 0 <= i < |cells| ==> Parses(cells[i], numeric)
    ensures r.Some? ==> !numeric(r.value)
    ensures r.Some? ==> exists i :: 0 <= i < |cells| && !Parses(cells[i], numeric)
                                   && Cleaning.CleanVals(cells[i]) == Some(r.value)
                                   && forall j :: 0 <= j < i ==> Parses(cells[j], numeric)
    decreases |cells|
  {
    if cells == [] then None
    else if !Parses(cells[0], numeric) then Cleaning.CleanVals(cells[0])
    else
      var r := FirstUnparsed(cells[1..], numeric);
      assert forall i :: 1 <= i < |cells| ==> cells[i] == cells[1..][i - 1];
      if r.Some? then
        var i :| 0 <= i < |cells[1..]| && !Parses(cells[1..][i], numeric)
                 && Cleaning.CleanVals(cells[1..][i]) == Some(r.value)
                 && forall j :: 0 <= j < i ==> Parses(cells[1..][j], numeric);
        assert forall j :: 0 <= j < i + 1 ==> Parses(cells[j], numeric) by {
          forall j | 0 <= j < i + 1 ensures Parses(cells[j], numeric) {
            if j > 0 { assert cells[j] == cells[1..][j - 1]; }
          }
        }
        assert cells[i + 1] == cells[1..][i];
        r
      else r
  }

  /** A figure as the walk stores it: not a date, and its text, if any, free of `$`, `%` and `,`. */
  predicate CleanFigure(f: Field)
  {
    !f.When? && (f.figure.Some? ==> forall i :: 0 <= i < |f.figure.value| ==> f.figure.value[i] !in Cleaning.Symbols)
  }

  /** A figure whose text, if any, `float` accepts. */
  predicate Readable(f: Field, numeric: string -> bool)
  {
    !f.When? && (f.figure.Some? ==> numeric(f.figure.value))
  }

  /**
   * The fresh dictionary the walk fills from one row inside the date window: the five
   * columns of the table; the period ending from column 1; each figure missing exactly when
   * its cell is the sentinel, and otherwise its own cell with `$`, `%` and `,` deleted; the
   * surprise percentage marked as divided by 100.
   */
  function MakeRecord(row: Row, t: TableSpec): (r: Record)
    ensures r.Keys == Columns(t)
    ensures Distinct(t) ==> r[PeriodEnding] == When(row.periodEnding)
    ensures Distinct(t) ==>
      (r[t.surprisePercent].Percent? && r[t.estimated].Amount? && r[t.reported].Amount? && r[t.surprise].Amount?)
    ensures Distinct(t) ==>
      (CleanFigure(r[t.estimated]) && CleanFigure(r[t.reported])
       && CleanFigure(r[t.surprise]) && CleanFigure(r[t.surprisePercent]))
    ensures Distinct(t) ==>
      && (r[t.estimated].figure.None? <==> row.estimated == Cleaning.Sentinel)
      && (r[t.reported].figure.None? <==> row.reported == Cleaning.Sentinel)
      && (r[t.surprise].figure.None? <==> row.surprise == Cleaning.Sentinel)
      && (r[t.surprisePercent].figure.None? <==> row.surprisePercent == Cleaning.Sentinel)
    ensures Distinct(t) ==>
      && (row.estimated != Cleaning.Sentinel
          ==> r[t.estimated].figure == Some(Cleaning.Without(row.estimated, Cleaning.Symbols)))
      && (row.reported != Cleaning.Sentinel
          ==> r[t.reported].figure == Some(Cleaning.Without(row.reported, Cleaning.Symbols)))
      && (row.surprise != Cleaning.Sentinel
          ==> r[t.surprise].figure == Some(Cleaning.Without(row.surprise, Cleaning.Symbols)))
      && (row.surprisePercent != Cleaning.Sentinel
          ==> r[t.surprisePercent].figure == Some(Cleaning.Without(row.surprisePercent, Cleaning.Symbols)))
  {
    map[PeriodEnding := When(row.periodEnding),
        t.estimated := Amount(Cleaning.CleanVals(row.estimated)),
        t.reported := Amount(Cleaning.CleanVals(row.reported)),
        t.surprise := Amount(Cleaning.CleanVals(row.surprise)),
        t.surprisePercent := Percent(Cleaning.CleanVals(row.surprisePercent))]
  }

  /** When no cell of a row is rejected by `float`, every figure of its record is readable. */
  lemma RecordReadable(row: Row, t: TableSpec, numeric: string -> bool)
    requires Distinct(t) && FirstUnparsed(Figures(row), numeric).None?
    ensures var r := MakeRecord(row, t);
      Readable(r[t.estimated], numeric) && Readable(r[t.reported], numeric)
      && Readable(r[t.surprise], numeric) && Readable(r[t.surprisePercent], numeric)
  {
    assert forall i :: 0 <= i < 4 ==> Parses(Figures(row)[i], numeric);
    assert Parses(Figures(row)[0], numeric) && Parses(Figures(row)[1], numeric);
    assert Parses(Figures(row)[2], numeric) && Parses(Figures(row)[3], numeric);
  }
}
