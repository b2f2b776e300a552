/**
 * The paginated table walk of `__get_eps` and `__get_revenue`, which differ only in the
 * table id and the column names and are modelled once, parametrised by a `TableSpec`.
 * Pages are read in order; on each page the rows are read in document order: a row dated
 * before `start` ends the walk (the rest of that page and all later pages are not read),
 * a row dated in [start, end) becomes a fresh record stored under its date, and a row dated
 * on or after `end` is skipped. A page without the table is an error, and so is a row in
 * the window with a figure cell that `float` cannot read.
 *
 * `numeric` stands for the strings Python's `float` accepts. The source's loop has no exit
 * other than a row before `start` or an error; the model stops when the pages run out (see
 * `WalkAsWritten` for the loop as written).
 */
module Extract {
  import opened Wrappers
  import opened Records

  /** A row in the window one of whose figure cells `float` rejects once cleaned. */
  predicate BadRow(row: Row, start: Date, end: Date, numeric: string -> bool)
  {
    start <= row.date < end && FirstUnparsed(Figures(row), numeric).Some?
  }

  /** Rows the walk reads and goes on from: none lies before `start`, and none is bad. */
  predicate Clean(rows: seq<Row>, start: Date, end: Date, numeric: string -> bool)
  {
    forall k :: 0 <= k < |rows| ==> start <= rows[k].date && !BadRow(rows[k], start, end, numeric)
  }

  /**
   * Where a page ends the walk: the index of its first row that is dated before `start` or
   * bad, or the number of rows when there is none.
   */
  function HaltAt(rows: seq<Row>, start: Date, end: Date, numeric: string -> bool): (h: nat)
    ensures h <= |rows|
    ensures Clean(rows[..h], start, end, numeric)
    ensures h < |rows| ==> rows[h].date < start || BadRow(rows[h], start, end, numeric)
    decreases |rows|
  {
    if rows == [] || rows[0].date < start || BadRow(rows[0], start, end, numeric) then 0
    else
      var h := HaltAt(rows[1..], start, end, numeric);
      var rest := rows[1..];
      assert forall k :: 1 <= k < h + 1 ==> rows[k] == rest[k - 1];
      h + 1
  }

  /** A row dated before `start` is reached on the page, no bad row coming before it. */
  predicate StopsOn(rows: seq<Row>, start: Date, end: Date, numeric: string -> bool)
  {
    var h := HaltAt(rows, start, end, numeric);
    h < |rows| && rows[h].date < start
  }

  /** A bad row is reached on the page, no row dated before `start` coming before it. */
  predicate FailsOn(rows: seq<Row>, start: Date, end: Date, numeric: string -> bool)
  {
    var h := HaltAt(rows, start, end, numeric);
    h < |rows| && BadRow(rows[h], start, end, numeric)
  }

  /**
   * The inner `for row in rows` loop: the dictionary after the page, whether `done` was set,
   * and the cleaned text `float` raised on, if it did. `done` is set exactly when a row before
   * `start` is reached, and `float` raises exactly when a bad row is reached; keys are only
   * added, and every added key lies in the window.
   */
  function ScanRows(rows: seq<Row>, start: Date, end: Date, t: TableSpec, numeric: string -> bool, acc: Index)
    : (r: (Index, bool, Option<string>))
    ensures r.1 ==> r.2.None?
    ensures r.2.Some? ==> !numeric(r.2.value)
    ensures acc.Keys <= r.0.Keys
    ensures forall d :: d in r.0 && d !in acc ==> start <= d < end
    ensures RecordsOf(acc, t) ==> RecordsOf(r.0, t)
    decreases |rows|
  {
    if rows == [] then (acc, false, None)
    else if rows[0].date < start then (acc, true, None)
      else if rows[0].date < end then
        match FirstUnparsed(Figures(rows[0]), numeric)
        case Some(text) => (acc, false, Some(text))
        case None => ScanRows(rows[1..], start, end, t, numeric, acc[rows[0].date := MakeRecord(rows[0], t)])
      else ScanRows(rows[1..], start, end, t, numeric, acc)
  }

  /**
   * `done` is set on a page exactly when a row before `start` is reached, and `float` raises
   * exactly when a bad row is reached; whichever comes first ends the page.
   */
  lemma {:induction false} ScanRowsHalts(rows: seq<Row>, start: Date, end: Date, t: TableSpec,
                                         numeric: string -> bool, acc: Index)
    ensures var r := ScanRows(rows, start, end, t, numeric, acc);
            && (r.1 <==> StopsOn(rows, start, end, numeric))
            && (r.2.Some? <==> FailsOn(rows, start, end, numeric))
    decreases |rows|
  {
    if rows != [] && start <= rows[0].date && !BadRow(rows[0], start, end, numeric) {
      var next := if rows[0].date < end then acc[rows[0].date := MakeRecord(rows[0], t)] else acc;
      ScanRowsHalts(rows[1..], start, end, t, numeric, next);
      var h := HaltAt(rows[1..], start, end, numeric);
      assert h < |rows[1..]| ==> rows[1..][h] == rows[h + 1];
      assert HaltAt(rows, start, end, numeric) == h + 1;
    }
  }

  /** The outer `while done == False` loop over the pages, from the dictionary `acc` on. */
  function WalkPages(pages: seq<Page>, start: Date, end: Date, t: TableSpec, numeric: string -> bool, url: string, acc: Index)
    : (r: Result<Index, Failure>)
    ensures r.Ok? ==> acc.Keys <= r.value.Keys
    ensures r.Ok? ==> forall d :: d in r.value && d !in acc ==> start <= d < end
    ensures r.Ok? && RecordsOf(acc, t) ==> RecordsOf(r.value, t)
    ensures r.Err? ==> r.error == TableNotFound(t.id, NotFoundMessage(url))
                       || (r.error.ValueFormat? && !numeric(r.error.text))
    decreases |pages|
  {
    if pages == [] then Ok(acc)
    else match pages[0]
      case NoTable => Err(TableNotFound(t.id, NotFoundMessage(url)))
      case Table(rows) =>
        var (next, stop, bad) := ScanRows(rows, start, end, t, numeric, acc);
        if bad.Some? then Err(ValueFormat(bad.value))
        else if stop then Ok(next)
        else WalkPages(pages[1..], start, end, t, numeric, url, next)
  }

  /**
   * What one walk returns: every stored report date lies in [start, end); a failure is the
   * table-not-found error or `float`'s error on text it cannot read.
   */
  function Extracted(pages: seq<Page>, start: Date, end: Date, t: TableSpec, numeric: string -> bool, url: string)
    : (r: Result<Index, Failure>)
    ensures r.Ok? ==> forall d :: d in r.value ==> start <= d < end
    ensures r.Ok? ==> RecordsOf(r.value, t)
    ensures r.Err? ==> r.error == TableNotFound(t.id, NotFoundMessage(url))
                       || (r.error.ValueFormat? && !numeric(r.error.text))
  {
    WalkPages(pages, start, end, t, numeric, url, map[])
  }

  /** `__get_eps` / `__get_revenue` on table `t`, reading the pages one after the other. */
  method GetTable(pages: seq<Page>, start: Date, end: Date, t: TableSpec, numeric: string -> bool, url: string)
    returns (r: Result<Index, Failure>)
    ensures r == Extracted(pages, start, end, t, numeric, url)
  {
    var returnList: Index := map[];
    var done := false;
    var p := 0;
    while !done && p < |pages|
      invariant 0 <= p <= |pages|
      invariant Extracted(pages, start, end, t, numeric, url)
             == if done then Ok(returnList) else WalkPages(pages[p..], start, end, t, numeric, url, returnList)
    {
      var page := pages[p];
      if page.NoTable? {
        return Err(TableNotFound(t.id, NotFoundMessage(url)));
      }
      var rows := page.rows;
      ghost var before := returnList;
      var i := 0;
      while i < |rows|
        invariant 0 <= i <= |rows|
        invariant !done
        invariant ScanRows(rows, start, end, t, numeric, before)
               == ScanRows(rows[i..], start, end, t, numeric, returnList)
      {
        var row := rows[i];
        if row.date < start {
          done := true;
          break;
        } else if row.date < end {
          var unread := FirstUnparsed(Figures(row), numeric);
          if unread.Some? {
            return Err(ValueFormat(unread.value));
          }
          returnList := returnList[row.date := MakeRecord(row, t)];
        }
        i := i + 1;
      }
      assert pages[p..][1..] == pages[p + 1..];
      p := p + 1;
    }
    r := Ok(returnList);
  }

  // ---------------------------------------------------------------------------------
  // Early termination: a row before `start` makes the rest of its page and every later
  // page irrelevant.

  lemma {:induction false} ScanRowsStops(rows: seq<Row>, rest: seq<Row>, start: Date, end: Date, t: TableSpec,
                                         numeric: string -> bool, acc: Index)
    requires |rows| > 0 && rows[|rows| - 1].date < start
    ensures ScanRows(rows + rest, start, end, t, numeric, acc) == ScanRows(rows, start, end, t, numeric, acc)
    decreases |rows|
  {
    assert (rows + rest)[0] == rows[0];
    if rows[0].date >= start && !BadRow(rows[0], start, end, numeric) {
      assert (rows + rest)[1..] == rows[1..] + rest;
      var next := if rows[0].date < end then acc[rows[0].date := MakeRecord(rows[0], t)] else acc;
      ScanRowsStops(rows[1..], rest, start, end, t, numeric, next);
    }
  }

  /** A page holding a row dated before `start` stops the walk or fails it. */
  lemma {:induction false} StopRowHalts(rows: seq<Row>, i: nat, start: Date, end: Date, numeric: string -> bool)
    requires i < |rows| && rows[i].date < start
    ensures HaltAt(rows, start, end, numeric) <= i
    ensures StopsOn(rows, start, end, numeric) || FailsOn(rows, start, end, numeric)
    decreases i
  {
    if start <= rows[0].date && !BadRow(rows[0], start, end, numeric) {
      assert rows[1..][i - 1] == rows[i];
      StopRowHalts(rows[1..], i - 1, start, end, numeric);
    }
  }

  lemma StopPageEndsWalk(rows: seq<Row>, rest: seq<Row>, later: seq<Page>,
                         start: Date, end: Date, t: TableSpec, numeric: string -> bool, url: string, acc: Index)
    requires |rows| > 0 && rows[|rows| - 1].date < start
    ensures WalkPages([Table(rows + rest)] + later, start, end, t, numeric, url, acc)
         == WalkPages([Table(rows)], start, end, t, numeric, url, acc)
  {
    ScanRowsStops(rows, rest, start, end, t, numeric, acc);
    StopRowHalts(rows, |rows| - 1, start, end, numeric);
    ScanRowsHalts(rows, start, end, t, numeric, acc);
    assert ([Table(rows + rest)] + later)[0] == Table(rows + rest);
  }

  /**
   * Once a row dated before `start` is read, nothing after it is: whatever follows it on its
   * page (`rest`) and whatever pages follow (`later`), the walk's result is the same.
   */
  lemma {:induction false} StopRowEndsWalk(
    before: seq<Page>, rows: seq<Row>, rest: seq<Row>, later: seq<Page>,
    start: Date, end: Date, t: TableSpec, numeric: string -> bool, url: string, acc: Index)
    requires |rows| > 0 && rows[|rows| - 1].date < start
    ensures WalkPages(before + [Table(rows + rest)] + later, start, end, t, numeric, url, acc)
         == WalkPages(before + [Table(rows)], start, end, t, numeric, url, acc)
    decreases |before|, 1
  {
    if before == [] {
      StopPageEndsWalk(rows, rest, later, start, end, t, numeric, url, acc);
    } else if GoesOn(before[0], start, end, t, numeric, acc) {
      StopRowEndsWalkLater(before, rows, rest, later, start, end, t, numeric, url, acc);
    } else {
      var long := before + [Table(rows + rest)] + later;
      var short := before + [Table(rows)];
      assert long[0] == before[0] == short[0];
      WalkPagesSameHead(long, short, start, end, t, numeric, url, acc);
    }
  }

  /** The case of `StopRowEndsWalk` where the walk goes on past the first page of `before`. */
  lemma {:induction false} StopRowEndsWalkLater(
    before: seq<Page>, rows: seq<Row>, rest: seq<Row>, later: seq<Page>,
    start: Date, end: Date, t: TableSpec, numeric: string -> bool, url: string, acc: Index)
    requires |rows| > 0 && rows[|rows| - 1].date < start
    requires before != [] && GoesOn(before[0], start, end, t, numeric, acc)
    ensures WalkPages(before + [Table(rows + rest)] + later, start, end, t, numeric, url, acc)
         == WalkPages(before + [Table(rows)], start, end, t, numeric, url, acc)
    decreases |before|, 0
  {
    var long := before + [Table(rows + rest)] + later;
    var short := before + [Table(rows)];
    var next := ScanRows(before[0].rows, start, end, t, numeric, acc).0;
    assert long[0] == before[0] == short[0];
    assert long[1..] == before[1..] + [Table(rows + rest)] + later;
    assert short[1..] == before[1..] + [Table(rows)];
    StopRowEndsWalk(before[1..], rows, rest, later, start, end, t, numeric, url, next);
    WalkPagesNext(long, start, end, t, numeric, url, acc);
    WalkPagesNext(short, start, end, t, numeric, url, acc);
  }

  /** A first page that neither stops nor fails the walk hands its records on to the rest. */
  lemma WalkPagesNext(pages: seq<Page>, start: Date, end: Date, t: TableSpec, numeric: string -> bool, url: string, acc: Index)
    requires pages != [] && GoesOn(pages[0], start, end, t, numeric, acc)
    ensures WalkPages(pages, start, end, t, numeric, url, acc)
         == WalkPages(pages[1..], start, end, t, numeric, url, ScanRows(pages[0].rows, start, end, t, numeric, acc).0)
  {
  }

  /** A first page that lacks the table, stops the walk or fails it decides the result alone. */
  lemma WalkPagesSameHead(pages: seq<Page>, others: seq<Page>, start: Date, end: Date, t: TableSpec,
                          numeric: string -> bool, url: string, acc: Index)
    requires pages != [] && others != [] && pages[0] == others[0]
    requires !GoesOn(pages[0], start, end, t, numeric, acc)
    ensures WalkPages(pages, start, end, t, numeric, url, acc) == WalkPages(others, start, end, t, numeric, url, acc)
  {
  }

  // ---------------------------------------------------------------------------------
  // Skip versus stop: a row dated on or after `end` (and not before `start`, which is
  // tested first) changes nothing and does not end the walk.

  lemma {:induction false} ScanRowsSkips(front: seq<Row>, row: Row, back: seq<Row>, start: Date, end: Date, t: TableSpec,
                                         numeric: string -> bool, acc: Index)
    requires start <= row.date && end <= row.date
    ensures ScanRows(front + [row] + back, start, end, t, numeric, acc)
         == ScanRows(front + back, start, end, t, numeric, acc)
    decreases |front|
  {
    var long := front + [row] + back;
    var short := front + back;
    if front == [] {
      assert long[0] == row && long[1..] == back && short == back;
    } else {
      assert long[0] == front[0] == short[0];
      assert long[1..] == front[1..] + [row] + back;
      assert short[1..] == front[1..] + back;
      if front[0].date >= start && !BadRow(front[0], start, end, numeric) {
        var next := if front[0].date < end then acc[front[0].date := MakeRecord(front[0], t)] else acc;
        ScanRowsSkips(front[1..], row, back, start, end, t, numeric, next);
      }
    }
  }

  /**
   * Removing a row dated in neither the window nor before it leaves the walk's result
   * unchanged: such a row is skipped, and the rows and pages after it are still read.
   */
  lemma {:induction false} LateRowSkipped(
    before: seq<Page>, front: seq<Row>, row: Row, back: seq<Row>, later: seq<Page>,
    start: Date, end: Date, t: TableSpec, numeric: string -> bool, url: string, acc: Index)
    requires start <= row.date && end <= row.date
    ensures WalkPages(before + [Table(front + [row] + back)] + later, start, end, t, numeric, url, acc)
         == WalkPages(before + [Table(front + back)] + later, start, end, t, numeric, url, acc)
    decreases |before|
  {
    var long := before + [Table(front + [row] + back)] + later;
    var short := before + [Table(front + back)] + later;
    if before == [] {
      ScanRowsSkips(front, row, back, start, end, t, numeric, acc);
      assert long[0] == Table(front + [row] + back) && short[0] == Table(front + back);
      assert long[1..] == later == short[1..];
    } else {
      assert long[0] == before[0] == short[0];
      assert long[1..] == before[1..] + [Table(front + [row] + back)] + later;
      assert short[1..] == before[1..] + [Table(front + back)] + later;
      if before[0].Table? {
        var next := ScanRows(before[0].rows, start, end, t, numeric, acc).0;
        LateRowSkipped(before[1..], front, row, back, later, start, end, t, numeric, url, next);
      }
    }
  }

  // ---------------------------------------------------------------------------------
  // The error path: the walk fails exactly when it reaches a page without the table or a
  // bad row before any row dated before `start`.

  /** Some page among `pages` stops the walk. */
  predicate StopsWithin(pages: seq<Page>, start: Date, end: Date, numeric: string -> bool)
  {
    exists k :: 0 <= k < |pages| && pages[k].Table? && StopsOn(pages[k].rows, start, end, numeric)
  }

  lemma StopsWithinFirst(pages: seq<Page>, i: nat, start: Date, end: Date, numeric: string -> bool)
    requires 1 <= i <= |pages|
    ensures StopsWithin(pages[..i], start, end, numeric)
        <==> (pages[0].Table? && StopsOn(pages[0].rows, start, end, numeric))
             || StopsWithin(pages[1..][..i - 1], start, end, numeric)
  {
    assert pages[..i][0] == pages[0];
    if StopsWithin(pages[1..][..i - 1], start, end, numeric) {
      var k :| 0 <= k < i - 1 && pages[1..][..i - 1][k].Table?
               && StopsOn(pages[1..][..i - 1][k].rows, start, end, numeric);
      assert pages[..i][k + 1] == pages[1..][..i - 1][k];
    }
    if StopsWithin(pages[..i], start, end, numeric) {
      var k :| 0 <= k < i && pages[..i][k].Table? && StopsOn(pages[..i][k].rows, start, end, numeric);
      if k > 0 {
        assert pages[..i][k] == pages[1..][..i - 1][k - 1];
      }
    }
  }

  /** The page lacks the table, or it holds a bad row before any row dated before `start`. */
  predicate FailingPage(page: Page, start: Date, end: Date, numeric: string -> bool)
  {
    page.NoTable? || FailsOn(page.rows, start, end, numeric)
  }

  /** Where the walk fails: some page is failing and no earlier page stopped the walk. */
  predicate FailsBeforeStop(pages: seq<Page>, start: Date, end: Date, numeric: string -> bool)
  {
    exists i :: 0 <= i < |pages| && FailingPage(pages[i], start, end, numeric)
                && !StopsWithin(pages[..i], start, end, numeric)
  }

  lemma FailsBeforeStopFirst(pages: seq<Page>, start: Date, end: Date, numeric: string -> bool)
    requires pages != [] && pages[0].Table?
    requires !StopsOn(pages[0].rows, start, end, numeric) && !FailsOn(pages[0].rows, start, end, numeric)
    ensures FailsBeforeStop(pages, start, end, numeric) <==> FailsBeforeStop(pages[1..], start, end, numeric)
  {
    if FailsBeforeStop(pages[1..], start, end, numeric) {
      var i :| 0 <= i < |pages[1..]| && FailingPage(pages[1..][i], start, end, numeric)
               && !StopsWithin(pages[1..][..i], start, end, numeric);
      StopsWithinFirst(pages, i + 1, start, end, numeric);
      assert FailingPage(pages[i + 1], start, end, numeric);
    }
    if FailsBeforeStop(pages, start, end, numeric) {
      var i :| 0 <= i < |pages| && FailingPage(pages[i], start, end, numeric)
               && !StopsWithin(pages[..i], start, end, numeric);
      StopsWithinFirst(pages, i, start, end, numeric);
      assert FailingPage(pages[1..][i - 1], start, end, numeric);
    }
  }

  lemma NoFailAfterStop(pages: seq<Page>, start: Date, end: Date, numeric: string -> bool)
    requires pages != [] && pages[0].Table? && StopsOn(pages[0].rows, start, end, numeric)
    ensures !FailsBeforeStop(pages, start, end, numeric)
  {
    forall i | 0 <= i < |pages| && FailingPage(pages[i], start, end, numeric)
      ensures StopsWithin(pages[..i], start, end, numeric)
    {
      StopsWithinFirst(pages, i, start, end, numeric);
    }
  }

  /**
   * The walk fails if and only if it reaches, before any row dated before `start`, a page
   * without the table or an in-window row whose figure `float` cannot read; records
   * gathered before that point are then not returned.
   */
  lemma {:induction false} WalkFails(pages: seq<Page>, start: Date, end: Date, t: TableSpec, numeric: string -> bool,
                                     url: string, acc: Index)
    ensures WalkPages(pages, start, end, t, numeric, url, acc).Err? <==> FailsBeforeStop(pages, start, end, numeric)
    decreases |pages|
  {
    if pages != [] {
      if pages[0].NoTable? {
        assert pages[..0] == [];
        assert !StopsWithin(pages[..0], start, end, numeric);
      } else {
        var (next, stop, bad) := ScanRows(pages[0].rows, start, end, t, numeric, acc);
        ScanRowsHalts(pages[0].rows, start, end, t, numeric, acc);
        if bad.Some? {
          assert pages[..0] == [];
          assert FailingPage(pages[0], start, end, numeric) && !StopsWithin(pages[..0], start, end, numeric);
        } else if stop {
          NoFailAfterStop(pages, start, end, numeric);
        } else {
          WalkFails(pages[1..], start, end, t, numeric, url, next);
          FailsBeforeStopFirst(pages, start, end, numeric);
        }
      }
    }
  }

  // ---------------------------------------------------------------------------------
  // Which rows become records: the walk equals storing every visited in-window row in
  // order, so each record is built from one row, and of several rows with the same
  // report date the last one read wins.

  /** The rows the walk reads, in order, up to (not including) the row that ends it. */
  function Visited(pages: seq<Page>, start: Date, end: Date, numeric: string -> bool): (r: seq<Row>)
    ensures Clean(r, start, end, numeric)
    decreases |pages|
  {
    if pages == [] then []
    else match pages[0]
      case NoTable => []
      case Table(rows) =>
        var h := HaltAt(rows, start, end, numeric);
        if h < |rows| then rows[..h]
        else
          var later := Visited(pages[1..], start, end, numeric);
          assert rows[..h] == rows;
          assert forall k :: |rows| <= k < |rows + later| ==> (rows + later)[k] == later[k - |rows|];
          rows + later
  }

  /** No later row of `rows` has the report date of row `k`. */
  predicate LastOfDate(rows: seq<Row>, k: int)
    requires 0 <= k < |rows|
  {
    forall j :: k < j < |rows| ==> rows[j].date != rows[k].date
  }

  /** The first row of clean rows is read and stored (or skipped), and the rest are clean. */
  lemma CleanTail(rows: seq<Row>, start: Date, end: Date, numeric: string -> bool)
    requires rows != [] && Clean(rows, start, end, numeric)
    ensures start <= rows[0].date && !BadRow(rows[0], start, end, numeric)
    ensures Clean(rows[1..], start, end, numeric)
  {
    assert forall k :: 0 <= k < |rows[1..]| ==> rows[1..][k] == rows[k + 1];
  }

  lemma {:induction false} ScanRowsConcat(front: seq<Row>, back: seq<Row>, start: Date, end: Date, t: TableSpec,
                                          numeric: string -> bool, acc: Index)
    requires Clean(front, start, end, numeric)
    ensures ScanRows(front + back, start, end, t, numeric, acc)
         == ScanRows(back, start, end, t, numeric, ScanRows(front, start, end, t, numeric, acc).0)
    decreases |front|
  {
    if front == [] {
      assert front + back == back;
    } else {
      CleanTail(front, start, end, numeric);
      assert (front + back)[0] == front[0];
      assert (front + back)[1..] == front[1..] + back;
      var next := if front[0].date < end then acc[front[0].date := MakeRecord(front[0], t)] else acc;
      ScanRowsConcat(front[1..], back, start, end, t, numeric, next);
    }
  }

  lemma {:induction false} ScanRowsUntilHalt(rows: seq<Row>, start: Date, end: Date, t: TableSpec,
                                             numeric: string -> bool, acc: Index)
    ensures ScanRows(rows, start, end, t, numeric, acc).0
         == ScanRows(rows[..HaltAt(rows, start, end, numeric)], start, end, t, numeric, acc).0
    decreases |rows|
  {
    if rows != [] && rows[0].date >= start && !BadRow(rows[0], start, end, numeric) {
      var next := if rows[0].date < end then acc[rows[0].date := MakeRecord(rows[0], t)] else acc;
      ScanRowsUntilHalt(rows[1..], start, end, t, numeric, next);
      var front := rows[..HaltAt(rows, start, end, numeric)];
      assert front[0] == rows[0] && front[1..] == rows[1..][..HaltAt(rows[1..], start, end, numeric)];
    }
  }

  /** The walk's dictionary is the visited rows stored one after the other. */
  lemma {:induction false} WalkStoresVisited(pages: seq<Page>, start: Date, end: Date, t: TableSpec,
                                             numeric: string -> bool, url: string, acc: Index)
    requires WalkPages(pages, start, end, t, numeric, url, acc).Ok?
    ensures WalkPages(pages, start, end, t, numeric, url, acc).value
         == ScanRows(Visited(pages, start, end, numeric), start, end, t, numeric, acc).0
    decreases |pages|
  {
    if pages != [] {
      var rows := pages[0].rows;
      var (next, stop, bad) := ScanRows(rows, start, end, t, numeric, acc);
      ScanRowsUntilHalt(rows, start, end, t, numeric, acc);
      ScanRowsHalts(rows, start, end, t, numeric, acc);
      if !stop {
        assert rows[..HaltAt(rows, start, end, numeric)] == rows;
        WalkStoresVisited(pages[1..], start, end, t, numeric, url, next);
        ScanRowsConcat(rows, Visited(pages[1..], start, end, numeric), start, end, t, numeric, acc);
      }
    }
  }

  /**
   * Reading clean rows, a date ends up stored exactly when it was already stored or some
   * row in the window carries it.
   */
  lemma {:induction false} ScanRowsKey(rows: seq<Row>, d: Date, start: Date, end: Date, t: TableSpec,
                                       numeric: string -> bool, acc: Index)
    requires Clean(rows, start, end, numeric)
    ensures d in ScanRows(rows, start, end, t, numeric, acc).0
        <==> d in acc || exists k :: 0 <= k < |rows| && rows[k].date == d && d < end
    decreases |rows|
  {
    if rows != [] {
      var tail := rows[1..];
      CleanTail(rows, start, end, numeric);
      var next := if rows[0].date < end then acc[rows[0].date := MakeRecord(rows[0], t)] else acc;
      ScanRowsKey(tail, d, start, end, t, numeric, next);
      assert forall k :: 0 <= k < |tail| ==> tail[k] == rows[k + 1];
    }
  }

  /**
   * Reading clean rows, the date of an in-window row that no later row shares holds the
   * fresh record of that row: a later row overwrites an earlier one.
   */
  lemma {:induction false} ScanRowsLastRecord(rows: seq<Row>, k: nat, start: Date, end: Date, t: TableSpec,
                                              numeric: string -> bool, acc: Index)
    requires Clean(rows, start, end, numeric)
    requires k < |rows| && rows[k].date < end && LastOfDate(rows, k)
    ensures rows[k].date in ScanRows(rows, start, end, t, numeric, acc).0
    ensures ScanRows(rows, start, end, t, numeric, acc).0[rows[k].date] == MakeRecord(rows[k], t)
    decreases |rows|
  {
    var tail := rows[1..];
    CleanTail(rows, start, end, numeric);
    var next := if rows[0].date < end then acc[rows[0].date := MakeRecord(rows[0], t)] else acc;
    assert ScanRows(rows, start, end, t, numeric, acc).0 == ScanRows(tail, start, end, t, numeric, next).0;
    if k > 0 {
      assert tail[k - 1] == rows[k];
      assert LastOfDate(tail, k - 1) by {
        forall j | k - 1 < j < |tail| ensures tail[j].date != tail[k - 1].date {
          assert tail[j] == rows[j + 1];
        }
      }
      ScanRowsLastRecord(tail, k - 1, start, end, t, numeric, next);
    } else {
      forall j | 0 <= j < |tail| && tail[j].date < end ensures tail[j].date != rows[0].date {
        assert tail[j] == rows[j + 1];
      }
      ScanRowsUntouched(tail, rows[0].date, start, end, t, numeric, next);
    }
  }

  /** Reading clean rows leaves alone an entry no in-window row is dated on. */
  lemma {:induction false} ScanRowsUntouched(rows: seq<Row>, d: Date, start: Date, end: Date, t: TableSpec,
                                             numeric: string -> bool, acc: Index)
    requires Clean(rows, start, end, numeric)
    requires d in acc && forall k :: 0 <= k < |rows| && rows[k].date < end ==> rows[k].date != d
    ensures d in ScanRows(rows, start, end, t, numeric, acc).0
    ensures ScanRows(rows, start, end, t, numeric, acc).0[d] == acc[d]
    decreases |rows|
  {
    if rows != [] {
      var tail := rows[1..];
      CleanTail(rows, start, end, numeric);
      var next := if rows[0].date < end then acc[rows[0].date := MakeRecord(rows[0], t)] else acc;
      assert forall k :: 0 <= k < |tail| ==> tail[k] == rows[k + 1];
      ScanRowsUntouched(tail, d, start, end, t, numeric, next);
    }
  }

  /**
   * Every record the walk returns comes from one visited row in the window, built fresh
   * from that row alone; of several rows with one report date, the last one read wins.
   */
  lemma ExtractedLastWins(pages: seq<Page>, start: Date, end: Date, t: TableSpec, numeric: string -> bool, url: string)
    requires Extracted(pages, start, end, t, numeric, url).Ok?
    ensures var m := Extracted(pages, start, end, t, numeric, url).value;
            var seen := Visited(pages, start, end, numeric);
            && (forall d :: d in m <==> exists k :: 0 <= k < |seen| && seen[k].date == d && d < end)
            && (forall k :: 0 <= k < |seen| && seen[k].date < end && LastOfDate(seen, k)
                  ==> m[seen[k].date] == MakeRecord(seen[k], t))
  {
    var seen := Visited(pages, start, end, numeric);
    WalkStoresVisited(pages, start, end, t, numeric, url, map[]);
    var m := Extracted(pages, start, end, t, numeric, url).value;
    forall d ensures d in m <==> exists k :: 0 <= k < |seen| && seen[k].date == d && d < end {
      ScanRowsKey(seen, d, start, end, t, numeric, map[]);
    }
    forall k | 0 <= k < |seen| && seen[k].date < end && LastOfDate(seen, k)
      ensures m[seen[k].date] == MakeRecord(seen[k], t)
    {
      ScanRowsLastRecord(seen, k, start, end, t, numeric, map[]);
    }
  }

  // ---------------------------------------------------------------------------------
  // The loop as written: it ends only through a row before `start` or an error. After the
  // last page the "next" control has no effect, so the browser keeps showing the last page.

  /** The page shown after `n` clicks on "next". */
  function Shown(pages: seq<Page>, n: nat): (p: Page)
    requires |pages| > 0
    ensures n < |pages| ==> p == pages[n]
    ensures |pages| <= n ==> p == pages[|pages| - 1]
  {
    pages[if n < |pages| then n else |pages| - 1]
  }

  /**
   * At most `fuel` passes of the source's `while done == False` loop, starting on the page
   * shown after `n` clicks; `None` when the loop is still running after them.
   */
  function WalkAsWritten(pages: seq<Page>, n: nat, fuel: nat, start: Date, end: Date, t: TableSpec,
                         numeric: string -> bool, url: string, acc: Index)
    : (r: Option<Result<Index, Failure>>)
    requires |pages| > 0
    ensures fuel == 0 ==> r.None?
    ensures r.Some? && r.value.Err? ==> r.value.error == TableNotFound(t.id, NotFoundMessage(url))
                                        || (r.value.error.ValueFormat? && !numeric(r.value.error.text))
    decreases fuel
  {
    if fuel == 0 then None
    else match Shown(pages, n)
      case NoTable => Some(Err(TableNotFound(t.id, NotFoundMessage(url))))
      case Table(rows) =>
        var (next, stop, bad) := ScanRows(rows, start, end, t, numeric, acc);
        if bad.Some? then Some(Err(ValueFormat(bad.value)))
        else if stop then Some(Ok(next))
        else WalkAsWritten(pages, n + 1, fuel - 1, start, end, t, numeric, url, next)
  }

  /**
   * Every page has the table and neither stops nor fails the walk: the window reaches past
   * the table's oldest row, and every figure in it is readable.
   */
  predicate NeverStops(pages: seq<Page>, start: Date, end: Date, numeric: string -> bool)
  {
    forall i :: 0 <= i < |pages| ==>
      pages[i].Table? && !StopsOn(pages[i].rows, start, end, numeric) && !FailsOn(pages[i].rows, start, end, numeric)
  }

  /** As written, such a walk never returns, however many passes it is given. */
  lemma {:induction false} AsWrittenNeverEnds(pages: seq<Page>, n: nat, fuel: nat, start: Date, end: Date, t: TableSpec,
                                              numeric: string -> bool, url: string, acc: Index)
    requires |pages| > 0 && NeverStops(pages, start, end, numeric)
    ensures WalkAsWritten(pages, n, fuel, start, end, t, numeric, url, acc) == None
    decreases fuel
  {
    if fuel > 0 {
      NeverStopsShown(pages, n, start, end, t, numeric, acc);
      AsWrittenNext(pages, n, fuel, start, end, t, numeric, url, acc);
      AsWrittenNeverEnds(pages, n + 1, fuel - 1, start, end, t, numeric, url,
                         ScanRows(Shown(pages, n).rows, start, end, t, numeric, acc).0);
    }
  }

  /** Under `NeverStops`, every page the browser can show leads to another pass. */
  lemma NeverStopsShown(pages: seq<Page>, n: nat, start: Date, end: Date, t: TableSpec,
                        numeric: string -> bool, acc: Index)
    requires |pages| > 0 && NeverStops(pages, start, end, numeric)
    ensures Shown(pages, n).Table?
    ensures !ScanRows(Shown(pages, n).rows, start, end, t, numeric, acc).1
    ensures ScanRows(Shown(pages, n).rows, start, end, t, numeric, acc).2.None?
  {
    var shown := if n < |pages| then n else |pages| - 1;
    assert Shown(pages, n) == pages[shown] && pages[shown].Table?;
    ScanRowsHalts(pages[shown].rows, start, end, t, numeric, acc);
  }

  /** A shown page that neither stops nor fails the walk as written leads to another pass. */
  lemma AsWrittenNext(pages: seq<Page>, n: nat, fuel: nat, start: Date, end: Date, t: TableSpec,
                      numeric: string -> bool, url: string, acc: Index)
    requires |pages| > 0 && 0 < fuel && Shown(pages, n).Table?
    requires !ScanRows(Shown(pages, n).rows, start, end, t, numeric, acc).1
    requires ScanRows(Shown(pages, n).rows, start, end, t, numeric, acc).2.None?
    ensures WalkAsWritten(pages, n, fuel, start, end, t, numeric, url, acc)
         == WalkAsWritten(pages, n + 1, fuel - 1, start, end, t, numeric, url,
                          ScanRows(Shown(pages, n).rows, start, end, t, numeric, acc).0)
  {
  }

  /** In the model, such a walk ends when the pages run out, and it succeeds. */
  lemma {:induction false} ExhaustedPagesEndWalk(pages: seq<Page>, start: Date, end: Date, t: TableSpec,
                                                 numeric: string -> bool, url: string, acc: Index)
    requires NeverStops(pages, start, end, numeric)
    ensures WalkPages(pages, start, end, t, numeric, url, acc).Ok?
    decreases |pages|
  {
    if pages != [] {
      assert pages[0].Table?;
      var next := ScanRows(pages[0].rows, start, end, t, numeric, acc).0;
      ScanRowsHalts(pages[0].rows, start, end, t, numeric, acc);
      assert NeverStops(pages[1..], start, end, numeric) by {
        forall i | 0 <= i < |pages[1..]|
          ensures pages[1..][i].Table? && !StopsOn(pages[1..][i].rows, start, end, numeric)
                  && !FailsOn(pages[1..][i].rows, start, end, numeric)
        {
          assert pages[1..][i] == pages[i + 1];
        }
      }
      ExhaustedPagesEndWalk(pages[1..], start, end, t, numeric, url, next);
    }
  }

  /** Some page lacks the table, stops the walk or fails it, so the walk as written ends. */
  predicate EndsWithin(pages: seq<Page>, start: Date, end: Date, numeric: string -> bool)
  {
    exists i :: 0 <= i < |pages| && EndsOn(pages[i], start, end, numeric)
  }

  /** Reading this page ends the walk: it lacks the table, it fails the walk or it stops it. */
  predicate EndsOn(page: Page, start: Date, end: Date, numeric: string -> bool)
  {
    FailingPage(page, start, end, numeric) || StopsOn(page.rows, start, end, numeric)
  }

  /** The page has the table, and reading it neither stops the walk nor fails it. */
  predicate GoesOn(page: Page, start: Date, end: Date, t: TableSpec, numeric: string -> bool, acc: Index)
  {
    page.Table? && !ScanRows(page.rows, start, end, t, numeric, acc).1
    && ScanRows(page.rows, start, end, t, numeric, acc).2.None?
  }

  /** On a page that ends the walk, the loop as written and the model return the same. */
  lemma AsWrittenHaltsAlike(pages: seq<Page>, n: nat, fuel: nat, start: Date, end: Date, t: TableSpec,
                            numeric: string -> bool, url: string, acc: Index)
    requires n < |pages| && 0 < fuel
    requires !GoesOn(pages[n], start, end, t, numeric, acc)
    ensures WalkAsWritten(pages, n, fuel, start, end, t, numeric, url, acc)
         == Some(WalkPages(pages[n..], start, end, t, numeric, url, acc))
  {
    assert pages[n..][0] == pages[n];
    assert Shown(pages, n) == pages[n];
    if pages[n].NoTable? {
      assert WalkAsWritten(pages, n, fuel, start, end, t, numeric, url, acc)
          == Some(Err(TableNotFound(t.id, NotFoundMessage(url))));
    } else {
      var scanned := ScanRows(pages[n].rows, start, end, t, numeric, acc);
      if scanned.2.Some? {
        assert WalkAsWritten(pages, n, fuel, start, end, t, numeric, url, acc)
            == Some(Err(ValueFormat(scanned.2.value)));
        assert WalkPages(pages[n..], start, end, t, numeric, url, acc) == Err(ValueFormat(scanned.2.value));
      } else {
        assert WalkAsWritten(pages, n, fuel, start, end, t, numeric, url, acc) == Some(Ok(scanned.0));
        assert WalkPages(pages[n..], start, end, t, numeric, url, acc) == Ok(scanned.0);
      }
    }
  }

  /** On a page that does not end the walk, both the loop as written and the model go on to the next page. */
  lemma AsWrittenStep(pages: seq<Page>, n: nat, fuel: nat, start: Date, end: Date, t: TableSpec,
                      numeric: string -> bool, url: string, acc: Index)
    requires n < |pages| && 0 < fuel && GoesOn(pages[n], start, end, t, numeric, acc)
    ensures var next := ScanRows(pages[n].rows, start, end, t, numeric, acc).0;
            && WalkAsWritten(pages, n, fuel, start, end, t, numeric, url, acc)
               == WalkAsWritten(pages, n + 1, fuel - 1, start, end, t, numeric, url, next)
            && WalkPages(pages[n..], start, end, t, numeric, url, acc)
               == WalkPages(pages[n + 1..], start, end, t, numeric, url, next)
  {
    assert pages[n..][0] == pages[n];
    assert Shown(pages, n) == pages[n];
    assert pages[n..][1..] == pages[n + 1..];
  }

  /** A page on which the walk goes on is not one on which it ends. */
  lemma GoesOnNotEndsOn(page: Page, start: Date, end: Date, t: TableSpec, numeric: string -> bool, acc: Index)
    requires GoesOn(page, start, end, t, numeric, acc)
    ensures !EndsOn(page, start, end, numeric)
  {
    ScanRowsHalts(page.rows, start, end, t, numeric, acc);
  }

  /** One more page that does not end the walk keeps the loop as written and the model in step. */
  lemma AsWrittenChain(pages: seq<Page>, n: nat, fuel: nat, start: Date, end: Date, t: TableSpec,
                       numeric: string -> bool, url: string, acc: Index)
    requires n < |pages| && 0 < fuel && GoesOn(pages[n], start, end, t, numeric, acc)
    requires var next := ScanRows(pages[n].rows, start, end, t, numeric, acc).0;
             WalkAsWritten(pages, n + 1, fuel - 1, start, end, t, numeric, url, next)
             == Some(WalkPages(pages[n + 1..], start, end, t, numeric, url, next))
    ensures WalkAsWritten(pages, n, fuel, start, end, t, numeric, url, acc)
         == Some(WalkPages(pages[n..], start, end, t, numeric, url, acc))
  {
    AsWrittenStep(pages, n, fuel, start, end, t, numeric, url, acc);
  }

  /** Whenever the walk as written ends within the pages, the model returns what it returns. */
  lemma AsWrittenAgrees(pages: seq<Page>, n: nat, fuel: nat, start: Date, end: Date, t: TableSpec,
                        numeric: string -> bool, url: string, acc: Index)
    requires n < |pages| && |pages| - n <= fuel
    requires EndsWithin(pages[n..], start, end, numeric)
    ensures WalkAsWritten(pages, n, fuel, start, end, t, numeric, url, acc)
         == Some(WalkPages(pages[n..], start, end, t, numeric, url, acc))
  {
    var i :| 0 <= i < |pages[n..]| && EndsOn(pages[n..][i], start, end, numeric);
    assert pages[n..][i] == pages[n + i];
    AsWrittenAgreesUpTo(pages, n, n + i, fuel, start, end, t, numeric, url, acc);
  }

  /** `AsWrittenAgrees`, with page `i` a page on which the walk ends. */
  lemma {:induction false} AsWrittenAgreesUpTo(pages: seq<Page>, n: nat, i: nat, fuel: nat, start: Date, end: Date,
                                               t: TableSpec, numeric: string -> bool, url: string, acc: Index)
    requires n <= i < |pages| && |pages| - n <= fuel && EndsOn(pages[i], start, end, numeric)
    ensures WalkAsWritten(pages, n, fuel, start, end, t, numeric, url, acc)
         == Some(WalkPages(pages[n..], start, end, t, numeric, url, acc))
    decreases fuel, 1
  {
    if GoesOn(pages[n], start, end, t, numeric, acc) {
      AsWrittenGoesOn(pages, n, i, fuel, start, end, t, numeric, url, acc);
    } else {
      AsWrittenHaltsAlike(pages, n, fuel, start, end, t, numeric, url, acc);
    }
  }

  /** The case of `AsWrittenAgreesUpTo` where page `n` neither ends nor fails the walk. */
  lemma {:induction false} AsWrittenGoesOn(pages: seq<Page>, n: nat, i: nat, fuel: nat, start: Date, end: Date,
                                           t: TableSpec, numeric: string -> bool, url: string, acc: Index)
    requires n <= i < |pages| && |pages| - n <= fuel && EndsOn(pages[i], start, end, numeric)
    requires GoesOn(pages[n], start, end, t, numeric, acc)
    ensures WalkAsWritten(pages, n, fuel, start, end, t, numeric, url, acc)
         == Some(WalkPages(pages[n..], start, end, t, numeric, url, acc))
    decreases fuel, 0
  {
    GoesOnNotEndsOn(pages[n], start, end, t, numeric, acc);
    var next := ScanRows(pages[n].rows, start, end, t, numeric, acc).0;
    AsWrittenAgreesUpTo(pages, n + 1, i, fuel - 1, start, end, t, numeric, url, next);
    AsWrittenChain(pages, n, fuel, start, end, t, numeric, url, acc);
  }
}
