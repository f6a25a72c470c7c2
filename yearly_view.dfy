/**
 * The yearly roll-up of static/script.js (`generateYearlyView`) and the
 * year-end highlight of the monthly table (`displaySchedule`). Both work on
 * the `emi_schedule` rows the server returns.
 */
module YearlyView {
  import opened Schedule

  /** `Math.ceil(month / 12)`: the loan year a month falls in. */
  function YearOf(month: int): (y: int)
    ensures 12 * (y - 1) < month <= 12 * y
  {
    (month + 11) / 12
  }

  /**
   * The highlight test of the monthly table: the row at 0-based `index` is
   * marked as a year end exactly when the month after it starts a new year.
   */
  function IsYearEnd(index: nat): (b: bool)
    ensures b <==> YearOf(index + 1) < YearOf(index + 2)
  {
    (index + 1) % 12 == 0
  }

  /** One entry of `yearlyData`. */
  datatype YearSummary = YearSummary(
    year: int,
    totalEmi: real,
    totalPrincipal: real,
    totalInterest: real,
    startingBalance: real,
    endingBalance: real,
    months: seq<Row>)

  /** Sum of the installments of the rows. */
  function SumEmi(rows: seq<Row>): real
  {
    if rows == [] then 0.0 else SumEmi(rows[..|rows| - 1]) + rows[|rows| - 1].emi
  }

  /** The rows that fall in the given year, in schedule order. */
  function RowsOfYear(rows: seq<Row>, year: int): seq<Row>
  {
    if rows == [] then []
    else
      var init := RowsOfYear(rows[..|rows| - 1], year);
      if YearOf(rows[|rows| - 1].month) == year then init + [rows[|rows| - 1]] else init
  }

  /** The years some row falls in. */
  ghost function YearsOf(rows: seq<Row>): set<int>
  {
    set i | 0 <= i < |rows| :: YearOf(rows[i].month)
  }

  /**
   * What the roll-up shows for a year with the given rows: the sums of their
   * installments, principal and interest components, the balance before the
   * first of them, the balance after the last, and the rows themselves.
   */
  function Summary(year: int, group: seq<Row>): YearSummary
    requires group != []
  {
    YearSummary(year, SumEmi(group), SumPrincipal(group), SumInterest(group),
                group[0].remainingBalance + group[0].principal,
                group[|group| - 1].remainingBalance, group)
  }

  /** Every row is numbered by its position, as the server numbers them. */
  ghost predicate Numbered(rows: seq<Row>)
  {
    forall i :: 0 <= i < |rows| ==> rows[i].month == i + 1
  }

  /** A year has rows exactly when some row falls in it. */
  lemma {:induction false} RowsOfYearNonEmpty(rows: seq<Row>, year: int)
    ensures RowsOfYear(rows, year) != [] <==> year in YearsOf(rows)
  {
    if rows != [] {
      var init := rows[..|rows| - 1];
      RowsOfYearNonEmpty(init, year);
      YearsOfSnoc(rows);
    }
  }

  /** The years of a schedule are those of all rows but the last, and the last row's. */
  lemma YearsOfSnoc(rows: seq<Row>)
    requires rows != []
    ensures YearsOf(rows) == YearsOf(rows[..|rows| - 1]) + {YearOf(rows[|rows| - 1].month)}
  {
    var init := rows[..|rows| - 1];
    forall y | y in YearsOf(rows)
      ensures y in YearsOf(init) + {YearOf(rows[|rows| - 1].month)}
    {
      var i :| 0 <= i < |rows| && YearOf(rows[i].month) == y;
      if i < |rows| - 1 {
        assert YearOf(init[i].month) == y;
      }
    }
    forall y | y in YearsOf(init)
      ensures y in YearsOf(rows)
    {
      var i :| 0 <= i < |init| && YearOf(init[i].month) == y;
      assert YearOf(rows[i].month) == y;
    }
    assert YearOf(rows[|rows| - 1].month) in YearsOf(rows);
  }

  /** Adding a row to a year's rows updates the summary the way the loop does. */
  lemma SummarySnoc(year: int, group: seq<Row>, row: Row)
    requires group != []
    ensures var s := Summary(year, group);
      Summary(year, group + [row]) ==
        s.(totalEmi := s.totalEmi + row.emi,
           totalPrincipal := s.totalPrincipal + row.principal,
           totalInterest := s.totalInterest + row.interest,
           endingBalance := row.remainingBalance,
           months := s.months + [row])
  {
    assert (group + [row])[..|group|] == group;
  }

  /** The entry `generateYearlyView` creates the first time it meets a year. */
  function EmptySummary(year: int): YearSummary
  {
    YearSummary(year, 0.0, 0.0, 0.0, 0.0, 0.0, [])
  }

  /**
   * The in-place update of a year's entry by one more row: the sums grow, the
   * ending balance follows the row, and the first row fixes the starting
   * balance.
   */
  function AddRow(entry: YearSummary, row: Row): YearSummary
  {
    var e := entry.(totalEmi := entry.totalEmi + row.emi,
                    totalPrincipal := entry.totalPrincipal + row.principal,
                    totalInterest := entry.totalInterest + row.interest,
                    endingBalance := row.remainingBalance,
                    months := entry.months + [row]);
    if |e.months| == 1 then e.(startingBalance := row.remainingBalance + row.principal) else e
  }

  /** Adding a row to a fresh entry, or to a year's summary, gives the summary with that row. */
  lemma AddRowSummary(year: int, group: seq<Row>, row: Row)
    ensures group == [] ==> AddRow(EmptySummary(year), row) == Summary(year, [row])
    ensures group != [] ==> AddRow(Summary(year, group), row) == Summary(year, group + [row])
  {
    if group != [] {
      SummarySnoc(year, group, row);
    } else {
      assert [row][..0] == [];
      assert SumEmi([row]) == row.emi;
      assert SumPrincipal([row]) == row.principal;
      assert SumInterest([row]) == row.interest;
    }
  }

  /** The rows of a year after one more row of the schedule. */
  lemma RowsOfYearSnoc(rows: seq<Row>, row: Row, year: int)
    ensures RowsOfYear(rows + [row], year) ==
      if YearOf(row.month) == year then RowsOfYear(rows, year) + [row] else RowsOfYear(rows, year)
  {
    assert (rows + [row])[..|rows|] == rows;
  }

  /** `yearly` holds one entry per year of `rows`: that year's summary. */
  ghost predicate Grouped(rows: seq<Row>, yearly: map<int, YearSummary>)
  {
    && yearly.Keys == YearsOf(rows)
    && forall y :: y in yearly ==>
         RowsOfYear(rows, y) != [] && yearly[y] == Summary(y, RowsOfYear(rows, y))
  }

  /** One step of the grouping loop keeps Grouped. */
  lemma GroupedSnoc(rows: seq<Row>, row: Row, previous: map<int, YearSummary>,
                    current: map<int, YearSummary>)
    requires Grouped(rows, previous)
    requires var year := YearOf(row.month);
      current == if year in previous then previous else previous[year := EmptySummary(year)]
    ensures var year := YearOf(row.month);
      Grouped(rows + [row], current[year := AddRow(current[year], row)])
  {
    var year := YearOf(row.month);
    var rows' := rows + [row];
    var updated := current[year := AddRow(current[year], row)];
    assert rows'[..|rows|] == rows;
    YearsOfSnoc(rows');
    assert updated.Keys == YearsOf(rows');
    forall y | y in updated
      ensures RowsOfYear(rows', y) != [] && updated[y] == Summary(y, RowsOfYear(rows', y))
    {
      RowsOfYearSnoc(rows, row, y);
      if y == year {
        RowsOfYearNonEmpty(rows, year);
        AddRowSummary(year, RowsOfYear(rows, year), row);
      }
    }
  }

  /** GroupedSnoc for the prefixes of a schedule. */
  lemma GroupedStep(schedule: seq<Row>, i: int, previous: map<int, YearSummary>,
                    current: map<int, YearSummary>)
    requires 0 <= i < |schedule|
    requires Grouped(schedule[..i], previous)
    requires var year := YearOf(schedule[i].month);
      current == if year in previous then previous else previous[year := EmptySummary(year)]
    ensures var year := YearOf(schedule[i].month);
      Grouped(schedule[..i + 1], current[year := AddRow(current[year], schedule[i])])
  {
    assert schedule[..i + 1] == schedule[..i] + [schedule[i]];
    GroupedSnoc(schedule[..i], schedule[i], previous, current);
  }

  /**
   * `generateYearlyView`'s grouping loop: one entry per year that has rows,
   * created on its first row and updated in place by every row of the year.
   */
  method GroupByYear(schedule: seq<Row>) returns (yearly: map<int, YearSummary>)
    ensures Grouped(schedule, yearly)
  {
    yearly := map[];
    var i := 0;
    while i < |schedule|
      invariant 0 <= i <= |schedule|
      invariant Grouped(schedule[..i], yearly)
    {
      var row := schedule[i];
      var year := YearOf(row.month);
      ghost var previous := yearly;
      if year !in yearly {
        yearly := yearly[year := EmptySummary(year)];
      }
      GroupedStep(schedule, i, previous, yearly);
      yearly := yearly[year := AddRow(yearly[year], row)];
      i := i + 1;
    }
    assert schedule[..i] == schedule;
  }

  /** A slice that runs to the end is the slice of all but the last row, then the last row. */
  lemma SliceOfSnoc(rows: seq<Row>, lo: int)
    requires 0 <= lo < |rows|
    ensures rows[lo..|rows|] == rows[..|rows| - 1][lo..|rows| - 1] + [rows[|rows| - 1]]
  {
  }

  /** A slice that stops before the last row is the same slice of all but the last row. */
  lemma SliceOfPrefix(rows: seq<Row>, lo: int, hi: int)
    requires 0 <= lo <= hi < |rows|
    ensures rows[lo..hi] == rows[..|rows| - 1][lo..hi]
  {
  }

  /** A last month before the year leaves the year without rows. */
  lemma YearRowsBefore(rows: seq<Row>, year: int)
    requires rows != [] && rows[|rows| - 1].month == |rows| <= 12 * (year - 1)
    requires RowsOfYear(rows[..|rows| - 1], year) == []
    ensures RowsOfYear(rows, year) == []
  {
    assert YearOf(|rows|) != year;
  }

  /** A last month inside the year ends the year's rows. */
  lemma YearRowsWithin(rows: seq<Row>, year: int, lo: int)
    requires lo == 12 * (year - 1) && rows != []
    requires rows[|rows| - 1].month == |rows| && lo < |rows| <= 12 * year
    requires RowsOfYear(rows[..|rows| - 1], year) == rows[..|rows| - 1][lo..|rows| - 1]
    ensures RowsOfYear(rows, year) == rows[lo..|rows|]
  {
    assert YearOf(|rows|) == year;
    SliceOfSnoc(rows, lo);
  }

  /** A last month after the year leaves the year's rows alone. */
  lemma YearRowsAfter(rows: seq<Row>, year: int, lo: int, hi: int)
    requires 0 <= lo <= hi == 12 * year && rows != []
    requires rows[|rows| - 1].month == |rows| && hi < |rows|
    requires RowsOfYear(rows[..|rows| - 1], year) == rows[..|rows| - 1][lo..hi]
    ensures RowsOfYear(rows, year) == rows[lo..hi]
  {
    assert YearOf(|rows|) != year;
    SliceOfPrefix(rows, lo, hi);
  }

  /** In a numbered schedule, year y holds months 12(y-1)+1 through 12y, as many as exist. */
  lemma {:induction false} NumberedYearRows(rows: seq<Row>, year: int)
    requires Numbered(rows) && year >= 1
    ensures var n := |rows|;
      var lo := if 12 * (year - 1) < n then 12 * (year - 1) else n;
      var hi := if 12 * year < n then 12 * year else n;
      RowsOfYear(rows, year) == rows[lo..hi]
  {
    if rows != [] {
      var n := |rows|;
      var init := rows[..n - 1];
      assert Numbered(init) by {
        forall i | 0 <= i < |init| ensures init[i].month == i + 1 {
          assert init[i] == rows[i];
        }
      }
      NumberedYearRows(init, year);
      assert rows[n - 1].month == n;
      if n <= 12 * (year - 1) {
        YearRowsBefore(rows, year);
      } else if n <= 12 * year {
        YearRowsWithin(rows, year, 12 * (year - 1));
      } else {
        YearRowsAfter(rows, year, 12 * (year - 1), 12 * year);
      }
    }
  }

  /**
   * The highlighted rows of a numbered schedule are exactly the last rows of
   * its complete years in the roll-up.
   */
  lemma YearEndClosesYear(rows: seq<Row>, i: nat)
    requires Numbered(rows) && i < |rows|
    ensures var group := RowsOfYear(rows, YearOf(rows[i].month));
      IsYearEnd(i) <==> |group| == 12 && group[11] == rows[i]
  {
    var y := YearOf(rows[i].month);
    assert rows[i].month == i + 1;
    assert y >= 1;
    NumberedYearRows(rows, y);
    var group := RowsOfYear(rows, y);
    if |group| == 12 && group[11] == rows[i] {
      assert group[11] == rows[12 * (y - 1) + 11];
      assert rows[12 * (y - 1) + 11].month == 12 * y;
    }
  }

  /**
   * For a schedule the server produced, the roll-up's balances chain: year 1
   * starts at the loan, and every later year starts at the balance the
   * previous year ended with.
   */
  lemma BalancesCarryOver(loan: real, rate: real, emi: real, rows: seq<Row>, year: int)
    requires Amortizes(loan, rate, emi, rows)
    requires year >= 1 && 12 * (year - 1) < |rows|
    ensures RowsOfYear(rows, year) != []
    ensures year == 1 ==>
      RowsOfYear(rows, 1) != [] && Summary(1, RowsOfYear(rows, 1)).startingBalance == loan
    ensures year > 1 ==>
      && RowsOfYear(rows, year) != [] && RowsOfYear(rows, year - 1) != []
      && Summary(year, RowsOfYear(rows, year)).startingBalance ==
         Summary(year - 1, RowsOfYear(rows, year - 1)).endingBalance
  {
    AmortizedNumbered(loan, rate, emi, rows);
    var first := 12 * (year - 1);
    YearFirstRow(rows, year);
    BalanceBeforeRow(loan, rate, emi, rows, first);
    if year > 1 {
      YearLastRow(rows, year - 1);
      assert rows[..first][first - 1] == rows[first - 1];
    }
  }

  /** The server numbers its rows by position. */
  lemma AmortizedNumbered(loan: real, rate: real, emi: real, rows: seq<Row>)
    requires Amortizes(loan, rate, emi, rows)
    ensures Numbered(rows)
  {
    forall i | 0 <= i < |rows| ensures rows[i].month == i + 1 {
      assert RowFacts(loan, rate, emi, rows, i);
    }
  }

  /** A server row's balance plus its principal part is the balance before it. */
  lemma BalanceBeforeRow(loan: real, rate: real, emi: real, rows: seq<Row>, i: int)
    requires Amortizes(loan, rate, emi, rows) && 0 <= i < |rows|
    ensures rows[i].remainingBalance + rows[i].principal == BalanceAfter(loan, rows[..i])
  {
    assert RowFacts(loan, rate, emi, rows, i);
  }

  /** In a numbered schedule, a year that has begun starts with its first month. */
  lemma YearFirstRow(rows: seq<Row>, year: int)
    requires Numbered(rows) && year >= 1 && 12 * (year - 1) < |rows|
    ensures var group := RowsOfYear(rows, year); group != [] && group[0] == rows[12 * (year - 1)]
  {
    NumberedYearRows(rows, year);
    var lo := 12 * (year - 1);
    var hi := if 12 * year < |rows| then 12 * year else |rows|;
    assert rows[lo..hi][0] == rows[lo];
  }

  /** In a numbered schedule, a complete year ends with its twelfth month. */
  lemma YearLastRow(rows: seq<Row>, year: int)
    requires Numbered(rows) && year >= 1 && 12 * year <= |rows|
    ensures var group := RowsOfYear(rows, year); group != [] && group[|group| - 1] == rows[12 * year - 1]
  {
    NumberedYearRows(rows, year);
    var lo, hi := 12 * (year - 1), 12 * year;
    assert rows[lo..hi][hi - lo - 1] == rows[hi - 1];
  }
}
