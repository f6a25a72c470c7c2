# EMI calculator: a verified model

This project models the computing core of a loan-installment (EMI) calculator, in Dafny. It has two parts.

- **The server.** The Flask handler `calculate_emi` in `app.py` does the following:
  - reads the loan amount, the annual rate and the tenure in years from the JSON body;
  - rejects values that are not positive;
  - derives the monthly rate and the month count;
  - computes the equated monthly installment with the annuity formula;
  - walks the loan month by month and returns the installment, the totals and the schedule.
- **The browser.** `static/script.js` does the following:
  - checks the form on submit (`validateInput`) and while typing (`validateInputField`);
  - groups the schedule into loan years (`generateYearlyView`);
  - highlights every twelfth row of the monthly table;
  - exports the schedule as a CSV file with a generated name (`downloadScheduleAsCSV`).

Modules:

- `RealPow` (`real_pow.dfy`) holds `math.pow` for a whole-number exponent, with its growth facts.
- `Schedule` (`schedule.dfy`) holds the schedule row and the month-by-month recurrence of the handler as functions. Its lemmas cover:
  - the facts about each row;
  - the running totals;
  - the annuity installment;
  - the remaining balance falling strictly every month;
  - the proof that over exact arithmetic the formula's installment repays the loan. The final balance is zero, the principal parts add up to the loan, and no month needs the clamp.
- `Amortization` (`amortization.dfy`) holds the request and response values, input conversion and validation. It also has the loop that builds the schedule, as a method proved equal to the `Schedule` recurrence, and the handler as a method.
- `InputValidation` (`input_validation.dfy`) holds the two client validators over JavaScript numbers, including NaN and the infinities.
- `YearlyView` (`yearly_view.dfy`) holds the year of a month, the year-end highlight, and the grouping loop as a method over a map. The method is proved to build, for every year, the sums and balances of exactly that year's rows. Lemmas cover which months a year holds and how the balances chain from year to year.
- `CsvExport` (`csv_export.dfy`) holds JavaScript `join` and `split`, the CSV text and the file name. Lemmas show that the file reads back, line by line and field by field, as the header and each row's six values, and that the file name reads back as its parts.

## Where the code differs from its description

The model follows the code in each of these places:

- The month count is `int(tenure_years * 12)`, which truncates toward zero. It is not rounded, and it has no minimum of one. A tenure shorter than one month makes the annuity denominator zero. The `ZeroDivisionError` gives the generic error message (`Amortization.Compute`).
- The loop has no special final month. In any month where the installment would take the balance below zero, the principal part is reduced by the overshoot and the balance is set to zero. Over exact arithmetic this clamp is never needed (`Schedule.RepaysLoan`, whose last conjunct says every principal part is the installment minus the interest).
- The server checks only that the three values are positive. The bounds of 100% and 50 years are enforced only by the browser.
- Over exact reals, the straight-line branch for a zero monthly rate cannot be reached, because the annual rate has already been checked to be positive. With doubles it can be reached; see "## Left out".
- Values are rounded to two decimals only when they are put into the response, never in the running computation.

## Model

| member | source | states |
|---|---|---|
| RealPow.Pow | app.py:35 | `math.pow(1 + monthly_rate, tenure_months)` for a whole exponent; positive for a positive base |
| RealPow.PowAboveOne | app.py:35 | the growth factor over one or more months of a positive rate exceeds one, so the denominator is not zero |
| RealPow.PowMonotone | app.py:35 | the growth factor does not decrease as the number of months grows |
| Schedule.Rows | app.py:46-74 | the schedule of the recurrence has exactly one row per month |
| Schedule.NextRow | app.py:48-63 | definition: one pass of the loop body, with interest on the balance before, the rest of the installment to principal, the clamp when the balance would go negative, and the running totals |
| Schedule.NextRowFacts | app.py:48-63 | one month: the interest is the balance times the rate; the principal part is the installment minus the interest, or the whole balance when that is smaller; the new balance is never negative; the running totals grow by this month's parts |
| Schedule.SnocFacts | app.py:46-74 | the row appended after any prefix whose running totals are consistent satisfies every per-row fact |
| Schedule.LastRowFacts | app.py:46-74 | the i-th row of the schedule satisfies every per-row fact: month number i+1, the same installment, interest from the balance before, conservation of balance and the running totals |
| Schedule.RunningTotals | app.py:42-63 | after every month, the principal paid plus the balance equals the loan, and the two running totals equal the sums of the interest and principal parts so far |
| Schedule.RowsPrefix | app.py:46-74 | the first j months of a longer schedule are the schedule of j months: later months never change earlier rows |
| Schedule.RowFactsOfPrefix | app.py:46-74 | whether a row satisfies the per-row facts depends only on the rows up to it |
| Schedule.RowsAmortize | app.py:46-74 | every row of the schedule satisfies the per-row facts |
| Schedule.RowsSnoc | app.py:46-66 | the schedule of k months is that of k-1 months followed by one more row |
| Schedule.Clamp | app.py:51-59 | the clamped principal part and new balance: the balance never goes below zero and the parts still add up to the old balance |
| Schedule.InstallmentSolvesAnnuity | app.py:35 | the formula's installment, times the growth factor minus one, equals the loan times the rate times the growth factor |
| Schedule.Installment | app.py:35 | definition: the annuity formula `P * r * (1+r)^n / ((1+r)^n - 1)`; what it means is stated by Schedule.InstallmentSolvesAnnuity |
| Schedule.SingleMonthInstallment | app.py:35 | a one-month loan is repaid by one installment of the loan plus one month's interest |
| Schedule.ClosedFormStep | app.py:48-54 | one unclamped month keeps the annuity closed form of the balance: balance times (g-1) equals loan times (g - growth so far) |
| Schedule.ClosedFormNonNegative | app.py:57 | a balance in closed form before the end of the term is not negative, so the clamp is not taken |
| Schedule.ClosedFormZero | app.py:57-59 | a balance in closed form at the end of the term is exactly zero |
| Schedule.NextBalanceOnPath | app.py:48-57 | from a balance in closed form before the last month, the next unclamped balance is not negative and stays in closed form |
| Schedule.SnocNoClamp | app.py:48-66 | a month whose new balance is not negative takes the unclamped branch: the principal part is the installment minus the interest |
| Schedule.PathExtend | app.py:46-66 | appending an unclamped row whose balance is in closed form keeps the schedule on the annuity path |
| Schedule.PathSnoc | app.py:46-66 | one more month of an installment solving the annuity equation keeps the schedule on the annuity path: closed-form balance, totals equal to the installments paid, no clamp |
| Schedule.RowsOnAnnuityPath | app.py:46-66 | every prefix of the term stays on the annuity path |
| Schedule.AnnuityPathRepays | app.py:37-63 | a schedule on the annuity path over the whole term ends at balance zero; its principal parts sum to the loan, and its interest parts sum to the installments minus the loan |
| Schedule.AnnuityRepaysLoan | app.py:35-63 | an installment solving the annuity equation repays the loan within the term, and the clamp is never needed |
| Schedule.ScheduleRepaysLoan | app.py:35-74 | the formula's installment repays the loan: final balance zero, principal parts summing to the loan, interest parts summing to the total interest `emi * n - principal` |
| Schedule.ClosedFormAtMostLoan | app.py:48-54 | a balance in closed form is never above the loan |
| Schedule.InstallmentAboveInterest | app.py:35 | the installment solving the annuity equation is more than one month's interest on the whole loan |
| Schedule.PaymentReducesBalance | app.py:48-54 | a payment above the loan's interest, made from a balance of at most the loan, lowers the balance |
| Schedule.ClosedFormPaysDown | app.py:48-54 | from a balance in closed form, one month of the annuity installment lowers the balance |
| Schedule.NextRowUnclamped | app.py:51-59 | a month that pays its whole installment leaves the old balance minus the installment's principal part |
| Schedule.NextRowDecreases | app.py:48-59 | an unclamped month after a closed-form balance lowers the balance |
| Schedule.BalanceDecreases | app.py:46-59 | under the formula's installment the remaining balance falls strictly every month: month 1 ends below the loan, and each later month below the month before |
| Amortization.Convert | app.py:16-18 | definition: `float(data.get(key, 0))` by field kind: a missing key gives 0, a number gives itself, null, an array or an object raises TypeError, and an unparsable string raises ValueError |
| Amortization.ParseRequest | app.py:13-18 | a body that is not a JSON object raises; otherwise the three conversions run in order and the first that raises decides the exception; the inputs exist exactly when all three convert |
| Amortization.Converts | app.py:16-18 | definition: the field kinds `float(data.get(key, 0))` accepts, a missing key or a number |
| Amortization.ParseOutcome | app.py:13-18 | by the kinds of the fields alone: the inputs exist exactly when the body is an object whose three fields all convert; the exception is a ValueError exactly when the first field, in the order principal, rate, tenure, that does not convert is a string `float` rejects |
| Amortization.FaultMessage | app.py:86-95 | definition: ValueError gives "Please enter valid numeric values"; any other exception gives "An error occurred during calculation" |
| Amortization.Trunc | app.py:29 | `int()` of a float truncates toward zero: the result is the largest integer not above a non-negative argument, and the smallest not below a negative one |
| Amortization.MonthlyRate | app.py:28 | definition: `annual_rate / 12 / 100` |
| Amortization.AllPositive | app.py:21 | definition: all three converted values are strictly positive, the negation of the failure test |
| Amortization.SuccessComputed | app.py:76-84 | the success response built from the formula's installment, its totals and the loop's schedule carries a schedule that repays the loan |
| Amortization.GrowthIsOneIff | app.py:35 | for a positive rate the annuity denominator is zero exactly when the term has no months |
| Amortization.BuildSchedule | app.py:41-74 | the loop produces the schedule of the recurrence, one row per month, every row satisfying the per-row facts |
| Amortization.Annuity | app.py:35-84 | for a positive loan and rate and at least one month, the response carries the formula's installment, totals `emi * n` and `emi * n - principal`, the loan, the month count and a schedule that repays the loan |
| Amortization.Compute | app.py:28-84 | for positive inputs, a term shorter than one month gives the generic error; otherwise the success response described by `Computed` |
| Amortization.CalculateEmi | app.py:11-95 | the handler: a ValueError gives "Please enter valid numeric values", and any other exception raised while reading the body or converting a field gives "An error occurred during calculation"; a value that is not positive gives the not-positive message; a term shorter than one month gives the generic error; otherwise a success response with a schedule that repays the loan |
| InputValidation.ValidateInput | static/script.js:87-104 | the form is accepted exactly when the loan amount is positive (infinity included), the rate is in (0, 100] and the tenure is in (0, 50]; otherwise the first failing check, in that order, gives its message |
| InputValidation.ValidateInputField | static/script.js:358-392 | a finite value passes exactly when it is within its field's bounds (amount at least 1000, rate in [0.1, 100], tenure in [1, 50], other fields unbounded); NaN passes exactly when the text is empty; +Infinity passes only for the amount and other fields; -Infinity only for other fields |
| InputValidation.LessThan | static/script.js:372-386 | definition: JavaScript `<` against a constant, false for NaN, true for -Infinity, false for +Infinity |
| InputValidation.GreaterThan | static/script.js:93-98 | definition: JavaScript `>` against a constant, false for NaN, true for +Infinity, false for -Infinity |
| InputValidation.AtMost | static/script.js:88-98 | definition: JavaScript `<=` against a constant, false for NaN |
| YearlyView.YearOf | static/script.js:177 | `Math.ceil(month / 12)`: month m lies in year y exactly when 12(y-1) < m <= 12y |
| YearlyView.IsYearEnd | static/script.js:143 | the row at index i is highlighted exactly when the next month starts a new year |
| YearlyView.RowsOfYearNonEmpty | static/script.js:176-188 | a year gets an entry exactly when some row falls in it |
| YearlyView.YearsOfSnoc | static/script.js:176-188 | the years of a schedule are the years of all rows but the last, plus the last row's year |
| YearlyView.SummarySnoc | static/script.js:190-194 | adding a row to a year's rows adds its installment, principal and interest to the sums, makes its balance the ending balance and appends it to the months |
| YearlyView.AddRowSummary | static/script.js:178-198 | one update of the loop turns the fresh entry into the summary of one row, with the starting balance as the balance before that row, and turns the summary of a year's rows into that of the rows plus the new one |
| YearlyView.EmptySummary | static/script.js:179-187 | definition: the entry created the first time a year is met, with zero sums and balances and no rows |
| YearlyView.AddRow | static/script.js:190-198 | definition: the in-place update of an entry by one row, with the starting balance set when the row is the entry's first |
| YearlyView.RowsOfYearSnoc | static/script.js:176-194 | one more row adds itself to its own year's rows and leaves every other year's rows alone |
| YearlyView.GroupedSnoc | static/script.js:176-199 | the loop's update for one more row keeps the map equal to the summaries of the rows seen so far |
| YearlyView.GroupedStep | static/script.js:176-199 | one iteration of the loop over the schedule keeps the map equal to the summaries of the prefix processed so far |
| YearlyView.GroupByYear | static/script.js:169-199 | the map has a key for exactly the years some row falls in, and each entry holds that year's installment, principal and interest sums, its starting and ending balances, and its rows in order |
| YearlyView.NumberedYearRows | static/script.js:177 | in a schedule numbered 1..n, year y holds months 12(y-1)+1 through 12y, as many as exist |
| YearlyView.YearRowsBefore | static/script.js:177 | a last month before the year adds nothing to the year's rows |
| YearlyView.YearRowsWithin | static/script.js:177 | a last month inside the year extends the year's rows to that month |
| YearlyView.YearRowsAfter | static/script.js:177 | a last month after the year leaves the year's rows unchanged |
| YearlyView.YearFirstRow | static/script.js:196-198 | in a numbered schedule, the first row of a year that has begun is month 12(y-1)+1 |
| YearlyView.YearLastRow | static/script.js:193 | in a numbered schedule, the last row of a complete year is month 12y |
| YearlyView.YearEndClosesYear | static/script.js:143-177 | a row is highlighted exactly when it is the twelfth row of its year's entry |
| YearlyView.BalancesCarryOver | static/script.js:193-198 | for a server schedule, year 1 starts at the loan and each later year starts at the previous year's ending balance |
| YearlyView.AmortizedNumbered | static/script.js:177 | the server's schedule is numbered by position, so the year of each row is fixed by its index |
| YearlyView.BalanceBeforeRow | static/script.js:197 | for a server row, `remaining_balance + principal` is the balance before that month, so it is the starting balance the roll-up records |
| CsvExport.Split | static/script.js:243-253 | JavaScript's `split` at one character, used as the reader of the text these lines build: at least one piece, and exactly one when the separator does not occur |
| CsvExport.SplitWithoutSeparator | static/script.js:243-253 | under JavaScript's `split`, the reader of the text these lines build, a text without the separator is one piece |
| CsvExport.SplitAtSeparator | static/script.js:243-253 | under JavaScript's `split`, the reader of the text these lines build, a separator-free first piece is split off at the separator after it |
| CsvExport.SplitJoin | static/script.js:243-253 | splitting undoes `join` when no part holds the separator |
| CsvExport.LastPieceEmpty | static/script.js:253 | under JavaScript's `split`, the reader of the text these lines build, the last piece is empty exactly when the text is empty or ends in the separator |
| CsvExport.JoinHasSeparator | static/script.js:244-252 | joining at least two parts puts the separator into the text |
| CsvExport.JoinAvoids | static/script.js:243-253 | joining parts free of a character other than the separator gives a text free of it |
| CsvExport.Join | static/script.js:243-253 | definition: JavaScript's `join`, the parts with one separator between neighbours and "" for no parts |
| CsvExport.Fields | static/script.js:245-252 | a data line exports exactly the six values of the header, in header order |
| CsvExport.CsvLines | static/script.js:245-252 | one data line per schedule row, in schedule order |
| CsvExport.CsvLine | static/script.js:245-252 | definition: a row's six values joined by commas |
| CsvExport.FileLines | static/script.js:243-253 | the lines of the file: the header line first, then exactly the data lines, one more line than rows |
| CsvExport.CsvContent | static/script.js:243-253 | definition: the file's lines joined by line breaks |
| CsvExport.HeaderReadsBack | static/script.js:242-244 | the header line splits back into the six column names and holds no line break |
| CsvExport.CsvLineReadsBack | static/script.js:245-252 | each data line splits back into its row's six values and holds no line break |
| CsvExport.DataLinesReadBack | static/script.js:245-252 | every data line splits back into its row's six values and holds no line break |
| CsvExport.FileLinesPlain | static/script.js:243-253 | no line of the file holds a line break, and the last line is not empty |
| CsvExport.JoinReadsBack | static/script.js:243-253 | separator-free parts with a non-empty last part join into a text that splits back into them and does not end in the separator |
| CsvExport.CsvContentReadsBack | static/script.js:241-253 | the file has one line per row plus the header; the header and every row read back field by field; the file does not end in a line break |
| CsvExport.FourPieces | static/script.js:259 | four underscore-free pieces joined by underscores split back into the four |
| CsvExport.FileName | static/script.js:259 | definition: `EMI_Schedule_`, the loan amount's text, `_`, the month count's text and `months.csv` |
| CsvExport.FileNameReadsBack | static/script.js:259 | the file name splits at its underscores into "EMI", "Schedule", the loan amount's text, and the month count's text followed by "months.csv"; it ends in ".csv" |

## Left out

- Floating point: Python floats and JavaScript numbers are exact reals here. `round(x, 2)` on the emitted values (app.py:68-73 and app.py:78-80) is not modelled, so the rows carry unrounded values. Any rounding drift the clamp absorbs is therefore not represented.
- Schedule.ScheduleRepaysLoan: the final balance is proved exactly zero over exact reals, where the clamp of app.py:57-59 is never taken. With doubles the loop leaves a small leftover. A negative leftover is clamped to 0 by app.py:57-59, and a positive one stays in `remaining_principal` and is hidden only by `round(remaining_principal, 2)` at app.py:71. Neither double-precision path is modelled.
- `math.pow` is modelled only for a whole-number exponent, which is the only kind the handler passes. A NaN or infinite value that `float` can parse from text ("nan", "inf") is not modelled.
- Flask: routing, `get_json` and `jsonify` are replaced by the `Body` input and the `Response` value. The `index` page route is not modelled.
- The straight-line branch for a zero monthly rate (app.py:32-33) is not modelled as a computation, because over exact reals the check at app.py:21 makes it unreachable. `Amortization.Compute` asserts this instead.
- Amortization.Compute: two double-precision paths are not modelled. A positive annual rate as small as `5e-324` passes app.py:21, but `annual_rate / 12` rounds to `0.0`. The straight-line branch `principal / tenure_months` then runs, or raises ZeroDivisionError when there are no months.
- Amortization.CalculateEmi: for a positive annual rate below about 1.3e-13, `1 + monthly_rate` rounds to `1.0` in doubles. The denominator at app.py:35 is then zero even with one or more months, and the handler returns the generic error where the model returns a success.
- Amortization.Compute: overflow is not modelled. The server caps neither the rate nor the tenure from above (app.py:21). With `annual_rate=100` and `tenure_years=1000` there are 12000 months, and `math.pow(1 + monthly_rate, 12000)` at app.py:35 exceeds the largest double and raises OverflowError, so the handler returns the generic error where the model returns a success. Likewise, a JSON integer such as 10**400 makes `float()` at app.py:16-18 raise OverflowError, giving the generic error where the model converts it.
- JavaScript number-to-text conversion (`String(n)` in template literals and `join`) is the function parameter `show`, so no particular rendering of numbers is claimed.
- The DOM work of the client is not modelled: `showError`, the `error` classes, the table and summary rendering, `formatNumber`, the Blob, the object URL and the download link.
- YearlyView.GroupByYear: the map is unordered, so the order in which `Object.values` renders the years is not captured.
- The rest of `static/script.js` is not part of the core and is not modelled: the `fetch` call, `displayResults`, the cached schedule shared between the views, the view toggles, the loading and error panels, `loadSampleData`, `resetCalculator`, `copyToClipboard` and the event listeners.
- `parseFloat` is not modelled: the validators take its result (a `JsNumber`) and, for the per-field check, the raw text.
