/**
 * The month-by-month amortization schedule of app.py's `calculate_emi`, as
 * specification functions over exact reals, and what is proved about it: the
 * row numbering, the interest/principal split with its "went negative" clamp,
 * principal conservation, the cumulative totals, and that the annuity
 * installment pays the loan off exactly.
 */
module Schedule {
  import opened RealPow

  /** One entry of `emi_schedule`. */
  datatype Row = Row(
    month: int,
    emi: real,
    principal: real,
    interest: real,
    remainingBalance: real,
    totalInterestPaid: real,
    totalPrincipalPaid: real)

  /** `remaining_principal` once the given rows have been produced. */
  function BalanceAfter(loan: real, rows: seq<Row>): real
  {
    if rows == [] then loan else rows[|rows| - 1].remainingBalance
  }

  /** `total_interest_paid` once the given rows have been produced. */
  function InterestPaidAfter(rows: seq<Row>): real
  {
    if rows == [] then 0.0 else rows[|rows| - 1].totalInterestPaid
  }

  /** `total_principal_paid` once the given rows have been produced. */
  function PrincipalPaidAfter(rows: seq<Row>): real
  {
    if rows == [] then 0.0 else rows[|rows| - 1].totalPrincipalPaid
  }

  /** Sum of the interest components of the rows. */
  function SumInterest(rows: seq<Row>): real
  {
    if rows == [] then 0.0 else SumInterest(rows[..|rows| - 1]) + rows[|rows| - 1].interest
  }

  /** Sum of the principal components of the rows. */
  function SumPrincipal(rows: seq<Row>): real
  {
    if rows == [] then 0.0 else SumPrincipal(rows[..|rows| - 1]) + rows[|rows| - 1].principal
  }

  /**
   * The row of the month that follows `rows`: interest on the balance before
   * the payment, the rest of the installment to principal, and, when that
   * would take the balance below zero, the payment cut by the overshoot and
   * the balance set to zero.
   */
  function NextRow(loan: real, rate: real, emi: real, rows: seq<Row>): Row
  {
    var before := BalanceAfter(loan, rows);
    var interest := before * rate;
    var payment := emi - interest;
    var after := before - payment;
    var paid := if after < 0.0 then payment + after else payment;
    var balance := if after < 0.0 then 0.0 else after;
    Row(|rows| + 1, emi, paid, interest, balance,
        InterestPaidAfter(rows) + interest, PrincipalPaidAfter(rows) + paid)
  }

  /** The schedule of the first `months` months. */
  function Rows(loan: real, rate: real, emi: real, months: nat): (rows: seq<Row>)
    ensures |rows| == months
  {
    if months == 0 then []
    else
      var prev := Rows(loan, rate, emi, months - 1);
      prev + [NextRow(loan, rate, emi, prev)]
  }

  /** What `calculate_emi` guarantees of row `i` of its schedule. */
  ghost predicate RowFacts(loan: real, rate: real, emi: real, rows: seq<Row>, i: int)
    requires 0 <= i < |rows|
  {
    var row := rows[i];
    var before := BalanceAfter(loan, rows[..i]);
    && row.month == i + 1
    && row.emi == emi
    && row.interest == before * rate
    && row.principal == (if emi - row.interest > before then before else emi - row.interest)
    && row.remainingBalance == before - row.principal
    && row.remainingBalance >= 0.0
    && row.totalPrincipalPaid + row.remainingBalance == loan
    && row.totalInterestPaid == SumInterest(rows[..i + 1])
    && row.totalPrincipalPaid == SumPrincipal(rows[..i + 1])
  }

  ghost predicate Amortizes(loan: real, rate: real, emi: real, rows: seq<Row>)
  {
    forall i :: 0 <= i < |rows| ==> RowFacts(loan, rate, emi, rows, i)
  }

  /** Every prefix of a schedule is the schedule of that many months. */
  lemma {:induction false} RowsPrefix(loan: real, rate: real, emi: real, k: nat, j: nat)
    requires j <= k
    ensures Rows(loan, rate, emi, k)[..j] == Rows(loan, rate, emi, j)
  {
    if j < k {
      RowsPrefix(loan, rate, emi, k - 1, j);
      assert Rows(loan, rate, emi, k)[..j] == Rows(loan, rate, emi, k - 1)[..j];
    }
  }

  /**
   * The running totals after `rows`: principal paid plus the balance is the
   * loan, and the cumulative totals are the sums of the components.
   */
  ghost predicate TotalsHold(loan: real, rows: seq<Row>)
  {
    && PrincipalPaidAfter(rows) + BalanceAfter(loan, rows) == loan
    && InterestPaidAfter(rows) == SumInterest(rows)
    && PrincipalPaidAfter(rows) == SumPrincipal(rows)
  }

  /** The running totals hold after every month of every schedule. */
  lemma {:induction false} RunningTotals(loan: real, rate: real, emi: real, k: nat)
    ensures TotalsHold(loan, Rows(loan, rate, emi, k))
  {
    if k > 0 {
      RunningTotals(loan, rate, emi, k - 1);
      var rows := Rows(loan, rate, emi, k);
      assert rows[..k - 1] == Rows(loan, rate, emi, k - 1);
    }
  }

  /** RowFacts of row i depends only on the first i + 1 rows. */
  lemma RowFactsOfPrefix(loan: real, rate: real, emi: real, rows: seq<Row>, i: nat)
    requires i < |rows|
    ensures RowFacts(loan, rate, emi, rows, i) == RowFacts(loan, rate, emi, rows[..i + 1], i)
  {
    assert rows[..i + 1][..i] == rows[..i];
    assert rows[..i + 1][..i + 1] == rows[..i + 1];
  }

  /**
   * The clamp over plain reals: cutting the payment by the overshoot pays
   * exactly the balance when the payment exceeds it, and leaves a balance
   * that is never negative.
   */
  lemma Clamp(before: real, interest: real, emi: real)
    ensures var payment := emi - interest;
      var after := before - payment;
      var paid := if after < 0.0 then payment + after else payment;
      var balance := if after < 0.0 then 0.0 else after;
      && paid == (if payment > before then before else payment)
      && balance == before - paid
      && balance >= 0.0
  {
  }

  /** What `calculate_emi` guarantees of the row that follows any rows. */
  lemma NextRowFacts(loan: real, rate: real, emi: real, rows: seq<Row>)
    ensures var row := NextRow(loan, rate, emi, rows);
      var before := BalanceAfter(loan, rows);
      && row.month == |rows| + 1
      && row.emi == emi
      && row.interest == before * rate
      && row.principal == (if emi - row.interest > before then before else emi - row.interest)
      && row.remainingBalance == before - row.principal
      && row.remainingBalance >= 0.0
      && row.totalInterestPaid == InterestPaidAfter(rows) + row.interest
      && row.totalPrincipalPaid == PrincipalPaidAfter(rows) + row.principal
  {
    var before := BalanceAfter(loan, rows);
    Clamp(before, before * rate, emi);
  }

  /** The row that follows rows whose running totals hold satisfies the per-row guarantees. */
  lemma SnocFacts(loan: real, rate: real, emi: real, prev: seq<Row>)
    requires TotalsHold(loan, prev)
    ensures RowFacts(loan, rate, emi, prev + [NextRow(loan, rate, emi, prev)], |prev|)
  {
    var rows := prev + [NextRow(loan, rate, emi, prev)];
    assert rows[..|prev|] == prev;
    assert rows[..|prev| + 1] == rows;
    NextRowFacts(loan, rate, emi, prev);
  }

  /** The last row of the schedule of i + 1 months satisfies the per-row guarantees. */
  lemma LastRowFacts(loan: real, rate: real, emi: real, i: nat)
    ensures RowFacts(loan, rate, emi, Rows(loan, rate, emi, i + 1), i)
  {
    RowsSnoc(loan, rate, emi, i + 1);
    RunningTotals(loan, rate, emi, i);
    SnocFacts(loan, rate, emi, Rows(loan, rate, emi, i));
  }

  /** Every row of every schedule satisfies the per-row guarantees. */
  lemma RowsAmortize(loan: real, rate: real, emi: real, k: nat)
    ensures Amortizes(loan, rate, emi, Rows(loan, rate, emi, k))
  {
    var rows := Rows(loan, rate, emi, k);
    forall i | 0 <= i < |rows|
      ensures RowFacts(loan, rate, emi, rows, i)
    {
      RowsPrefix(loan, rate, emi, k, i + 1);
      LastRowFacts(loan, rate, emi, i);
      RowFactsOfPrefix(loan, rate, emi, rows, i);
    }
  }

  /** The installment of app.py's annuity formula. */
  function Installment(loan: real, rate: real, months: nat): real
    requires rate > 0.0 && months >= 1
  {
    PowAboveOne(1.0 + rate, months);
    var growth := Pow(1.0 + rate, months);
    (loan * rate * growth) / (growth - 1.0)
  }

  /** The annuity equation: the installment times g - 1 is the loan times the rate times g. */
  ghost predicate AnnuityEquation(loan: real, rate: real, emi: real, g: real)
  {
    emi * (g - 1.0) == loan * rate * g
  }

  /** Dividing by a non-zero number and multiplying back gives the number again. */
  lemma DivideThenMultiply(x: real, d: real)
    requires d != 0.0
    ensures (x / d) * d == x
  {
  }

  /** The installment of the formula solves the annuity equation for the growth over the term. */
  lemma InstallmentSolvesAnnuity(loan: real, rate: real, n: nat)
    requires rate > 0.0 && n >= 1
    ensures Pow(1.0 + rate, n) > 1.0
    ensures AnnuityEquation(loan, rate, Installment(loan, rate, n), Pow(1.0 + rate, n))
  {
    var g := Pow(1.0 + rate, n);
    PowAboveOne(1.0 + rate, n);
    DivideThenMultiply(loan * rate * g, g - 1.0);
  }

  /** A common non-zero factor cancels. */
  lemma CancelFactor(a: real, b: real, c: real)
    requires c != 0.0 && a * c == b * c
    ensures a == b
  {
  }

  /** A one-month loan is repaid by a single installment of the loan plus one month's interest. */
  lemma SingleMonthInstallment(loan: real, rate: real)
    requires rate > 0.0
    ensures Installment(loan, rate, 1) == loan + loan * rate
  {
    var emi := Installment(loan, rate, 1);
    InstallmentSolvesAnnuity(loan, rate, 1);
    assert Pow(1.0 + rate, 1) == 1.0 + rate;
    assert emi * rate == (loan + loan * rate) * rate;
    CancelFactor(emi, loan + loan * rate, rate);
  }

  /**
   * The closed form of a balance `u` after the months whose growth factor is
   * `qk`, when g is the growth factor over the whole term: u times g - 1 is
   * the loan times g - qk.
   */
  ghost predicate ClosedForm(loan: real, g: real, u: real, qk: real)
  {
    u * (g - 1.0) == loan * (g - qk)
  }

  /** One month of the closed-form induction, over plain reals. */
  lemma ClosedFormStep(loan: real, rate: real, emi: real, g: real, a: real, b: real)
    requires ClosedForm(loan, g, b, a)
    requires AnnuityEquation(loan, rate, emi, g)
    ensures ClosedForm(loan, g, b - (emi - b * rate), (1.0 + rate) * a)
  {
    calc {
      (b - (emi - b * rate)) * (g - 1.0);
      b * (g - 1.0) + rate * (b * (g - 1.0)) - emi * (g - 1.0);
      loan * (g - a) + rate * (loan * (g - a)) - loan * rate * g;
      loan * (g - (1.0 + rate) * a);
    }
  }

  /** A factor of a non-negative product with a positive co-factor is non-negative. */
  lemma NonNegativeFactor(u: real, d: real, w: real)
    requires u * d == w && d > 0.0 && w >= 0.0
    ensures u >= 0.0
  {
  }

  /** A product of non-negative factors is non-negative. */
  lemma NonNegativeProduct(a: real, b: real)
    requires a >= 0.0 && b >= 0.0
    ensures a * b >= 0.0
  {
  }

  /** A factor of a zero product with a non-zero co-factor is zero. */
  lemma ZeroFactor(u: real, d: real)
    requires u * d == 0.0 && d != 0.0
    ensures u == 0.0
  {
  }

  /** A balance in closed form before the end of the term is non-negative. */
  lemma ClosedFormNonNegative(loan: real, g: real, u: real, qk: real)
    requires ClosedForm(loan, g, u, qk)
    requires loan >= 0.0 && g > 1.0 && qk <= g
    ensures u >= 0.0
  {
    NonNegativeProduct(loan, g - qk);
    NonNegativeFactor(u, g - 1.0, loan * (g - qk));
  }

  /** A balance in closed form at the end of the term is zero. */
  lemma ClosedFormZero(loan: real, g: real, u: real)
    requires ClosedForm(loan, g, u, g)
    requires g > 1.0
    ensures u == 0.0
  {
    assert loan * (g - g) == 0.0;
    ZeroFactor(u, g - 1.0);
  }

  /**
   * Rows on the annuity path: none of them clamped, so each paid its
   * installment in full, and the balance after them is in closed form.
   */
  ghost predicate OnAnnuityPath(loan: real, rate: real, emi: real, g: real, rows: seq<Row>)
  {
    && ClosedForm(loan, g, BalanceAfter(loan, rows), Pow(1.0 + rate, |rows|))
    && InterestPaidAfter(rows) + PrincipalPaidAfter(rows) == (|rows| as real) * emi
    && forall j :: 0 <= j < |rows| ==> rows[j].principal == emi - rows[j].interest
  }

  /** The schedule of k months extends that of k - 1 months by the next row. */
  lemma RowsSnoc(loan: real, rate: real, emi: real, k: nat)
    requires k >= 1
    ensures Rows(loan, rate, emi, k) ==
      Rows(loan, rate, emi, k - 1) + [NextRow(loan, rate, emi, Rows(loan, rate, emi, k - 1))]
  {
  }

  /**
   * Over plain reals: before the end of the term, one more month of the
   * annuity installment keeps a balance in closed form non-negative and in
   * closed form.
   */
  lemma NextBalanceOnPath(loan: real, rate: real, emi: real, g: real, a: real, b: real)
    requires loan >= 0.0 && g > 1.0 && (1.0 + rate) * a <= g
    requires ClosedForm(loan, g, b, a) && AnnuityEquation(loan, rate, emi, g)
    ensures b - (emi - b * rate) >= 0.0
    ensures ClosedForm(loan, g, b - (emi - b * rate), (1.0 + rate) * a)
  {
    ClosedFormStep(loan, rate, emi, g, a, b);
    ClosedFormNonNegative(loan, g, b - (emi - b * rate), (1.0 + rate) * a);
  }

  /** One more installment on top of k adds up to k + 1 installments. */
  lemma OneMoreInstallment(k: nat, emi: real)
    ensures ((k + 1) as real) * emi == (k as real) * emi + emi
  {
  }

  /**
   * A row whose balance would stay non-negative does not clamp: it carries
   * that balance, the whole installment goes to interest and principal, and
   * the rows before it are unchanged.
   */
  lemma SnocNoClamp(loan: real, rate: real, emi: real, prev: seq<Row>, b: real, u: real)
    requires b == BalanceAfter(loan, prev)
    requires u == b - (emi - b * rate) && u >= 0.0
    requires forall j :: 0 <= j < |prev| ==> prev[j].principal == emi - prev[j].interest
    ensures var rows := prev + [NextRow(loan, rate, emi, prev)];
      && BalanceAfter(loan, rows) == u
      && InterestPaidAfter(rows) + PrincipalPaidAfter(rows) ==
           InterestPaidAfter(prev) + PrincipalPaidAfter(prev) + emi
      && forall j :: 0 <= j < |rows| ==> rows[j].principal == emi - rows[j].interest
  {
    var rows := prev + [NextRow(loan, rate, emi, prev)];
    forall j | 0 <= j < |rows|
      ensures rows[j].principal == emi - rows[j].interest
    {
      if j < |prev| {
        assert rows[j] == prev[j];
      } else {
        var r := NextRow(loan, rate, emi, prev);
        assert r.interest == b * rate;
        assert !(b - (emi - r.interest) < 0.0);
        assert rows[j] == r;
      }
    }
  }

  /** Rows one longer than rows on the annuity path, with one more full installment, are on it too. */
  lemma PathExtend(loan: real, rate: real, emi: real, g: real, prev: seq<Row>, rows: seq<Row>,
                   u: real, qk: real)
    requires OnAnnuityPath(loan, rate, emi, g, prev)
    requires |rows| == |prev| + 1
    requires BalanceAfter(loan, rows) == u && Pow(1.0 + rate, |rows|) == qk && ClosedForm(loan, g, u, qk)
    requires InterestPaidAfter(rows) + PrincipalPaidAfter(rows) ==
               InterestPaidAfter(prev) + PrincipalPaidAfter(prev) + emi
    requires forall j :: 0 <= j < |rows| ==> rows[j].principal == emi - rows[j].interest
    ensures OnAnnuityPath(loan, rate, emi, g, rows)
  {
    OneMoreInstallment(|prev|, emi);
  }

  /**
   * While the growth up to the next month stays within that of the whole
   * term, the next row of the annuity installment does not clamp, and the
   * rows stay on the annuity path.
   */
  lemma PathSnoc(loan: real, rate: real, emi: real, g: real, prev: seq<Row>)
    requires loan >= 0.0 && g > 1.0 && Pow(1.0 + rate, |prev| + 1) <= g
    requires AnnuityEquation(loan, rate, emi, g)
    requires OnAnnuityPath(loan, rate, emi, g, prev)
    ensures OnAnnuityPath(loan, rate, emi, g, prev + [NextRow(loan, rate, emi, prev)])
  {
    var a := Pow(1.0 + rate, |prev|);
    var b := BalanceAfter(loan, prev);
    var u := b - (emi - b * rate);
    var qk := (1.0 + rate) * a;
    assert Pow(1.0 + rate, |prev| + 1) == qk;
    NextBalanceOnPath(loan, rate, emi, g, a, b);
    SnocNoClamp(loan, rate, emi, prev, b, u);
    PathExtend(loan, rate, emi, g, prev, prev + [NextRow(loan, rate, emi, prev)], u, qk);
  }

  /** Up to month n, the schedule of the annuity installment stays on the annuity path. */
  lemma {:induction false} RowsOnAnnuityPath(loan: real, rate: real, emi: real, g: real, n: nat, k: nat)
    requires loan >= 0.0 && rate > 0.0 && k <= n
    requires g == Pow(1.0 + rate, n) && g > 1.0 && AnnuityEquation(loan, rate, emi, g)
    ensures OnAnnuityPath(loan, rate, emi, g, Rows(loan, rate, emi, k))
  {
    if k > 0 {
      RowsOnAnnuityPath(loan, rate, emi, g, n, k - 1);
      RowsSnoc(loan, rate, emi, k);
      PowMonotone(1.0 + rate, k, n);
      PathSnoc(loan, rate, emi, g, Rows(loan, rate, emi, k - 1));
    }
  }

  /**
   * Rows that repay the loan: the balance after them is zero, their
   * principal components add up to the loan, their interest components to
   * the installments paid minus the loan, and every one of them paid its
   * installment in full.
   */
  ghost predicate RepaysLoan(loan: real, emi: real, rows: seq<Row>)
  {
    && BalanceAfter(loan, rows) == 0.0
    && SumPrincipal(rows) == loan
    && SumInterest(rows) == emi * (|rows| as real) - loan
    && forall j :: 0 <= j < |rows| ==> rows[j].principal == emi - rows[j].interest
  }

  /** Rows on the annuity path over the whole term, whose running totals hold, repay the loan. */
  lemma AnnuityPathRepays(loan: real, rate: real, emi: real, g: real, rows: seq<Row>)
    requires g > 1.0 && Pow(1.0 + rate, |rows|) == g
    requires OnAnnuityPath(loan, rate, emi, g, rows) && TotalsHold(loan, rows)
    ensures RepaysLoan(loan, emi, rows)
  {
    ClosedFormZero(loan, g, BalanceAfter(loan, rows));
  }

  /** Over exact reals an installment that solves the annuity equation repays the loan. */
  lemma AnnuityRepaysLoan(loan: real, rate: real, emi: real, n: nat)
    requires loan >= 0.0 && rate > 0.0 && n >= 1
    requires Pow(1.0 + rate, n) > 1.0 && AnnuityEquation(loan, rate, emi, Pow(1.0 + rate, n))
    ensures RepaysLoan(loan, emi, Rows(loan, rate, emi, n))
  {
    var g := Pow(1.0 + rate, n);
    RowsOnAnnuityPath(loan, rate, emi, g, n, n);
    RunningTotals(loan, rate, emi, n);
    AnnuityPathRepays(loan, rate, emi, g, Rows(loan, rate, emi, n));
  }

  /** Over exact reals the installment of the formula repays the loan. */
  lemma ScheduleRepaysLoan(loan: real, rate: real, n: nat)
    requires loan >= 0.0 && rate > 0.0 && n >= 1
    ensures RepaysLoan(loan, Installment(loan, rate, n), Rows(loan, rate, Installment(loan, rate, n), n))
  {
    InstallmentSolvesAnnuity(loan, rate, n);
    AnnuityRepaysLoan(loan, rate, Installment(loan, rate, n), n);
  }

  /** A balance in closed form after at least no growth is at most the loan. */
  lemma ClosedFormAtMostLoan(loan: real, g: real, u: real, qk: real)
    requires ClosedForm(loan, g, u, qk)
    requires loan >= 0.0 && g > 1.0 && qk >= 1.0
    ensures u <= loan
  {
    NonNegativeProduct(loan, qk - 1.0);
    assert (loan - u) * (g - 1.0) == loan * (qk - 1.0);
    NonNegativeFactor(loan - u, g - 1.0, loan * (qk - 1.0));
  }

  /** A product of positive factors is positive. */
  lemma PositiveProduct(a: real, b: real)
    requires a > 0.0 && b > 0.0
    ensures a * b > 0.0
  {
  }

  /** A factor of a positive product with a positive co-factor is positive. */
  lemma PositiveFactor(u: real, d: real, w: real)
    requires u * d == w && d > 0.0 && w > 0.0
    ensures u > 0.0
  {
  }

  /** An installment solving the annuity equation exceeds one month's interest on the loan. */
  lemma InstallmentAboveInterest(loan: real, rate: real, emi: real, g: real)
    requires loan > 0.0 && rate > 0.0 && g > 1.0
    requires AnnuityEquation(loan, rate, emi, g)
    ensures emi > loan * rate
  {
    PositiveProduct(loan, rate);
    assert (emi - loan * rate) * (g - 1.0) == loan * rate;
    PositiveFactor(emi - loan * rate, g - 1.0, loan * rate);
  }

  /**
   * Over plain reals: a month that starts from a balance of at most the loan
   * and pays more than the loan's interest leaves a smaller balance.
   */
  lemma PaymentReducesBalance(loan: real, rate: real, emi: real, b: real)
    requires b <= loan && rate > 0.0 && emi > loan * rate
    ensures b - (emi - b * rate) < b
  {
    assert b * rate <= loan * rate;
  }

  /**
   * Over plain reals: from a balance in closed form, a month of an
   * installment solving the annuity equation leaves a smaller balance.
   */
  lemma ClosedFormPaysDown(loan: real, rate: real, emi: real, g: real, b: real, qk: real)
    requires loan > 0.0 && rate > 0.0 && g > 1.0 && qk >= 1.0
    requires AnnuityEquation(loan, rate, emi, g) && ClosedForm(loan, g, b, qk)
    ensures b - (emi - b * rate) < b
  {
    ClosedFormAtMostLoan(loan, g, b, qk);
    InstallmentAboveInterest(loan, rate, emi, g);
    PaymentReducesBalance(loan, rate, emi, b);
  }

  /** A month that pays its whole installment leaves the balance before it minus the installment's principal part. */
  lemma NextRowUnclamped(loan: real, rate: real, emi: real, prev: seq<Row>)
    requires NextRow(loan, rate, emi, prev).principal == emi - NextRow(loan, rate, emi, prev).interest
    ensures var b := BalanceAfter(loan, prev);
      NextRow(loan, rate, emi, prev).remainingBalance == b - (emi - b * rate)
  {
  }

  /**
   * An unclamped month after rows whose balance is in closed form, under an
   * installment solving the annuity equation, lowers the balance.
   */
  lemma NextRowDecreases(loan: real, rate: real, emi: real, g: real, prev: seq<Row>)
    requires loan > 0.0 && rate > 0.0 && g > 1.0
    requires AnnuityEquation(loan, rate, emi, g)
    requires ClosedForm(loan, g, BalanceAfter(loan, prev), Pow(1.0 + rate, |prev|))
    requires NextRow(loan, rate, emi, prev).principal == emi - NextRow(loan, rate, emi, prev).interest
    ensures NextRow(loan, rate, emi, prev).remainingBalance < BalanceAfter(loan, prev)
  {
    PowMonotone(1.0 + rate, 0, |prev|);
    ClosedFormPaysDown(loan, rate, emi, g, BalanceAfter(loan, prev), Pow(1.0 + rate, |prev|));
    NextRowUnclamped(loan, rate, emi, prev);
  }

  /**
   * Under the formula's installment the balance falls every month: each
   * row's remaining balance is below the balance before it, which for the
   * first month is the loan and afterwards the previous row's balance.
   */
  lemma BalanceDecreases(loan: real, rate: real, n: nat, k: nat)
    requires loan > 0.0 && rate > 0.0 && k < n
    ensures var rows := Rows(loan, rate, Installment(loan, rate, n), n);
      && rows[k].remainingBalance < BalanceAfter(loan, rows[..k])
      && (k == 0 ==> rows[k].remainingBalance < loan)
      && (k > 0 ==> rows[k].remainingBalance < rows[k - 1].remainingBalance)
  {
    var emi := Installment(loan, rate, n);
    var g := Pow(1.0 + rate, n);
    InstallmentSolvesAnnuity(loan, rate, n);
    var rows := Rows(loan, rate, emi, n);
    var prev := Rows(loan, rate, emi, k);
    RowsOnAnnuityPath(loan, rate, emi, g, n, k);
    RowsOnAnnuityPath(loan, rate, emi, g, n, k + 1);
    RowsSnoc(loan, rate, emi, k + 1);
    assert Rows(loan, rate, emi, k + 1)[k] == NextRow(loan, rate, emi, prev);
    NextRowDecreases(loan, rate, emi, g, prev);
    RowsPrefix(loan, rate, emi, n, k + 1);
    RowsPrefix(loan, rate, emi, n, k);
    assert rows[k] == rows[..k + 1][k];
  }
}
