/**
 Loan repayment schedules: `buildAmortizationSchedule` (scripts/backfill-loan-schedules.js).

 Principal, instalment and every due amount are in units of 0.0001 KES; rates are exact reals.
 The builder is a pair of loops; `FlatRow` and `ReducingRow` say what each row is, and the
 lemmas say what the rows add up to, how they move, and how far rounding carries them from the
 unrounded schedule.
 */
module Amortization {
  import opened Decimals

  datatype InterestType = FLAT | REDUCING_BALANCE

  datatype Row = Row(principalDue: int, interestDue: int)

  // ---- Specification ------------------------------------------------------------------

  function SumPrincipal(rows: seq<Row>): int {
    if rows == [] then 0 else SumPrincipal(rows[..|rows| - 1]) + rows[|rows| - 1].principalDue
  }

  function SumInterest(rows: seq<Row>): int {
    if rows == [] then 0 else SumInterest(rows[..|rows| - 1]) + rows[|rows| - 1].interestDue
  }

  /** Interest on `outstanding` for one month at monthly rate `r`. */
  function Interest(outstanding: int, r: real): int {
    Round(outstanding as real * r)
  }

  /** What one instalment repays: the instalment less the interest, capped at what is owed. */
  function Repayment(outstanding: int, r: real, instalment: int): int {
    Min(instalment - Interest(outstanding, r), outstanding)
  }

  /** What is owed after k instalments, none of them the closing one. */
  function Outstanding(principal: int, r: real, instalment: int, k: nat): int {
    if k == 0 then principal
    else
      var owed := Outstanding(principal, r, instalment, k - 1);
      owed - Repayment(owed, r, instalment)
  }

  /** Row k of a reducing-balance schedule of n rows; the last row repays all that is left. */
  function ReducingRow(principal: int, r: real, instalment: int, n: nat, k: nat): Row
    requires k < n
  {
    var owed := Outstanding(principal, r, instalment, k);
    Row(if k == n - 1 then owed else Repayment(owed, r, instalment), Interest(owed, r))
  }

  function ReducingSchedule(principal: int, r: real, instalment: int, n: nat): (rows: seq<Row>)
    ensures |rows| == n
  {
    seq(n, k requires 0 <= k < n => ReducingRow(principal, r, instalment, n, k))
  }

  function FlatTotalInterest(principal: int, annualRate: real, n: nat): int {
    Round(principal as real * annualRate * n as real / 12.0)
  }

  function Quotient(total: int, n: nat): real
    requires n > 0
  {
    total as real / n as real
  }

  /** The interest part of every flat row but the last. */
  function FlatShare(total: int, n: nat): int
    requires n > 0
  {
    Round(Quotient(total, n))
  }

  function FlatRow(principal: int, total: int, instalment: int, n: nat, k: nat): Row
    requires k < n
  {
    var share := FlatShare(total, n);
    if k == n - 1
    then Row(principal - k * (instalment - share), total - k * share)
    else Row(instalment - share, share)
  }

  function FlatSchedule(principal: int, annualRate: real, instalment: int, n: nat): (rows: seq<Row>)
    ensures |rows| == n
  {
    var total := FlatTotalInterest(principal, annualRate, n);
    seq(n, k requires 0 <= k < n => FlatRow(principal, total, instalment, n, k))
  }

  function Schedule(principal: int, annualRate: real, n: nat, interestType: InterestType, instalment: int): seq<Row> {
    match interestType
    case FLAT => FlatSchedule(principal, annualRate, instalment, n)
    case REDUCING_BALANCE => ReducingSchedule(principal, annualRate / 12.0, instalment, n)
  }

  // ---- The builder --------------------------------------------------------------------

  method BuildAmortizationSchedule(principal: int, annualRate: real, tenureMonths: nat,
                                   interestType: InterestType, instalment: int)
    returns (schedule: seq<Row>)
    ensures schedule == Schedule(principal, annualRate, tenureMonths, interestType, instalment)
  {
    if interestType == FLAT {
      schedule := BuildFlat(principal, annualRate, tenureMonths, instalment);
    } else {
      schedule := BuildReducing(principal, annualRate / 12.0, tenureMonths, instalment);
    }
  }

  method BuildFlat(principal: int, annualRate: real, tenureMonths: nat, instalment: int) returns (schedule: seq<Row>)
    ensures schedule == FlatSchedule(principal, annualRate, instalment, tenureMonths)
  {
    schedule := [];
    if tenureMonths == 0 {
      return;
    }
    var totalInterest := FlatTotalInterest(principal, annualRate, tenureMonths);
    var interestPerPeriod := FlatShare(totalInterest, tenureMonths);
    var principalAccrued, interestAccrued := 0, 0;
    for i := 1 to tenureMonths + 1
      invariant |schedule| == i - 1
      invariant forall k :: 0 <= k < i - 1 ==>
        schedule[k] == FlatRow(principal, totalInterest, instalment, tenureMonths, k)
      invariant i <= tenureMonths ==> principalAccrued == (i - 1) * (instalment - interestPerPeriod)
      invariant i <= tenureMonths ==> interestAccrued == (i - 1) * interestPerPeriod
    {
      var isLast := i == tenureMonths;
      var interestDue := if isLast then totalInterest - interestAccrued else interestPerPeriod;
      var principalDue := if isLast then principal - principalAccrued else instalment - interestPerPeriod;
      OneMore(i, interestPerPeriod);
      OneMore(i, instalment - interestPerPeriod);
      principalAccrued := principalAccrued + principalDue;
      interestAccrued := interestAccrued + interestDue;
      schedule := schedule + [Row(principalDue, interestDue)];
    }
  }

  lemma OneMore(i: int, x: int)
    ensures i * x == (i - 1) * x + x
  {
  }

  method BuildReducing(principal: int, monthlyRate: real, tenureMonths: nat, instalment: int)
    returns (schedule: seq<Row>)
    ensures schedule == ReducingSchedule(principal, monthlyRate, instalment, tenureMonths)
  {
    schedule := [];
    var outstanding, principalAccrued := principal, 0;
    for i := 1 to tenureMonths + 1
      invariant |schedule| == i - 1
      invariant forall k :: 0 <= k < i - 1 ==>
        schedule[k] == ReducingRow(principal, monthlyRate, instalment, tenureMonths, k)
      invariant i <= tenureMonths ==> outstanding == Outstanding(principal, monthlyRate, instalment, i - 1)
      invariant outstanding == principal - principalAccrued
    {
      var isLast := i == tenureMonths;
      var interestDue := if monthlyRate == 0.0 then 0 else Interest(outstanding, monthlyRate);
      assert interestDue == Interest(outstanding, monthlyRate) by {
        NoInterestAtZeroRate(outstanding, monthlyRate);
      }
      var principalDue := if isLast then principal - principalAccrued else Min(instalment - interestDue, outstanding);
      outstanding := outstanding - principalDue;
      principalAccrued := principalAccrued + principalDue;
      schedule := schedule + [Row(principalDue, interestDue)];
    }
  }

  lemma NoInterestAtZeroRate(outstanding: int, r: real)
    ensures r == 0.0 ==> Interest(outstanding, r) == 0
  {
  }

  // ---- Reducing balance: totals and monotonicity --------------------------------------

  /** After every row but the last, what is owed is the principal less the principal parts so far. */
  lemma {:induction false} RepaidSoFar(principal: int, r: real, instalment: int, n: nat, k: nat)
    requires k < n
    ensures principal - SumPrincipal(ReducingSchedule(principal, r, instalment, n)[..k])
         == Outstanding(principal, r, instalment, k)
  {
    var rows := ReducingSchedule(principal, r, instalment, n);
    if k > 0 {
      RepaidSoFar(principal, r, instalment, n, k - 1);
      assert rows[..k][..k - 1] == rows[..k - 1];
    }
  }

  /** The debt never goes negative, whatever the rate and the instalment. */
  lemma {:induction false} OutstandingNonNegative(principal: int, r: real, instalment: int, k: nat)
    requires principal >= 0
    ensures Outstanding(principal, r, instalment, k) >= 0
  {
    if k > 0 {
      OutstandingNonNegative(principal, r, instalment, k - 1);
    }
  }

  /** A reducing-balance schedule for an annual rate. */
  function Reducing(principal: int, annualRate: real, instalment: int, n: nat): seq<Row> {
    Schedule(principal, annualRate, n, REDUCING_BALANCE, instalment)
  }

  /** A twelfth of the annual rate on what is owed, before it is rounded. */
  function MonthlyInterest(owed: int, annualRate: real): real {
    owed as real * annualRate / 12.0
  }

  /**
   What each row of a reducing-balance schedule asks for, in terms of the rows before it: interest of a
   twelfth of the annual rate on what is still owed, to the nearest unit; and the rest of the
   instalment, cut down to what is owed, or in the last row all that is owed.
   */
  lemma ReducingRows(principal: int, annualRate: real, instalment: int, n: nat, k: nat)
    requires k < n
    ensures var rows := Reducing(principal, annualRate, instalment, n);
      && |rows| == n
      && var owed := principal - SumPrincipal(rows[..k]);
        && -0.5 <= rows[k].interestDue as real - MonthlyInterest(owed, annualRate) <= 0.5
        && rows[k].principalDue
             == if k == n - 1 || instalment - rows[k].interestDue > owed then owed
                else instalment - rows[k].interestDue
  {
    RepaidSoFar(principal, annualRate / 12.0, instalment, n, k);
    InterestIsMonthly(Outstanding(principal, annualRate / 12.0, instalment, k), annualRate);
    hide Interest, SumPrincipal, Outstanding, MonthlyInterest;
  }

  lemma InterestIsMonthly(owed: int, annualRate: real)
    ensures -0.5 <= Interest(owed, annualRate / 12.0) as real - MonthlyInterest(owed, annualRate) <= 0.5
  {
    assert owed as real * (annualRate / 12.0) == owed as real * annualRate / 12.0;
  }

  /** The schedule repays the principal exactly, in n rows, and the debt left is never negative. */
  lemma ReducingTotals(principal: int, annualRate: real, instalment: int, n: nat)
    requires principal >= 0 && n >= 1
    ensures var rows := Reducing(principal, annualRate, instalment, n);
      && |rows| == n
      && SumPrincipal(rows) == principal
      && forall k :: 0 <= k < n ==> SumPrincipal(rows[..k]) <= principal
  {
    var r := annualRate / 12.0;
    var rows := ReducingSchedule(principal, r, instalment, n);
    forall k | 0 <= k < n
      ensures SumPrincipal(rows[..k]) <= principal
    {
      RepaidSoFar(principal, r, instalment, n, k);
      OutstandingNonNegative(principal, r, instalment, k);
    }
    RepaidSoFar(principal, r, instalment, n, n - 1);
    assert rows == rows[..n - 1] + [rows[n - 1]];
  }

  lemma InterestGrowsWithDebt(a: int, b: int, r: real)
    requires r >= 0.0 && a <= b
    ensures Interest(a, r) <= Interest(b, r)
  {
    assert a as real * r <= b as real * r;
    RoundIsMonotone(a as real * r, b as real * r);
  }

  /** If the instalment covers the first month's interest, the debt only falls and so does the interest. */
  lemma {:induction false} DebtFalls(principal: int, r: real, instalment: int, k: nat)
    requires principal >= 0 && r >= 0.0 && instalment >= Interest(principal, r)
    ensures 0 <= Outstanding(principal, r, instalment, k + 1) <= Outstanding(principal, r, instalment, k) <= principal
    ensures Interest(Outstanding(principal, r, instalment, k + 1), r)
         <= Interest(Outstanding(principal, r, instalment, k), r) <= Interest(principal, r)
  {
    var owed := Outstanding(principal, r, instalment, k);
    if k > 0 {
      DebtFalls(principal, r, instalment, k - 1);
    }
    InterestGrowsWithDebt(owed, principal, r);
    InterestGrowsWithDebt(owed - Repayment(owed, r, instalment), owed, r);
  }

  /**
   Exactly when a reducing-balance schedule of two or more rows has no negative principal part:
   when the instalment covers the first month's interest.
   */
  lemma NoNegativePrincipalIff(principal: int, annualRate: real, instalment: int, n: nat)
    requires principal >= 0 && annualRate >= 0.0 && n >= 2
    ensures var rows := Reducing(principal, annualRate, instalment, n);
      |rows| == n && ((forall k :: 0 <= k < n ==> rows[k].principalDue >= 0) <==> instalment >= rows[0].interestDue)
  {
    var r := annualRate / 12.0;
    var rows := ReducingSchedule(principal, r, instalment, n);
    assert rows[0].principalDue == Repayment(principal, r, instalment);
    if instalment >= Interest(principal, r) {
      forall k | 0 <= k < n
        ensures rows[k].principalDue >= 0
      {
        DebtFalls(principal, r, instalment, k);
      }
    }
  }

  /**
   With an instalment that covers the first month's interest: interest never rises, and before the last
   row the principal parts never fall as long as the rows ask for the whole instalment.
   */
  lemma ReducingMonotone(principal: int, annualRate: real, instalment: int, n: nat, k: nat)
    requires principal >= 0 && annualRate >= 0.0 && k + 1 < n
    ensures var rows := Reducing(principal, annualRate, instalment, n);
      && |rows| == n
      && (instalment >= rows[0].interestDue ==> rows[k + 1].interestDue <= rows[k].interestDue)
      && (instalment >= rows[0].interestDue && k + 1 < n - 1
          && rows[k + 1].principalDue + rows[k + 1].interestDue == instalment ==>
            rows[k].principalDue <= rows[k + 1].principalDue)
  {
    var r := annualRate / 12.0;
    if instalment >= Interest(principal, r) {
      DebtFalls(principal, r, instalment, k);
    }
  }

  // ---- Reducing balance: accumulated rounding error -----------------------------------

  /** One month: interest accrues on x, then `paid` comes off. */
  function Month(x: real, r: real, paid: real): real {
    x * (1.0 + r) - paid
  }

  /** The unrounded debt after k instalments. */
  function ExactDebt(principal: real, r: real, instalment: real, k: nat): real {
    if k == 0 then principal else Month(ExactDebt(principal, r, instalment, k - 1), r, instalment)
  }

  /** 1 + (1+r) + ... + (1+r)^(k-1), by Horner's rule. */
  function Annuity(r: real, k: nat): real {
    if k == 0 then 0.0 else Month(Annuity(r, k - 1), r, -1.0)
  }

  function Power(x: real, k: nat): real {
    if k == 0 then 1.0 else x * Power(x, k - 1)
  }

  function PowerSum(x: real, k: nat): real {
    if k == 0 then 0.0 else PowerSum(x, k - 1) + Power(x, k - 1)
  }

  /** The Horner form of the bound is the sum of powers it abbreviates. */
  lemma {:induction false} AnnuityIsPowerSum(r: real, k: nat)
    ensures Annuity(r, k) == PowerSum(1.0 + r, k)
  {
    if k > 0 {
      AnnuityIsPowerSum(r, k - 1);
      PowerSumShift(1.0 + r, k - 1);
    }
  }

  lemma {:induction false} PowerSumShift(x: real, k: nat)
    ensures PowerSum(x, k) * x + 1.0 == PowerSum(x, k + 1)
  {
    if k == 0 {
      assert PowerSum(x, 1) == PowerSum(x, 0) + Power(x, 0);
    } else {
      PowerSumShift(x, k - 1);
      assert PowerSum(x, k) * x == PowerSum(x, k - 1) * x + Power(x, k - 1) * x;
    }
  }

  /** x and y differ by at most `bound` half-units. */
  ghost predicate Within(x: real, y: real, bound: real) {
    -0.5 * bound <= x - y <= 0.5 * bound
  }

  /** None of the first k repayments was cut down to the debt. */
  ghost predicate Uncapped(principal: int, r: real, instalment: int, k: nat) {
    forall j :: 0 <= j < k ==>
      var owed := Outstanding(principal, r, instalment, j);
      instalment - Interest(owed, r) <= owed
  }

  /** What is owed after k months when nothing is rounded: interest of a twelfth of the annual rate each month. */
  function UnroundedDebt(principal: real, annualRate: real, instalment: real, k: nat): real {
    if k == 0 then principal
    else
      var owed := UnroundedDebt(principal, annualRate, instalment, k - 1);
      owed + owed * annualRate / 12.0 - instalment
  }

  lemma {:induction false} UnroundedIsExact(principal: real, annualRate: real, instalment: real, k: nat)
    ensures UnroundedDebt(principal, annualRate, instalment, k)
         == ExactDebt(principal, annualRate / 12.0, instalment, k)
  {
    if k > 0 {
      UnroundedIsExact(principal, annualRate, instalment, k - 1);
      var owed := UnroundedDebt(principal, annualRate, instalment, k - 1);
      assert owed * (1.0 + annualRate / 12.0) == owed + owed * annualRate / 12.0;
    }
  }

  /** The first k rows ask for the whole instalment. */
  ghost predicate WholeInstalments(rows: seq<Row>, instalment: int, k: nat)
    requires k <= |rows|
  {
    forall j :: 0 <= j < k ==> rows[j].principalDue + rows[j].interestDue == instalment
  }

  lemma WholeIsUncapped(principal: int, r: real, instalment: int, n: nat, k: nat)
    requires k < n && WholeInstalments(ReducingSchedule(principal, r, instalment, n), instalment, k)
    ensures Uncapped(principal, r, instalment, k)
  {
    var rows := ReducingSchedule(principal, r, instalment, n);
    forall j | 0 <= j < k
      ensures var owed := Outstanding(principal, r, instalment, j); instalment - Interest(owed, r) <= owed
    {
      assert rows[j].principalDue + rows[j].interestDue == instalment;
    }
  }

  /**
   Accumulated rounding error: while the rows ask for the whole instalment, what is owed after k of them
   is within half a unit times 1 + q + ... + q^(k-1), where q = 1 + annualRate / 12, of what would be
   owed without rounding.
   */
  lemma RoundingError(principal: int, annualRate: real, instalment: int, n: nat, k: nat)
    requires annualRate >= 0.0 && k < n
    ensures var rows := Reducing(principal, annualRate, instalment, n);
      && |rows| == n
      && (WholeInstalments(rows, instalment, k) ==>
            Within((principal - SumPrincipal(rows[..k])) as real,
                   UnroundedDebt(principal as real, annualRate, instalment as real, k),
                   PowerSum(1.0 + annualRate / 12.0, k)))
  {
    var r := annualRate / 12.0;
    var rows := ReducingSchedule(principal, r, instalment, n);
    if WholeInstalments(rows, instalment, k) {
      WholeIsUncapped(principal, r, instalment, n, k);
      RepaidSoFar(principal, r, instalment, n, k);
      AnnuityIsPowerSum(r, k);
      ErrorWithin(principal, r, instalment, k);
      UnroundedIsExact(principal as real, annualRate, instalment as real, k);
    }
  }

  lemma {:induction false} ErrorWithin(principal: int, r: real, instalment: int, k: nat)
    requires r >= 0.0
    requires Uncapped(principal, r, instalment, k)
    ensures Within(Outstanding(principal, r, instalment, k) as real,
                   ExactDebt(principal as real, r, instalment as real, k), Annuity(r, k))
  {
    hide Month, Interest, Round;
    if k > 0 {
      ErrorWithin(principal, r, instalment, k - 1);
      var owed := Outstanding(principal, r, instalment, k - 1);
      ErrorStep(owed, ExactDebt(principal as real, r, instalment as real, k - 1), r, instalment, Annuity(r, k - 1));
    }
  }

  /** One month multiplies the error by 1+r and adds at most half a unit. */
  lemma ErrorStep(owed: int, exact: real, r: real, instalment: int, bound: real)
    requires r >= 0.0
    requires Within(owed as real, exact, bound)
    ensures Within((owed + Interest(owed, r) - instalment) as real,
                   Month(exact, r, instalment as real), Month(bound, r, -1.0))
  {
    var x := owed as real;
    var interest := Interest(owed, r);
    assert -0.5 <= interest as real - x * r <= 0.5;
    assert (x - exact) * (1.0 + r) == x + x * r - exact * (1.0 + r);
    ScaleBound(x - exact, 0.5 * bound, 1.0 + r);
  }

  lemma ScaleBound(x: real, bound: real, factor: real)
    requires factor >= 0.0 && -bound <= x <= bound
    ensures -(bound * factor) <= x * factor <= bound * factor
  {
  }

  /**
   The closing row: what it asks for (principal and interest together) misses the instalment by
   what the unrounded schedule leaves after n instalments, give or take the rounding bound.
   */
  lemma ClosingRowError(principal: int, annualRate: real, instalment: int, n: nat)
    requires annualRate >= 0.0 && n >= 1
    ensures var rows := Reducing(principal, annualRate, instalment, n);
      && |rows| == n
      && (WholeInstalments(rows, instalment, n - 1) ==>
            Within((rows[n - 1].principalDue + rows[n - 1].interestDue - instalment) as real,
                   UnroundedDebt(principal as real, annualRate, instalment as real, n),
                   PowerSum(1.0 + annualRate / 12.0, n)))
  {
    hide Month, Interest, Round;
    var r := annualRate / 12.0;
    if WholeInstalments(ReducingSchedule(principal, r, instalment, n), instalment, n - 1) {
      WholeIsUncapped(principal, r, instalment, n, n - 1);
      ErrorWithin(principal, r, instalment, n - 1);
      AnnuityIsPowerSum(r, n);
      UnroundedIsExact(principal as real, annualRate, instalment as real, n);
      var owed := Outstanding(principal, r, instalment, n - 1);
      var exact := ExactDebt(principal as real, r, instalment as real, n - 1);
      ErrorStep(owed, exact, r, instalment, Annuity(r, n - 1));
    }
  }

  // ---- Flat ---------------------------------------------------------------------------

  lemma {:induction false} FlatPrefix(principal: int, annualRate: real, instalment: int, n: nat, k: nat)
    requires k < n
    ensures var rows := FlatSchedule(principal, annualRate, instalment, n)[..k];
      var share := FlatShare(FlatTotalInterest(principal, annualRate, n), n);
      SumPrincipal(rows) == k * (instalment - share) && SumInterest(rows) == k * share
  {
    hide FlatShare, FlatTotalInterest;
    var rows := FlatSchedule(principal, annualRate, instalment, n);
    var share := FlatShare(FlatTotalInterest(principal, annualRate, n), n);
    if k > 0 {
      OneMore(k, share);
      OneMore(k, instalment - share);
      FlatPrefix(principal, annualRate, instalment, n, k - 1);
      assert rows[..k][..k - 1] == rows[..k - 1];
    }
  }

  /** A flat schedule for an annual rate. */
  function Flat(principal: int, annualRate: real, instalment: int, n: nat): seq<Row> {
    Schedule(principal, annualRate, n, FLAT, instalment)
  }

  lemma FlatSums(principal: int, annualRate: real, instalment: int, n: nat)
    requires n >= 1
    ensures var rows := FlatSchedule(principal, annualRate, instalment, n);
      SumPrincipal(rows) == principal && SumInterest(rows) == FlatTotalInterest(principal, annualRate, n)
  {
    var rows := FlatSchedule(principal, annualRate, instalment, n);
    FlatPrefix(principal, annualRate, instalment, n, n - 1);
    assert rows == rows[..n - 1] + [rows[n - 1]];
  }

  /**
   A flat schedule repays the principal exactly, and in interest the annual rate on the principal for n
   months, to the nearest unit; every row but the last asks for the instalment, with an equal share of
   the interest to the nearest unit.
   */
  lemma FlatTotals(principal: int, annualRate: real, instalment: int, n: nat)
    requires n >= 1
    ensures var rows := Flat(principal, annualRate, instalment, n);
      && |rows| == n
      && SumPrincipal(rows) == principal
      && -0.5 <= SumInterest(rows) as real - principal as real * annualRate * n as real / 12.0 <= 0.5
      && (forall k :: 0 <= k < n - 1 ==>
            && rows[k].principalDue + rows[k].interestDue == instalment
            && -0.5 <= rows[k].interestDue as real - SumInterest(rows) as real / n as real <= 0.5)
  {
    FlatSums(principal, annualRate, instalment, n);
  }

  /** n times the rounded share is within n/2 units of the total. */
  lemma ShareError(total: int, n: nat)
    requires n >= 1
    ensures -(n as int) <= 2 * (total - n * FlatShare(total, n)) <= n
  {
    hide Times, Round;
    var share := FlatShare(total, n);
    var exact := Quotient(total, n);
    TimesWithin(share as real - exact, 0.5, n as real);
    TimesSlip(share, total, n);
    assert -0.5 * n as real <= (n * share - total) as real <= 0.5 * n as real;
  }

  /** Real multiplication, named so that a proof can keep it folded. */
  ghost function Times(x: real, y: real): real {
    x * y
  }

  lemma TimesWithin(x: real, bound: real, n: real)
    requires n >= 0.0 && -bound <= x <= bound
    ensures -(bound * n) <= Times(x, n) <= bound * n
  {
    ScaleBound(x, bound, n);
  }

  lemma TimesSlip(share: int, total: int, n: nat)
    requires n > 0
    ensures Times(share as real - Quotient(total, n), n as real) == (n * share - total) as real
  {
    assert Quotient(total, n) * n as real == total as real;
  }

  /**
   The last interest part differs from the others by at most n/2 units, and it is non-negative
   once the total interest reaches n(n-1)/2 units.
   */
  lemma FlatLastInterest(principal: int, annualRate: real, instalment: int, n: nat, k: nat)
    requires k < n
    ensures var rows := Flat(principal, annualRate, instalment, n);
      && |rows| == n
      && -(n as int) <= 2 * (rows[n - 1].interestDue - rows[k].interestDue) <= n
      && (2 * SumInterest(rows) >= n * (n - 1) ==> rows[n - 1].interestDue >= 0)
  {
    FlatSums(principal, annualRate, instalment, n);
    var total := FlatTotalInterest(principal, annualRate, n);
    var share := FlatShare(total, n);
    hide FlatShare, FlatTotalInterest;
    ShareError(total, n);
    assert total - (n - 1) * share - share == total - n * share;
    if 2 * total >= n * (n - 1) {
      ShareLeavesRemainder(total, share, n);
    }
  }

  lemma ShareLeavesRemainder(total: int, share: int, n: nat)
    requires n >= 1 && 2 * total >= n * (n - 1) && 2 * (n * share - total) <= n
    ensures (n - 1) * share <= total
  {
    if (n - 1) * share > total {
      var m := n - 1;
      assert n * share == m * share + share;
      assert 2 * share <= n - 2;
      MulMono(2 * share, n - 2, m);
      assert false;
    }
  }

  lemma MulMono(a: int, b: int, c: nat)
    requires a <= b
    ensures c * a <= c * b
  {
  }

  /** The share is the whole part of total / n, one more when the remainder is at least half of n. */
  lemma FlatShareIs(total: int, n: nat)
    requires n >= 1 && total >= 0
    ensures FlatShare(total, n) == if 2 * (total % n) < n then total / n else total / n + 1
  {
    var q, r := total / n, total % n;
    var x := Quotient(total, n);
    assert total == q * n + r;
    assert x * n as real == q as real * n as real + r as real;
    QuotientParts(x, q as real, r as real, n as real);
  }

  lemma QuotientParts(x: real, q: real, r: real, n: real)
    requires n > 0.0 && 0.0 <= r < n && x * n == q * n + r
    ensures q <= x < q + 1.0 && (2.0 * r < n <==> x < q + 0.5)
  {
    var d := x - q;
    assert Times(d, n) == r;
    assert Times(0.0, n) == 0.0 && Times(1.0, n) == n && Times(0.5, n) == 0.5 * n;
    hide Times;
    Larger(d, 0.0, n);
    Larger(d, 1.0, n);
    Larger(d, 0.5, n);
  }

  lemma Larger(d: real, e: real, n: real)
    requires n > 0.0
    ensures d < e <==> Times(d, n) < Times(e, n)
    ensures d == e ==> Times(d, n) == Times(e, n)
  {
    assert Times(d, n) - Times(e, n) == (d - e) * n;
  }

  /** Rounding half away from zero treats both signs alike. */
  lemma FlatShareIsOdd(total: int, n: nat)
    requires n >= 1
    ensures FlatShare(-total, n) == -FlatShare(total, n)
  {
    assert (-total) as real == -(total as real);
    assert Quotient(-total, n) == -Quotient(total, n);
  }

  /** What is left of a total for the last row, for any number of months. */
  function LastShare(total: nat, n: nat): int
    requires n >= 1
  {
    if 2 * (total % n) < n then total / n + total % n else total / n + total % n - (n - 1)
  }

  lemma LastShareIs(total: nat, n: nat)
    requires n >= 1
    ensures total - (n - 1) * FlatShare(total, n) == LastShare(total, n)
  {
    FlatShareIs(total, n);
    var q, r := total / n, total % n;
    assert total == q * n + r;
    assert (n - 1) * q == q * n - q;
    assert (n - 1) * (q + 1) == q * n - q + (n - 1);
  }

  lemma LastShareNegativeIff(total: nat, n: nat)
    requires n >= 1
    ensures LastShare(total, n) < 0 <==> 2 * (total % n) >= n && total / n + total % n < n - 1
  {
    assert total / n >= 0 && total % n >= 0;
  }

  /**
   Exactly when the last row of a flat schedule has negative interest, for every rate, principal and
   number of months: the share is rounded up and whole part and remainder of total / n stay below n - 1.
   For a negative total everything changes sign.
   */
  lemma FlatLastInterestNegativeIff(principal: int, annualRate: real, instalment: int, n: nat)
    requires n >= 1
    ensures var rows := Flat(principal, annualRate, instalment, n);
      && |rows| == n
      && var total, last := SumInterest(rows), rows[n - 1].interestDue;
        && last == (if total >= 0 then LastShare(total, n) else -LastShare(-total, n))
        && (total >= 0 ==> (last < 0 <==> 2 * (total % n) >= n && total / n + total % n < n - 1))
  {
    FlatSums(principal, annualRate, instalment, n);
    hide FlatTotalInterest, FlatShare, LastShare, SumInterest;
    var total := FlatTotalInterest(principal, annualRate, n);
    if total >= 0 {
      LastShareIs(total, n);
      LastShareNegativeIff(total, n);
    } else {
      FlatShareIsOdd(total, n);
      LastShareIs(-total, n);
      NegatedProduct(n - 1, FlatShare(total, n));
    }
  }

  lemma NegatedProduct(m: int, x: int)
    ensures m * -x == -(m * x)
  {
  }

  /**
   The bound is sharp up to one step: for an even number n >= 4 of months, every schedule whose total
   interest is n(n-3)/2 units ends in negative interest.
   */
  lemma FlatLastInterestCanBeNegative(half: nat, principal: int, annualRate: real, instalment: int)
    requires half >= 2 && SumInterest(Flat(principal, annualRate, instalment, 2 * half)) == half * (2 * half - 3)
    ensures |Flat(principal, annualRate, instalment, 2 * half)| == 2 * half
    ensures Flat(principal, annualRate, instalment, 2 * half)[2 * half - 1].interestDue == -1
  {
    var n := 2 * half;
    FlatSums(principal, annualRate, instalment, n);
    hide FlatTotalInterest, FlatShare, SumInterest;
    SharpTotal(half);
    LastShareIs(half * (n - 3), n);
  }

  lemma SharpTotal(half: nat)
    requires half >= 2
    ensures var n, total := 2 * half, half * (2 * half - 3);
      total >= 0 && total / n == half - 2 && total % n == half
  {
    var n, total := 2 * half, half * (2 * half - 3);
    assert total == (half - 2) * n + half;
    WholeAndRest(total, n, half - 2, half);
  }

  /** KES 0.02 over four months at 3% a year: interest of 1, 1, 1 and -1 units. */
  lemma NegativeInterestInstance()
    ensures |Flat(200, 0.03, 51, 4)| == 4 && Flat(200, 0.03, 51, 4)[3].interestDue == -1
  {
    FlatSums(200, 0.03, 51, 4);
    assert FlatTotalInterest(200, 0.03, 4) == 2;
    hide FlatTotalInterest, SumInterest, FlatSchedule;
    FlatLastInterestCanBeNegative(2, 200, 0.03, 51);
  }

  lemma WholeAndRest(total: int, n: int, q: int, r: int)
    requires n > 0 && total == q * n + r && 0 <= r < n
    ensures total / n == q && total % n == r
  {
    SmallMultiple(total / n - q, n);
  }

  lemma SmallMultiple(d: int, n: int)
    requires n > 0
    ensures -n < d * n < n ==> d == 0
  {
    if d >= 1 {
      assert d * n >= n;
    } else if d <= -1 {
      assert d * n <= -n;
    }
  }
}
