/** The loan and debit records of views.py, the biweekly calculation
    (`calc_biweekly`) and the dispatch by schedule type (`get_next_debit`). */
module Debits {
  import opened Calendar
  import opened Schedule
  import opened Wrappers

  /** A loan as posted. The start date is already a day number; the due date
      and the day of week are carried but not used by the calculation. */
  datatype Loan = Loan(
    monthlyPaymentAmount: int,
    paymentDueDate: int,
    scheduleType: Option<string>,
    debitStartDate: Ordinal,
    debitDayOfWeek: string)

  /** The next debit: how much, and on which day. */
  datatype Debit = Debit(amount: int, date: Ordinal)

  /** The posted body; its `loan` entry may be missing. */
  datatype PostBody = PostBody(loan: Option<Loan>)

  datatype Error = MissingLoan

  /** The calculations the dispatch can pick. */
  datatype Calculation = Biweekly

  predicate IsWeekend(n: Ordinal) {
    Weekday(n) in {5, 6}
  }

  /** A Saturday or Sunday moved forward to the following Monday; any other
      day as it is. */
  function SkipWeekend(d: Ordinal): (r: Ordinal)
    ensures !IsWeekend(r) && d <= r
    ensures Weekday(d) == 5 ==> r == d + 2
    ensures Weekday(d) == 6 ==> r == d + 1
    ensures !IsWeekend(d) ==> r == d
  {
    if IsWeekend(d) then d + (0 - Weekday(d)) % 7 else d
  }

  /** The date the calculation looks up from: tomorrow, off the weekend, and
      not before the first debit. */
  function ReferenceDate(today: Ordinal, start: Ordinal): (r: Ordinal)
    ensures r >= start && r >= SkipWeekend(today + 1) && r > today
    ensures r == start || r == SkipWeekend(today + 1)
  {
    var tomorrow := SkipWeekend(today + 1);
    if start > tomorrow then start else tomorrow
  }

  /** `math.ceil(a / n)` on integers: the least `q` with `q * n >= a`. */
  function CeilDiv(a: int, n: int): (q: int)
    requires n >= 1
    ensures q * n >= a && q * n - a < n
  {
    CeilDivBounds(a, n);
    (a + n - 1) / n
  }

  /** `(a + n - 1) / n` rounds the quotient up: it covers `a`, and by less
      than one more `n`. */
  lemma CeilDivBounds(a: int, n: int)
    requires n >= 1
    ensures var q := (a + n - 1) / n; q * n >= a && q * n - a < n
  {
    var q := (a + n - 1) / n;
    var r := (a + n - 1) % n;
    assert a + n - 1 == q * n + r && 0 <= r < n;
  }

  /** A biweekly date's month holds at least that date. */
  lemma OccurrenceMonthCounted(start: Ordinal, x: Ordinal)
    requires IsOccurrence(start, x)
    ensures OccurrencesInMonth(start, KeyOf(x)) >= 1
  {
    var k := KeyOf(x);
    KeyOfRange(x, k);
    var n := OccurrencesInMonth(start, k);
    if n == 0 {
      assert FirstOccurrenceFrom(start, FirstDay(k)) <= x;
    }
  }

  /** A month holds at most three biweekly dates. */
  lemma AtMostThreePerMonth(start: Ordinal, k: MonthKey)
    requires IsValidKey(k)
    ensures OccurrencesInMonth(start, k) <= 3
  {
  }

  /** What `calc_biweekly` returns for `loan` when run on day `today`: the
      first biweekly date on or after the reference date, and the monthly
      amount spread evenly, rounded up, over that date's month. */
  function NextDebit(loan: Loan, today: Ordinal): Debit {
    var start := loan.debitStartDate;
    var date := FirstOccurrenceFrom(start, ReferenceDate(today, start));
    OccurrenceMonthCounted(start, date);
    Debit(CeilDiv(loan.monthlyPaymentAmount, OccurrencesInMonth(start, KeyOf(date))), date)
  }

  /** `calc_biweekly`: normalise tomorrow, build the table past it, look the
      date up and divide the monthly amount over the date's month. */
  method CalcBiweekly(loan: Loan, today: Ordinal) returns (debit: Debit)
    ensures debit == NextDebit(loan, today)
  {
    var start := loan.debitStartDate;
    var tomorrow: Ordinal := today + 1;
    if Weekday(tomorrow) in {5, 6} {
      tomorrow := tomorrow + (0 - Weekday(tomorrow)) % 7;
    }
    if start > tomorrow {
      tomorrow := start;
    }
    assert tomorrow == ReferenceDate(today, start);
    var schedule := ScheduleTable(start, tomorrow);
    var debitDate := NextDebitDate(tomorrow, schedule);
    LookupFindsNextOccurrence(schedule, start, tomorrow);
    assert debitDate == Some(FirstOccurrenceFrom(start, tomorrow));
    var date := debitDate.value;
    var numberOfPayments := |schedule[KeyOf(date)]|;
    var amount := CeilDiv(loan.monthlyPaymentAmount, numberOfPayments);
    debit := Debit(amount, date);
  }

  /** The calculation the dispatch table names for a schedule type, with the
      biweekly one as the fallback for unknown and missing types. */
  function CalculationFor(scheduleType: Option<string>): Calculation {
    var schedules := map["biweekly" := Biweekly];
    if scheduleType.Some? && scheduleType.value in schedules then schedules[scheduleType.value]
    else Biweekly
  }

  /** `get_next_debit`: fails exactly when the body has no loan; otherwise the
      result is the biweekly calculation, whatever the schedule type. */
  method GetNextDebit(body: PostBody, today: Ordinal) returns (r: Result<Debit, Error>)
    ensures body.loan.None? ==> r == Failure(MissingLoan)
    ensures body.loan.Some? ==> r == Success(NextDebit(body.loan.value, today))
  {
    if body.loan.None? {
      return Failure(MissingLoan);
    }
    var loan := body.loan.value;
    match CalculationFor(loan.scheduleType)
    case Biweekly =>
      var debit := CalcBiweekly(loan, today);
      r := Success(debit);
  }

  /** The debit falls on a biweekly date, on the start date's weekday, not
      before the start date, after today and on or after the reference date,
      with no biweekly date between the reference date and it. */
  lemma NextDebitDateProperties(loan: Loan, today: Ordinal)
    ensures var d := NextDebit(loan, today);
            var start := loan.debitStartDate;
            var ref := ReferenceDate(today, start);
            && IsOccurrence(start, d.date)
            && Weekday(d.date) == Weekday(start)
            && start <= d.date && today < d.date && ref <= d.date < ref + 14
            && (forall x :: IsOccurrence(start, x) && ref <= x ==> d.date <= x)
  {
    var d := NextDebit(loan, today);
    SameWeekday(loan.debitStartDate, d.date);
  }

  /** The amount is the monthly amount divided over the one to three dates of
      the debit's month, rounded up, so the month's debits cover the monthly
      amount and overshoot it by less than one unit per date. */
  lemma NextDebitAmountProperties(loan: Loan, today: Ordinal)
    ensures var d := NextDebit(loan, today);
            var n := OccurrencesInMonth(loan.debitStartDate, KeyOf(d.date));
            && 1 <= n <= 3
            && d.amount * n >= loan.monthlyPaymentAmount
            && d.amount * n - loan.monthlyPaymentAmount < n
  {
    var d := NextDebit(loan, today);
    var start := loan.debitStartDate;
    OccurrenceMonthCounted(start, d.date);
    AtMostThreePerMonth(start, KeyOf(d.date));
  }

  /** Biweekly dates keep the anchor's weekday. */
  lemma SameWeekday(start: Ordinal, x: Ordinal)
    requires IsOccurrence(start, x)
    ensures Weekday(x) == Weekday(start)
  {
    var i := (x - start) / 14;
    assert x + 6 == (start + 6) + 7 * (2 * i);
  }

  /** Dividing the amount over `n` dates leaves less than one date's share
      over when the amount exceeds `(n - 1)^2`. */
  lemma CeilDivNotOneTooMany(a: int, n: int)
    requires n > 1 && a > (n - 1) * (n - 1)
    ensures CeilDiv(a, n) * (n - 1) < a
  {
    var q := CeilDiv(a, n);
    assert (n - 1) * (n - 1) == (n - 2) * n + 1;
    CancelFactor(q, n - 2, n);
    if q == n - 1 {
    } else {
      assert q * (n - 1) == q * n - q;
    }
  }

  /** A positive factor can be cancelled from a strict inequality. */
  lemma CancelFactor(x: int, y: int, c: int)
    requires c > 0 && x * c > y * c
    ensures x > y
  {
    assert (x - y) * c > 0;
  }

  /** Without the bound the promise can fail: one unit over two dates is
      rounded up to one per date, and one date's share already covers it. */
  lemma CeilDivSmallAmount()
    ensures CeilDiv(1, 2) * (2 - 1) >= 1
  {
  }

  /** The worked example: first debit 2023-01-02 (a Monday), 1000 a month, run
      on 2023-01-01. January has the dates 2, 16 and 30, so the debit is the
      start date itself, for 334. */
  lemma ExampleStartDay(loan: Loan, today: Ordinal)
    requires loan.debitStartDate == ToOrdinal(Date(2023, 1, 2))
    requires loan.monthlyPaymentAmount == 1000
    requires today == ToOrdinal(Date(2023, 1, 1))
    ensures NextDebit(loan, today) == Debit(334, ToOrdinal(Date(2023, 1, 2)))
  {
    var start := loan.debitStartDate;
    assert start == 738522 && today == 738521;
    assert ReferenceDate(today, start) == 738522;
    KeyOfRange(start, MonthKey(2023, 1));
    assert OccurrencesInMonth(start, MonthKey(2023, 1)) == 3;
  }

  /** Run on Friday 2023-01-06, tomorrow is a Saturday and moves to Monday
      2023-01-09; the next biweekly date is 2023-01-16, still for 334. */
  lemma ExampleWeekendSkip(loan: Loan, today: Ordinal)
    requires loan.debitStartDate == ToOrdinal(Date(2023, 1, 2))
    requires loan.monthlyPaymentAmount == 1000
    requires today == ToOrdinal(Date(2023, 1, 6))
    ensures NextDebit(loan, today) == Debit(334, ToOrdinal(Date(2023, 1, 16)))
  {
    var start := loan.debitStartDate;
    assert start == 738522 && today == 738526;
    assert ReferenceDate(today, start) == 738529;
    KeyOfRange(738536, MonthKey(2023, 1));
    assert OccurrencesInMonth(start, MonthKey(2023, 1)) == 3;
  }

  /** Run on 2023-01-30, the reference date 2023-01-31 is after January's
      last date, so the debit rolls over to 2023-02-13; February has only the
      dates 13 and 27, so the amount is 500. */
  lemma ExampleMonthRollover(loan: Loan, today: Ordinal)
    requires loan.debitStartDate == ToOrdinal(Date(2023, 1, 2))
    requires loan.monthlyPaymentAmount == 1000
    requires today == ToOrdinal(Date(2023, 1, 30))
    ensures NextDebit(loan, today) == Debit(500, ToOrdinal(Date(2023, 2, 13)))
  {
    var start := loan.debitStartDate;
    assert start == 738522 && today == 738550;
    assert ReferenceDate(today, start) == 738551;
    KeyOfRange(738564, MonthKey(2023, 2));
    assert OccurrencesInMonth(start, MonthKey(2023, 2)) == 2;
  }
}
