/** Calendar dates of the proleptic Gregorian calendar, held as day ordinals the
    way Python's `date.toordinal()` numbers them (0001-01-01 is day 1, a Monday),
    with the civil conversion in both directions, weekdays, (year, month) keys
    and the "add k calendar months, clamp the day" arithmetic of `relativedelta`. */
module Calendar {

  /** A calendar date as year, month (1..12) and day of month. */
  datatype Date = Date(year: int, month: int, day: int)

  /** A day number: 1 is 0001-01-01. */
  type Ordinal = n: int | n >= 1 witness 1

  /** The (year, month) a date falls in; the source keys its table by it. */
  datatype MonthKey = MonthKey(year: int, month: int)

  function Min(a: int, b: int): int { if a <= b then a else b }

  predicate IsLeapYear(y: int) {
    y % 4 == 0 && (y % 100 != 0 || y % 400 == 0)
  }

  function DaysInYear(y: int): int {
    if IsLeapYear(y) then 366 else 365
  }

  function DaysInMonth(y: int, m: int): (n: int)
    requires 1 <= m <= 12
    ensures 28 <= n <= 31
  {
    if m == 2 then (if IsLeapYear(y) then 29 else 28)
    else if m == 4 || m == 6 || m == 9 || m == 11 then 30
    else 31
  }

  /** Days in the months of year `y` before month `m`. */
  function DaysBeforeMonth(y: int, m: int): int
    requires 1 <= m <= 12
  {
    var common :=
      match m
      case 1 => 0    case 2 => 31   case 3 => 59   case 4 => 90
      case 5 => 120  case 6 => 151  case 7 => 181  case 8 => 212
      case 9 => 243  case 10 => 273 case 11 => 304 case _ => 334;
    if m > 2 && IsLeapYear(y) then common + 1 else common
  }

  /** Days in the years before year `y`, counted from 0001-01-01. */
  function DaysBeforeYear(y: int): (n: int)
    requires y >= 1
    ensures n >= 0
  {
    var p := y - 1;
    365 * p + p / 4 - p / 100 + p / 400
  }

  predicate IsValid(d: Date) {
    d.year >= 1 && 1 <= d.month <= 12 && 1 <= d.day <= DaysInMonth(d.year, d.month)
  }

  function ToOrdinal(d: Date): Ordinal
    requires IsValid(d)
  {
    DaysBeforeYear(d.year) + DaysBeforeMonth(d.year, d.month) + d.day
  }

  /** Each month starts where the previous one ends, and December ends the
      year. */
  lemma MonthStep(y: int, m: int)
    requires 1 <= m <= 12
    ensures m < 12 ==> DaysBeforeMonth(y, m + 1) == DaysBeforeMonth(y, m) + DaysInMonth(y, m)
    ensures m == 12 ==> DaysInYear(y) == DaysBeforeMonth(y, m) + DaysInMonth(y, m)
  {
  }

  /** Each year starts where the previous one ends. */
  lemma YearStep(y: int)
    requires y >= 1
    ensures DaysBeforeYear(y + 1) == DaysBeforeYear(y) + DaysInYear(y)
  {
    assert y / 4 - (y - 1) / 4 == if y % 4 == 0 then 1 else 0;
    assert y / 100 - (y - 1) / 100 == if y % 100 == 0 then 1 else 0;
    assert y / 400 - (y - 1) / 400 == if y % 400 == 0 then 1 else 0;
  }

  /** Python's `date.weekday()`: Monday is 0, Sunday is 6. */
  function Weekday(n: Ordinal): (w: int)
    ensures 0 <= w < 7
  {
    (n + 6) % 7
  }

  predicate IsValidKey(k: MonthKey) {
    k.year >= 1 && 1 <= k.month <= 12
  }

  function FirstDay(k: MonthKey): Ordinal
    requires IsValidKey(k)
  {
    ToOrdinal(Date(k.year, k.month, 1))
  }

  function MonthLength(k: MonthKey): int
    requires IsValidKey(k)
  {
    DaysInMonth(k.year, k.month)
  }

  /** Months counted from January of year 0. */
  function MonthIndex(k: MonthKey): int {
    12 * k.year + k.month - 1
  }

  function NextMonth(k: MonthKey): (next: MonthKey)
    requires IsValidKey(k)
    ensures IsValidKey(next) && MonthIndex(next) == MonthIndex(k) + 1
  {
    if k.month == 12 then MonthKey(k.year + 1, 1) else MonthKey(k.year, k.month + 1)
  }

  lemma MonthIndexInjective(j: MonthKey, k: MonthKey)
    requires IsValidKey(j) && IsValidKey(k) && MonthIndex(j) == MonthIndex(k)
    ensures j == k
  {
  }

  /** The month after `k` starts the day after `k` ends. */
  lemma NextMonthStarts(k: MonthKey)
    requires IsValidKey(k)
    ensures FirstDay(NextMonth(k)) == FirstDay(k) + MonthLength(k)
  {
    MonthStep(k.year, k.month);
    if k.month == 12 {
      YearStep(k.year);
    }
  }

  /** A month ends before every later month starts. */
  lemma {:induction false} MonthsAscend(j: MonthKey, k: MonthKey)
    requires IsValidKey(j) && IsValidKey(k) && MonthIndex(j) < MonthIndex(k)
    ensures FirstDay(j) + MonthLength(j) <= FirstDay(k)
    decreases MonthIndex(k) - MonthIndex(j)
  {
    var next := NextMonth(j);
    NextMonthStarts(j);
    if MonthIndex(next) == MonthIndex(k) {
      MonthIndexInjective(next, k);
    } else {
      MonthsAscend(next, k);
    }
  }

  /** The month in which the `r`-th day falls, counting the first day of month
      `k` as day 1, found by walking forward one month at a time. */
  function MonthContaining(k: MonthKey, r: int): (m: MonthKey)
    requires IsValidKey(k) && r >= 1
    ensures IsValidKey(m)
    decreases r
  {
    if r <= MonthLength(k) then k else MonthContaining(NextMonth(k), r - MonthLength(k))
  }

  /** The month found by the walk holds the `r`-th day. */
  lemma {:induction false} MonthContainingSpans(k: MonthKey, r: int)
    requires IsValidKey(k) && r >= 1
    ensures var m := MonthContaining(k, r);
            FirstDay(m) <= FirstDay(k) + r - 1 < FirstDay(m) + MonthLength(m)
    decreases r
  {
    if r > MonthLength(k) {
      NextMonthStarts(k);
      MonthContainingSpans(NextMonth(k), r - MonthLength(k));
    }
  }

  /** The (year, month) of a day number. */
  function KeyOf(n: Ordinal): (k: MonthKey)
    ensures IsValidKey(k)
  {
    MonthContaining(MonthKey(1, 1), n)
  }

  /** A day lies in month `k` exactly when it is one of that month's days. */
  lemma KeyOfRange(n: Ordinal, k: MonthKey)
    requires IsValidKey(k)
    ensures KeyOf(n) == k <==> FirstDay(k) <= n < FirstDay(k) + MonthLength(k)
  {
    KeyOfSpans(n);
    if FirstDay(k) <= n < FirstDay(k) + MonthLength(k) {
      SpansMeet(KeyOf(n), k, n);
    }
  }

  /** The month `KeyOf(n)` contains day `n`. */
  lemma KeyOfSpans(n: Ordinal)
    ensures FirstDay(KeyOf(n)) <= n < FirstDay(KeyOf(n)) + MonthLength(KeyOf(n))
  {
    assert FirstDay(MonthKey(1, 1)) == 1;
    MonthContainingSpans(MonthKey(1, 1), n);
  }

  /** No day belongs to two different months. */
  lemma SpansMeet(j: MonthKey, k: MonthKey, n: int)
    requires IsValidKey(j) && IsValidKey(k)
    requires FirstDay(j) <= n < FirstDay(j) + MonthLength(j)
    requires FirstDay(k) <= n < FirstDay(k) + MonthLength(k)
    ensures j == k
  {
    if MonthIndex(j) < MonthIndex(k) {
      MonthsAscend(j, k);
    } else if MonthIndex(k) < MonthIndex(j) {
      MonthsAscend(k, j);
    } else {
      MonthIndexInjective(j, k);
    }
  }

  /** The date of a day number (Python's `date.fromordinal`). */
  function FromOrdinal(n: Ordinal): Date {
    var k := KeyOf(n);
    Date(k.year, k.month, n - FirstDay(k) + 1)
  }

  /** Converting a day number to its date and back gives the day number again. */
  lemma ToFromOrdinal(n: Ordinal)
    ensures IsValid(FromOrdinal(n)) && ToOrdinal(FromOrdinal(n)) == n
  {
    KeyOfRange(n, KeyOf(n));
  }

  /** A valid date's day number lies in the date's own month. */
  lemma KeyOfDate(d: Date)
    requires IsValid(d)
    ensures KeyOf(ToOrdinal(d)) == MonthKey(d.year, d.month)
  {
    KeyOfRange(ToOrdinal(d), MonthKey(d.year, d.month));
  }

  /** Converting a valid date to its day number and back gives the date again. */
  lemma FromToOrdinal(d: Date)
    requires IsValid(d)
    ensures FromOrdinal(ToOrdinal(d)) == d
  {
    KeyOfDate(d);
  }

  /** Months are runs of consecutive days: a day between two days of one month
      is in that month too. */
  lemma MonthIsInterval(a: Ordinal, b: Ordinal, c: Ordinal)
    requires a <= b <= c && KeyOf(a) == KeyOf(c)
    ensures KeyOf(b) == KeyOf(a)
  {
    var k := KeyOf(a);
    KeyOfRange(a, k);
    KeyOfRange(c, k);
    KeyOfRange(b, k);
  }

  /** The same day `months` calendar months after date `d`, clamped to the
      length of the target month. */
  function ShiftMonths(d: Date, months: nat): (e: Date)
    requires IsValid(d)
    ensures IsValid(e)
    ensures MonthIndex(MonthKey(e.year, e.month)) == MonthIndex(MonthKey(d.year, d.month)) + months
    ensures e.day == Min(d.day, DaysInMonth(e.year, e.month))
  {
    var total := d.month - 1 + months;
    var y := d.year + total / 12;
    var m := total % 12 + 1;
    Date(y, m, Min(d.day, DaysInMonth(y, m)))
  }

  /** `n + relativedelta(months=months)` on day numbers. */
  function AddMonths(n: Ordinal, months: nat): Ordinal {
    ToFromOrdinal(n);
    ToOrdinal(ShiftMonths(FromOrdinal(n), months))
  }

  /** Adding months moves the month forward by exactly that many calendar
      months and keeps the day of the month, clamped to the target month's
      length. */
  lemma AddMonthsShifts(n: Ordinal, months: nat)
    ensures MonthIndex(KeyOf(AddMonths(n, months))) == MonthIndex(KeyOf(n)) + months
    ensures FromOrdinal(AddMonths(n, months)).day
         == Min(FromOrdinal(n).day, MonthLength(KeyOf(AddMonths(n, months))))
  {
    ToFromOrdinal(n);
    var e := ShiftMonths(FromOrdinal(n), months);
    FromToOrdinal(e);
    KeyOfDate(e);
  }

  /** Adding one and two months lands in the next and the next-but-one month. */
  lemma AddMonthsKeys(n: Ordinal)
    ensures KeyOf(AddMonths(n, 1)) == NextMonth(KeyOf(n))
    ensures KeyOf(AddMonths(n, 2)) == NextMonth(NextMonth(KeyOf(n)))
  {
    AddMonthsShifts(n, 1);
    AddMonthsShifts(n, 2);
    MonthIndexInjective(KeyOf(AddMonths(n, 1)), NextMonth(KeyOf(n)));
    MonthIndexInjective(KeyOf(AddMonths(n, 2)), NextMonth(NextMonth(KeyOf(n))));
  }
}
