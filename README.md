# Biweekly debit scheduler, modelled in Dafny

This project models the next-debit calculation of the debit scheduler
(`views.py`). Given a loan (monthly amount, first debit date) and the current day, it
returns the next biweekly debit: its date and its amount.

- **Occurrence table** (`schedule_table`). Starting from the first debit date,
  the builder steps 14 days at a time until it passes the reference date plus
  two calendar months, appending each date to the list of its (year, month).
  `Schedule.ScheduleTable` keeps the `while` loop and the map it updates. Its
  postcondition `IsTableOf` pins the table down completely
  (`Schedule.TableIsUnique`: two tables meeting it are equal):
  - the anchor heads its own month's list;
  - every list is non-empty, holds only dates of its own month, and steps by
    14 days;
  - every date from the anchor through the first one after the horizon is
    listed.
- **Lookup** (`next_debit_date`). It scans the reference month's list for the
  first date on or after the reference date. Failing that, it takes the first
  date of the next month's list. `Schedule.NextDebitDate` keeps the `for` loop
  with its `break`. The source's crashes (a missing month, an empty or missing
  next month) become `None`. `Schedule.LookupFindsNextOccurrence` proves that,
  on a table built for a reference date not before the first debit date
  (which the clamp at views.py:50-51 guarantees), the lookup never fails.
  Whichever branch it takes, it returns the smallest biweekly date on or after
  the reference date.
- **Resolver** (`calc_biweekly`). It takes tomorrow, moves a Saturday or
  Sunday to Monday, and clamps the result to the first debit date. It then
  builds the table, looks the date up and divides the monthly amount over the
  date's month, rounding up. `Debits.CalcBiweekly` reassigns `tomorrow` as the
  source does. It is proved equal to the reference definition
  `Debits.NextDebit`, which takes the first biweekly date on or after the
  reference date, with the ceiling of the monthly amount over the number of
  biweekly dates in that date's month.
- **Dispatch** (`get_next_debit`). Every schedule type, known, unknown or
  missing, selects the biweekly calculation. A body without a loan is an
  error.

Dates are day numbers counted as Python's `date.toordinal()` counts them
(0001-01-01 is day 1, a Monday). The civil (year, month, day) form is computed
by walking forward month by month, and both directions are proved to
round-trip (`Calendar.ToFromOrdinal`, `Calendar.FromToOrdinal`). The weekday is
`(n + 6) % 7`, with Monday = 0. `Calendar.AddMonths` is the "same day k months
later, clamped to the month's length" behaviour of `relativedelta(months=k)`.

Files: `wrappers.dfy` (Option, Result), `calendar.dfy` (Calendar),
`schedule.dfy` (Schedule), `debits.dfy` (Debits).

## Expectations the code does not meet

The model follows the code in each case.

- **Weekends.** One might expect debits never to fall on a weekend. The code
  only moves the reference date off the weekend. The debit itself is a
  biweekly date counted from the first debit date, so it always falls on that
  date's weekday (`Debits.NextDebitDateProperties`, `Debits.SameWeekday`). A
  first debit on a Saturday gives Saturday debits.
- **Rounding.** One might expect that `n - 1` rounded-up shares always stay
  below the monthly amount, `amount * (n - 1) < monthly` for `n > 1`. This
  fails for small amounts: a monthly amount of 1 over 2 dates gives 1 per date
  (`Debits.CeilDivSmallAmount`). It holds whenever `monthly > (n - 1)^2`
  (`Debits.CeilDivNotOneTooMany`), so for every monthly amount above 4,
  because a month holds at most three biweekly dates. The bound the code does
  keep is `0 <= amount * n - monthly < n` (`Debits.NextDebitAmountProperties`).
- **Positive amounts.** One might expect the amount to be a positive integer.
  The code does not check the monthly amount, so a zero or negative monthly
  amount gives a zero or negative debit. The model keeps `int`.

## Model

| member | source | states |
|---|---|---|
| `Calendar.Weekday` | views.py:47-48 | the weekday of a day number lies in 0..6, with Monday = 0 |
| `Calendar.ToFromOrdinal` | views.py:67 | every day number converts to a valid (year, month, day) that converts back to the same day number |
| `Calendar.FromToOrdinal` | views.py:67 | every valid date converts to a day number that converts back to the same date |
| `Calendar.KeyOfRange` | views.py:67 | a day's (year, month) key is `k` exactly when the day lies between the first and the last day of month `k` |
| `Calendar.KeyOfDate` | views.py:91 | a valid date's day number carries the date's own (year, month) key |
| `Calendar.MonthIsInterval` | views.py:91 | a day between two days of one month belongs to that month |
| `Calendar.NextMonthStarts` | views.py:73 | the next month starts the day after the current month ends |
| `Calendar.MonthsAscend` | views.py:73 | every month ends before any later month starts |
| `Calendar.ShiftMonths` | views.py:87 | shifting a date by `k` months gives a valid date `k` months later with the day clamped to that month's length |
| `Calendar.AddMonthsShifts` | views.py:87 | adding `k` months to a day number moves its month by exactly `k` and keeps the day of the month, clamped |
| `Calendar.AddMonthsKeys` | views.py:73 | adding one or two months lands in the next or the next-but-one calendar month |
| `Schedule.Steps` | views.py:89-90 | the loop stops at the first biweekly date after the horizon, and the date before it is not after the horizon |
| `Schedule.FirstOccurrenceFrom` | views.py:68-71 | the smallest biweekly date on or after a given day, less than 14 days after it |
| `Schedule.OccurrencesInMonth` | views.py:55 | the number of biweekly dates falling in a month: the last one counted is in the month and the one after it is not |
| `Schedule.AnchorTable` | views.py:88 | the initial table, the first debit date alone under its month, is the table of the dates up to the anchor |
| `Schedule.AppendNextOccurrence` | views.py:89-91 | appending the next date under its month key extends the table of the dates up to index `i` to the table up to `i + 1` |
| `Schedule.AppendKeepsSteps` | views.py:90-91 | after the append every list still holds only its own month's dates, stepping by 14 days |
| `Schedule.AppendCovers` | views.py:90-91 | after the append every date up to the new one is listed under its month |
| `Schedule.LastEntryIsCurrent` | views.py:91 | when the next date's month already has a list, that list ends with the current date, so appending keeps the 14-day step |
| `Schedule.ScheduleTable` | views.py:80-92 | the builder returns exactly the table of the biweekly dates from the first debit date through the first one after the reference date plus two months |
| `Schedule.TableIsUnique` | views.py:87-91 | two tables of the dates up to the same index are equal, so the builder's postcondition fixes its result exactly |
| `Schedule.SameMonthList` | views.py:89-91 | two such tables hold the same list under every month of the first |
| `Schedule.HeadAndLengthWithin` | views.py:89-91 | a month's list in one such table starts no later and runs no shorter than in the other |
| `Schedule.TableIsOrdered` | views.py:89-91 | each month's list is strictly ascending and no date appears twice in the table |
| `Schedule.InTable` | views.py:87-91 | every biweekly date up to the last generated one is in its month's list |
| `Schedule.CompleteMonth` | views.py:87-91 | a month that ends before the last generated date has a list exactly when it has a biweekly date; the list starts with its first biweekly date and holds all of them |
| `Schedule.CompleteMonthHead` | views.py:89-91 | such a month's list starts with the month's first biweekly date |
| `Schedule.CompleteMonthLength` | views.py:89-91 | such a month's list has as many entries as the month has biweekly dates |
| `Schedule.MonthEntryInTable` | views.py:89-91 | a biweekly date of a month sits in that month's list at the index given by its distance from the head |
| `Schedule.NextDebitDate` | views.py:60-77 | a missing month gives no date; otherwise the first entry on or after the reference date, and if there is none the head of the next month's list (none if that list is missing or empty) |
| `Schedule.LookupFindsNextOccurrence` | views.py:66-76 | on a table built for the reference date, the month is present, and either branch returns the smallest biweekly date on or after the reference date; that date's month is complete in the table |
| `Schedule.LookupHorizon` | views.py:87 | the two-month horizon covers the month after the reference month, and the next biweekly date falls in the reference month or the one after it |
| `Schedule.FoundInCurrentMonth` | views.py:67-71 | when the next biweekly date is in the reference month, the scan stops exactly at it |
| `Schedule.FoundInNextMonth` | views.py:72-76 | when the next biweekly date is in the following month, every entry of the reference month is earlier and the next month's list starts with that date |
| `Schedule.CurrentMonthPassed` | views.py:68-72 | in that case every entry of the reference month's list is before the reference date |
| `Schedule.PreviousOccurrenceListed` | views.py:67 | in that case the reference month has a list |
| `Schedule.PreviousOccurrenceInMonth` | views.py:67 | in that case the biweekly date 14 days earlier lies in the reference month |
| `Schedule.NextMonthHead` | views.py:76 | in that case the next month's list starts with the next biweekly date |
| `Debits.SkipWeekend` | views.py:47-49 | the result is never a weekend day: a Saturday moves 2 days and a Sunday 1 day forward, to Monday; a weekday is left alone |
| `Debits.ReferenceDate` | views.py:46-51 | the reference date is the later of tomorrow (moved off the weekend) and the first debit date, so it is after today and not before the first debit |
| `Debits.CeilDiv` | views.py:56 | the least quotient whose multiple covers the amount: `q * n >= a` and `q * n - a < n` |
| `Debits.OccurrenceMonthCounted` | views.py:55 | the month of a biweekly date counts at least one date, so the division is defined |
| `Debits.AtMostThreePerMonth` | views.py:55 | no month holds more than three biweekly dates |
| `Debits.CalcBiweekly` | views.py:44-57 | the calculation returns the first biweekly date on or after the reference date, with the monthly amount divided over that date's month and rounded up |
| `Debits.GetNextDebit` | views.py:33-41 | a body without a loan is an error; otherwise the result is the biweekly calculation, whatever the schedule type |
| `Debits.NextDebitDateProperties` | views.py:46-54 | the debit date is a biweekly date on the first debit date's weekday, after today, not before the first debit, within 14 days after the reference date, with no biweekly date in between |
| `Debits.NextDebitAmountProperties` | views.py:55-56 | the date's month counts one to three dates, and the amount times that count covers the monthly amount by less than the count |
| `Debits.SameWeekday` | views.py:90 | stepping by 14 days keeps the weekday |
| `Debits.CeilDivNotOneTooMany` | views.py:56 | for monthly amounts above `(n - 1)^2`, `n - 1` rounded-up shares stay below the monthly amount |
| `Debits.CeilDivSmallAmount` | views.py:56 | with a monthly amount of 1 over 2 dates, one rounded-up share already covers the monthly amount |
| `Debits.ExampleStartDay` | views.py:44-57 | first debit 2023-01-02, run on 2023-01-01, 1000 a month: debit on 2023-01-02 for 334 |
| `Debits.ExampleWeekendSkip` | views.py:47-51 | the same loan run on Friday 2023-01-06: Saturday moves to Monday 2023-01-09, debit on 2023-01-16 for 334 |
| `Debits.ExampleMonthRollover` | views.py:72-76 | the same loan run on 2023-01-30: no January date on or after 2023-01-31, debit on 2023-02-13 for 500 (February holds two dates) |

## Left out

- `get_next_debit_view` and `app.py`: JSON request and response wrapping, URL
  routing and the development server. They contain no scheduling logic.
- The clock. `datetime.utcnow()` is replaced by a `today` parameter.
- Parsing and formatting. `strptime` and `strftime` are not modelled. The
  first debit date is a day number, and the debit date is returned as one. A
  malformed date string, a missing `debit_start_date` or a missing
  `monthly_payment_amount` raises in the source; the model cannot express
  these, because `Loan` is a typed record.
- Debits.CeilDiv: models `math.ceil(monthly / n)` as integer ceiling division.
  Python divides in floating point, which agrees for monthly amounts of
  magnitude below 2^53 and can differ above that.
- The end of Python's calendar, 9999-12-31. The source raises whenever the
  horizon or a step passes it: `ValueError` from `relativedelta` at
  views.py:87 (and at views.py:73), `OverflowError` from the 14-day step at
  views.py:90 or from `+ timedelta` at views.py:46 and views.py:49. This
  happens already for reference dates from about mid-October 9999, with every
  input year at most 9999. The model's years are unbounded, so
  `Debits.CalcBiweekly` returns a debit there.
- `relativedelta` in general. Only adding whole months with the day clamped
  is modelled, which is all views.py:73 and views.py:87 use.
- The keys' string form `f'{year}-{month}'`. A key is a (year, month) pair,
  which identifies a month just as the string does.
- The dict's insertion order. The table is an unordered map, and nothing in
  the core reads the order.
- The source's exceptions. Iterating a missing month (`TypeError`) and
  indexing a missing or empty next month (`TypeError`, `IndexError`) become
  `None` in `Schedule.NextDebitDate`. A body without a loan (`AttributeError`)
  becomes `Failure(MissingLoan)` in `Debits.GetNextDebit`. A schedule type
  that is not a string (an unhashable value raises `TypeError`) is not
  modelled: the type is `Option<string>`.
- `payment_due_date` and `debit_day_of_week` are carried in `Loan` but, as in
  the source, never read.
