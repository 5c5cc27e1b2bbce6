/** The biweekly occurrence table of views.py (`schedule_table`) and the lookup
    of the next occurrence on or after a reference date (`next_debit_date`). */
module Schedule {
  import opened Calendar
  import opened Wrappers

  /** The table the builder returns: month key to the dates of that month, in
      the order they were appended. */
  type Table = map<MonthKey, seq<Ordinal>>

  /** The `i`-th biweekly date counted from the anchor (the anchor is the 0-th). */
  function Occurrence(start: Ordinal, i: nat): Ordinal {
    start + 14 * i
  }

  /** `x` is one of the biweekly dates anchored at `start`. */
  predicate IsOccurrence(start: Ordinal, x: int) {
    x >= start && (x - start) % 14 == 0
  }

  /** How many 14-day steps the builder's loop takes: the last date it appends
      is the first one after `end`, and the one before it is not after `end`. */
  function Steps(start: Ordinal, end: int): (n: nat)
    ensures Occurrence(start, n) > end
    ensures n > 0 ==> Occurrence(start, n - 1) <= end
  {
    if start > end then 0 else (end - start) / 14 + 1
  }

  /** The smallest biweekly date on or after `from`. */
  function FirstOccurrenceFrom(start: Ordinal, from: int): (r: Ordinal)
    ensures IsOccurrence(start, r) && from <= r
    ensures from >= start ==> r < from + 14
    ensures forall x :: IsOccurrence(start, x) && from <= x ==> r <= x
  {
    if from <= start then start else start + 14 * ((from - start + 13) / 14)
  }

  /** How many biweekly dates fall in month `k`: counting from the first one
      on or after the month's first day, the `n`-th is still in the month and
      the one after it is not. */
  function OccurrencesInMonth(start: Ordinal, k: MonthKey): (n: nat)
    requires IsValidKey(k)
    ensures n > 0 ==> FirstOccurrenceFrom(start, FirstDay(k)) + 14 * (n - 1) < FirstDay(k) + MonthLength(k)
    ensures FirstOccurrenceFrom(start, FirstDay(k)) + 14 * n >= FirstDay(k) + MonthLength(k)
  {
    var first := FirstOccurrenceFrom(start, FirstDay(k));
    var last := FirstDay(k) + MonthLength(k) - 1;
    if first > last then 0 else (last - first) / 14 + 1
  }

  /** Every list of `t` is non-empty, holds only biweekly dates of its own
      month that are not after `bound`, and steps by 14 days from its first
      entry. */
  ghost predicate ListsInStep(t: Table, start: Ordinal, bound: int) {
    && (forall k | k in t :: |t[k]| > 0)
    && (forall k, j | k in t && 0 <= j < |t[k]| ::
          && KeyOf(t[k][j]) == k
          && IsOccurrence(start, t[k][j])
          && t[k][j] <= bound
          && t[k][j] == t[k][0] + 14 * j)
  }

  /** Every biweekly date from `Occurrence(start, 0)` through
      `Occurrence(start, last)` is in the list of its month. */
  ghost predicate Covers(t: Table, start: Ordinal, last: nat) {
    forall i | 0 <= i <= last ::
      KeyOf(Occurrence(start, i)) in t && Occurrence(start, i) in t[KeyOf(Occurrence(start, i))]
  }

  /** `t` is the table of the biweekly dates `Occurrence(start, 0)` through
      `Occurrence(start, last)`: the anchor heads its own month's list, the
      lists step by 14 days within their months, and every one of those dates
      is listed. Together these fix the table: each list is exactly its
      month's dates in ascending order, none skipped and none repeated. */
  ghost predicate IsTableOf(t: Table, start: Ordinal, last: nat) {
    && KeyOf(start) in t && |t[KeyOf(start)]| > 0 && t[KeyOf(start)][0] == start
    && ListsInStep(t, start, Occurrence(start, last))
    && Covers(t, start, last)
  }

  /** The builder's initial table, the anchor alone under its month, is the
      table of the dates up to index 0. */
  lemma AnchorTable(start: Ordinal)
    ensures IsTableOf(map[KeyOf(start) := [start]], start, 0)
  {
  }

  /** Appending the next biweekly date under its month key extends a table of
      the dates up to index `i` to one of the dates up to index `i + 1`. */
  lemma AppendNextOccurrence(t: Table, start: Ordinal, i: nat)
    requires IsTableOf(t, start, i)
    ensures var x := Occurrence(start, i + 1);
            var k := KeyOf(x);
            IsTableOf(t[k := (if k in t then t[k] else []) + [x]], start, i + 1)
  {
    AppendKeepsSteps(t, start, i);
    AppendCovers(t, start, i);
  }

  lemma AppendKeepsSteps(t: Table, start: Ordinal, i: nat)
    requires ListsInStep(t, start, Occurrence(start, i)) && Covers(t, start, i)
    ensures var x := Occurrence(start, i + 1);
            var k := KeyOf(x);
            ListsInStep(t[k := (if k in t then t[k] else []) + [x]], start, x)
  {
    var x := Occurrence(start, i + 1);
    var k := KeyOf(x);
    var list := if k in t then t[k] else [];
    if k in t {
      LastEntryIsCurrent(t, start, i);
    }
    var t' := t[k := list + [x]];
    forall kk, j | kk in t' && 0 <= j < |t'[kk]|
      ensures KeyOf(t'[kk][j]) == kk && IsOccurrence(start, t'[kk][j])
      ensures t'[kk][j] <= x && t'[kk][j] == t'[kk][0] + 14 * j
    {
      if kk != k {
        assert t'[kk] == t[kk];
      } else if j < |list| {
        assert t'[kk][j] == list[j];
      }
    }
  }

  lemma AppendCovers(t: Table, start: Ordinal, i: nat)
    requires Covers(t, start, i)
    ensures var x := Occurrence(start, i + 1);
            var k := KeyOf(x);
            Covers(t[k := (if k in t then t[k] else []) + [x]], start, i + 1)
  {
    var x := Occurrence(start, i + 1);
    var k := KeyOf(x);
    var list := if k in t then t[k] else [];
    var t' := t[k := list + [x]];
    forall n | 0 <= n <= i + 1
      ensures KeyOf(Occurrence(start, n)) in t'
      ensures Occurrence(start, n) in t'[KeyOf(Occurrence(start, n))]
    {
      if n <= i && KeyOf(Occurrence(start, n)) == k {
        assert Occurrence(start, n) in list;
      }
    }
  }

  /** If the next biweekly date's month already has a list, that list ends
      with the current date. */
  lemma LastEntryIsCurrent(t: Table, start: Ordinal, i: nat)
    requires ListsInStep(t, start, Occurrence(start, i)) && Covers(t, start, i)
    requires KeyOf(Occurrence(start, i + 1)) in t
    ensures var list := t[KeyOf(Occurrence(start, i + 1))];
            list[|list| - 1] == Occurrence(start, i)
  {
    var cur := Occurrence(start, i);
    var list := t[KeyOf(Occurrence(start, i + 1))];
    var y := list[|list| - 1];
    MonthIsInterval(y, cur, Occurrence(start, i + 1));
    var j :| 0 <= j < |list| && list[j] == cur;
  }

  /** `schedule_table`: starting from the anchor, step 14 days at a time until
      the date passes `target` plus two calendar months, appending each date
      to the list of its (year, month). */
  method ScheduleTable(start: Ordinal, target: Ordinal) returns (schedule: Table)
    ensures IsTableOf(schedule, start, Steps(start, AddMonths(target, 2)))
  {
    var endDate := AddMonths(target, 2);
    var date := start;
    schedule := map[KeyOf(start) := [start]];
    ghost var i: nat := 0;
    AnchorTable(start);
    while date <= endDate
      invariant date == Occurrence(start, i) && i <= Steps(start, endDate)
      invariant IsTableOf(schedule, start, i)
      decreases endDate as int - date as int
    {
      AppendNextOccurrence(schedule, start, i);
      date := date + 14;
      i := i + 1;
      var key := KeyOf(date);
      schedule := schedule[key := (if key in schedule then schedule[key] else []) + [date]];
    }
  }

  /** Each month's list is strictly ascending, and no date appears twice in
      the table, neither within one list nor under two months. */
  lemma TableIsOrdered(t: Table, start: Ordinal, last: nat)
    requires IsTableOf(t, start, last)
    ensures forall k, j1, j2 | k in t && 0 <= j1 < j2 < |t[k]| :: t[k][j1] < t[k][j2]
    ensures forall k1, k2, j1, j2 |
              k1 in t && k2 in t && 0 <= j1 < |t[k1]| && 0 <= j2 < |t[k2]| && t[k1][j1] == t[k2][j2] ::
              k1 == k2 && j1 == j2
  {
  }

  /** A table of the dates up to index `last` is the only one: two such
      tables are equal. */
  lemma TableIsUnique(t1: Table, t2: Table, start: Ordinal, last: nat)
    requires IsTableOf(t1, start, last) && IsTableOf(t2, start, last)
    ensures t1 == t2
  {
    forall k | k in t1 ensures k in t2 && t2[k] == t1[k] {
      SameMonthList(t1, t2, start, last, k);
    }
    forall k | k in t2 ensures k in t1 {
      HeadAndLengthWithin(t2, t1, start, last, k);
    }
  }

  /** Two tables of the same dates hold the same list under a month. */
  lemma SameMonthList(t1: Table, t2: Table, start: Ordinal, last: nat, k: MonthKey)
    requires IsTableOf(t1, start, last) && IsTableOf(t2, start, last) && k in t1
    ensures k in t2 && t2[k] == t1[k]
  {
    HeadAndLengthWithin(t1, t2, start, last, k);
    HeadAndLengthWithin(t2, t1, start, last, k);
    assert forall j | 0 <= j < |t1[k]| :: t1[k][j] == t2[k][j];
  }

  /** The list of month `k` in `t2` starts no later and runs no shorter than
      its list in `t1`, since every date of the one is in the other. */
  lemma HeadAndLengthWithin(t1: Table, t2: Table, start: Ordinal, last: nat, k: MonthKey)
    requires IsTableOf(t1, start, last) && Covers(t2, start, last)
    requires ListsInStep(t2, start, Occurrence(start, last)) && k in t1
    ensures k in t2 && t2[k][0] <= t1[k][0] && |t1[k]| <= |t2[k]|
  {
    var list := t1[k];
    var first := list[0];
    var final := list[|list| - 1];
    InTable(t2, start, last, first);
    InTable(t2, start, last, final);
    var i :| 0 <= i < |t2[k]| && t2[k][i] == first;
    var j :| 0 <= j < |t2[k]| && t2[k][j] == final;
    assert final == first + 14 * (|list| - 1);
    assert t2[k][0] + 14 * j == t2[k][0] + 14 * i + 14 * (|list| - 1);
  }

  /** Every biweekly date up to the last generated one is in its month's list. */
  lemma InTable(t: Table, start: Ordinal, last: nat, x: int)
    requires Covers(t, start, last) && IsOccurrence(start, x) && x <= Occurrence(start, last)
    ensures KeyOf(x) in t && x in t[KeyOf(x)]
  {
    assert x == Occurrence(start, (x - start) / 14);
  }

  /** A month that ends before the last generated date is complete in the
      table: it has a list exactly when it has a biweekly date, and then the
      list starts with the month's first biweekly date and has as many entries
      as the month has biweekly dates. */
  lemma CompleteMonth(t: Table, start: Ordinal, last: nat, k: MonthKey)
    requires IsTableOf(t, start, last) && IsValidKey(k)
    requires FirstDay(k) + MonthLength(k) <= Occurrence(start, last)
    ensures k in t <==> OccurrencesInMonth(start, k) > 0
    ensures k in t ==> t[k][0] == FirstOccurrenceFrom(start, FirstDay(k))
    ensures k in t ==> |t[k]| == OccurrencesInMonth(start, k)
  {
    var first := FirstOccurrenceFrom(start, FirstDay(k));
    var n := OccurrencesInMonth(start, k);
    if n > 0 {
      MonthEntryInTable(t, start, last, k, first);
    }
    if k in t {
      CompleteMonthHead(t, start, last, k);
      CompleteMonthLength(t, start, last, k);
    }
  }

  lemma CompleteMonthHead(t: Table, start: Ordinal, last: nat, k: MonthKey)
    requires IsTableOf(t, start, last) && IsValidKey(k) && k in t
    requires FirstDay(k) + MonthLength(k) <= Occurrence(start, last)
    ensures t[k][0] == FirstOccurrenceFrom(start, FirstDay(k))
  {
    var first := FirstOccurrenceFrom(start, FirstDay(k));
    KeyOfRange(t[k][0], k);
    assert first <= t[k][0];
    MonthEntryInTable(t, start, last, k, first);
  }

  lemma CompleteMonthLength(t: Table, start: Ordinal, last: nat, k: MonthKey)
    requires IsTableOf(t, start, last) && IsValidKey(k) && k in t
    requires FirstDay(k) + MonthLength(k) <= Occurrence(start, last)
    requires t[k][0] == FirstOccurrenceFrom(start, FirstDay(k))
    ensures |t[k]| == OccurrencesInMonth(start, k)
  {
    var list := t[k];
    var first := list[0];
    var n := OccurrencesInMonth(start, k);
    KeyOfRange(list[|list| - 1], k);
    assert list[|list| - 1] == first + 14 * (|list| - 1);
    assert |list| <= n;
    OccurrenceStep(start, first, n - 1);
    MonthEntryInTable(t, start, last, k, first + 14 * (n - 1));
  }

  /** Stepping a biweekly date by whole fortnights gives a biweekly date. */
  lemma OccurrenceStep(start: Ordinal, x: int, j: nat)
    requires IsOccurrence(start, x)
    ensures IsOccurrence(start, x + 14 * j)
  {
    assert x + 14 * j - start == 14 * ((x - start) / 14 + j);
  }

  /** A biweekly date of month `k` that is not after the last generated date
      is in month `k`'s list, at the index its distance from the head gives. */
  lemma MonthEntryInTable(t: Table, start: Ordinal, last: nat, k: MonthKey, x: int)
    requires ListsInStep(t, start, Occurrence(start, last)) && Covers(t, start, last) && IsValidKey(k)
    requires IsOccurrence(start, x) && x <= Occurrence(start, last)
    requires FirstDay(k) <= x < FirstDay(k) + MonthLength(k)
    ensures k in t && t[k][0] <= x && (x - t[k][0]) / 14 < |t[k]|
    ensures t[k][(x - t[k][0]) / 14] == x
  {
    KeyOfRange(x, k);
    InTable(t, start, last, x);
    var j :| 0 <= j < |t[k]| && t[k][j] == x;
    assert (x - t[k][0]) / 14 == j;
  }

  /** Every entry of `list` is before `current`. */
  ghost predicate AllBefore(list: seq<Ordinal>, current: int) {
    forall j :: 0 <= j < |list| ==> list[j] < current
  }

  /** Entry `j` is the first entry of `list`, scanning in order, that is on or
      after `current`. */
  ghost predicate IsFirstOnOrAfter(list: seq<Ordinal>, current: int, j: int) {
    && 0 <= j < |list| && list[j] >= current
    && forall j' :: 0 <= j' < j ==> list[j'] < current
  }

  /** `next_debit_date`: the first date of the reference month's list that is
      on or after `current`; failing that, the first date of the following
      month's list. `None` stands for the source's failures: the reference
      month has no list (iterating `None` raises), or the following month has
      no list or an empty one (indexing raises). */
  method NextDebitDate(current: Ordinal, schedule: Table) returns (debitDate: Option<Ordinal>)
    ensures KeyOf(current) !in schedule ==> debitDate == None
    ensures KeyOf(current) in schedule && !AllBefore(schedule[KeyOf(current)], current) ==>
      exists j :: IsFirstOnOrAfter(schedule[KeyOf(current)], current, j)
               && debitDate == Some(schedule[KeyOf(current)][j])
    ensures KeyOf(current) in schedule && AllBefore(schedule[KeyOf(current)], current) ==>
      var next := KeyOf(AddMonths(current, 1));
      debitDate == if next in schedule && |schedule[next]| > 0 then Some(schedule[next][0]) else None
  {
    debitDate := None;
    var key := KeyOf(current);
    if key !in schedule {
      return;
    }
    var monthSchedule := schedule[key];
    ghost var at := -1;
    for j := 0 to |monthSchedule|
      invariant debitDate == None && at == -1
      invariant forall j' :: 0 <= j' < j ==> monthSchedule[j'] < current
    {
      if monthSchedule[j] >= current {
        debitDate := Some(monthSchedule[j]);
        at := j;
        break;
      }
    }
    if debitDate == None {
      var nextMonth := AddMonths(current, 1);
      var nextKey := KeyOf(nextMonth);
      if nextKey in schedule && |schedule[nextKey]| > 0 {
        debitDate := Some(schedule[nextKey][0]);
      }
    } else {
      assert IsFirstOnOrAfter(monthSchedule, current, at);
    }
  }

  /** On a table built with the two-month margin past a reference date that is
      not before the anchor, the lookup never fails and finds the smallest
      biweekly date on or after the reference date, whichever branch it takes;
      the month of that date is complete in the table. */
  lemma LookupFindsNextOccurrence(t: Table, start: Ordinal, current: Ordinal)
    requires start <= current
    requires IsTableOf(t, start, Steps(start, AddMonths(current, 2)))
    ensures KeyOf(current) in t
    ensures !AllBefore(t[KeyOf(current)], current) ==>
      forall j :: IsFirstOnOrAfter(t[KeyOf(current)], current, j) ==>
        t[KeyOf(current)][j] == FirstOccurrenceFrom(start, current)
    ensures AllBefore(t[KeyOf(current)], current) ==>
      var next := KeyOf(AddMonths(current, 1));
      next in t && |t[next]| > 0 && t[next][0] == FirstOccurrenceFrom(start, current)
    ensures KeyOf(FirstOccurrenceFrom(start, current)) in t
    ensures |t[KeyOf(FirstOccurrenceFrom(start, current))]|
         == OccurrencesInMonth(start, KeyOf(FirstOccurrenceFrom(start, current)))
  {
    var last := Steps(start, AddMonths(current, 2));
    var k0 := KeyOf(current);
    var x := FirstOccurrenceFrom(start, current);
    LookupHorizon(start, current);
    AddMonthsKeys(current);
    NextMonthStarts(k0);
    if KeyOf(x) == k0 {
      FoundInCurrentMonth(t, start, last, current);
    } else {
      FoundInNextMonth(t, start, last, current);
    }
    CompleteMonth(t, start, last, KeyOf(x));
  }

  /** The table built for `current` reaches past the end of the month after
      `current`'s, and the next biweekly date on or after `current` falls in
      `current`'s month or the one after it. */
  lemma LookupHorizon(start: Ordinal, current: Ordinal)
    requires start <= current
    ensures var k1 := NextMonth(KeyOf(current));
            FirstDay(k1) + MonthLength(k1) <= Occurrence(start, Steps(start, AddMonths(current, 2)))
    ensures var x := FirstOccurrenceFrom(start, current);
            && (KeyOf(x) == KeyOf(current) || KeyOf(x) == NextMonth(KeyOf(current)))
            && x < FirstDay(KeyOf(x)) + MonthLength(KeyOf(x))
            && FirstDay(KeyOf(x)) + MonthLength(KeyOf(x)) <= Occurrence(start, Steps(start, AddMonths(current, 2)))
  {
    var k0 := KeyOf(current);
    var k1 := NextMonth(k0);
    var k2 := NextMonth(k1);
    var x := FirstOccurrenceFrom(start, current);
    AddMonthsKeys(current);
    NextMonthStarts(k0);
    NextMonthStarts(k1);
    KeyOfRange(current, k0);
    KeyOfRange(AddMonths(current, 2), k2);
    KeyOfRange(x, k0);
    KeyOfRange(x, k1);
    KeyOfRange(x, KeyOf(x));
  }

  /** When the next biweekly date is in `current`'s month, the scan of that
      month's list stops exactly at it. */
  lemma FoundInCurrentMonth(t: Table, start: Ordinal, last: nat, current: Ordinal)
    requires IsTableOf(t, start, last) && start <= current
    requires var x := FirstOccurrenceFrom(start, current);
             KeyOf(x) == KeyOf(current) && x <= Occurrence(start, last)
    ensures KeyOf(current) in t && !AllBefore(t[KeyOf(current)], current)
    ensures forall j :: IsFirstOnOrAfter(t[KeyOf(current)], current, j) ==>
      t[KeyOf(current)][j] == FirstOccurrenceFrom(start, current)
  {
    var x := FirstOccurrenceFrom(start, current);
    InTable(t, start, last, x);
    var list := t[KeyOf(current)];
    var jx :| 0 <= jx < |list| && list[jx] == x;
    assert !AllBefore(list, current) by {
      assert list[jx] >= current;
    }
    forall j | IsFirstOnOrAfter(list, current, j) ensures list[j] == x {
      assert j <= jx;
      assert list[j] >= x;
    }
  }

  /** When the next biweekly date is in the month after `current`'s, every
      entry of `current`'s list is before `current` and the next month's list
      starts with that date. */
  lemma FoundInNextMonth(t: Table, start: Ordinal, last: nat, current: Ordinal)
    requires IsTableOf(t, start, last) && start <= current
    requires var x := FirstOccurrenceFrom(start, current);
             KeyOf(x) == NextMonth(KeyOf(current)) && x <= Occurrence(start, last)
    ensures KeyOf(current) in t && AllBefore(t[KeyOf(current)], current)
    ensures var k1 := NextMonth(KeyOf(current));
            k1 in t && |t[k1]| > 0 && t[k1][0] == FirstOccurrenceFrom(start, current)
  {
    CurrentMonthPassed(t, start, last, current);
    NextMonthHead(t, start, last, current);
  }

  lemma CurrentMonthPassed(t: Table, start: Ordinal, last: nat, current: Ordinal)
    requires IsTableOf(t, start, last) && start <= current
    requires var x := FirstOccurrenceFrom(start, current);
             KeyOf(x) == NextMonth(KeyOf(current)) && x <= Occurrence(start, last)
    ensures KeyOf(current) in t && AllBefore(t[KeyOf(current)], current)
  {
    var x := FirstOccurrenceFrom(start, current);
    var k0 := KeyOf(current);
    KeyOfRange(x, NextMonth(k0));
    NextMonthStarts(k0);
    PreviousOccurrenceListed(t, start, last, current);
    forall j | 0 <= j < |t[k0]| ensures t[k0][j] < current {
      KeyOfRange(t[k0][j], k0);
    }
  }

  /** The biweekly date before the next one is in `current`'s month, so that
      month has a list. */
  lemma PreviousOccurrenceListed(t: Table, start: Ordinal, last: nat, current: Ordinal)
    requires Covers(t, start, last) && start <= current
    requires var x := FirstOccurrenceFrom(start, current);
             KeyOf(x) == NextMonth(KeyOf(current)) && x <= Occurrence(start, last)
    ensures KeyOf(current) in t
  {
    var x := FirstOccurrenceFrom(start, current);
    PreviousOccurrenceInMonth(start, current);
    InTable(t, start, last, x - 14);
  }

  /** When the next biweekly date on or after `current` is in the following
      month, the one 14 days before it is a biweekly date of `current`'s
      month. */
  lemma PreviousOccurrenceInMonth(start: Ordinal, current: Ordinal)
    requires start <= current
    requires KeyOf(FirstOccurrenceFrom(start, current)) == NextMonth(KeyOf(current))
    ensures var x := FirstOccurrenceFrom(start, current);
            x - 14 >= start && IsOccurrence(start, x - 14) && KeyOf(x - 14) == KeyOf(current)
  {
    var x := FirstOccurrenceFrom(start, current);
    var k0 := KeyOf(current);
    KeyOfRange(current, k0);
    KeyOfRange(x, NextMonth(k0));
    NextMonthStarts(k0);
    assert x > current;
    assert x - 14 < current;
    KeyOfRange(x - 14, k0);
  }

  lemma NextMonthHead(t: Table, start: Ordinal, last: nat, current: Ordinal)
    requires IsTableOf(t, start, last) && start <= current
    requires var x := FirstOccurrenceFrom(start, current);
             KeyOf(x) == NextMonth(KeyOf(current)) && x <= Occurrence(start, last)
    ensures var k1 := NextMonth(KeyOf(current));
            k1 in t && |t[k1]| > 0 && t[k1][0] == FirstOccurrenceFrom(start, current)
  {
    var x := FirstOccurrenceFrom(start, current);
    var k0 := KeyOf(current);
    var k1 := NextMonth(k0);
    KeyOfRange(current, k0);
    NextMonthStarts(k0);
    KeyOfRange(x, k1);
    MonthEntryInTable(t, start, last, k1, x);
    KeyOfRange(t[k1][0], k1);
  }
}
