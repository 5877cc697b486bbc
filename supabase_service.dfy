/** The streak calculator `calculateStreak` of src/services/supabaseService.ts.
    A completion row's date fields are instants in local-time milliseconds;
    the clock is the explicit argument `nowMs`. */
module SupabaseService {
  import opened Common
  import opened Sorting

  /** The two date fields of a `TaskCompletion` row that the calculator
      reads. `None` stands for every falsy value: null, undefined and "". */
  datatype TaskCompletion = TaskCompletion(completedAt: Option<int>, completedDate: Option<int>)

  /** `c.completed_at || c.completed_date`: whether the row is dated at all. */
  predicate HasDate(c: TaskCompletion)
  {
    c.completedAt.Some? || c.completedDate.Some?
  }

  /** `new Date(c.completed_at || c.completed_date || 0).getTime()`. */
  function Timestamp(c: TaskCompletion): (ms: int)
    ensures c.completedAt.Some? ==> ms == c.completedAt.value
    ensures c.completedAt.None? && c.completedDate.Some? ==> ms == c.completedDate.value
    ensures !HasDate(c) ==> ms == 0
  {
    if c.completedAt.Some? then c.completedAt.value
    else if c.completedDate.Some? then c.completedDate.value
    else 0
  }

  /** The calendar days on which some dated row falls. */
  function DatedDays(completions: seq<TaskCompletion>): set<int>
  {
    set c | c in completions && HasDate(c) :: DayOf(Timestamp(c))
  }

  /** How many of the days `day`, `day - step`, `day - 2 * step`, ... lie in
      `days` before the first one that does not. */
  function Run(days: set<int>, day: int, step: nat): nat
    requires step > 0
    decreases |days|
  {
    if day in days then 1 + Run(days - {day}, day - step, step) else 0
  }

  /** The first `n` days of the walk from `day` in steps of `step` all lie in `days`. */
  ghost predicate Covered(days: set<int>, day: int, step: nat, n: nat)
  {
    forall k :: 0 <= k < n ==> day - step * k in days
  }

  /** A covered walk whose next day is in `days` is covered one day further. */
  lemma CoveredExtend(days: set<int>, day: int, step: nat, n: nat)
    requires Covered(days, day, step, n) && day - step * n in days
    ensures Covered(days, day, step, n + 1)
  {
  }

  /** The walk from `day` covers its first `Run(days, day, step)` days. */
  lemma {:induction false} RunCovered(days: set<int>, day: int, step: nat)
    requires step > 0
    ensures Covered(days, day, step, Run(days, day, step))
    decreases |days|
  {
    if day in days {
      var rest := days - {day};
      RunCovered(rest, day - step, step);
      var r := Run(days, day, step);
      forall k | 0 <= k < r ensures day - step * k in days {
        if k > 0 {
          assert day - step * k == (day - step) - step * (k - 1);
          assert (day - step) - step * (k - 1) in rest;
        }
      }
    }
  }

  /** The day the walk stops at is missing from `days`. */
  lemma {:induction false} RunStopsAtGap(days: set<int>, day: int, step: nat)
    requires step > 0
    ensures day - step * Run(days, day, step) !in days
    decreases |days|
  {
    if day in days {
      var rest := days - {day};
      RunStopsAtGap(rest, day - step, step);
      var r := Run(days, day, step);
      assert day - step * r == (day - step) - step * (r - 1);
      assert day - step * r < day;
    }
  }

  /** A covered walk that ends at a missing day has length `Run`: the walk
      stops at its first gap and nowhere else. */
  lemma {:induction false} RunUnique(days: set<int>, day: int, step: nat, n: nat)
    requires step > 0
    requires Covered(days, day, step, n) && day - step * n !in days
    ensures n == Run(days, day, step)
    decreases |days|
  {
    if n == 0 {
    } else {
      assert day - step * 0 in days;
      var rest := days - {day};
      forall k | 0 <= k < n - 1 ensures (day - step) - step * k in rest {
        assert (day - step) - step * k == day - step * (k + 1);
        assert day - step * (k + 1) < day;
      }
      assert (day - step) - step * (n - 1) == day - step * n;
      RunUnique(rest, day - step, step, n - 1);
    }
  }

  /** The streak the calculator answers as written: the walk from today in
      steps of two days (see `CalculateStreak`). */
  function AsWrittenStreak(completions: seq<TaskCompletion>, nowMs: int): nat
  {
    Run(DatedDays(completions), DayOf(nowMs), 2)
  }

  /** The streak the calculator evidently means: consecutive completion days
      ending today. */
  function ConsecutiveStreak(completions: seq<TaskCompletion>, nowMs: int): nat
  {
    Run(DatedDays(completions), DayOf(nowMs), 1)
  }

  /** The dated rows, copied into an array and sorted most recent first. */
  method SortedDated(completions: seq<TaskCompletion>) returns (sorted: array<TaskCompletion>)
    ensures fresh(sorted)
    ensures NewestFirst(sorted[..], Timestamp)
    ensures multiset(sorted[..]) == multiset(Filter(HasDate, completions))
    ensures forall j :: 0 <= j < sorted.Length ==> HasDate(sorted[j]) && sorted[j] in completions
    ensures forall c :: c in completions && HasDate(c) ==> c in sorted[..]
  {
    var dated := Filter(HasDate, completions);
    sorted := new TaskCompletion[|dated|](j requires 0 <= j < |dated| => dated[j]);
    assert sorted[..] == dated;
    SortNewestFirst(sorted, Timestamp);
    forall c | c in completions && HasDate(c) ensures c in sorted[..] {
      assert c in multiset(dated);
      assert c in multiset(sorted[..]);
    }
    forall j | 0 <= j < sorted.Length ensures HasDate(sorted[j]) && sorted[j] in completions {
      assert sorted[j] in multiset(sorted[..]);
      assert sorted[j] in multiset(dated);
    }
  }

  /** The calendar days of a list of rows. */
  function RowDays(rows: seq<TaskCompletion>): set<int>
  {
    set j | 0 <= j < |rows| :: DayOf(Timestamp(rows[j]))
  }

  /** The sorted dated rows fall on exactly the dated days of the input. */
  lemma SortedDatedDays(completions: seq<TaskCompletion>, rows: seq<TaskCompletion>)
    requires forall j :: 0 <= j < |rows| ==> HasDate(rows[j]) && rows[j] in completions
    requires forall c :: c in completions && HasDate(c) ==> c in rows
    ensures RowDays(rows) == DatedDays(completions)
  {
    forall d | d in DatedDays(completions) ensures d in RowDays(rows) {
      var c :| c in completions && HasDate(c) && DayOf(Timestamp(c)) == d;
      var j :| 0 <= j < |rows| && rows[j] == c;
    }
  }

  /** `calculateStreak` as written: the rows are sorted most recent first and
      walked while `diffDays` (whole days from `currentDate` back to the row)
      equals the streak so far; a match extends the streak and moves
      `currentDate` back one day, a larger gap ends the walk, a smaller one
      skips the row. Because `currentDate` moves back while the streak also
      grows, the k-th matching day is `today - 2 * (k - 1)`. */
  method CalculateStreak(completions: seq<TaskCompletion>, nowMs: int) returns (streak: nat)
    ensures streak == AsWrittenStreak(completions, nowMs)
  {
    if |completions| == 0 {
      return 0;
    }
    var sorted := SortedDated(completions);
    var rows := sorted[..];
    SortedDatedDays(completions, rows);
    streak := WalkAsWritten(rows, DayOf(nowMs));
  }

  /** The loop of `calculateStreak` over rows sorted most recent first,
      starting from the calendar day `today`. */
  method WalkAsWritten(rows: seq<TaskCompletion>, today: int) returns (streak: nat)
    requires NewestFirst(rows, Timestamp)
    ensures streak == Run(RowDays(rows), today, 2)
  {
    ghost var days := RowDays(rows);
    streak := 0;
    var currentDay := today;
    var i := 0;
    while i < |rows|
      invariant 0 <= i <= |rows|
      invariant currentDay == today - streak
      invariant Covered(days, today, 2, streak)
      invariant forall j :: 0 <= j < i ==> DayOf(Timestamp(rows[j])) > today - 2 * streak
    {
      var completionDay := DayOf(Timestamp(rows[i]));
      var diffDays := currentDay - completionDay;
      if diffDays == streak {
        assert completionDay in days;
        CoveredExtend(days, today, 2, streak);
        streak := streak + 1;
        currentDay := currentDay - 1;
      } else if diffDays > streak {
        forall j | i <= j < |rows| ensures DayOf(Timestamp(rows[j])) < today - 2 * streak {
          DayOfMonotone(Timestamp(rows[j]), Timestamp(rows[i]));
        }
        break;
      }
      i := i + 1;
    }
    assert today - 2 * streak !in days;
    RunUnique(days, today, 2, streak);
  }

  /** The calculator with the evidently intended walk: `currentDate` stays at
      today, so the k-th matching day is `today - (k - 1)`. */
  method CalculateStreakCorrected(completions: seq<TaskCompletion>, nowMs: int) returns (streak: nat)
    ensures streak == ConsecutiveStreak(completions, nowMs)
  {
    if |completions| == 0 {
      return 0;
    }
    var sorted := SortedDated(completions);
    var rows := sorted[..];
    SortedDatedDays(completions, rows);
    streak := WalkConsecutive(rows, DayOf(nowMs));
  }

  /** The corrected loop over rows sorted most recent first. */
  method WalkConsecutive(rows: seq<TaskCompletion>, today: int) returns (streak: nat)
    requires NewestFirst(rows, Timestamp)
    ensures streak == Run(RowDays(rows), today, 1)
  {
    ghost var days := RowDays(rows);
    streak := 0;
    var i := 0;
    while i < |rows|
      invariant 0 <= i <= |rows|
      invariant Covered(days, today, 1, streak)
      invariant forall j :: 0 <= j < i ==> DayOf(Timestamp(rows[j])) > today - streak
    {
      var completionDay := DayOf(Timestamp(rows[i]));
      var diffDays := today - completionDay;
      if diffDays == streak {
        assert completionDay in days;
        CoveredExtend(days, today, 1, streak);
        streak := streak + 1;
      } else if diffDays > streak {
        forall j | i <= j < |rows| ensures DayOf(Timestamp(rows[j])) < today - streak {
          DayOfMonotone(Timestamp(rows[j]), Timestamp(rows[i]));
        }
        break;
      }
      i := i + 1;
    }
    assert today - 1 * streak !in days;
    RunUnique(days, today, 1, streak);
  }

  /** What the intended streak means: today and the `n - 1` days before it
      all have a completion, and the day before those has none. */
  lemma ConsecutiveStreakMeaning(completions: seq<TaskCompletion>, nowMs: int)
    ensures var n := ConsecutiveStreak(completions, nowMs);
      (forall d :: DayOf(nowMs) - n < d <= DayOf(nowMs) ==> d in DatedDays(completions)) &&
      DayOf(nowMs) - n !in DatedDays(completions)
  {
    var days, today := DatedDays(completions), DayOf(nowMs);
    RunCovered(days, today, 1);
    RunStopsAtGap(days, today, 1);
    var n := Run(days, today, 1);
    forall d | today - n < d <= today ensures d in days {
      assert today - 1 * (today - d) == d;
    }
  }

  /** Neither streak depends on the order of the rows: the calculator sorts them. */
  lemma StreakOrderIndependent(a: seq<TaskCompletion>, b: seq<TaskCompletion>, nowMs: int)
    requires multiset(a) == multiset(b)
    ensures AsWrittenStreak(a, nowMs) == AsWrittenStreak(b, nowMs)
    ensures ConsecutiveStreak(a, nowMs) == ConsecutiveStreak(b, nowMs)
  {
    forall c ensures c in a <==> c in b {
      assert c in a <==> c in multiset(a);
      assert c in b <==> c in multiset(b);
    }
    assert DatedDays(a) == DatedDays(b);
  }

  /** A row with neither date is filtered out and changes neither streak. */
  lemma UndatedRowIgnored(completions: seq<TaskCompletion>, row: TaskCompletion, nowMs: int)
    requires !HasDate(row)
    ensures AsWrittenStreak(completions + [row], nowMs) == AsWrittenStreak(completions, nowMs)
    ensures ConsecutiveStreak(completions + [row], nowMs) == ConsecutiveStreak(completions, nowMs)
  {
    assert DatedDays(completions + [row]) == DatedDays(completions);
  }

  /** A second row on an already completed day changes neither streak. */
  lemma SameDayRowIgnored(completions: seq<TaskCompletion>, row: TaskCompletion, nowMs: int)
    requires HasDate(row)
    requires exists c :: c in completions && HasDate(c) && DayOf(Timestamp(c)) == DayOf(Timestamp(row))
    ensures AsWrittenStreak(completions + [row], nowMs) == AsWrittenStreak(completions, nowMs)
    ensures ConsecutiveStreak(completions + [row], nowMs) == ConsecutiveStreak(completions, nowMs)
  {
    assert DatedDays(completions + [row]) == DatedDays(completions);
  }

  /** Days after the start of the walk play no part in it. */
  lemma {:induction false} RunIgnoresLater(days: set<int>, later: int, day: int, step: nat)
    requires step > 0 && later > day
    ensures Run(days + {later}, day, step) == Run(days, day, step)
    decreases |days|
  {
    if day in days {
      assert (days + {later}) - {day} == (days - {day}) + {later};
      RunIgnoresLater(days - {day}, later, day - step, step);
    }
  }

  /** A row dated after today changes neither streak. */
  lemma FutureRowIgnored(completions: seq<TaskCompletion>, row: TaskCompletion, nowMs: int)
    requires HasDate(row) && DayOf(Timestamp(row)) > DayOf(nowMs)
    ensures AsWrittenStreak(completions + [row], nowMs) == AsWrittenStreak(completions, nowMs)
    ensures ConsecutiveStreak(completions + [row], nowMs) == ConsecutiveStreak(completions, nowMs)
  {
    var later := DayOf(Timestamp(row));
    assert DatedDays(completions + [row]) == DatedDays(completions) + {later};
    RunIgnoresLater(DatedDays(completions), later, DayOf(nowMs), 2);
    RunIgnoresLater(DatedDays(completions), later, DayOf(nowMs), 1);
  }

  /** Both streaks are positive exactly when some row is dated today. */
  lemma StreakPositiveIffCompletedToday(completions: seq<TaskCompletion>, nowMs: int)
    ensures AsWrittenStreak(completions, nowMs) > 0 <==>
      exists c :: c in completions && HasDate(c) && DayOf(Timestamp(c)) == DayOf(nowMs)
    ensures ConsecutiveStreak(completions, nowMs) > 0 <==> AsWrittenStreak(completions, nowMs) > 0
  {
  }

  /** A walk never counts more days than there are. */
  lemma {:induction false} RunBounded(days: set<int>, day: int, step: nat)
    requires step > 0
    ensures Run(days, day, step) <= |days|
    decreases |days|
  {
    if day in days {
      RunBounded(days - {day}, day - step, step);
    }
  }

  /** Neither streak exceeds the number of distinct completion days. */
  lemma StreakBoundedByDays(completions: seq<TaskCompletion>, nowMs: int)
    ensures AsWrittenStreak(completions, nowMs) <= |DatedDays(completions)|
    ensures ConsecutiveStreak(completions, nowMs) <= |DatedDays(completions)|
  {
    RunBounded(DatedDays(completions), DayOf(nowMs), 2);
    RunBounded(DatedDays(completions), DayOf(nowMs), 1);
  }

  /** A row completed at `ms`. */
  function DatedRow(ms: int): (c: TaskCompletion)
    ensures HasDate(c) && Timestamp(c) == ms
  {
    TaskCompletion(Some(ms), None)
  }

  /** The discrepancy: completions today, yesterday and the day before give
      the as-written calculator a streak of 2 where 3 is meant, and
      completions today and two days ago give it 2 where 1 is meant. */
  lemma AsWrittenStreakCounterexample(nowMs: int)
    ensures var three := [DatedRow(nowMs), DatedRow(nowMs - DayMs), DatedRow(nowMs - 2 * DayMs)];
      AsWrittenStreak(three, nowMs) == 2 && ConsecutiveStreak(three, nowMs) == 3
    ensures var gapped := [DatedRow(nowMs), DatedRow(nowMs - 2 * DayMs)];
      AsWrittenStreak(gapped, nowMs) == 2 && ConsecutiveStreak(gapped, nowMs) == 1
  {
    var t := DayOf(nowMs);
    assert DayOf(nowMs - DayMs) == t - 1;
    assert DayOf(nowMs - 2 * DayMs) == t - 2;
    var three := [DatedRow(nowMs), DatedRow(nowMs - DayMs), DatedRow(nowMs - 2 * DayMs)];
    assert DatedDays(three) == {t, t - 1, t - 2};
    // every other day from today: t, then t - 2, then t - 4 is missing
    assert {t, t - 1, t - 2} - {t} == {t - 1, t - 2};
    assert {t - 1, t - 2} - {t - 2} == {t - 1};
    assert Run({t - 1}, t - 4, 2) == 0;
    assert Run({t - 1, t - 2}, t - 2, 2) == 1;
    assert Run({t, t - 1, t - 2}, t, 2) == 2;
    // consecutive days from today: t, t - 1, t - 2, then t - 3 is missing
    assert {t - 1, t - 2} - {t - 1} == {t - 2};
    assert {t - 2} - {t - 2} == {};
    assert Run({}, t - 3, 1) == 0;
    assert Run({t - 2}, t - 2, 1) == 1;
    assert Run({t - 1, t - 2}, t - 1, 1) == 2;
    assert Run({t, t - 1, t - 2}, t, 1) == 3;
    var gapped := [DatedRow(nowMs), DatedRow(nowMs - 2 * DayMs)];
    assert DatedDays(gapped) == {t, t - 2};
    assert {t, t - 2} - {t} == {t - 2};
    assert Run({}, t - 4, 2) == 0;
    assert Run({t - 2}, t - 2, 2) == 1;
    assert Run({t, t - 2}, t, 2) == 2;
    assert Run({t - 2}, t - 1, 1) == 0;
    assert Run({t, t - 2}, t, 1) == 1;
  }
}
