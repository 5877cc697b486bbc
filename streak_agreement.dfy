/** How the on-device streak of src/lib/storage.ts relates to the
    consecutive-days streak that the backend calculator is meant to compute. */
module StreakAgreement {
  import opened Common
  import opened Storage
  import opened SupabaseService

  /** The preferences after `updateStreak` has run on each of `days` in turn. */
  function CompletedOn(p: UserPreferences, days: seq<int>): UserPreferences
  {
    if days == [] then p
    else StreakUpdated(CompletedOn(p, days[..|days| - 1]), days[|days| - 1])
  }

  /** Completion days that never go back in time. */
  predicate Chronological(days: seq<int>)
  {
    forall i, j :: 0 <= i < j < |days| ==> days[i] <= days[j]
  }

  /** Appending a day adds it to the set of days. */
  lemma ElementsSnoc(days: seq<int>)
    requires |days| > 0
    ensures Elements(days) == Elements(days[..|days| - 1]) + {days[|days| - 1]}
  {
    assert days == days[..|days| - 1] + [days[|days| - 1]];
  }

  /** Extending a walk by a day on or after its start: the same day changes
      nothing, the next day adds one, a later day starts afresh. */
  lemma RunExtend(before: set<int>, prev: int, last: int)
    requires forall d :: d in before ==> d <= prev
    requires prev in before && last >= prev
    ensures last == prev ==> Run(before + {last}, last, 1) == Run(before, prev, 1)
    ensures last == prev + 1 ==> Run(before + {last}, last, 1) == 1 + Run(before, prev, 1)
    ensures last > prev + 1 ==> Run(before + {last}, last, 1) == 1
  {
    if last == prev {
      assert before + {last} == before;
    } else {
      assert (before + {last}) - {last} == before;
      if last > prev + 1 {
        assert last - 1 !in before;
      }
    }
  }

  /** Starting with no recorded completion (a new user, or after
      `resetStreak`) and completing on chronological days, the stored streak
      is the number of consecutive completion days ending with the last one. */
  lemma {:induction false} LocalStreakCountsConsecutiveDays(p: UserPreferences, days: seq<int>)
    requires p.lastCompletedDate == None
    requires |days| > 0 && Chronological(days)
    ensures CompletedOn(p, days).lastCompletedDate == Some(days[|days| - 1])
    ensures CompletedOn(p, days).streak == Run(Elements(days), days[|days| - 1], 1)
  {
    var m := |days| - 1;
    var last := days[m];
    ElementsSnoc(days);
    if m == 0 {
      assert Elements(days) == {last};
      assert Elements(days) - {last} == {};
    } else {
      var prefix := days[..m];
      var prev := prefix[m - 1];
      LocalStreakCountsConsecutiveDays(p, prefix);
      assert prev in Elements(prefix);
      forall d | d in Elements(prefix) ensures d <= prev {
        var i :| 0 <= i < m && prefix[i] == d;
      }
      RunExtend(Elements(prefix), prev, last);
    }
  }

  /** The two streaks agree on the day of the last completion: the rows of
      those completions, dated on `days`, give the corrected calculator the
      stored streak. */
  lemma LocalStreakAgreesWithCorrected(p: UserPreferences, days: seq<int>, rows: seq<TaskCompletion>, nowMs: int)
    requires p.lastCompletedDate == None
    requires |days| > 0 && Chronological(days)
    requires DatedDays(rows) == Elements(days)
    requires DayOf(nowMs) == days[|days| - 1]
    ensures CompletedOn(p, days).streak == ConsecutiveStreak(rows, nowMs)
  {
    LocalStreakCountsConsecutiveDays(p, days);
  }

  /** After a missed day the two disagree: the stored streak is kept until the
      next completion, while the calculator counts no completion today. */
  lemma LocalStreakOutlivesMissedDay(p: UserPreferences, days: seq<int>, rows: seq<TaskCompletion>, nowMs: int)
    requires p.lastCompletedDate == None
    requires |days| > 0 && Chronological(days)
    requires DatedDays(rows) == Elements(days)
    requires DayOf(nowMs) > days[|days| - 1]
    ensures CompletedOn(p, days).streak >= 1
    ensures ConsecutiveStreak(rows, nowMs) == 0
  {
    LocalStreakCountsConsecutiveDays(p, days);
    var all := Elements(days);
    var last := days[|days| - 1];
    assert last in all;
    assert DayOf(nowMs) !in all;
  }
}
