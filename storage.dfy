/** The on-device progress store of src/lib/storage.ts: user preferences with
    the day streak, the append-only list of completed skills and the
    "today's skill" slot keyed by date. Each localStorage key is a field of
    `LocalStore`; values are kept as typed values instead of JSON text, and
    the clock is an explicit `nowMs` argument (local-time milliseconds). */
module Storage {
  import opened Common

  /** A practicable skill; `imageUrl` is optional. */
  datatype Skill = Skill(id: string, title: string, description: string, category: string, imageUrl: Option<string>)

  /** A skill as recorded on completion: the completion instant (the ISO
      timestamp, as milliseconds) and its 1-based position in the list. */
  datatype CompletedSkill = CompletedSkill(skill: Skill, completedDate: int, dayNumber: int)

  /** The stored preferences. `lastCompletedDate` is the calendar day of the
      last completion (the `toDateString()` text, as a day number); `joinDate`
      is an instant in milliseconds. */
  datatype UserPreferences = UserPreferences(
    interests: seq<string>,
    isNewUser: bool,
    streak: int,
    lastCompletedDate: Option<int>,
    joinDate: int)

  /** The preferences a new user starts with. */
  function Defaults(nowMs: int): (p: UserPreferences)
    ensures p.interests == [] && p.isNewUser
    ensures p.streak == 0 && p.lastCompletedDate == None
    ensures p.joinDate == nowMs
  {
    UserPreferences([], true, 0, None, nowMs)
  }

  /** What `getUserPreferences` reads: the stored record, or the defaults. */
  function Loaded(stored: Option<UserPreferences>, nowMs: int): (p: UserPreferences)
    ensures stored.Some? ==> p == stored.value
    ensures stored.None? ==> p == Defaults(nowMs)
  {
    match stored
    case Some(q) => q
    case None => Defaults(nowMs)
  }

  /** The preferences `updateStreak` leaves on calendar day `today`. */
  function StreakUpdated(p: UserPreferences, today: int): (q: UserPreferences)
    ensures q.lastCompletedDate == Some(today)
    ensures q.interests == p.interests && q.isNewUser == p.isNewUser && q.joinDate == p.joinDate
    ensures p.lastCompletedDate == Some(today) ==> q == p
    ensures p.lastCompletedDate == Some(today - 1) ==> q.streak == p.streak + 1
    ensures p.lastCompletedDate != Some(today) && p.lastCompletedDate != Some(today - 1) ==> q.streak == 1
  {
    if p.lastCompletedDate == Some(today) then p
    else if p.lastCompletedDate == Some(today - 1) then p.(streak := p.streak + 1, lastCompletedDate := Some(today))
    else p.(streak := 1, lastCompletedDate := Some(today))
  }

  /** The preferences `resetStreak` leaves. */
  function StreakReset(p: UserPreferences): (q: UserPreferences)
    ensures q.streak == 0 && q.lastCompletedDate == None
    ensures q.interests == p.interests && q.isNewUser == p.isNewUser && q.joinDate == p.joinDate
  {
    p.(streak := 0, lastCompletedDate := None)
  }

  /** The relation every write of this file keeps between the streak and the
      last completion day: no completion means no streak, and a recorded
      completion day means a streak of at least one. */
  predicate StreakConsistent(p: UserPreferences)
  {
    (p.lastCompletedDate == None ==> p.streak == 0) &&
    (p.lastCompletedDate != None ==> p.streak >= 1)
  }

  /** Defaults, `updateStreak` and `resetStreak` all keep `StreakConsistent`. */
  lemma StreakWritesConsistent(p: UserPreferences, today: int, nowMs: int)
    ensures StreakConsistent(Defaults(nowMs))
    ensures StreakConsistent(p) ==> StreakConsistent(StreakUpdated(p, today))
    ensures StreakConsistent(StreakReset(p))
  {
  }

  /** `updateStreak` is idempotent within a day: a second completion on the
      same day changes nothing, whatever the first one did. */
  lemma StreakUpdateIdempotent(p: UserPreferences, today: int)
    ensures StreakUpdated(StreakUpdated(p, today), today) == StreakUpdated(p, today)
  {
  }

  /** Completed skills carry their 1-based positions as day numbers. */
  predicate DayNumbered(s: seq<CompletedSkill>)
  {
    forall i :: 0 <= i < |s| ==> s[i].dayNumber == i + 1
  }

  /** The record `saveCompletedSkill` appends to `s` at instant `nowMs`. */
  function CompletionRecord(s: seq<CompletedSkill>, skill: Skill, nowMs: int): (c: CompletedSkill)
    ensures c.skill == skill && c.completedDate == nowMs
    ensures c.dayNumber == |s| + 1
    ensures DayNumbered(s) ==> DayNumbered(s + [c])
  {
    CompletedSkill(skill, nowMs, |s| + 1)
  }

  /** The browser's localStorage under the four keys of storage.ts. An absent
      completed-skills key reads as the empty list, so it is modelled as one. */
  class LocalStore {
    var preferences: Option<UserPreferences>   // skillspark_user_preferences
    var completedSkills: seq<CompletedSkill>   // skillspark_completed_skills
    var todaySkill: Option<Skill>              // skillspark_today_skill
    var lastSkillDate: Option<int>             // skillspark_last_skill_date (a day number)

    /** A store with nothing saved yet. */
    constructor ()
      ensures preferences == None && completedSkills == []
      ensures todaySkill == None && lastSkillDate == None
    {
      preferences := None;
      completedSkills := [];
      todaySkill := None;
      lastSkillDate := None;
    }

    /** `getUserPreferences`: the stored preferences, or the defaults, which
        are then saved. */
    method GetUserPreferences(nowMs: int) returns (p: UserPreferences)
      modifies this`preferences
      ensures p == Loaded(old(preferences), nowMs)
      ensures preferences == Some(p)
      ensures old(preferences).Some? ==> preferences == old(preferences)
    {
      if preferences.Some? {
        p := preferences.value;
      } else {
        p := Defaults(nowMs);
        SaveUserPreferences(p);
      }
    }

    /** `saveUserPreferences`: overwrites the stored preferences. */
    method SaveUserPreferences(p: UserPreferences)
      modifies this`preferences
      ensures preferences == Some(p)
    {
      preferences := Some(p);
    }

    /** `getTodaySkill`: on a day other than the one the slot was saved on,
        clears the slot and answers null; otherwise answers the slot. */
    method GetTodaySkill(nowMs: int) returns (s: Option<Skill>)
      modifies this`todaySkill
      ensures old(lastSkillDate) != Some(DayOf(nowMs)) ==> s == None && todaySkill == None
      ensures old(lastSkillDate) == Some(DayOf(nowMs)) ==> s == old(todaySkill) && todaySkill == old(todaySkill)
    {
      if lastSkillDate != Some(DayOf(nowMs)) {
        todaySkill := None;
        return None;
      }
      s := todaySkill;
    }

    /** `saveTodaySkill`: stores the skill and stamps the slot with today. */
    method SaveTodaySkill(skill: Skill, nowMs: int)
      modifies this`todaySkill, this`lastSkillDate
      ensures todaySkill == Some(skill) && lastSkillDate == Some(DayOf(nowMs))
    {
      todaySkill := Some(skill);
      lastSkillDate := Some(DayOf(nowMs));
    }

    /** `getCompletedSkills`: the stored list (empty when nothing is stored). */
    function GetCompletedSkills(): (s: seq<CompletedSkill>)
      reads this
      ensures s == completedSkills
    {
      completedSkills
    }

    /** `saveCompletedSkill`: appends one record numbered after the existing
        ones, then applies `updateStreak`. */
    method SaveCompletedSkill(skill: Skill, nowMs: int)
      modifies this`completedSkills, this`preferences
      ensures completedSkills == old(completedSkills) + [CompletionRecord(old(completedSkills), skill, nowMs)]
      ensures completedSkills[|old(completedSkills)|].dayNumber == |old(completedSkills)| + 1
      ensures preferences == Some(StreakUpdated(Loaded(old(preferences), nowMs), DayOf(nowMs)))
      ensures DayNumbered(old(completedSkills)) ==> DayNumbered(completedSkills)
    {
      var completed := GetCompletedSkills();
      var record := CompletionRecord(completed, skill, nowMs);
      completedSkills := completed + [record];
      UpdateStreak(nowMs);
    }

    /** `updateStreak`: same day, no change; the day after the last
        completion, one more; otherwise (or never before), a streak of one.
        The completion day is then today. */
    method UpdateStreak(nowMs: int)
      modifies this`preferences
      ensures preferences == Some(StreakUpdated(Loaded(old(preferences), nowMs), DayOf(nowMs)))
      ensures preferences.value.lastCompletedDate == Some(DayOf(nowMs))
    {
      var p := GetUserPreferences(nowMs);
      var today := DayOf(nowMs);
      var yesterday := DayOf(nowMs - DayMs);
      assert yesterday == today - 1;
      if p.lastCompletedDate == Some(today) {
        return;
      }
      if p.lastCompletedDate == Some(yesterday) {
        p := p.(streak := p.streak + 1);
      } else if p.lastCompletedDate != None {
        p := p.(streak := 1);
      } else {
        p := p.(streak := 1);
      }
      p := p.(lastCompletedDate := Some(today));
      SaveUserPreferences(p);
    }

    /** `resetStreak`: streak zero and no last completion; the other
        preferences are kept. */
    method ResetStreak(nowMs: int)
      modifies this`preferences
      ensures preferences == Some(StreakReset(Loaded(old(preferences), nowMs)))
    {
      var p := GetUserPreferences(nowMs);
      p := p.(streak := 0);
      p := p.(lastCompletedDate := None);
      SaveUserPreferences(p);
    }

    /** `isSkillCompletedToday`: whether the last completion day is today
        (reading the preferences saves the defaults if none were stored). */
    method IsSkillCompletedToday(nowMs: int) returns (done: bool)
      modifies this`preferences
      ensures done <==> Loaded(old(preferences), nowMs).lastCompletedDate == Some(DayOf(nowMs))
      ensures preferences == Some(Loaded(old(preferences), nowMs))
    {
      var p := GetUserPreferences(nowMs);
      done := p.lastCompletedDate == Some(DayOf(nowMs));
    }
  }

  /** After a completion, the skill counts as completed today. */
  method CompletedTodayAfterSave(store: LocalStore, skill: Skill, nowMs: int) returns (done: bool)
    modifies store
    ensures done
  {
    store.SaveCompletedSkill(skill, nowMs);
    done := store.IsSkillCompletedToday(nowMs);
  }

  /** Two completions on one day add two records but move the streak once. */
  method TwoCompletionsOneDay(store: LocalStore, first: Skill, second: Skill, nowMs: int)
    modifies store
    ensures |store.completedSkills| == |old(store.completedSkills)| + 2
    ensures store.preferences == Some(StreakUpdated(Loaded(old(store.preferences), nowMs), DayOf(nowMs)))
  {
    store.SaveCompletedSkill(first, nowMs);
    store.SaveCompletedSkill(second, nowMs);
    StreakUpdateIdempotent(Loaded(old(store.preferences), nowMs), DayOf(nowMs));
  }

  /** A skill saved for today is what `getTodaySkill` answers later that day. */
  method TodaySkillRoundTrip(store: LocalStore, skill: Skill, savedMs: int, laterMs: int) returns (s: Option<Skill>)
    requires DayOf(savedMs) == DayOf(laterMs)
    modifies store
    ensures s == Some(skill)
  {
    store.SaveTodaySkill(skill, savedMs);
    s := store.GetTodaySkill(laterMs);
  }

  /** The slot is cleared, and only the slot, once the day has changed. */
  method TodaySkillExpires(store: LocalStore, skill: Skill, savedMs: int, laterMs: int) returns (s: Option<Skill>)
    requires DayOf(savedMs) != DayOf(laterMs)
    modifies store
    ensures s == None && store.todaySkill == None
    ensures store.lastSkillDate == Some(DayOf(savedMs))
    ensures store.preferences == old(store.preferences) && store.completedSkills == old(store.completedSkills)
  {
    store.SaveTodaySkill(skill, savedMs);
    s := store.GetTodaySkill(laterMs);
  }
}
