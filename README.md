# SkillSpark day bookkeeping, modelled in Dafny

SkillSpark (the skill-streak-daily app) offers one soft skill a day and
counts the days in a row on which the user practised. This project models
the day-based bookkeeping behind that promise and proves what it does:

- **Skills** (`skills.dfy`): the ten skill categories, the 25-skill
  catalogue, and the daily selector `getSkillForToday`. The selector filters
  the catalogue by interests, drops completed skills (falling back to the
  whole interest pool when none is left) and picks `pool[dayOfYear % |pool|]`.
  `getSkillsByCategory` is modelled too. The selector is proved for every
  catalogue that is well formed. A lemma shows that the fixed catalogue is
  well formed.
- **Storage** (`storage.ts` → `storage.dfy`): the on-device store is the
  class `LocalStore`, with one field per localStorage key. Its methods are
  the functions of the file: preferences with defaults, the "today's skill"
  slot keyed by date, the append-only list of completed skills, and the
  three-way streak update and its reset.
- **Backend streak** (`supabase_service.dfy`): `calculateStreak` is
  modelled literally. It drops undated rows and sorts the rest in place,
  newest first. It then walks the list with a counter and a moving baseline
  date, and the model keeps the early `break`. Its result is proved equal to
  a walk back from today in steps of **two** days. A corrected calculator
  counts consecutive days. `streak_agreement.dfy` relates the corrected
  calculator to the on-device streak.
- **Notifications** (`notifications.dfy`): reading and writing the reminder
  settings (`"HH:MM"` ↔ `"HH:MM:00"`), and the guard of
  `setupDailyNotification`. It also models the delay computed by
  `scheduleNextNotification`. For times before 24:00, that delay is proved
  equal to an independent "next occurrence of this time of day" delay, and a
  rescheduled reminder fires exactly one day later.
- **Archive** (`archive.dfy`): the progress page's list, the page's
  relative-date label, and its category count. The list is sorted in place,
  newest first. The label counts elapsed 24-hour periods in either
  direction. The count is the number of distinct categories.
- `sorting.dfy` holds the in-place newest-first sort shared by the streak
  calculator and the archive page. `common.dfy` holds `Option`, day
  arithmetic and `Array.prototype.filter`.

Instants are integers counting milliseconds in local time. A calendar day is
`DayOf(ms) = Math.floor(ms / 86400000)`, and a `toDateString()` text is
represented by its day number. The clock is always an explicit `nowMs`
argument, and the day of the year is an explicit `dayOfYear`.

Where the interests name no catalogued category, the skill pool is empty and
`pool[n % 0]` is `undefined` in JavaScript. The selector returns `None` in
that case. It does not require a non-empty pool.

## Model

| member | source | states |
|---|---|---|
| Skills.CatalogueWellFormed | src/lib/skills.ts:4-190 | the fixed catalogue covers every listed category, uses only listed categories and has pairwise distinct ids |
| Skills.CategoriesCovered | src/lib/skills.ts:4-190 | every one of the ten categories has at least one skill in the catalogue |
| Skills.CategoriesListed | src/lib/skills.ts:20-190 | every catalogue skill's category is one of the ten listed categories |
| Skills.IdsDistinct | src/lib/skills.ts:20-190 | no two catalogue skills share an id |
| Skills.InterestPool | src/lib/skills.ts:195-197 | the pool holds exactly the catalogue skills whose category is among the interests (all of them for empty interests) |
| Skills.Uncompleted | src/lib/skills.ts:199-209 | exactly the uncompleted pool skills when there are any, otherwise the whole pool; empty only for an empty pool |
| Skills.PickForDay | src/lib/skills.ts:212-216 | the pick is absent exactly for an empty pool and is otherwise a pool member |
| Skills.SkillForToday | src/lib/skills.ts:193-217 | no skill exactly when the interest pool is empty; otherwise a catalogue skill of one of the interests, completed only if the whole interest pool is completed, taken from the daily pool |
| Skills.GetSkillForToday | src/lib/skills.ts:193-217 | with the fixed catalogue, a skill is returned exactly when the interests are empty or name a listed category; it is a catalogue skill of one of the interests, completed only once every skill of the interests is completed |
| Skills.SkillsInCategory | src/lib/skills.ts:219-221 | exactly the catalogue entries of the given category |
| Skills.GetSkillsByCategory | src/lib/skills.ts:219-221 | exactly the catalogue skills of the category, at least one for every category |
| Skills.SkillsInCategoryNonEmpty | src/lib/skills.ts:219-221 | in a well-formed catalogue a category has skills exactly when it is listed |
| Skills.SkillsByCategoryIsInterestPool | src/lib/skills.ts:219-221 | the category lookup equals the interest pool of that single interest, order included |
| Skills.InterestPoolNonEmpty | src/lib/skills.ts:195-197 | the interest pool is non-empty exactly when interests are empty or name a listed category |
| Skills.DailyPoolDistinct | src/lib/skills.ts:199-209 | the pool the selector indexes has no repeated skill |
| Skills.NextDayNextSkill | src/lib/skills.ts:212-216 | the next day selects the next pool position, wrapping after the last |
| Skills.RotationCoversPool | src/lib/skills.ts:212-216 | any run of pool-size consecutive days selects every pool skill, each exactly once when the pool has no repeats |
| Storage.Defaults | src/lib/storage.ts:38-45 | no interests, a new user, streak 0, no last completion, joined now |
| Storage.Loaded | src/lib/storage.ts:32-49 | the stored preferences if any, else the defaults |
| Storage.StreakUpdated | src/lib/storage.ts:100-123 | same day: unchanged; day after the last completion: streak + 1; otherwise streak 1; last completion becomes today; other fields kept |
| Storage.StreakReset | src/lib/storage.ts:125-130 | streak 0 and no last completion; interests, new-user flag and join date kept |
| Storage.StreakWritesConsistent | src/lib/storage.ts:100-130 | defaults, update and reset all keep "no last completion iff streak 0, else streak ≥ 1" |
| Storage.StreakUpdateIdempotent | src/lib/storage.ts:105-108 | a second update on the same day changes nothing |
| Storage.CompletionRecord | src/lib/storage.ts:86-90 | the new record carries the skill, the instant, and the next 1-based day number |
| Storage.LocalStore.constructor | src/lib/storage.ts:23-29 | a store with none of the four keys set |
| Storage.LocalStore.GetUserPreferences | src/lib/storage.ts:32-49 | returns the stored preferences, or the defaults, which it then saves |
| Storage.LocalStore.SaveUserPreferences | src/lib/storage.ts:51-53 | the preferences key holds the given preferences |
| Storage.LocalStore.GetTodaySkill | src/lib/storage.ts:56-68 | on a new day clears the slot and returns nothing; on the saved day returns the slot |
| Storage.LocalStore.SaveTodaySkill | src/lib/storage.ts:70-74 | stores the skill and stamps the slot with today |
| Storage.LocalStore.GetCompletedSkills | src/lib/storage.ts:77-80 | the stored list, empty when nothing is stored |
| Storage.LocalStore.SaveCompletedSkill | src/lib/storage.ts:82-97 | appends exactly one record numbered old length + 1, keeps earlier records, then applies the streak update |
| Storage.LocalStore.UpdateStreak | src/lib/storage.ts:100-123 | the stored preferences become the streak update of the loaded ones for today |
| Storage.LocalStore.ResetStreak | src/lib/storage.ts:125-130 | the stored preferences become the reset of the loaded ones |
| Storage.LocalStore.IsSkillCompletedToday | src/lib/storage.ts:133-137 | true exactly when the last completion day is today |
| Storage.CompletedTodayAfterSave | src/lib/storage.ts:82-137 | right after a completion the skill counts as completed today |
| Storage.TwoCompletionsOneDay | src/lib/storage.ts:82-108 | two completions on one day add two records but apply the streak update once |
| Storage.TodaySkillRoundTrip | src/lib/storage.ts:56-74 | a skill saved today is returned later the same day |
| Storage.TodaySkillExpires | src/lib/storage.ts:56-68 | on another day nothing is returned and only the slot is cleared |
| Sorting.SortNewestFirst | src/pages/Archive.tsx:14-16 | the array ends newest first and is a permutation of its old contents |
| SupabaseService.Timestamp | src/services/supabaseService.ts:192-193 | a row's instant is `completed_at`, else `completed_date`, else 0 |
| SupabaseService.RunUnique | src/services/supabaseService.ts:201-215 | the walk length is the only count whose days are all present and whose next day is missing |
| SupabaseService.SortedDated | src/services/supabaseService.ts:189-195 | a permutation of the dated rows, sorted newest first |
| SupabaseService.SortedDatedDays | src/services/supabaseService.ts:189-190 | the sorted rows fall on exactly the input's dated days |
| SupabaseService.WalkAsWritten | src/services/supabaseService.ts:197-215 | the literal loop over newest-first rows returns the walk back from today in steps of two days |
| SupabaseService.WalkConsecutive | src/services/supabaseService.ts:197-215 | the corrected loop over newest-first rows returns the walk back from today over consecutive days |
| SupabaseService.CalculateStreak | src/services/supabaseService.ts:185-218 | the result, as written, is the walk back from today in steps of two days |
| SupabaseService.CalculateStreakCorrected | src/services/supabaseService.ts:185-218 | the corrected result is the walk back from today over consecutive days |
| SupabaseService.ConsecutiveStreakMeaning | src/services/supabaseService.ts:207-210 | the corrected streak n means today and the n − 1 days before are completed and the day before them is not |
| SupabaseService.StreakOrderIndependent | src/services/supabaseService.ts:189-195 | reordering the rows changes neither streak |
| SupabaseService.UndatedRowIgnored | src/services/supabaseService.ts:189-190 | a row with neither date changes neither streak |
| SupabaseService.SameDayRowIgnored | src/services/supabaseService.ts:205-214 | an extra row on an already completed day changes neither streak |
| SupabaseService.FutureRowIgnored | src/services/supabaseService.ts:205-214 | a row dated after today changes neither streak |
| SupabaseService.StreakPositiveIffCompletedToday | src/services/supabaseService.ts:197-215 | either streak is positive exactly when some dated row falls on today |
| SupabaseService.StreakBoundedByDays | src/services/supabaseService.ts:205-214 | neither streak exceeds the number of distinct completion days |
| SupabaseService.AsWrittenStreakCounterexample | src/services/supabaseService.ts:205-210 | today, yesterday and the day before give 2 as written against 3 corrected; today and two days ago give 2 against 1 |
| StreakAgreement.LocalStreakCountsConsecutiveDays | src/lib/storage.ts:100-123 | from no recorded completion, completions on chronological days leave the count of consecutive days ending with the last one |
| StreakAgreement.RunExtend | src/lib/storage.ts:105-121 | the consecutive-day count follows the three-way update: same day, next day, later day |
| StreakAgreement.LocalStreakAgreesWithCorrected | src/services/supabaseService.ts:185-218 | on the day of the last completion the stored streak equals the corrected calculator's |
| StreakAgreement.LocalStreakOutlivesMissedDay | src/lib/storage.ts:100-123 | after a day without completion the stored streak is still at least 1 while the calculator gives 0 |
| Notifications.DefaultSettings | src/hooks/useNotifications.ts:12-15 | reminders on at 09:00 |
| Notifications.LoadedTime | src/hooks/useNotifications.ts:40-41 | a non-empty column is cut to its first five characters, a missing or empty one gives 09:00 |
| Notifications.LoadedSettings | src/hooks/useNotifications.ts:37-42 | without a profile nothing changes; a missing flag means enabled; the time as `LoadedTime` reads it |
| Notifications.SavedRow | src/hooks/useNotifications.ts:69-72 | the row stores the flag and the time followed by ":00" |
| Notifications.SettingsRoundTrip | src/hooks/useNotifications.ts:40-72 | saving then loading returns the settings exactly when the time has five characters |
| Notifications.NumberOf | src/hooks/useNotifications.ts:94 | a field is a number exactly when it is all decimal digits |
| Notifications.ParseClock | src/hooks/useNotifications.ts:94 | hours and minutes are found only in a text with a ':' |
| Notifications.ClockRoundTrip | src/hooks/useNotifications.ts:94 | an "HH:MM" text reads back as its hours and minutes |
| Notifications.ClockOffset | src/hooks/useNotifications.ts:97 | the configured moment has zero seconds and milliseconds |
| Notifications.NextOccurrenceDelay | src/hooks/useNotifications.ts:94-104 | the wait ends at the given time of day, more than 0 and at most one day after now |
| Notifications.ScheduleDelay | src/hooks/useNotifications.ts:92-104 | an unreadable time gives delay 0; otherwise the delay is positive and lands on a whole minute; for a time before 24:00 it equals the next-occurrence delay, so it ends at the configured hours and minutes |
| Notifications.DailyCadence | src/hooks/useNotifications.ts:106-109 | a reminder rescheduled as it fires waits exactly one day |
| Notifications.SetupDailyNotification | src/hooks/useNotifications.ts:83-115 | nothing is scheduled unless reminders are on and permission is granted; otherwise the schedule delay |
| Notifications.DefaultReminder | src/hooks/useNotifications.ts:12-15 | the default settings schedule the first reminder for the next 09:00 |
| Archive.ArchiveView | src/pages/Archive.tsx:11-18 | a fresh array holding the stored completions, newest first, as a permutation |
| Archive.ElapsedDays | src/pages/Archive.tsx:32-33 | the whole number of days in the absolute time difference |
| Archive.DaysAgoLabel | src/pages/Archive.tsx:29-38 | "Today" under one day, "Yesterday" from one to two days, otherwise "n days ago" with n ≥ 2 elapsed days |
| Archive.FutureLabelledAsPast | src/pages/Archive.tsx:32-33 | an instant k ms ahead gets the label of one k ms back |
| Archive.LabelIgnoresMidnight | src/pages/Archive.tsx:29-38 | a completion one minute before midnight, seen two minutes later, is "Today" |
| Archive.CategoryList | src/pages/Archive.tsx:71 | one category per completed skill, in list order |
| Archive.CategoryCount | src/pages/Archive.tsx:71 | zero categories exactly when no skill is completed |
| Archive.CategoryCounted | src/pages/Archive.tsx:71 | a category is counted exactly when some completed skill has it |
| Archive.CategoryCountBounded | src/pages/Archive.tsx:62-71 | the category figure never exceeds the skill figure |
| Archive.CategoryCountOrderIndependent | src/pages/Archive.tsx:14-17 | sorting the list does not change the category figure |
| Archive.CategoryCountAtMostCatalogue | src/pages/Archive.tsx:71 | completions of catalogue skills span at most the ten categories |

## Left out

- Calendar and time zones: instants are local-time milliseconds, and a day is their floor division by 86400000. Daylight-saving shifts, `toDateString`/`toISOString` text, and the UTC reading of date-only `completed_date` strings by `new Date` are not modelled.
- `dayOfYear` is an input to the selector. Its computation from the clock, and its reset at the turn of the year, are not modelled.
- The skills' description texts are empty strings in the catalogue. No contract depends on them, and the full texts made every proof over the catalogue far more expensive. Ids, titles and categories are as in the source.
- JSON (de)serialisation of localStorage values is replaced by typed fields. Malformed stored JSON, which makes `JSON.parse` throw, is not modelled.
- The TaskCompletion row keeps only its two date fields; the others play no part in `calculateStreak`. A date string that does not parse (an invalid `Date`, NaN) is not modelled; a present date is an integer instant.
- `Array.prototype.sort`'s engine algorithm is replaced by a verified insertion sort with the same comparator; only the sortedness and permutation the comparator fixes are modelled, not the order among equal keys.
- Notifications.NumberOf: models `Number` only on decimal-digit strings (and "" as 0); leading/trailing whitespace, signs, decimal points, hex and exponent forms are read as NaN, so such times count as unreadable.
- Notifications.ScheduleDelay: a NaN delay is modelled as 0 because `setTimeout` treats it so; the `setTimeout`/`clearTimeout` calls, the stored timeout id and the Notification API (`showDailyReminder`, `testNotification`, `requestPermission`) are platform calls and are left out.
- The hook's React state is passed explicitly: `loadSettings` and `updateSettings` are functions from the profile row to settings, and the asynchronous timing of `setSettings`/`setPermission` (which the closures in `setupDailyNotification` read) is not modelled. The signed-in user check and the backend upsert are network I/O.
- The rendered texts ("n days ago", `formatDate`) are represented by the label datatype; string formatting of numbers is left out.
- Backend queries, inserts and migrations of supabaseService.ts other than `calculateStreak` are network I/O and are not part of this model.

## Findings

| source | as written | input that shows it | evidently intended | confidence | as-written member | corrected member |
|---|---|---|---|---|---|---|
| src/services/supabaseService.ts:207-210 | each match both increments `streak` and moves `currentDate` back a day, so the k-th match must lie 2·(k − 1) days before today | completions today, yesterday and the day before give 2; completions today and two days ago give 2 | consecutive completion days ending today ("Consecutive day"): 3 and 1 | high, not executed | SupabaseService.AsWrittenStreakCounterexample | SupabaseService.CalculateStreakCorrected |
