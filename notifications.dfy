/** The daily reminder of src/hooks/useNotifications.ts: the settings read
    from and written to the profile row, and the delay until the next
    reminder. The clock is the explicit argument `nowMs` (local-time
    milliseconds, no daylight-saving shifts). */
module Notifications {
  import opened Common

  /** The reminder settings held by the hook. */
  datatype NotificationSettings = NotificationSettings(enabled: bool, time: string)

  /** The two profile columns the hook reads; `None` is SQL null. */
  datatype ProfileRow = ProfileRow(notificationEnabled: Option<bool>, notificationTime: Option<string>)

  /** The browser's notification permission. */
  datatype Permission = Default | Granted | Denied

  /** The settings the hook starts with. */
  function DefaultSettings(): (s: NotificationSettings)
    ensures s.enabled && s.time == "09:00"
  {
    NotificationSettings(true, "09:00")
  }

  /** `String.prototype.substring(0, n)`: the first `n` characters, or all of
      a shorter string. */
  function Prefix(s: string, n: nat): (r: string)
    ensures |r| == if |s| < n then |s| else n
    ensures r <= s
  {
    if |s| <= n then s else s[..n]
  }

  /** The time as read back from the row: a non-empty column cut to "HH:MM",
      otherwise the default time. */
  function LoadedTime(column: Option<string>): (t: string)
    ensures column.None? || column == Some("") ==> t == "09:00"
    ensures column.Some? && column.value != "" ==> t <= column.value
    ensures column.Some? && column.value != "" ==> |t| == if |column.value| < 5 then |column.value| else 5
  {
    if column.Some? && column.value != "" then Prefix(column.value, 5) else "09:00"
  }

  /** What `loadSettings` leaves: the stored profile's values with their
      defaults, or the current settings when there is no signed-in user or
      no profile row. */
  function LoadedSettings(profile: Option<ProfileRow>, current: NotificationSettings): (s: NotificationSettings)
    ensures profile.None? ==> s == current
    ensures profile.Some? && profile.value.notificationEnabled.None? ==> s.enabled
    ensures profile.Some? && profile.value.notificationEnabled.Some? ==> s.enabled == profile.value.notificationEnabled.value
    ensures profile.Some? ==> s.time == LoadedTime(profile.value.notificationTime)
  {
    match profile
    case None => current
    case Some(row) =>
      NotificationSettings(
        if row.notificationEnabled.Some? then row.notificationEnabled.value else true,
        LoadedTime(row.notificationTime))
  }

  /** The row `updateSettings` upserts: the time gets a seconds field. */
  function SavedRow(s: NotificationSettings): (row: ProfileRow)
    ensures row.notificationEnabled == Some(s.enabled)
    ensures row.notificationTime.Some? && |row.notificationTime.value| == |s.time| + 3
    ensures row.notificationTime.value[..|s.time|] == s.time
    ensures row.notificationTime.value[|s.time|..] == ":00"
  {
    ProfileRow(Some(s.enabled), Some(s.time + ":00"))
  }

  /** Saving and loading gives the settings back exactly when the time has
      five characters, the "HH:MM" form; a shorter time comes back with part
      of the seconds field, a longer one cut short. */
  lemma SettingsRoundTrip(s: NotificationSettings, current: NotificationSettings)
    ensures LoadedSettings(Some(SavedRow(s)), current) == s <==> |s.time| == 5
  {
    var stored := s.time + ":00";
    if |s.time| == 5 {
      assert stored[..5] == s.time;
    } else if |s.time| < 5 {
      assert |LoadedTime(Some(stored))| > |s.time|;
    } else {
      assert |LoadedTime(Some(stored))| == 5;
    }
  }

  /** `Number` on a string of decimal digits: its value, with "" as 0;
      anything else (the model's NaN) is `None`. */
  function NumberOf(s: string): (n: Option<nat>)
    ensures n.Some? <==> forall i :: 0 <= i < |s| ==> '0' <= s[i] <= '9'
    decreases |s|
  {
    if s == [] then Some(0)
    else if '0' <= s[|s| - 1] <= '9' then
      match NumberOf(s[..|s| - 1])
      case None => None
      case Some(v) => Some(10 * v + (s[|s| - 1] - '0') as nat)
    else None
  }

  /** The text before the first ':' (all of it when there is none). */
  function Before(s: string): (r: string)
    ensures r <= s && ':' !in r
    decreases |s|
  {
    if s == [] || s[0] == ':' then [] else [s[0]] + Before(s[1..])
  }

  /** The text after the first ':', if there is one. */
  function After(s: string): (r: Option<string>)
    ensures r.Some? <==> ':' in s
    ensures r.Some? ==> s == Before(s) + ":" + r.value
    decreases |s|
  {
    if s == [] then None
    else if s[0] == ':' then Some(s[1..])
    else match After(s[1..])
      case None => None
      case Some(t) => Some(t)
  }

  /** `time.split(':').map(Number)` read as `[hours, minutes]`: both fields
      must be numbers; a missing minutes field is NaN. */
  function ParseClock(time: string): (clock: Option<(nat, nat)>)
    ensures clock.Some? ==> ':' in time
  {
    match After(time)
    case None => None
    case Some(rest) =>
      match (NumberOf(Before(time)), NumberOf(Before(rest)))
      case (Some(h), Some(m)) => Some((h, m))
      case _ => None
  }

  /** Two decimal digits for a number below 100. */
  function TwoDigits(n: nat): (s: string)
    requires n < 100
    ensures |s| == 2 && NumberOf(s) == Some(n)
  {
    var s := [('0' as int + n / 10) as char, ('0' as int + n % 10) as char];
    assert s[..1] == [s[0]];
    assert [s[0]][..0] == [];
    assert NumberOf([s[0]]) == Some(n / 10);
    s
  }

  /** The "HH:MM" text of a clock time, as a time input produces it. */
  function ClockText(hours: nat, minutes: nat): (t: string)
    requires hours < 24 && minutes < 60
    ensures |t| == 5
  {
    TwoDigits(hours) + ":" + TwoDigits(minutes)
  }

  /** A text without ':' is its own first field. */
  lemma {:induction false} BeforeNoColon(s: string)
    requires ':' !in s
    ensures Before(s) == s
    decreases |s|
  {
    if s != [] {
      BeforeNoColon(s[1..]);
    }
  }

  /** Joining two fields with ':' and splitting again gives them back when
      the first has no ':' of its own. */
  lemma {:induction false} SplitJoined(a: string, b: string)
    requires ':' !in a
    ensures Before(a + ":" + b) == a && After(a + ":" + b) == Some(b)
    decreases |a|
  {
    var t := a + ":" + b;
    if a == [] {
      assert t == [':'] + b;
    } else {
      assert t[0] == a[0];
      assert t[1..] == a[1..] + ":" + b;
      SplitJoined(a[1..], b);
    }
  }

  /** Reading an "HH:MM" text gives back its hours and minutes. */
  lemma ClockRoundTrip(hours: nat, minutes: nat)
    requires hours < 24 && minutes < 60
    ensures ParseClock(ClockText(hours, minutes)) == Some((hours, minutes))
  {
    var hh, mm := TwoDigits(hours), TwoDigits(minutes);
    assert ':' !in hh && ':' !in mm;
    SplitJoined(hh, mm);
    BeforeNoColon(mm);
  }

  const MinuteMs: int := 60000
  const HourMs: int := 3600000

  /** The position of a clock time within its day, in milliseconds. */
  function ClockOffset(hours: nat, minutes: nat): (ms: nat)
    ensures ms % MinuteMs == 0
  {
    ModUnique(hours * HourMs + minutes * MinuteMs, hours * 60 + minutes, 0, MinuteMs);
    hours * HourMs + minutes * MinuteMs
  }

  /** A clock time that names a moment of the day (below 24:00). */
  predicate WithinDay(hours: nat, minutes: nat)
  {
    hours * 60 + minutes < 1440
  }

  /** The wait from `nowMs` to the next moment whose time of day is `offset`,
      stated on remainders alone: later today if the offset is still ahead,
      otherwise tomorrow. */
  function NextOccurrenceDelay(nowMs: int, offset: int): (delay: int)
    requires 0 <= offset < DayMs
    ensures 0 < delay <= DayMs
    ensures (nowMs + delay) % DayMs == offset
  {
    var q, r := nowMs / DayMs, nowMs % DayMs;
    if offset > r then
      ModUnique(nowMs + (offset - r), q, offset, DayMs);
      offset - r
    else
      ModUnique(nowMs + (offset - r + DayMs), q + 1, offset, DayMs);
      offset - r + DayMs
  }

  /** `scheduleNextNotification`: today's date at the configured hours and
      minutes with zero seconds and milliseconds, one day later if that is
      not after now; the delay is the difference. A time that does not parse
      makes the date invalid and the delay NaN, which `setTimeout` treats
      as zero. */
  method ScheduleDelay(time: string, nowMs: int) returns (delay: int)
    ensures ParseClock(time).None? ==> delay == 0
    ensures ParseClock(time).Some? ==> delay > 0 && (nowMs + delay) % MinuteMs == 0
    ensures var clock := ParseClock(time);
      clock.Some? && WithinDay(clock.value.0, clock.value.1) ==>
        delay == NextOccurrenceDelay(nowMs, ClockOffset(clock.value.0, clock.value.1))
  {
    var clock := ParseClock(time);
    if clock.None? {
      return 0;
    }
    var (hours, minutes) := clock.value;
    var today := DayOf(nowMs);
    var scheduled := today * DayMs + hours * HourMs + minutes * MinuteMs;
    var moved := scheduled <= nowMs;
    if moved {
      scheduled := scheduled + DayMs;
    }
    delay := scheduled - nowMs;
    var offset := ClockOffset(hours, minutes);
    var days := if moved then today + 1 else today;
    assert scheduled == days * DayMs + offset;
    ModUnique(scheduled, days * 1440 + hours * 60 + minutes, 0, MinuteMs);
    if WithinDay(hours, minutes) {
      ModUnique(nowMs, today, nowMs - today * DayMs, DayMs);
    }
  }

  /** A reminder rescheduled at the moment it fires waits exactly one day:
      the reminders come daily at the configured time. */
  lemma DailyCadence(nowMs: int, offset: int)
    requires 0 <= offset < DayMs
    ensures NextOccurrenceDelay(nowMs + NextOccurrenceDelay(nowMs, offset), offset) == DayMs
  {
  }

  /** `setupDailyNotification`: nothing is scheduled unless reminders are on
      and permission is granted; otherwise the delay of the first reminder. */
  method SetupDailyNotification(settings: NotificationSettings, permission: Permission, nowMs: int)
    returns (timer: Option<int>)
    ensures !settings.enabled || permission != Granted ==> timer == None
    ensures settings.enabled && permission == Granted ==> timer.Some?
    ensures timer.Some? && ParseClock(settings.time).Some? ==> timer.value > 0
    ensures timer.Some? && ParseClock(settings.time).None? ==> timer.value == 0
    ensures var clock := ParseClock(settings.time);
      timer.Some? && clock.Some? && WithinDay(clock.value.0, clock.value.1) ==>
        timer.value == NextOccurrenceDelay(nowMs, ClockOffset(clock.value.0, clock.value.1))
  {
    if !settings.enabled || permission != Granted {
      return None;
    }
    var delay := ScheduleDelay(settings.time, nowMs);
    timer := Some(delay);
  }

  /** The default settings schedule the first reminder for the next 09:00. */
  method DefaultReminder(nowMs: int) returns (timer: Option<int>)
    ensures timer == Some(NextOccurrenceDelay(nowMs, 9 * HourMs))
  {
    ClockRoundTrip(9, 0);
    assert ClockText(9, 0) == "09:00";
    timer := SetupDailyNotification(DefaultSettings(), Granted, nowMs);
  }
}
