/**
 * The scheduler object, `TimeManager`: it loads the configuration once,
 * answers whether a profile-picture change may run now, and records a
 * successful run together with the next scheduled time.
 *
 * The clock and the random draws are parameters: `utcNow` is the current
 * UTC time in whole seconds; `baseSeconds`, `delayMinutes` and `offset`
 * are the values `random.uniform`, `random.randint(-d, d)` and
 * `random.randint(0, 30)` return, constrained to their ranges. The two
 * state files are held as their text (None when the file is missing).
 */
module Scheduler {
  import opened Wrappers
  import opened Text
  import opened Clock
  import opened Config
  import opened Windows

  /** `int(f.read().strip())` on a state file; None when it is missing or does not hold an integer. */
  function ReadTimestamp(file: Option<string>): (r: Option<int>)
    ensures file.None? ==> r.None?
    ensures file.Some? ==> r == ParseInt(Strip(file.value))
  {
    match file
    case None => None
    case Some(text) => ParseInt(Strip(text))
  }

  /** `str(int(t))` written to a state file is read back as t. */
  lemma ReadWrittenTimestamp(t: int)
    ensures ReadTimestamp(Some(IntToString(t))) == Some(t)
  {
    var s := IntToString(t);
    ParseIntRoundTrip(t);
    assert !IsSpace(s[0]) && !IsSpace(s[|s| - 1]);
    assert SkipSpace(s, 0, |s|) == 0 && SkipSpaceBack(s, 0, |s|) == |s|;
    assert s[0..|s|] == s;
  }

  /** What `_is_within_active_windows` returns: its boolean, the day type and the matching window; Malformed where it raises. */
  datatype WindowCheck = Active(weekend: bool, window: Window) | Inactive(weekend: bool) | Malformed

  /** Whole hours and the remaining whole minutes of a duration, as shown in "Xh Ym remaining". */
  datatype Remaining = Remaining(hours: int, minutes: int)

  /**
   * `int(x // 3600)` and `int((x % 3600) // 60)` for a duration of x
   * seconds: the unique hours and minutes 0..59 with
   * hours * 3600 + minutes * 60 <= x < hours * 3600 + minutes * 60 + 60.
   */
  function SplitRemaining(x: real): (r: Remaining)
    ensures 0 <= r.minutes < 60
    ensures (r.hours * 3600 + r.minutes * 60) as real <= x < (r.hours * 3600 + r.minutes * 60 + 60) as real
  {
    var h := (x / 3600.0).Floor;
    var rest := x - (h * 3600) as real;
    var m := (rest / 60.0).Floor;
    Remaining(h, m)
  }

  /** Why `should_run_now` decided as it did. */
  datatype Reason =
    | Forced
    | MalformedWindow                                      // a window bound raised ValueError
    | OutsideWindows(weekend: bool)
    | TooEarly(scheduled: int, remaining: Remaining)
    | RateLimited(minIntervalHours: real, remaining: Remaining)
    | AllChecksPassed

  predicate Runs(r: Reason) {
    r.Forced? || r.AllChecksPassed?
  }

  /**
   * The decision of `should_run_now` at local time `now`, given the
   * scheduled time and the last run read from the state files. The
   * minimum interval since the last run is checked even when a schedule
   * exists and has passed.
   */
  function Decide(s: Settings, scheduled: Option<int>, lastRun: Option<int>, force: bool, now: int): Reason {
    if force then Forced
    else match ScanAt(s, now)
      case Unparsable(_) => MalformedWindow
      case Uncovered => OutsideWindows(IsWeekend(now))
      case Covered(_) => TimingCheck(s, scheduled, lastRun, now)
  }

  /** Without force, the window check decides first, and the timing checks only inside a window. */
  lemma DecideUnforced(s: Settings, scheduled: Option<int>, lastRun: Option<int>, now: int)
    ensures ScanAt(s, now).Unparsable? ==> Decide(s, scheduled, lastRun, false, now) == MalformedWindow
    ensures ScanAt(s, now).Uncovered? ==> Decide(s, scheduled, lastRun, false, now) == OutsideWindows(IsWeekend(now))
    ensures ScanAt(s, now).Covered? ==> Decide(s, scheduled, lastRun, false, now) == TimingCheck(s, scheduled, lastRun, now)
  {
  }

  /** The two timing checks made inside an active window: the schedule, then the minimum interval. */
  function TimingCheck(s: Settings, scheduled: Option<int>, lastRun: Option<int>, now: int): Reason {
    if scheduled.Some? && now < scheduled.value then
      TooEarly(scheduled.value, SplitRemaining((scheduled.value - now) as real))
    else if lastRun.Some? && ((now - lastRun.value) as real) < s.minIntervalHours * 3600.0 then
      RateLimited(s.minIntervalHours, SplitRemaining(s.minIntervalHours * 3600.0 - (now - lastRun.value) as real))
    else AllChecksPassed
  }

  /**
   * A run goes ahead exactly when it is forced, or when the time is inside
   * an active window, the scheduled time (if any) has been reached and the
   * minimum interval since the last run (if any) has passed.
   */
  lemma DecideRunsIff(s: Settings, scheduled: Option<int>, lastRun: Option<int>, force: bool, now: int)
    ensures Runs(Decide(s, scheduled, lastRun, force, now)) <==>
      (|| force
       || (&& InWindow(s, now)
           && (scheduled.None? || scheduled.value <= now)
           && (lastRun.None? || ((now - lastRun.value) as real) >= s.minIntervalHours * 3600.0)))
  {
  }

  /**
   * The refusals come in a fixed order: a time outside the windows is
   * refused as such whatever the state; inside, an early check is refused
   * as too early whatever the last run; only a reached schedule leads on
   * to the minimum-interval check.
   */
  lemma RefusalOrder(s: Settings, scheduled: Option<int>, lastRun: Option<int>, now: int)
    ensures ScanAt(s, now).Uncovered? ==>
      Decide(s, scheduled, lastRun, false, now) == OutsideWindows(IsWeekend(now))
    ensures InWindow(s, now) && scheduled.Some? && now < scheduled.value ==>
      Decide(s, scheduled, lastRun, false, now).TooEarly?
    ensures Decide(s, scheduled, lastRun, false, now).RateLimited? ==>
      InWindow(s, now) && (scheduled.None? || scheduled.value <= now)
  {
  }

  /** Tuesday 1970-01-06 at 10:00 with the built-in settings and no state: the run goes ahead. */
  lemma FirstRunOnTuesdayMorning()
    ensures Decide(DefaultSettings, None, None, false, 5 * SecondsPerDay + 10 * 3600) == AllChecksPassed
  {
    DayOf(5, 10 * 3600);
  }

  /** Tuesday 1970-01-06 at 02:00 with the built-in settings: outside the weekday windows. */
  lemma TuesdayNightOutside()
    ensures Decide(DefaultSettings, None, None, false, 5 * SecondsPerDay + 2 * 3600) == OutsideWindows(false)
  {
    DayOf(5, 2 * 3600);
  }

  /** A run scheduled two hours ahead is refused with "2h 0m" remaining. */
  lemma TwoHoursEarly(s: Settings, lastRun: Option<int>, now: int)
    requires InWindow(s, now)
    ensures Decide(s, Some(now + 7200), lastRun, false, now) == TooEarly(now + 7200, Remaining(2, 0))
  {
    var r := SplitRemaining(7200.0);
    assert r.hours * 3600 + r.minutes * 60 <= 7200 < r.hours * 3600 + r.minutes * 60 + 60;
    assert r.hours == 2;
  }

  /**
   * With no schedule and a three-hour minimum, a last run one hour ago
   * rate-limits the run and one four hours ago lets it through.
   */
  lemma IntervalFallback(s: Settings, now: int)
    requires InWindow(s, now) && s.minIntervalHours == 3.0
    ensures Decide(s, None, Some(now - 3600), false, now).RateLimited?
    ensures Decide(s, None, Some(now - 4 * 3600), false, now) == AllChecksPassed
  {
  }

  /** The remaining time reported by a refusal is the time still to wait, to the minute below. */
  lemma RefusalRemaining(s: Settings, scheduled: Option<int>, lastRun: Option<int>, now: int)
    ensures var r := Decide(s, scheduled, lastRun, false, now);
      r.TooEarly? ==> r.remaining == SplitRemaining((r.scheduled - now) as real) && r.scheduled > now
    ensures var r := Decide(s, scheduled, lastRun, false, now);
      r.RateLimited? ==>
        (&& lastRun.Some?
         && r.remaining == SplitRemaining(s.minIntervalHours * 3600.0 - (now - lastRun.value) as real)
         && s.minIntervalHours * 3600.0 - (now - lastRun.value) as real > 0.0)
  {
  }

  /**
   * The values the random draws can take: the whole seconds of a base
   * interval drawn between the two interval bounds (in either order, as
   * `random.uniform`), the delay within -d..d when random delays are on
   * and d >= 0, and the window offset within 0..30. Times are whole
   * seconds, so the drawn interval enters as its floor, which lies
   * between the floors of the two bounds.
   */
  predicate DrawsInRange(s: Settings, baseSeconds: int, delayMinutes: int, offset: int) {
    var lo := if s.minIntervalHours <= s.maxIntervalHours then s.minIntervalHours else s.maxIntervalHours;
    var hi := if s.minIntervalHours <= s.maxIntervalHours then s.maxIntervalHours else s.minIntervalHours;
    && (lo * 3600.0).Floor <= baseSeconds <= (hi * 3600.0).Floor
    && (s.useRandomDelays && s.randomDelayMinutes >= 0 ==>
          -s.randomDelayMinutes <= delayMinutes <= s.randomDelayMinutes)
    && 0 <= offset <= 30
  }

  /** The time before adjustment: `from + timedelta(hours=base, minutes=delay)`; the delay is 0 when random delays are off. */
  function Candidate(s: Settings, from: int, baseSeconds: int, delayMinutes: int): int {
    from + baseSeconds + (if s.useRandomDelays then delayMinutes else 0) * 60
  }

  /** `_calculate_next_run(from)`; None where it raises (`randint(-d, d)` with d < 0, or the adjustment). */
  function NextRun(s: Settings, from: int, baseSeconds: int, delayMinutes: int, offset: int): Option<int> {
    if s.useRandomDelays && s.randomDelayMinutes < 0 then None
    else Adjust(s, Candidate(s, from, baseSeconds, delayMinutes), offset)
  }

  /**
   * The candidate lies within the interval bounds, widened by the delay
   * range. The bounds are taken in either order, as `random.uniform`
   * takes them.
   */
  lemma CandidateBounds(s: Settings, from: int, baseSeconds: int, delayMinutes: int, offset: int)
    requires DrawsInRange(s, baseSeconds, delayMinutes, offset)
    requires s.useRandomDelays ==> s.randomDelayMinutes >= 0
    ensures var lo := if s.minIntervalHours <= s.maxIntervalHours then s.minIntervalHours else s.maxIntervalHours;
      var hi := if s.minIntervalHours <= s.maxIntervalHours then s.maxIntervalHours else s.minIntervalHours;
      var d := if s.useRandomDelays then s.randomDelayMinutes else 0;
      var c := Candidate(s, from, baseSeconds, delayMinutes);
      from + (lo * 3600.0).Floor - d * 60 <= c <= from + (hi * 3600.0).Floor + d * 60
  {
  }

  /** Every configuration admits a draw: the ranges the source draws from are never empty. */
  lemma DrawsExist(s: Settings)
    ensures DrawsInRange(s, ((if s.minIntervalHours <= s.maxIntervalHours then s.minIntervalHours else s.maxIntervalHours) * 3600.0).Floor, 0, 0)
  {
  }

  /**
   * With durable windows the next run never raises, lies inside an active
   * window, and is the candidate itself or a later time.
   */
  lemma NextRunInWindow(s: Settings, from: int, baseSeconds: int, delayMinutes: int, offset: int)
    requires Durable(s) && DrawsInRange(s, baseSeconds, delayMinutes, offset)
    requires s.useRandomDelays ==> s.randomDelayMinutes >= 0
    ensures NextRun(s, from, baseSeconds, delayMinutes, offset).Some?
    ensures InWindow(s, NextRun(s, from, baseSeconds, delayMinutes, offset).value)
    ensures NextRun(s, from, baseSeconds, delayMinutes, offset).value >= Candidate(s, from, baseSeconds, delayMinutes)
  {
    var c := Candidate(s, from, baseSeconds, delayMinutes);
    AdjustLandsInWindow(s, c, offset);
    AdjustMovesForward(s, c, offset);
  }

  /**
   * When the shortest interval exceeds the largest negative delay, the
   * next run is not before `from`, and after it once the excess is at
   * least a whole second.
   */
  lemma NextRunIsLater(s: Settings, from: int, baseSeconds: int, delayMinutes: int, offset: int)
    requires DrawsInRange(s, baseSeconds, delayMinutes, offset)
    requires NextRun(s, from, baseSeconds, delayMinutes, offset).Some?
    requires var lo := if s.minIntervalHours <= s.maxIntervalHours then s.minIntervalHours else s.maxIntervalHours;
      lo * 3600.0 > ((if s.useRandomDelays then s.randomDelayMinutes else 0) * 60) as real
    ensures NextRun(s, from, baseSeconds, delayMinutes, offset).value >= from
    ensures var lo := if s.minIntervalHours <= s.maxIntervalHours then s.minIntervalHours else s.maxIntervalHours;
      (lo * 3600.0).Floor > (if s.useRandomDelays then s.randomDelayMinutes else 0) * 60 ==>
        NextRun(s, from, baseSeconds, delayMinutes, offset).value > from
  {
    AdjustMovesForward(s, Candidate(s, from, baseSeconds, delayMinutes), offset);
  }

  /** After a run is recorded, a check before the scheduled time is refused. */
  lemma ScheduleHoldsOffEarlyChecks(s: Settings, next: int, last: int, now: int)
    requires now < next
    ensures !Runs(Decide(s, Some(next), Some(last), false, now))
  {
  }

  /**
   * Once the scheduled time and the minimum interval have both passed,
   * a check at an in-window time runs.
   */
  lemma ScheduleReleases(s: Settings, next: int, last: int, now: int)
    requires next <= now && ((now - last) as real) >= s.minIntervalHours * 3600.0
    requires InWindow(s, now)
    ensures Decide(s, Some(next), Some(last), false, now) == AllChecksPassed
  {
  }

  class TimeManager {
    const settings: Settings
    const tzOffsetHours: real
    var configFile: ConfigFile
    var lastRunFile: Option<string>
    var scheduleFile: Option<string>

    /**
     * `TimeManager(config_path)`: loads the configuration (creating the
     * file with the defaults when it is missing) and resolves the timezone.
     */
    constructor (config: ConfigFile, lastRun: Option<string>, schedule: Option<string>,
                 parseOffset: string -> Option<real>)
      requires SettingsOf(LoadConfig(config)).Some?
      ensures settings == SettingsOf(LoadConfig(config)).value
      ensures configFile == ConfigFileAfterLoad(config)
      ensures tzOffsetHours == ParseTimezone(settings.timezone, parseOffset)
      ensures lastRunFile == lastRun && scheduleFile == schedule
    {
      settings := SettingsOf(LoadConfig(config)).value;
      configFile := ConfigFileAfterLoad(config);
      tzOffsetHours := ParseTimezone(SettingsOf(LoadConfig(config)).value.timezone, parseOffset);
      lastRunFile := lastRun;
      scheduleFile := schedule;
    }

    /** `_get_current_time`: UTC shifted by the timezone offset, to the second below. */
    function LocalTime(utcNow: int): int {
      (utcNow as real + tzOffsetHours * 3600.0).Floor
    }

    /** The local time is the shifted UTC time without its fraction of a second. */
    lemma LocalTimeIsShifted(utcNow: int)
      ensures LocalTime(utcNow) as real <= utcNow as real + tzOffsetHours * 3600.0 < LocalTime(utcNow) as real + 1.0
      ensures tzOffsetHours * 3600.0 == (tzOffsetHours * 3600.0).Floor as real ==>
        LocalTime(utcNow) == utcNow + (tzOffsetHours * 3600.0).Floor
    {
    }

    /** `_get_last_run_time`. */
    function LastRun(): Option<int>
      reads this
    {
      ReadTimestamp(lastRunFile)
    }

    /** `_get_scheduled_time`. */
    function Scheduled(): Option<int>
      reads this
    {
      ReadTimestamp(scheduleFile)
    }

    /**
     * `_is_within_active_windows(t)`: scans the day's list in order and
     * reports the first window covering t's minute of the day.
     */
    method IsWithinActiveWindows(t: int) returns (c: WindowCheck)
      ensures c.Active? <==> InWindow(settings, t)
      ensures c.Malformed? <==> ScanAt(settings, t).Unparsable?
      ensures c.Active? ==>
        (c.weekend == IsWeekend(t) && c.window == WindowsFor(settings, t)[ScanAt(settings, t).index].window)
      ensures c.Inactive? ==> c.weekend == IsWeekend(t)
    {
      var minute := MinuteOfDay(t);
      var weekend := IsWeekend(t);
      var windows := if weekend then settings.weekendWindows else settings.weekdayWindows;
      var i := 0;
      while i < |windows|
        invariant 0 <= i <= |windows|
        invariant windows == WindowsFor(settings, t)
        invariant ScanFrom(windows, minute, i) == ScanAt(settings, t)
      {
        var w := windows[i];
        if w.start.None? || w.end.None? {
          return Malformed;
        }
        var startMinutes := w.start.value.0 * 60 + w.start.value.1;
        var endMinutes := w.end.value.0 * 60 + w.end.value.1;
        if startMinutes <= minute <= endMinutes {
          return Active(weekend, w.window);
        }
        i := i + 1;
      }
      return Inactive(weekend);
    }

    /** `_adjust_to_active_window(t)`, with `offset` the 0..30 minute draw; None where the source raises. */
    method AdjustToActiveWindow(t: int, offset: int) returns (r: Option<int>)
      ensures r == Adjust(settings, t, offset)
    {
      var check := IsWithinActiveWindows(t);
      if check.Active? {
        return Some(t);
      } else if check.Malformed? {
        return None;
      }
      var windows := if IsWeekend(t) then settings.weekendWindows else settings.weekdayWindows;
      var i := 0;
      while i < |windows|
        invariant 0 <= i <= |windows|
        invariant windows == WindowsFor(settings, t)
        invariant FirstLaterStart(windows, t, i) == FirstLaterStart(windows, t, 0)
      {
        var w := windows[i];
        if !StartIsClockTime(w) {
          return None;
        }
        var windowStart := AtMinute(t, Minutes(w.start.value));
        if t < windowStart {
          return Some(windowStart + offset * 60);
        }
        i := i + 1;
      }
      var nextDay := t + SecondsPerDay;
      var tomorrow := if IsWeekend(nextDay) then settings.weekendWindows else settings.weekdayWindows;
      if |tomorrow| == 0 || !StartIsClockTime(tomorrow[0]) {
        return None;
      }
      return Some(AtMinute(nextDay, Minutes(tomorrow[0].start.value)) + offset * 60);
    }

    /** `_calculate_next_run(from)`. */
    method CalculateNextRun(from: int, baseSeconds: int, delayMinutes: int, offset: int) returns (next: Option<int>)
      requires DrawsInRange(settings, baseSeconds, delayMinutes, offset)
      ensures next == NextRun(settings, from, baseSeconds, delayMinutes, offset)
    {
      var delay := 0;
      if settings.useRandomDelays {
        if settings.randomDelayMinutes < 0 {
          return None;
        }
        delay := delayMinutes;
      }
      next := AdjustToActiveWindow(from + baseSeconds + delay * 60, offset);
    }

    /**
     * `should_run_now(force)` at UTC time `utcNow`: the window check, then
     * the scheduled time, then the minimum interval since the last run.
     */
    method ShouldRunNow(force: bool, utcNow: int) returns (run: bool, reason: Reason)
      ensures reason == Decide(settings, Scheduled(), LastRun(), force, LocalTime(utcNow))
      ensures run == Runs(reason)
    {
      if force {
        return true, Forced;
      }
      var now := LocalTime(utcNow);
      var scheduled := Scheduled();
      var lastRun := LastRun();
      var check := IsWithinActiveWindows(now);
      DecideUnforced(settings, scheduled, lastRun, now);
      if check.Malformed? {
        return false, MalformedWindow;
      } else if check.Inactive? {
        return false, OutsideWindows(check.weekend);
      }
      run, reason := CheckTiming(now, scheduled, lastRun);
    }

    /**
     * The second half of `should_run_now`, reached inside an active
     * window: a scheduled time still ahead refuses the run, then so does
     * a last run less than the minimum interval ago.
     */
    method CheckTiming(now: int, scheduled: Option<int>, lastRun: Option<int>) returns (run: bool, reason: Reason)
      ensures reason == TimingCheck(settings, scheduled, lastRun, now)
      ensures run == Runs(reason)
    {
      if scheduled.Some? && now < scheduled.value {
        reason := TooEarly(scheduled.value, SplitRemaining((scheduled.value - now) as real));
        return false, reason;
      }
      if lastRun.Some? {
        var sinceLast := (now - lastRun.value) as real;
        var minInterval := settings.minIntervalHours * 3600.0;
        if sinceLast < minInterval {
          reason := RateLimited(settings.minIntervalHours, SplitRemaining(minInterval - sinceLast));
          return false, reason;
        }
      }
      return true, AllChecksPassed;
    }

    /**
     * `record_successful_run` at UTC time `utcNow`: writes the run time to
     * the last-run file, then the next scheduled time to the schedule
     * file. When computing the next run raises, the last-run file has
     * already been written and the schedule file stays as it was.
     */
    method RecordSuccessfulRun(utcNow: int, baseSeconds: int, delayMinutes: int, offset: int)
      returns (next: Option<int>)
      requires DrawsInRange(settings, baseSeconds, delayMinutes, offset)
      modifies this
      ensures configFile == old(configFile)
      ensures lastRunFile == Some(IntToString(LocalTime(utcNow)))
      ensures LastRun() == Some(LocalTime(utcNow))
      ensures next == NextRun(settings, LocalTime(utcNow), baseSeconds, delayMinutes, offset)
      ensures next.Some? ==> scheduleFile == Some(IntToString(next.value)) && Scheduled() == next
      ensures next.None? ==> scheduleFile == old(scheduleFile)
    {
      var now := LocalTime(utcNow);
      lastRunFile := Some(IntToString(now));
      ReadWrittenTimestamp(now);
      next := CalculateNextRun(now, baseSeconds, delayMinutes, offset);
      if next.Some? {
        scheduleFile := Some(IntToString(next.value));
        ReadWrittenTimestamp(next.value);
      }
    }
  }
}
