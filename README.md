# Activity-window scheduler and README status writer, in Dafny

This project models the core of a profile-picture rotator. An external
trigger runs the program periodically. The program keeps no memory between
runs except two small state files.

- `src/time_manager.py`, the `TimeManager` scheduler. It decides whether a
  run may happen now (`should_run_now`). After a successful run it records
  the run time and a randomised next run time, moved into an active window
  (`record_successful_run`).
- `src/update_readme_status.py`, the status writer. It renders "time ago"
  and "time until" phrases and the next image index. It splices a
  marker-framed status section into the README text.

Modules, one per component:

| file | module | what it holds |
|---|---|---|
| `wrappers.dfy` | `Wrappers` | `Option` |
| `text.dfy` | `Text` | Python-style `int()`/`str()`, `strip`, `split`/`join`, substring search |
| `clock.dfy` | `Clock` | day, minute of the day and weekday of a timestamp |
| `config.dfy` | `Config` | the configuration values, defaults, merge, typed view, timezone table, `HH:MM` parsing |
| `windows.dfy` | `Windows` | window membership and the window adjustment, as specification functions |
| `scheduler.dfy` | `Scheduler` | the decision, the next-run computation and the `TimeManager` class |
| `readme_status.dfy` | `ReadmeStatus` | the readers, the phrases, the rotation index, the section, splice and insertion |

How the model represents the source:

- **Time.** A timestamp is a whole number of seconds of local time. The
  minute of the day is `(t mod 86400) div 60`. The weekday is
  `((t div 86400) + 3) mod 7`, because 1970-01-01 was a Thursday and
  Python's `weekday()` numbers Monday 0. Dafny's Euclidean `/` and `%`
  agree with Python's floor division here, because the divisors are
  positive.
- **Clock.** The current UTC time is a parameter (`utcNow`). The local
  time adds the timezone offset and drops the fraction of a second.
- **Randomness.** Each random draw is a parameter, constrained to the range
  the source draws from. `baseSeconds` stands for `random.uniform(min, max)`
  hours and may fall between the bounds in either order. `delayMinutes`
  stands for `randint(-d, d)`. `offset` stands for `randint(0, 30)`.
  Every contract therefore holds for every possible draw.
- **Interval hours and timezone offsets** are exact `real`s, so 5.5 hours
  is exact.
- **State files** are the `TimeManager` fields `lastRunFile` and
  `scheduleFile`, holding the file's text or `None` for a missing file. A
  read applies `int(text.strip())` and yields `None` when that would
  raise. A write stores `str(n)`, and reading it back gives `n`.
- **Exceptions** are values, not preconditions. A window bound that does
  not parse, a window start that `datetime.replace` rejects, an empty
  next-day window list and `randint(-d, d)` with `d < 0` all give `None`
  or `Malformed`/`MalformedWindow`.
- **The README regex** `START.*?END` with `re.DOTALL` is modelled as a
  splice. Each span from a start marker to the first end marker after it
  is replaced, the scan resumes after the span, and everything else is
  kept.

Where the scheduler's documented design and its code disagree, the model
follows the code:

- The minimum-interval check against the last run is made whenever the
  earlier checks pass, even when a schedule exists and has been reached.
  It is not a fallback used only without a schedule
  (`src/time_manager.py:325-341`).
- The window fixed point ("the next scheduled time is always inside an
  active window") holds only when both window lists are non-empty and
  every window is at least 30 minutes long.
  - `Windows.AdjustLandsInWindow` proves it under exactly those conditions.
  - `Windows.ShortWindowOvershoots` shows a 10-minute window where the
    30-minute offset lands outside.
  - An empty next-day list raises (`Windows.AdjustNextDay`).
- A malformed window raises in the source. It is not treated as "never
  active".
- `min_interval_hours <= max_interval_hours` is never checked.
  `random.uniform` then draws between the two bounds in whichever order
  they are.

## Model

| member | source | states |
|---|---|---|
| `Clock.MinuteOfDay` | src/time_manager.py:157 | the minute of the day lies in 0..1439 |
| `Clock.Weekday` | src/time_manager.py:139-142 | the weekday lies in 0..6, Monday 0, counted from a Thursday epoch |
| `Clock.IsWeekend` | src/time_manager.py:139-142 | Saturday and Sunday, weekdays 5 and 6; `Windows.WeekendRouting` shows it choosing the list |
| `Clock.AtMinuteSameDay` | src/time_manager.py:259 | setting the hour and minute of a time keeps its day and weekday and gives that minute of the day |
| `Clock.NextDay` | src/time_manager.py:267 | adding one day moves the day by exactly one |
| `Config.Merge` | src/time_manager.py:117 | `update`: the keys are the union; every user key wins; every other default stays |
| `Config.LoadConfig` | src/time_manager.py:93-128 | a document overrides the defaults key by key and keeps the other defaults; a missing or unreadable file gives exactly the defaults |
| `Config.ConfigFileAfterLoad` | src/time_manager.py:121-126 | a missing file is created holding the defaults; an existing file is left alone |
| `Config.LoadWrittenDefaults` | src/time_manager.py:121-126 | loading the file written for a missing configuration gives the same configuration again |
| `Config.SettingsOf` | src/time_manager.py:225-233 | no settings exactly when a key the scheduler reads has the wrong kind; otherwise the timezone, both interval bounds (booleans as 0 or 1), the window lists (parsed) and the delay are taken from the merged configuration, and the delay switch is Python truthiness |
| `Config.DefaultsSettings` | src/time_manager.py:95-111 | with no document or an unreadable one the scheduler runs on Asia/Kolkata, 3-4 hours, ±30 minutes, 07:00-23:30 on weekdays and 09:00-23:30 at weekends |
| `Config.ParseTimezone` | src/time_manager.py:62-91 | a table name gives its table offset; "UTC" in any case gives 0; "UTC"+suffix gives the suffix's float or 0; any other unknown name gives 0 |
| `Config.ParseTime` | src/time_manager.py:144-147 | "H:M" with exactly one colon and two integer sides gives the pair, otherwise the ValueError case; `Config.ParseTimeMatchesSplit` and `Config.ParseTimeRoundTrip` state its properties |
| `Config.ParseTimeMatchesSplit` | src/time_manager.py:144-147 | the colon scan reads "H:M" exactly as `split(':')` with two-way unpacking and two `int()` calls |
| `Config.ParseTimeRoundTrip` | src/time_manager.py:144-147 | any hour and minute printed as "H:M" parse back to the same pair |
| `Windows.WindowsFor` | src/time_manager.py:159-161 | the weekend list is used exactly on Saturday and Sunday, the weekday list otherwise |
| `Windows.ScanFrom` | src/time_manager.py:163-175 | the scan stops at the first window that fails to parse or that covers the minute, inclusive at both ends; every window before it parsed and missed |
| `Windows.ScanAt` | src/time_manager.py:155-175 | the scan of the day's list at the timestamp's minute of the day |
| `Windows.InWindow` | src/time_manager.py:149-175 | the membership check answers True; `Windows.InWindowIff` characterises it |
| `Windows.InWindowIff` | src/time_manager.py:149-175 | when the day's list parses, the time is active exactly when some window of that list covers its minute of the day |
| `Windows.FirstLaterStart` | src/time_manager.py:257-264 | the search stops at the first window, in list order, whose same-day start is strictly after the time; every earlier start is no later than it |
| `Windows.Adjust` | src/time_manager.py:246-277 | an in-window time is kept; otherwise the first later start that day plus the offset, else tomorrow's first start plus the offset; None where the source raises; the `Adjust*` lemmas state its properties |
| `Windows.AdjustMovesForward` | src/time_manager.py:246-277 | an in-window time is returned unchanged; otherwise the adjusted time is strictly later |
| `Windows.AdjustFirstMatch` | src/time_manager.py:253-264 | outside the windows, the result is the start of the first listed window starting later that day plus the offset, even if a later-listed window starts sooner |
| `Windows.AdjustNextDay` | src/time_manager.py:266-277 | past every start, the result is the first window of the next day's list plus the offset, on the next day; an empty next-day list raises |
| `Windows.DefaultWindowInclusive` | src/time_manager.py:163-170 | for 07:00-23:30, 07:00 and 23:30 are active and 06:59 and 23:31 are not |
| `Windows.WeekendRouting` | src/time_manager.py:139-161 | at 08:00 a Tuesday is active under the weekday window and a Saturday is not under the 09:00 weekend window |
| `Windows.AdjustLandsInWindow` | src/time_manager.py:246-277 | with non-empty lists of windows at least 30 minutes long and an offset of 0..30, the adjustment never raises and lands inside an active window |
| `Windows.AdjustIdempotent` | src/time_manager.py:246-251 | under the same conditions, adjusting an adjusted time changes nothing |
| `Windows.DefaultsAreDurable` | src/time_manager.py:102-107 | the default windows meet those conditions |
| `Windows.ShortWindowOvershoots` | src/time_manager.py:259-264 | with a 10-minute window, a 30-minute offset lands outside every window, so the fixed point needs the 30-minute bound |
| `Scheduler.ReadTimestamp` | src/time_manager.py:177-201 | a missing file reads as no value; otherwise the stripped text is read as an integer, with no value where `int()` raises |
| `Scheduler.ReadWrittenTimestamp` | src/time_manager.py:203-207 | a timestamp written as `str(t)` is read back as exactly t |
| `Scheduler.SplitRemaining` | src/time_manager.py:316-318 | the remaining time splits into whole hours and minutes 0..59 that floor the duration to the minute |
| `Scheduler.Decide` | src/time_manager.py:279-345 | force, then the window check, then the timing checks; `Scheduler.DecideRunsIff` and `Scheduler.RefusalOrder` state its properties |
| `Scheduler.TimingCheck` | src/time_manager.py:309-345 | a schedule still ahead refuses first, then a last run under the minimum interval ago; `Scheduler.ScheduleReleases` and `Scheduler.RefusalRemaining` state its properties |
| `Scheduler.DecideRunsIff` | src/time_manager.py:279-345 | a run goes ahead exactly when forced, or when in a window, the schedule (if any) is reached and the minimum interval since the last run (if any) has passed |
| `Scheduler.RefusalOrder` | src/time_manager.py:301-341 | the refusals are checked in order: outside the windows, then too early, then rate limited |
| `Scheduler.RefusalRemaining` | src/time_manager.py:315-339 | a refusal reports the positive time still to wait, split into hours and minutes |
| `Scheduler.FirstRunOnTuesdayMorning` | src/time_manager.py:343-345 | defaults, no state, Tuesday 10:00: all checks pass |
| `Scheduler.TuesdayNightOutside` | src/time_manager.py:301-307 | defaults, Tuesday 02:00: refused as outside the weekday windows |
| `Scheduler.TwoHoursEarly` | src/time_manager.py:309-323 | a schedule two hours ahead is refused as too early with 2h 0m remaining |
| `Scheduler.IntervalFallback` | src/time_manager.py:325-341 | with a 3-hour minimum, a run 1 hour ago is rate limited and one 4 hours ago passes |
| `Scheduler.ScheduleHoldsOffEarlyChecks` | src/time_manager.py:309-323 | before the recorded next time, no unforced check runs |
| `Scheduler.ScheduleReleases` | src/time_manager.py:309-345 | once the schedule and the minimum interval have passed, an in-window check runs |
| `Scheduler.CandidateBounds` | src/time_manager.py:224-239 | before adjustment, the next time lies between from + the smaller bound − delay range and from + the larger bound + delay range, in whole seconds, whichever order the two interval bounds are configured in; the delay is 0 when random delays are off |
| `Scheduler.Candidate` | src/time_manager.py:224-240 | the run it follows plus the drawn interval and, when random delays are on, the drawn delay |
| `Scheduler.NextRun` | src/time_manager.py:212-244 | the adjusted candidate, or None where `randint(-d, d)` or the adjustment raises |
| `Scheduler.DrawsExist` | src/time_manager.py:224-233 | every configuration admits a draw, so the draw constraints exclude no settings |
| `Scheduler.NextRunInWindow` | src/time_manager.py:212-244 | with durable windows, the next run never raises, is inside an active window and is no earlier than the candidate |
| `Scheduler.NextRunIsLater` | src/time_manager.py:236-242 | when the shortest interval exceeds the largest negative delay, the next run is not before the run it follows, and after it when the excess is a whole second or more |
| `Scheduler.TimeManager.constructor` | src/time_manager.py:49-60 | loads the merged configuration, creates a missing configuration file and resolves the timezone offset |
| `Scheduler.TimeManager.LocalTimeIsShifted` | src/time_manager.py:130-137 | the local time is the UTC time shifted by the offset, to the second below |
| `Scheduler.TimeManager.LocalTime` | src/time_manager.py:130-137 | the UTC time plus the offset in hours, without the fraction of a second; `LocalTimeIsShifted` states it |
| `Scheduler.TimeManager.LastRun` | src/time_manager.py:177-188 | the last-run file read as a timestamp |
| `Scheduler.TimeManager.Scheduled` | src/time_manager.py:190-201 | the schedule file read as a timestamp |
| `Scheduler.TimeManager.IsWithinActiveWindows` | src/time_manager.py:149-175 | the loop answers active exactly as the membership specification does, reports the day type and the first matching window, and raises exactly where the specification does |
| `Scheduler.TimeManager.AdjustToActiveWindow` | src/time_manager.py:246-277 | the search loops compute exactly the adjustment specification |
| `Scheduler.TimeManager.CalculateNextRun` | src/time_manager.py:212-244 | the next run is the adjusted candidate of interval plus delay |
| `Scheduler.TimeManager.ShouldRunNow` | src/time_manager.py:279-345 | the answer and reason are the decision at the local time over the two state files |
| `Scheduler.TimeManager.CheckTiming` | src/time_manager.py:309-345 | inside an active window, a scheduled time still ahead refuses with the time left, then a last run less than the minimum interval ago refuses with the interval's remainder; otherwise the run goes ahead |
| `Scheduler.TimeManager.RecordSuccessfulRun` | src/time_manager.py:347-363 | writes the run time, then the next run time, both read back exactly; if computing the next run raises, the schedule file is kept |
| `ReadmeStatus.CurrentIndex` | src/update_readme_status.py:24-31 | a missing or non-integer index file gives 0; otherwise its integer |
| `ReadmeStatus.ReadWrittenIndex` | src/update_readme_status.py:24-31 | an index written with `str` is read back unchanged |
| `ReadmeStatus.ConfiguredTimezone` | src/update_readme_status.py:56-64 | the document's timezone entry, or "UTC" when the file is missing, unreadable or lacks the entry |
| `ReadmeStatus.TimezoneLabelMatchesScheduler` | src/update_readme_status.py:56-64 | for a readable document with a "timezone" entry that the scheduler accepts, the README shows the timezone the scheduler uses |
| `ReadmeStatus.TimezoneLabelWithoutEntry` | src/update_readme_status.py:56-64 | for a readable document without a "timezone" entry, the README says UTC while the scheduler uses its default Asia/Kolkata |
| `ReadmeStatus.TimezoneLabelOnCorruptConfig` | src/update_readme_status.py:56-64 | for an unreadable file, the README says UTC while the scheduler uses Asia/Kolkata |
| `ReadmeStatus.AgoOf` | src/update_readme_status.py:77-95 | absent gives Never; under 60 s gives Just now; otherwise the count of the largest fitting unit (minutes below an hour, hours below a day, days beyond), floored |
| `ReadmeStatus.AgoText` | src/update_readme_status.py:79-95 | "Never", "Just now", or the count, a space and the unit phrase; `AgoTextReadsBack` and `AgoPlural` state its properties |
| `ReadmeStatus.FormatTimeAgo` | src/update_readme_status.py:77-95 | the phrase of the bucket of the elapsed time |
| `ReadmeStatus.AgoTextReadsBack` | src/update_readme_status.py:85-95 | each "time ago" phrase reads back as the bucket it came from |
| `ReadmeStatus.AgoPlural` | src/update_readme_status.py:88-95 | the unit takes an "s" exactly when the count is not 1 |
| `ReadmeStatus.UntilOf` | src/update_readme_status.py:98-120 | absent, overdue, under a minute, minutes, hours and minutes below 60, or days and hours below 24, each the floor of the remaining time |
| `ReadmeStatus.UntilText` | src/update_readme_status.py:100-120 | the fixed phrases, or "In ~" with one or two amounts and their units; `UntilTextReadsBack` states its property |
| `ReadmeStatus.FormatTimeUntil` | src/update_readme_status.py:98-120 | the phrase of the bucket of the remaining time |
| `ReadmeStatus.UntilTextReadsBack` | src/update_readme_status.py:106-120 | each "time until" phrase reads back as the bucket it came from |
| `ReadmeStatus.NextIndex` | src/update_readme_status.py:127 | 0 when there are no images, otherwise an index below the image count |
| `ReadmeStatus.RotateSteps` | src/update_readme_status.py:127 | k successive next indices from i give (i + k) mod total |
| `ReadmeStatus.RotationCycles` | src/update_readme_status.py:127 | after as many steps as there are images, the rotation is back where it began |
| `ReadmeStatus.StatusSection` | src/update_readme_status.py:138-153 | the section begins with the start marker and ends with the end marker |
| `ReadmeStatus.GeneratedSectionFramed` | src/update_readme_status.py:123-155 | the generated section holds no end marker between its own two markers |
| `ReadmeStatus.GenerateStatusSection` | src/update_readme_status.py:123-155 | the section built from the index file, the two timestamp files, the image count, the clock-time text and the timezone text |
| `ReadmeStatus.FirstSpan` | src/update_readme_status.py:173-174 | the first start marker and the first end marker after it; the span ends within the text |
| `ReadmeStatus.Splice` | src/update_readme_status.py:171-174 | `re.sub` of every non-overlapping start-to-first-end span, scanning on after each replacement |
| `ReadmeStatus.SpliceWithoutSpan` | src/update_readme_status.py:171-174 | when no start marker has an end marker after it, the text is unchanged |
| `ReadmeStatus.SpliceFirstSpan` | src/update_readme_status.py:171-174 | the first start-to-first-end span is replaced by the section, the text before it is kept, and the splice goes on after it |
| `ReadmeStatus.SpliceIdempotent` | src/update_readme_status.py:171-174 | replacing with a framed section twice equals replacing once |
| `ReadmeStatus.InsertPosition` | src/update_readme_status.py:179-185 | the first line starting with "## " or "> **TL;DR", or 0 when there is none |
| `ReadmeStatus.FindInsertPosition` | src/update_readme_status.py:179-185 | the search loop finds exactly that position |
| `ReadmeStatus.InsertionKeepsText` | src/update_readme_status.py:175-189 | insertion keeps all of the original text in order, with the section and a blank line put in at the start of the chosen line |
| `ReadmeStatus.Inserted` | src/update_readme_status.py:178-189 | split into lines, insert the section and a newline before the chosen line, join again |
| `ReadmeStatus.Updated` | src/update_readme_status.py:170-189 | splice when both markers occur, insert otherwise |
| `ReadmeStatus.UpdateSettles` | src/update_readme_status.py:158-194 | updating twice with the same section gives what updating once gave, unless a start marker has no end marker |
| `ReadmeStatus.ReadmeFile.Update` | src/update_readme_status.py:158-194 | no README means no update; otherwise splice when both markers occur, insert otherwise |

## Left out

- File I/O, directory creation, JSON encoding and decoding, and logging.
  - The configuration file is a `ConfigFile` value.
  - The state files and the README are fields.
  - `print` messages are not modelled.
- Write failures are not modelled. The source swallows them on the state
  files and lets them propagate when it creates the configuration file.
  The model's writes always succeed.
- Wall-clock conversions are not modelled: `datetime.now`, and naive
  `timestamp()` / `fromtimestamp()` under the system's local timezone and
  its daylight saving. Within the range `fromtimestamp` accepts, a stored
  timestamp reads back as the local time it was written from.
- Scheduler.ReadTimestamp: an integer outside the range
  `datetime.fromtimestamp` accepts (platform dependent, years 1 to 9999 at
  most) makes the source's readers return None through their `except`.
  The model reads it as that integer, because the bound depends on the
  platform.
- The status writer's `datetime.now()` is the host's local time. The
  stored timestamps hold the configured zone's local time, so the source's
  "time ago" and "time until" are off by the difference between the two
  zones (5.5 hours for IST configured on a UTC host). The model passes
  one `now` to both, which hides that offset.
- Sub-second precision is not modelled.
  - The local time drops its microseconds.
  - The drawn base interval enters as its whole seconds, between the
    floors of the two bounds in seconds, so every configuration admits a
    draw (`Scheduler.DrawsExist`). A strictly later next run by under a
    second shows up as equal (`Scheduler.NextRunIsLater`).
  - `timedelta`'s rounding to microseconds is not modelled.
  - Comparisons with the integer schedule are unaffected. Remaining times
    and the rate-limit comparison may differ from the source by under one
    second.
- Scheduler.NextRun: Python's `datetime` covers only the years 1 to 9999.
  Adding the drawn interval or a day past that range raises
  `OverflowError` in the source (a `min_interval_hours` of 1e8, say), and
  `record_successful_run` does not catch it, so the run stops. The model's
  integers are unbounded: `NextRun` gives that far-off time and
  `RecordSuccessfulRun` writes it.
- Config.SettingsOf: `json.load` accepts `NaN`, `Infinity` and
  `-Infinity`. A `Float` holds an exact real, so a document with a
  non-finite interval bound is not modelled.
- `float()` on the text after "UTC" is the parameter `parseOffset`.
- Unicode is not modelled. `str.upper`, `str.strip` and `int()` are ASCII
  only, and `int()`'s acceptance of underscores such as "1_0" is not
  modelled.
- Scheduler.TimeManager.constructor: requires every configuration key the
  scheduler reads to hold a value of the right kind: a string timezone,
  numeric or boolean interval bounds, two window lists, and an integer or
  boolean delay when delays are on. The source only raises when it
  reaches the ill-typed key. A bad `max_interval_hours`, for example, does
  not stop `should_run_now`.
- A window object without a "start" or "end" key is not modelled (`KeyError`
  in the source). Every `Window` has both.
- A `dict.update` that raises halfway through, leaving some user keys
  applied, is not modelled. Such a document counts as unreadable.
- `get_schedule_info` and the `details` dictionary of `should_run_now` are
  display text and are not modelled. The reason is a `Reason` value, not
  a formatted string.
- `strftime` output is not modelled. The next run's clock-time text is a
  parameter of `GenerateStatusSection`, and so is the timezone text.
- `get_total_images` lists a directory. Its count is the parameter `total`.
- ReadmeStatus.ReadmeFile.Update: requires the section to hold no
  backslash, because `re.sub` would read one as an escape in the
  replacement; general regular-expression semantics are not modelled.
- ReadmeStatus.GeneratedSectionFramed: requires the clock-time and
  timezone texts to hold no '!', since a marker inside them would break
  the framing.
- Concurrency is not modelled. Overlapping runs can race on the state
  files, and the source does nothing about it.
- `src/main.py`, `main.py`, `serverless/main.py` and `src/create_session.py`
  are not part of this model. They are login and session handling,
  network calls and a sleep loop.
