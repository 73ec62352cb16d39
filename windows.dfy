/**
 * The activity-window policy: which window list applies to a timestamp,
 * whether the timestamp falls inside one of its windows (inclusive at both
 * ends, first match in list order), and the adjustment that moves a
 * candidate time to the next window start. These functions are the
 * specification the scheduler's loops are proved against.
 *
 * The source parses a window's bounds only when its loop reaches that
 * window, and raises ValueError there when they do not parse (or, for
 * `datetime.replace`, when the start is not a time of day). The scans
 * below stop at the same window and report it, so every raising path is
 * a value here rather than a precondition.
 */
module Windows {
  import opened Wrappers
  import opened Clock
  import opened Config

  function Minutes(hm: (int, int)): int {
    hm.0 * 60 + hm.1
  }

  /** An hour 0..23 and minute 0..59, as `datetime.replace` accepts. */
  predicate IsClockTime(hm: (int, int)) {
    0 <= hm.0 < 24 && 0 <= hm.1 < 60
  }

  /** Both bounds of the window parse as "H:M". */
  predicate Parses(w: TimedWindow) {
    w.start.Some? && w.end.Some?
  }

  /** The start parses and is a time of day that `datetime.replace` accepts. */
  predicate StartIsClockTime(w: TimedWindow) {
    w.start.Some? && IsClockTime(w.start.value)
  }

  function StartMinutes(w: TimedWindow): int
    requires w.start.Some?
  {
    Minutes(w.start.value)
  }

  function EndMinutes(w: TimedWindow): int
    requires w.end.Some?
  {
    Minutes(w.end.value)
  }

  /** `start_minutes <= minute <= end_minutes`. */
  predicate Covers(w: TimedWindow, minute: int)
    requires Parses(w)
  {
    StartMinutes(w) <= minute <= EndMinutes(w)
  }

  predicate AllParse(ws: seq<TimedWindow>) {
    forall i :: 0 <= i < |ws| ==> Parses(ws[i])
  }

  /** Windows k..i-1 all parse and none of them covers the minute. */
  predicate PassedOver(ws: seq<TimedWindow>, minute: int, k: nat, i: nat)
    requires k <= i <= |ws|
  {
    forall j :: k <= j < i ==> Parses(ws[j]) && !Covers(ws[j], minute)
  }

  /** The weekend list on Saturday and Sunday, the weekday list otherwise. */
  function WindowsFor(s: Settings, t: int): (ws: seq<TimedWindow>)
    ensures IsWeekend(t) ==> ws == s.weekendWindows
    ensures !IsWeekend(t) ==> ws == s.weekdayWindows
  {
    if IsWeekend(t) then s.weekendWindows else s.weekdayWindows
  }

  /** Where a scan through a window list stops. */
  datatype Scan = Covered(index: nat) | Uncovered | Unparsable(index: nat)

  /**
   * The membership loop from window k on: it stops at the first window
   * that does not parse or that covers the minute.
   */
  function ScanFrom(ws: seq<TimedWindow>, minute: int, k: nat): (r: Scan)
    requires k <= |ws|
    ensures r.Covered? ==>
      (&& k <= r.index < |ws| && PassedOver(ws, minute, k, r.index)
       && Parses(ws[r.index]) && Covers(ws[r.index], minute))
    ensures r.Unparsable? ==>
      (&& k <= r.index < |ws| && PassedOver(ws, minute, k, r.index)
       && !Parses(ws[r.index]))
    ensures r.Uncovered? <==> PassedOver(ws, minute, k, |ws|)
    decreases |ws| - k
  {
    if k == |ws| then Uncovered
    else if !Parses(ws[k]) then Unparsable(k)
    else if Covers(ws[k], minute) then Covered(k)
    else ScanFrom(ws, minute, k + 1)
  }

  /** The membership check of timestamp t against the day's list. */
  function ScanAt(s: Settings, t: int): Scan {
    ScanFrom(WindowsFor(s, t), MinuteOfDay(t), 0)
  }

  /** `_is_within_active_windows(t)` answers True. */
  predicate InWindow(s: Settings, t: int) {
    ScanAt(s, t).Covered?
  }

  /**
   * When the day's list parses, the check answers True exactly when some
   * window of the list covers the timestamp's minute of the day.
   */
  lemma InWindowIff(s: Settings, t: int)
    requires AllParse(WindowsFor(s, t))
    ensures var ws := WindowsFor(s, t);
      InWindow(s, t) <==> exists i :: 0 <= i < |ws| && Covers(ws[i], MinuteOfDay(t))
    ensures !ScanAt(s, t).Unparsable?
  {
    var ws := WindowsFor(s, t);
    var r := ScanAt(s, t);
    if r.Covered? {
      assert Covers(ws[r.index], MinuteOfDay(t));
    }
  }

  /** `dt.replace(hour=start_h, minute=start_m, second=0)`. */
  function WindowStart(t: int, w: TimedWindow): int
    requires StartIsClockTime(w)
  {
    AtMinute(t, StartMinutes(w))
  }

  /** Where the adjustment's search for a later start stops. */
  datatype StartSearch = LaterStart(index: nat) | NoLaterStart | BadStart(index: nat)

  /** Windows k..i-1 all have clock-time starts no later than t on t's day. */
  predicate StartsPassed(ws: seq<TimedWindow>, t: int, k: nat, i: nat)
    requires k <= i <= |ws|
  {
    forall j :: k <= j < i ==> StartIsClockTime(ws[j]) && WindowStart(t, ws[j]) <= t
  }

  /**
   * The adjustment loop from window k on: it stops at the first window
   * whose start `replace` rejects, or whose same-day start is after t.
   */
  function FirstLaterStart(ws: seq<TimedWindow>, t: int, k: nat): (r: StartSearch)
    requires k <= |ws|
    ensures r.LaterStart? ==>
      (&& k <= r.index < |ws| && StartsPassed(ws, t, k, r.index)
       && StartIsClockTime(ws[r.index]) && t < WindowStart(t, ws[r.index]))
    ensures r.BadStart? ==>
      (&& k <= r.index < |ws| && StartsPassed(ws, t, k, r.index)
       && !StartIsClockTime(ws[r.index]))
    ensures r.NoLaterStart? <==> StartsPassed(ws, t, k, |ws|)
    decreases |ws| - k
  {
    if k == |ws| then NoLaterStart
    else if !StartIsClockTime(ws[k]) then BadStart(k)
    else if t < WindowStart(t, ws[k]) then LaterStart(k)
    else FirstLaterStart(ws, t, k + 1)
  }

  /**
   * `_adjust_to_active_window(t)` with `offset` as the random 0..30 minute
   * draw; None where the source raises. A time inside a window is kept;
   * otherwise the result is the start of the first window, in list order,
   * starting later that day, plus `offset` minutes; otherwise the first
   * window of the next day's list plus `offset` minutes.
   */
  function Adjust(s: Settings, t: int, offset: int): Option<int> {
    var ws := WindowsFor(s, t);
    match ScanAt(s, t)
    case Unparsable(_) => None
    case Covered(_) => Some(t)
    case Uncovered =>
      match FirstLaterStart(ws, t, 0)
      case BadStart(_) => None
      case LaterStart(i) => Some(WindowStart(t, ws[i]) + offset * 60)
      case NoLaterStart =>
        var next := t + SecondsPerDay;
        var tomorrow := WindowsFor(s, next);
        if |tomorrow| > 0 && StartIsClockTime(tomorrow[0]) then
          Some(WindowStart(next, tomorrow[0]) + offset * 60)
        else None
  }

  /** The adjustment keeps in-window times and otherwise moves strictly later. */
  lemma AdjustMovesForward(s: Settings, t: int, offset: int)
    requires 0 <= offset
    ensures InWindow(s, t) ==> Adjust(s, t, offset) == Some(t)
    ensures Adjust(s, t, offset).Some? && !InWindow(s, t) ==> Adjust(s, t, offset).value > t
  {
    if !InWindow(s, t) && FirstLaterStart(WindowsFor(s, t), t, 0).NoLaterStart? {
      NextDay(t);
    }
  }

  /**
   * Outside every window, the adjustment is first-match, not nearest-match:
   * it takes the first window in list order whose start is later that day.
   */
  lemma AdjustFirstMatch(s: Settings, t: int, offset: int, i: nat)
    requires ScanAt(s, t).Uncovered?
    requires var ws := WindowsFor(s, t);
      i < |ws| && StartsPassed(ws, t, 0, i) && StartIsClockTime(ws[i]) && t < WindowStart(t, ws[i])
    ensures Adjust(s, t, offset) == Some(WindowStart(t, WindowsFor(s, t)[i]) + offset * 60)
  {
  }

  /**
   * Outside every window and past every start of the day, the adjustment
   * goes to the first window of the next day's list (weekday or weekend
   * as that day is), whatever the later windows of that list; an empty
   * list for the next day raises.
   */
  lemma AdjustNextDay(s: Settings, t: int, offset: int)
    requires ScanAt(s, t).Uncovered?
    requires StartsPassed(WindowsFor(s, t), t, 0, |WindowsFor(s, t)|)
    ensures var tomorrow := WindowsFor(s, t + SecondsPerDay);
      |tomorrow| > 0 && StartIsClockTime(tomorrow[0]) ==>
        Adjust(s, t, offset) == Some(WindowStart(t + SecondsPerDay, tomorrow[0]) + offset * 60)
    ensures |WindowsFor(s, t + SecondsPerDay)| == 0 ==> Adjust(s, t, offset).None?
    ensures Adjust(s, t, offset).Some? ==>
      Day(Adjust(s, t, offset).value - offset * 60) == Day(t) + 1
  {
    var next := t + SecondsPerDay;
    var tomorrow := WindowsFor(s, next);
    assert FirstLaterStart(WindowsFor(s, t), t, 0).NoLaterStart?;
    if |tomorrow| > 0 && StartIsClockTime(tomorrow[0]) {
      AtMinuteSameDay(next, StartMinutes(tomorrow[0]), 0);
      NextDay(t);
    }
  }

  /**
   * The default weekday window 07:00-23:30 on Tuesday 1970-01-06 holds
   * 07:00 and 23:30 and neither 06:59 nor 23:31.
   */
  lemma DefaultWindowInclusive()
    ensures var tue := 5 * SecondsPerDay;
      && InWindow(DefaultSettings, tue + 7 * 3600)
      && InWindow(DefaultSettings, tue + 23 * 3600 + 30 * 60)
      && !InWindow(DefaultSettings, tue + 6 * 3600 + 59 * 60)
      && !InWindow(DefaultSettings, tue + 23 * 3600 + 31 * 60)
  {
    DayOf(5, 7 * 3600);
    DayOf(5, 23 * 3600 + 30 * 60);
    DayOf(5, 6 * 3600 + 59 * 60);
    DayOf(5, 23 * 3600 + 31 * 60);
  }

  /**
   * At 08:00 a Tuesday is inside the weekday window and a Saturday
   * (1970-01-03) outside the weekend window, which opens at 09:00.
   */
  lemma WeekendRouting()
    ensures var tue, sat := 5 * SecondsPerDay + 8 * 3600, 2 * SecondsPerDay + 8 * 3600;
      && !IsWeekend(tue) && IsWeekend(sat)
      && InWindow(DefaultSettings, tue) && !InWindow(DefaultSettings, sat)
  {
    DayOf(5, 8 * 3600);
    DayOf(2, 8 * 3600);
  }

  /** The window is at least 30 minutes long and both bounds are times of day. */
  predicate Roomy(w: TimedWindow) {
    && w.start.Some? && IsClockTime(w.start.value)
    && w.end.Some? && IsClockTime(w.end.value)
    && StartMinutes(w) + 30 <= EndMinutes(w)
  }

  /** Both lists are non-empty and every window in them is roomy. */
  predicate Durable(s: Settings) {
    && |s.weekdayWindows| > 0 && |s.weekendWindows| > 0
    && (forall i :: 0 <= i < |s.weekdayWindows| ==> Roomy(s.weekdayWindows[i]))
    && (forall i :: 0 <= i < |s.weekendWindows| ==> Roomy(s.weekendWindows[i]))
  }

  /**
   * The window fixed point: with non-empty lists of windows at least 30
   * minutes long, an offset of 0..30 minutes lands the adjusted time
   * inside an active window, and the adjustment never raises.
   */
  lemma AdjustLandsInWindow(s: Settings, t: int, offset: int)
    requires Durable(s) && 0 <= offset <= 30
    ensures Adjust(s, t, offset).Some?
    ensures InWindow(s, Adjust(s, t, offset).value)
  {
    var ws := WindowsFor(s, t);
    DurableWindows(s, t);
    InWindowIff(s, t);
    if !InWindow(s, t) {
      assert ScanAt(s, t).Uncovered?;
      if FirstLaterStart(ws, t, 0).LaterStart? {
        AdjustToLaterStart(s, t, offset);
      } else {
        AdjustToTomorrow(s, t, offset);
      }
    }
  }

  /** The adjustment to a later start the same day lands in that window. */
  lemma AdjustToLaterStart(s: Settings, t: int, offset: int)
    requires Durable(s) && 0 <= offset <= 30
    requires ScanAt(s, t).Uncovered? && FirstLaterStart(WindowsFor(s, t), t, 0).LaterStart?
    ensures Adjust(s, t, offset).Some? && InWindow(s, Adjust(s, t, offset).value)
  {
    var i := FirstLaterStart(WindowsFor(s, t), t, 0).index;
    AdjustUncovered(s, t, offset);
    OffsetStartInWindow(s, t, i, offset);
  }

  /** The adjustment of a time outside every window, case by case on the search for a later start. */
  lemma AdjustUncovered(s: Settings, t: int, offset: int)
    requires ScanAt(s, t).Uncovered?
    ensures var ws, f := WindowsFor(s, t), FirstLaterStart(WindowsFor(s, t), t, 0);
      && (f.LaterStart? ==> Adjust(s, t, offset) == Some(WindowStart(t, ws[f.index]) + offset * 60))
      && (f.NoLaterStart? ==> var next := t + SecondsPerDay; var tomorrow := WindowsFor(s, next);
            |tomorrow| > 0 && StartIsClockTime(tomorrow[0]) ==>
              Adjust(s, t, offset) == Some(WindowStart(next, tomorrow[0]) + offset * 60))
  {
  }

  /** With no later start today, the adjustment to tomorrow's first window lands in it. */
  lemma AdjustToTomorrow(s: Settings, t: int, offset: int)
    requires Durable(s) && 0 <= offset <= 30
    requires ScanAt(s, t).Uncovered? && !FirstLaterStart(WindowsFor(s, t), t, 0).LaterStart?
    ensures Adjust(s, t, offset).Some? && InWindow(s, Adjust(s, t, offset).value)
  {
    var next := t + SecondsPerDay;
    DurableWindows(s, t);
    DurableWindows(s, next);
    assert FirstLaterStart(WindowsFor(s, t), t, 0).NoLaterStart?;
    AdjustUncovered(s, t, offset);
    OffsetStartInWindow(s, next, 0, offset);
  }

  /** Every window of a durable configuration's list for the day parses and is roomy. */
  lemma DurableWindows(s: Settings, t: int)
    requires Durable(s)
    ensures var ws := WindowsFor(s, t);
      && |ws| > 0 && AllParse(ws) && forall i :: 0 <= i < |ws| ==> Roomy(ws[i])
  {
  }

  /** A roomy window's start plus up to 30 minutes, on the same day, is inside that window. */
  lemma OffsetStartInWindow(s: Settings, t: int, i: nat, offset: int)
    requires Durable(s) && 0 <= offset <= 30 && i < |WindowsFor(s, t)|
    ensures InWindow(s, WindowStart(t, WindowsFor(s, t)[i]) + offset * 60)
  {
    var ws := WindowsFor(s, t);
    DurableWindows(s, t);
    var w := ws[i];
    var r := WindowStart(t, w) + offset * 60;
    AtMinuteSameDay(t, StartMinutes(w) + offset, 0);
    assert r == AtMinute(t, StartMinutes(w) + offset);
    assert WindowsFor(s, r) == ws;
    InWindowIff(s, r);
    assert Covers(w, MinuteOfDay(r));
  }

  /** Under the same conditions, adjusting an adjusted time changes nothing. */
  lemma AdjustIdempotent(s: Settings, t: int, offset: int, offset2: int)
    requires Durable(s) && 0 <= offset <= 30 && 0 <= offset2
    ensures Adjust(s, t, offset).Some?
    ensures Adjust(s, Adjust(s, t, offset).value, offset2) == Adjust(s, t, offset)
  {
    AdjustLandsInWindow(s, t, offset);
    AdjustMovesForward(s, Adjust(s, t, offset).value, offset2);
  }

  /** The built-in windows, 07:00-23:30 on weekdays and 09:00-23:30 at weekends, are durable. */
  lemma DefaultsAreDurable()
    ensures Durable(DefaultSettings)
  {
  }

  /** A ten-minute window, 07:00-07:10, with its bounds as `_parse_time` reads them. */
  const ShortWindow: TimedWindow := TimedWindow(Window("07:00", "07:10"), Some((7, 0)), Some((7, 10)))

  lemma ShortWindowParses()
    ensures Timed(ShortWindow.window) == ShortWindow
  {
    Parses0700();
    Parses0710();
  }

  lemma Parses0710() ensures ParseTime("07:10") == Some((7, 10)) { ParseClockText("07:10"); }

  /**
   * Without the 30-minute bound the fixed point fails: with the 07:00-07:10
   * window on every day, a Monday 06:00 candidate and the largest offset
   * give 07:30, outside every window.
   */
  lemma ShortWindowOvershoots()
    ensures var s := Settings("UTC", 3.0, 4.0, 30, true, [ShortWindow], [ShortWindow]);
      var t := 4 * SecondsPerDay + 6 * 3600;
      Adjust(s, t, 30).Some? && !InWindow(s, Adjust(s, t, 30).value)
  {
    var w := ShortWindow;
    var s := Settings("UTC", 3.0, 4.0, 30, true, [w], [w]);
    var t := 4 * SecondsPerDay + 6 * 3600;
    DayOf(4, 6 * 3600);
    assert MinuteOfDay(t) == 360;
    assert ScanAt(s, t) == Uncovered;
    AtMinuteSameDay(t, 420, 0);
    assert FirstLaterStart([w], t, 0) == LaterStart(0);
    var r := Adjust(s, t, 30).value;
    assert r == AtMinute(t, 450);
    AtMinuteSameDay(t, 450, 0);
    assert MinuteOfDay(r) == 450;
    assert ScanAt(s, r) == Uncovered;
  }
}
