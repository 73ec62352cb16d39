/**
 * The README status writer (src/update_readme_status.py): reading the
 * rotation index, the two state-file timestamps and the configured
 * timezone with a default on every failure, the "time ago" and "time
 * until" phrases, the cyclic next index, the marker-framed status
 * section, and splicing that section into the README text.
 *
 * "Now" is a parameter. Timestamps are whole seconds, so every
 * `int(diff.total_seconds() / unit)` of the source is a floor division of
 * a non-negative integer.
 */
module ReadmeStatus {
  import opened Wrappers
  import opened Text
  import opened Config
  import opened Scheduler

  // ---------------------------------------------------------------------
  // Readers: every failure falls back to a default.
  // ---------------------------------------------------------------------

  /** `get_current_index`: the integer in the index file, 0 when it is absent or not an integer. */
  function CurrentIndex(file: Option<string>): (r: int)
    ensures file.None? ==> r == 0
    ensures file.Some? && ParseInt(Strip(file.value)).None? ==> r == 0
    ensures file.Some? && ParseInt(Strip(file.value)).Some? ==> r == ParseInt(Strip(file.value)).value
  {
    match file
    case None => 0
    case Some(text) => ParseInt(Strip(text)).GetOr(0)
  }

  /** An index written with `str(i)` is read back as i. */
  lemma ReadWrittenIndex(i: int)
    ensures CurrentIndex(Some(IntToString(i))) == i
  {
    ReadWrittenTimestamp(i);
  }

  /**
   * `get_timezone`: the "timezone" entry of the configuration document,
   * "UTC" when the file is absent, unreadable, or has no such entry.
   */
  function ConfiguredTimezone(file: ConfigFile): (r: Value)
    ensures file.Document? && "timezone" in file.doc ==> r == file.doc["timezone"]
    ensures !(file.Document? && "timezone" in file.doc) ==> r == Str("UTC")
  {
    match file
    case Document(doc) => if "timezone" in doc then doc["timezone"] else Str("UTC")
    case _ => Str("UTC")
  }

  /**
   * When the document names a timezone the scheduler accepts, the README
   * shows exactly the name the scheduler works in.
   */
  lemma TimezoneLabelMatchesScheduler(file: ConfigFile)
    requires file.Document? && "timezone" in file.doc
    requires SettingsOf(LoadConfig(file)).Some?
    ensures ConfiguredTimezone(file) == Str(SettingsOf(LoadConfig(file)).value.timezone)
  {
  }

  /**
   * With an unreadable configuration the two scripts part ways: the
   * scheduler falls back to its default "Asia/Kolkata" while the README
   * is labelled "UTC".
   */
  lemma TimezoneLabelOnCorruptConfig()
    ensures ConfiguredTimezone(Corrupt) == Str("UTC")
    ensures LoadConfig(Corrupt)["timezone"] == Str("Asia/Kolkata")
  {
  }

  /**
   * A readable document without a "timezone" entry parts the scripts the
   * same way: the README is labelled "UTC" while the scheduler keeps its
   * default "Asia/Kolkata".
   */
  lemma TimezoneLabelWithoutEntry(doc: map<string, Value>)
    requires "timezone" !in doc
    ensures ConfiguredTimezone(Document(doc)) == Str("UTC")
    ensures LoadConfig(Document(doc))["timezone"] == Str("Asia/Kolkata")
  {
  }

  // ---------------------------------------------------------------------
  // "Time ago" (`format_time_ago`).
  // ---------------------------------------------------------------------

  datatype Unit = Minute | Hour | Day

  function UnitSeconds(u: Unit): nat {
    match u
    case Minute => 60
    case Hour => 3600
    case Day => 86400
  }

  function UnitName(u: Unit): string {
    match u
    case Minute => "min"
    case Hour => "hour"
    case Day => "day"
  }

  /** The phrase `format_time_ago` picks: no run yet, under a minute, or a whole count of one unit. */
  datatype Ago = Never | JustNow | Elapsed(count: nat, unit: Unit)

  /**
   * The bucket for a last run at `last` seen at `now`: the count is the
   * elapsed time floored to the largest unit that fits, minutes below an
   * hour, hours below a day, days beyond.
   */
  function AgoOf(last: Option<int>, now: int): (a: Ago)
    ensures a.Never? <==> last.None?
    ensures a.JustNow? <==> last.Some? && now - last.value < 60
    ensures a.Elapsed? ==> (last.Some? && (var d := now - last.value;
      && 1 <= a.count
      && a.count * UnitSeconds(a.unit) <= d < (a.count + 1) * UnitSeconds(a.unit)
      && (a.unit == Minute <==> d < 3600)
      && (a.unit == Day <==> 86400 <= d)))
  {
    match last
    case None => Never
    case Some(t) =>
      var d := now - t;
      if d < 60 then JustNow
      else if d < 3600 then Elapsed(d / 60, Minute)
      else if d < 86400 then Elapsed(d / 3600, Hour)
      else Elapsed(d / 86400, Day)
  }

  /** The unit word, with an "s" unless the count is exactly 1, then " ago". */
  function UnitPhrase(count: nat, u: Unit): string {
    UnitName(u) + (if count != 1 then "s" else "") + " ago"
  }

  function AgoText(a: Ago): string {
    match a
    case Never => "Never"
    case JustNow => "Just now"
    case Elapsed(count, u) => NatToString(count) + " " + UnitPhrase(count, u)
  }

  /** `format_time_ago(dt)` with "now" passed in. */
  function FormatTimeAgo(last: Option<int>, now: int): string {
    AgoText(AgoOf(last, now))
  }

  /** Reads a "time ago" phrase back into its bucket. */
  function ParseAgo(s: string): Option<Ago> {
    if s == "Never" then Some(Never)
    else if s == "Just now" then Some(JustNow)
    else ParseElapsed(s)
  }

  /** A count, a space, then the unit phrase for that count. */
  function ParseElapsed(s: string): Option<Ago> {
    var i := FindChar(s, ' ', 0);
    if i == 0 || i == |s| || !DigitsIn(s, 0, i) then None
    else ParseUnitPhrase(ValueIn(s, 0, i), s[i + 1..])
  }

  function ParseUnitPhrase(count: nat, rest: string): Option<Ago> {
    if rest == UnitPhrase(count, Minute) then Some(Elapsed(count, Minute))
    else if rest == UnitPhrase(count, Hour) then Some(Elapsed(count, Hour))
    else if rest == UnitPhrase(count, Day) then Some(Elapsed(count, Day))
    else None
  }

  /** The three unit phrases differ in their first letter, so each reads back as its own unit. */
  lemma UnitPhraseReadsBack(count: nat, u: Unit)
    ensures ParseUnitPhrase(count, UnitPhrase(count, u)) == Some(Elapsed(count, u))
  {
    assert UnitPhrase(count, Minute)[0] == 'm';
    assert UnitPhrase(count, Hour)[0] == 'h';
    assert UnitPhrase(count, Day)[0] == 'd';
  }

  /** The printed count is read back, and the rest after its space is handed on. */
  lemma ElapsedReadsBack(count: nat, p: string)
    ensures ParseElapsed(NatToString(count) + " " + p) == ParseUnitPhrase(count, p)
  {
    var d := NatToString(count);
    var s := d + " " + p;
    assert s == d + (" " + p);
    ReadNatPrefix(count, " " + p);
    assert s[|d|] == ' ';
    assert forall j :: 0 <= j < |d| ==> s[j] == d[j];
    assert FindChar(s, ' ', 0) == |d|;
    assert s[|d| + 1..] == p;
  }

  /** The phrase names its bucket unambiguously: it reads back as the bucket it came from. */
  lemma AgoTextReadsBack(a: Ago)
    ensures ParseAgo(AgoText(a)) == Some(a)
  {
    if a.Elapsed? {
      var s := AgoText(a);
      ElapsedReadsBack(a.count, UnitPhrase(a.count, a.unit));
      UnitPhraseReadsBack(a.count, a.unit);
      assert IsDigit(s[0]);
    }
  }

  /** "min" / "hour" / "day" takes an "s" exactly when the count is not 1. */
  lemma AgoPlural(last: Option<int>, now: int)
    requires AgoOf(last, now).Elapsed?
    ensures EndsWith(FormatTimeAgo(last, now), "s ago") <==> AgoOf(last, now).count != 1
  {
    var a := AgoOf(last, now);
    var s := FormatTimeAgo(last, now);
    var d := NatToString(a.count);
    if a.count == 1 {
      assert s[|s| - 5] == UnitName(a.unit)[|UnitName(a.unit)| - 1];
    } else {
      assert s == d + " " + UnitName(a.unit) + "s ago";
    }
  }

  // ---------------------------------------------------------------------
  // "Time until" (`format_time_until`).
  // ---------------------------------------------------------------------

  datatype Until =
    | NotScheduled
    | Overdue
    | UnderMinute
    | Minutes(mins: nat)
    | HoursMinutes(hours: nat, mins: nat)
    | DaysHours(days: nat, hours: nat)

  /**
   * The bucket for a scheduled time `next` seen at `now`: the whole
   * minutes below an hour, whole hours and the leftover minutes below a
   * day, whole days and the leftover hours beyond.
   */
  function UntilOf(next: Option<int>, now: int): (u: Until)
    ensures u.NotScheduled? <==> next.None?
    ensures u.Overdue? <==> next.Some? && next.value - now < 0
    ensures u.UnderMinute? <==> next.Some? && 0 <= next.value - now < 60
    ensures u.Minutes? ==> (next.Some? && (var d := next.value - now;
      && 1 <= u.mins < 60
      && u.mins * 60 <= d < u.mins * 60 + 60))
    ensures u.HoursMinutes? ==> (next.Some? && (var d := next.value - now;
      && 1 <= u.hours < 24 && u.mins < 60
      && u.hours * 3600 + u.mins * 60 <= d < u.hours * 3600 + u.mins * 60 + 60))
    ensures u.DaysHours? ==> (next.Some? && (var d := next.value - now;
      && 1 <= u.days && u.hours < 24
      && u.days * 86400 + u.hours * 3600 <= d < u.days * 86400 + u.hours * 3600 + 3600))
    ensures next.Some? && 60 <= next.value - now < 3600 ==> u.Minutes?
    ensures next.Some? && 3600 <= next.value - now < 86400 ==> u.HoursMinutes?
    ensures next.Some? && 86400 <= next.value - now ==> u.DaysHours?
  {
    match next
    case None => NotScheduled
    case Some(t) =>
      var d := t - now;
      if d < 0 then Overdue
      else if d < 60 then UnderMinute
      else if d < 3600 then Minutes(d / 60)
      else if d < 86400 then HoursMinutes(d / 3600, d % 3600 / 60)
      else DaysHours(d / 86400, d % 86400 / 3600)
  }

  function UntilText(u: Until): string {
    match u
    case NotScheduled => "Not scheduled"
    case Overdue => "Overdue"
    case UnderMinute => "In < 1 min"
    case Minutes(m) => "In ~" + NatToString(m) + " min"
    case HoursMinutes(h, m) => "In ~" + NatToString(h) + "h " + NatToString(m) + "m"
    case DaysHours(d, h) => "In ~" + NatToString(d) + "d " + NatToString(h) + "h"
  }

  /** `format_time_until(dt)` with "now" passed in. */
  function FormatTimeUntil(next: Option<int>, now: int): string {
    UntilText(UntilOf(next, now))
  }

  /** The end of the run of digits starting at k. */
  function DigitsEnd(s: string, k: nat): (r: nat)
    requires k <= |s|
    ensures k <= r <= |s| && DigitsIn(s, k, r)
    ensures r < |s| ==> !IsDigit(s[r])
    decreases |s| - k
  {
    if k == |s| || !IsDigit(s[k]) then k else DigitsEnd(s, k + 1)
  }

  /** A run of digits from k that stops at e, at a non-digit or the end, ends at e. */
  lemma {:induction false} DigitsEndAt(s: string, k: nat, e: nat)
    requires k <= e <= |s| && DigitsIn(s, k, e)
    requires e == |s| || !IsDigit(s[e])
    ensures DigitsEnd(s, k) == e
    decreases e - k
  {
    if k < e {
      DigitsEndAt(s, k + 1, e);
    }
  }

  /** `str(n)` printed after p and followed by a non-digit is read back as n. */
  lemma ReadNatAt(p: string, n: nat, q: string)
    requires q == [] || !IsDigit(q[0])
    ensures var s := p + NatToString(n) + q;
      && DigitsEnd(s, |p|) == |p| + |NatToString(n)|
      && ValueIn(s, |p|, |p| + |NatToString(n)|) == n
  {
    var d := NatToString(n);
    var s := p + d + q;
    var e := |p| + |d|;
    assert s[|p|..e] == d;
    DigitsRoundTrip(n);
    assert DigitsIn(d, 0, |d|);
    DigitsValueShift(s, |p|, e, |p|, e);
    assert DigitsIn(s, |p|, e);
    assert ValueIn(s, |p|, e) == n;
    if e < |s| {
      assert s[e] == q[0];
    }
    DigitsEndAt(s, |p|, e);
  }

  /** Reads a "time until" phrase back into its bucket. */
  function ParseUntil(s: string): Option<Until> {
    if s == "Not scheduled" then Some(NotScheduled)
    else if s == "Overdue" then Some(Overdue)
    else if s == "In < 1 min" then Some(UnderMinute)
    else if |s| < 4 || s[..4] != "In ~" then None
    else ParseAmounts(s)
  }

  /** The amounts after "In ~": one number and " min", or two numbers with their units. */
  function ParseAmounts(s: string): Option<Until>
    requires 4 <= |s|
  {
    var i := DigitsEnd(s, 4);
    if i == 4 then None
    else
      var a := ValueIn(s, 4, i);
      if s[i..] == " min" then Some(Minutes(a)) else ParsePair(s, i, a)
  }

  /** The second number, after the first number `a` ending at i, its unit letter and a space. */
  function ParsePair(s: string, i: nat, a: nat): Option<Until>
    requires 4 < i <= |s|
  {
    if i + 2 > |s| || s[i + 1] != ' ' then None
    else
      var j := DigitsEnd(s, i + 2);
      if j == i + 2 then None
      else
        PairUnits(s[i], s[j..], a, ValueIn(s, i + 2, j))
  }

  /** "<a>h <b>m" or "<a>d <b>h": the first unit letter and what follows the second number. */
  function PairUnits(u: char, rest: string, a: nat, b: nat): Option<Until> {
    if u == 'h' && rest == "m" then Some(HoursMinutes(a, b))
    else if u == 'd' && rest == "h" then Some(DaysHours(a, b))
    else None
  }

  /** A text opening with "In ~" and then a digit is none of the fixed phrases. */
  lemma ParseUntilAmounts(s: string)
    requires 5 <= |s| && s[..4] == "In ~" && IsDigit(s[4])
    ensures ParseUntil(s) == ParseAmounts(s)
  {
    assert s[3] == '~';
    assert s != "Not scheduled" && s != "Overdue";
  }

  /** Reading back a phrase with one number. */
  lemma ReadsBackOne(n: nat, tail: string)
    requires tail == " min"
    ensures ParseUntil("In ~" + NatToString(n) + tail) == Some(Minutes(n))
  {
    var s := "In ~" + NatToString(n) + tail;
    ReadNatAt("In ~", n, tail);
    assert s[..4] == "In ~";
    assert s[4] == NatToString(n)[0];
    ParseUntilAmounts(s);
    assert s[4 + |NatToString(n)|..] == tail;
  }

  /** The second half of a two-number phrase: `u`, a space, the digits of b, then `v`. */
  lemma ReadsBackPair(p: string, a: nat, u: char, b: nat, v: char)
    requires 4 < |p| && ((u, v) == ('h', 'm') || (u, v) == ('d', 'h'))
    ensures var s := p + [u, ' '] + NatToString(b) + [v];
      ParsePair(s, |p|, a) == Some(if u == 'h' then HoursMinutes(a, b) else DaysHours(a, b))
  {
    var db := NatToString(b);
    var s := p + [u, ' '] + db + [v];
    var i := |p|;
    var j := i + 2 + |db|;
    ReadNatAt(p + [u, ' '], b, [v]);
    assert DigitsEnd(s, i + 2) == j && ValueIn(s, i + 2, j) == b;
    assert s[i] == u && s[i + 1] == ' ';
    assert s[j..] == [v];
    assert ParsePair(s, i, a) == PairUnits(u, [v], a, b);
  }

  /** Reading back a phrase with two numbers, the first followed by `u` and a space, the second by `v`. */
  lemma ReadsBackTwo(a: nat, u: char, b: nat, v: char)
    requires ((u, v) == ('h', 'm') || (u, v) == ('d', 'h'))
    ensures var s := "In ~" + NatToString(a) + [u, ' '] + NatToString(b) + [v];
      ParseUntil(s) == Some(if u == 'h' then HoursMinutes(a, b) else DaysHours(a, b))
  {
    var da, db := NatToString(a), NatToString(b);
    var p := "In ~" + da;
    var s := p + [u, ' '] + db + [v];
    var i := |p|;
    ReadNatAt("In ~", a, [u, ' '] + db + [v]);
    assert s == "In ~" + da + ([u, ' '] + db + [v]);
    assert s[..4] == "In ~";
    assert s[4] == da[0];
    ParseUntilAmounts(s);
    assert DigitsEnd(s, 4) == i && ValueIn(s, 4, i) == a;
    assert s[i..][0] == u;
    ReadsBackPair(p, a, u, b, v);
  }
  /** The phrase names its bucket unambiguously: it reads back as the bucket it came from. */
  lemma UntilTextReadsBack(u: Until)
    ensures ParseUntil(UntilText(u)) == Some(u)
  {
    match u
    case NotScheduled =>
    case Overdue =>
    case UnderMinute =>
    case Minutes(m) => ReadsBackOne(m, " min");
    case HoursMinutes(h, m) =>
      ReadsBackTwo(h, 'h', m, 'm');
      assert UntilText(u) == "In ~" + NatToString(h) + ['h', ' '] + NatToString(m) + ['m'];
    case DaysHours(d, h) =>
      ReadsBackTwo(d, 'd', h, 'h');
      assert UntilText(u) == "In ~" + NatToString(d) + ['d', ' '] + NatToString(h) + ['h'];
  }

  // ---------------------------------------------------------------------
  // The rotation index.
  // ---------------------------------------------------------------------

  /** `next_idx` of `generate_status_section`: one past the current index, cyclically. */
  function NextIndex(current: int, total: nat): (r: int)
    ensures total == 0 ==> r == 0
    ensures total > 0 ==> 0 <= r < total
  {
    if total > 0 then (current + 1) % total else 0
  }

  /** k steps of the rotation from `current`. */
  function Rotate(current: int, total: nat, k: nat): int {
    if k == 0 then current else NextIndex(Rotate(current, total, k - 1), total)
  }

  /** Quotient and remainder are unique: a = q * n + r with 0 <= r < n fixes both. */
  lemma DivModUnique(a: int, n: int, q: int, r: int)
    requires n > 0 && a == q * n + r && 0 <= r < n
    ensures a % n == r && a / n == q
  {
    var q', r' := a / n, a % n;
    assert (q - q') * n == r' - r;
    if q > q' {
      MulAtLeast(q - q', n);
    } else if q < q' {
      MulAtLeast(q' - q, n);
    }
  }

  lemma {:induction false} MulAtLeast(k: int, n: int)
    requires k >= 1 && n > 0
    ensures k * n >= n
  {
    if k > 1 {
      MulAtLeast(k - 1, n);
      assert k * n == (k - 1) * n + n;
    }
  }

  /** One more step after a remainder is the remainder of one more. */
  lemma StepMod(a: int, n: int)
    requires n > 0
    ensures (a % n + 1) % n == (a + 1) % n
  {
    var r, q := a % n, a / n;
    assert a + 1 == q * n + (r + 1);
    if r + 1 < n {
      DivModUnique(r + 1, n, 0, r + 1);
      DivModUnique(a + 1, n, q, r + 1);
    } else {
      DivModUnique(r + 1, n, 1, 0);
      assert a + 1 == (q + 1) * n + 0;
      DivModUnique(a + 1, n, q + 1, 0);
    }
  }

  /** k steps of the rotation land on (current + k) mod total. */
  lemma {:induction false} RotateSteps(current: int, total: nat, k: nat)
    requires total > 0 && k > 0
    ensures Rotate(current, total, k) == (current + k) % total
  {
    if k > 1 {
      RotateSteps(current, total, k - 1);
      StepMod(current + k - 1, total);
    }
  }

  /** After `total` steps every index is back where it started: the rotation runs through all images and repeats. */
  lemma RotationCycles(current: int, total: nat)
    requires total > 0 && 0 <= current < total
    ensures Rotate(current, total, total) == current
  {
    RotateSteps(current, total, total);
    DivModUnique(current + total, total, 1, current);
  }

  // ---------------------------------------------------------------------
  // The status section (`generate_status_section`).
  // ---------------------------------------------------------------------

  const StartTail: string := "!-- STATUS_START -->"
  const EndTail: string := "!-- STATUS_END -->"

  /** The markers that frame the status section in the README. */
  const StartMarker: string := "<" + StartTail
  const EndMarker: string := "<" + EndTail

  /** Both markers open with "<!" and hold no other '<' or '!'. */
  lemma MarkerShapes()
    ensures |StartMarker| == 21 && |EndMarker| == 19
    ensures StartMarker[0] == '<' && forall d :: 0 < d < |StartMarker| ==> StartMarker[d] != '<'
    ensures EndMarker[0] == '<' && EndMarker[1] == '!'
  {
    assert '<' !in StartTail;
    forall d | 0 < d < |StartMarker| ensures StartMarker[d] != '<' {
      assert StartMarker[d] == StartTail[d - 1];
    }
  }

  /** The heading and the table's header rows. */
  const HeadTitle: string := "\n\n## Live Status\n\n"
  const HeadDiv: string := "<div align=\"center\">\n\n"
  const HeadColumns: string := "| Current DP | Next DP | Status |\n"
  const HeadRule: string := "|:----------:|:-------:|:------:|\n"
  const TableHead: string := HeadTitle + HeadDiv + HeadColumns + HeadRule

  lemma NoBangInHeadTitle() ensures '!' !in HeadTitle {}
  lemma NoBangInHeadDiv() ensures '!' !in HeadDiv {}
  lemma NoBangInHeadColumns() ensures '!' !in HeadColumns {}
  lemma NoBangInHeadRule() ensures '!' !in HeadRule {}

  lemma NoBangInTableHead()
    ensures '!' !in TableHead
  {
    NoBangInHeadTitle();
    NoBangInHeadDiv();
    NoBangInHeadColumns();
    NoBangInHeadRule();
  }

  /** One image cell: the picture numbered n, with its alt text. */
  function ImageCell(n: int, alt: string): string {
    "| <img src=\"./assets/images/" + IntToString(n) + ".png\" width=\"150\" alt=\"" + alt + "\"> "
  }

  /** The row with the current and the next image and the time until the next run. */
  function ImageRow(current: int, next: int, nextRun: string): string {
    ImageCell(current + 1, "Current DP") + ImageCell(next + 1, "Next DP") + "| \U{23F0} **" + nextRun + "** |\n"
  }

  lemma NoBangInImageCell(n: int, alt: string)
    requires '!' !in alt
    ensures '!' !in ImageCell(n, alt)
  {
    NoBangInInt(n);
  }

  lemma NoBangInImageRow(current: int, next: int, nextRun: string)
    requires '!' !in nextRun
    ensures '!' !in ImageRow(current, next, nextRun)
  {
    NoBangInImageCell(current + 1, "Current DP");
    NoBangInImageCell(next + 1, "Next DP");
  }

  /** The row with both image numbers, the image count, and the next run's clock time and timezone. */
  function CountRow(current: int, next: int, total: nat, nextTime: string, timezone: string): string {
    "| **Image " + IntToString(current + 1) + " of " + NatToString(total) + "** "
    + "| **Image " + IntToString(next + 1) + " of " + NatToString(total) + "** "
    + "| Next: " + nextTime + " " + timezone + " |\n\n"
  }

  /** The closing line with the time since the last run and the image count. */
  function FootLines(lastRun: string, total: nat): string {
    "**Last Updated:** " + lastRun + " \U{2022} **Total Images:** " + NatToString(total) + "\n\n</div>\n\n"
  }

  /**
   * The text between the markers: a table with the current and the next
   * image, the time until the next run, the next run's clock time and
   * timezone, the time since the last run and the image count.
   */
  function StatusBody(current: int, next: int, total: nat, nextRun: string, nextTime: string, timezone: string, lastRun: string): string {
    TableHead + ImageRow(current, next, nextRun) + CountRow(current, next, total, nextTime, timezone) + FootLines(lastRun, total)
  }

  lemma NoBangInCountRow(current: int, next: int, total: nat, nextTime: string, timezone: string)
    requires '!' !in nextTime && '!' !in timezone
    ensures '!' !in CountRow(current, next, total, nextTime, timezone)
  {
    NoBangInInt(current + 1);
    NoBangInInt(next + 1);
    NoBangInNumber(total);
  }

  lemma NoBangInFootLines(lastRun: string, total: nat)
    requires '!' !in lastRun
    ensures '!' !in FootLines(lastRun, total)
  {
    NoBangInNumber(total);
  }

  /** Only the texts passed in could bring a '!' into the body. */
  lemma NoBangInBody(current: int, next: int, total: nat, nextRun: string, nextTime: string, timezone: string, lastRun: string)
    requires '!' !in nextRun && '!' !in nextTime && '!' !in timezone && '!' !in lastRun
    ensures '!' !in StatusBody(current, next, total, nextRun, nextTime, timezone, lastRun)
  {
    NoBangInTableHead();
    NoBangInImageRow(current, next, nextRun);
    NoBangInCountRow(current, next, total, nextTime, timezone);
    NoBangInFootLines(lastRun, total);
  }

  /** A body between the two markers. */
  function Frame(body: string): (r: string)
    ensures |r| == |StartMarker| + |body| + |EndMarker|
    ensures StartsWith(r, StartMarker) && EndsWith(r, EndMarker)
    ensures r[|StartMarker|..|r| - |EndMarker|] == body
  {
    var r := StartMarker + body + EndMarker;
    assert r[..|StartMarker|] == StartMarker;
    assert r[|r| - |EndMarker|..] == EndMarker;
    r
  }

  /** The section: the status body between the two markers. */
  function StatusSection(current: int, next: int, total: nat, nextRun: string, nextTime: string, timezone: string, lastRun: string): (r: string)
    ensures StartsWith(r, StartMarker) && EndsWith(r, EndMarker)
  {
    Frame(StatusBody(current, next, total, nextRun, nextTime, timezone, lastRun))
  }

  /**
   * `generate_status_section` over the state files, the image count and
   * "now". `nextTime` is the `strftime` text of the next run and
   * `timezone` the text of the configured timezone.
   */
  function GenerateStatusSection(indexFile: Option<string>, lastRunFile: Option<string>, scheduleFile: Option<string>,
                                 total: nat, now: int, nextTime: string, timezone: string): string
  {
    var current := CurrentIndex(indexFile);
    StatusSection(current, NextIndex(current, total), total,
                  FormatTimeUntil(ReadTimestamp(scheduleFile), now), nextTime, timezone,
                  FormatTimeAgo(ReadTimestamp(lastRunFile), now))
  }

  /**
   * A section framed once: it opens with the start marker, closes with
   * the end marker, and no end marker occurs in between.
   */
  predicate Framed(sec: string) {
    && |StartMarker| + |EndMarker| <= |sec|
    && OccursAt(sec, StartMarker, 0)
    && OccursAt(sec, EndMarker, |sec| - |EndMarker|)
    && forall j :: |StartMarker| <= j < |sec| - |EndMarker| ==> !OccursAt(sec, EndMarker, j)
  }

  /** A body without '!' cannot hold a marker, so the section is framed once. */
  lemma FramedWhenNoBang(body: string)
    requires '!' !in body
    ensures Framed(Frame(body))
  {
    MarkerShapes();
    var sec := StartMarker + body + EndMarker;
    assert sec == Frame(body);
    var e := |sec| - |EndMarker|;
    assert sec[..|StartMarker|] == StartMarker;
    assert sec[e..e + |EndMarker|] == EndMarker;
    forall j | |StartMarker| <= j < e ensures !OccursAt(sec, EndMarker, j) {
      if j + 1 < e {
        assert sec[j + 1] == body[j + 1 - |StartMarker|];
      } else {
        assert sec[j + 1] == EndMarker[0];
      }
      assert sec[j..j + |EndMarker|][1] == sec[j + 1] != EndMarker[1];
    }
  }

  lemma NoBangInNumber(n: nat)
    ensures '!' !in NatToString(n)
  {
    var d := NatToString(n);
    forall i | 0 <= i < |d| ensures d[i] != '!' {
      assert IsDigit(d[i]);
    }
  }

  lemma NoBangInInt(n: int)
    ensures '!' !in IntToString(n)
  {
    NoBangInNumber(if n < 0 then -n else n);
  }

  lemma NoBangInAgo(a: Ago)
    ensures '!' !in AgoText(a)
  {
    if a.Elapsed? {
      NoBangInNumber(a.count);
      assert '!' !in UnitName(a.unit);
    }
  }

  lemma NoBangInUntil(u: Until)
    ensures '!' !in UntilText(u)
  {
    match u
    case Minutes(m) => NoBangInNumber(m);
    case HoursMinutes(h, m) => NoBangInNumber(h); NoBangInNumber(m);
    case DaysHours(d, h) => NoBangInNumber(d); NoBangInNumber(h);
    case _ =>
  }

  /**
   * The generated section begins with the start marker, ends with the end
   * marker and holds neither in between, provided the clock-time and
   * timezone texts hold no '!'.
   */
  lemma GeneratedSectionFramed(indexFile: Option<string>, lastRunFile: Option<string>, scheduleFile: Option<string>,
                               total: nat, now: int, nextTime: string, timezone: string)
    requires '!' !in nextTime && '!' !in timezone
    ensures Framed(GenerateStatusSection(indexFile, lastRunFile, scheduleFile, total, now, nextTime, timezone))
  {
    var current := CurrentIndex(indexFile);
    var next := NextIndex(current, total);
    var until := FormatTimeUntil(ReadTimestamp(scheduleFile), now);
    var ago := FormatTimeAgo(ReadTimestamp(lastRunFile), now);
    NoBangInUntil(UntilOf(ReadTimestamp(scheduleFile), now));
    NoBangInAgo(AgoOf(ReadTimestamp(lastRunFile), now));
    NoBangInBody(current, next, total, until, nextTime, timezone, ago);
    FramedWhenNoBang(StatusBody(current, next, total, until, nextTime, timezone, ago));
  }

  // ---------------------------------------------------------------------
  // Replacing the section (`re.sub` over START.*?END, DOTALL).
  // ---------------------------------------------------------------------

  /**
   * Each span from a start marker to the first end marker after it is
   * replaced by `sec`, scanning left to right and resuming after the
   * replaced span; text outside the spans is kept. The replacement is
   * inserted literally, so it may hold no backslash, which `re.sub`
   * would read as an escape.
   */
  function Splice(s: string, sec: string): string
    requires '\\' !in sec
    decreases |s|
  {
    match FirstSpan(s)
    case None => s
    case Some((i, stop)) => s[..i] + sec + Splice(s[stop..], sec)
  }

  /** Where the first span starts, and just past where it stops. */
  function FirstSpan(s: string): (r: Option<(nat, nat)>)
    ensures r.Some? ==> r.value.0 < r.value.1 <= |s|
  {
    match Find(s, StartMarker)
    case None => None
    case Some(i) =>
      match FindFrom(s, EndMarker, i + |StartMarker|)
      case None => None
      case Some(j) => Some((i, j + |EndMarker|))
  }

  /** The first span runs from the first start marker to the first end marker after it. */
  lemma FirstSpanIs(s: string, i: nat, j: nat)
    requires Find(s, StartMarker) == Some(i) && FindFrom(s, EndMarker, i + |StartMarker|) == Some(j)
    ensures FirstSpan(s) == Some((i, j + |EndMarker|))
  {
  }

  /** The splice of a text whose first span is known. */
  lemma SpliceUnfold(s: string, sec: string, i: nat, stop: nat)
    requires '\\' !in sec
    requires FirstSpan(s) == Some((i, stop))
    ensures Splice(s, sec) == s[..i] + sec + Splice(s[stop..], sec)
  {
  }

  /** `FindFrom` returns an occurrence when there is no earlier one from k on. */
  lemma FindFromIs(s: string, pat: string, k: nat, p: nat)
    requires k <= p && OccursAt(s, pat, p)
    requires forall j :: k <= j < p ==> !OccursAt(s, pat, j)
    ensures FindFrom(s, pat, k) == Some(p)
  {
  }

  /** `Find` returns an occurrence when there is no earlier one. */
  lemma FindIs(s: string, pat: string, p: nat)
    requires OccursAt(s, pat, p)
    requires forall j :: 0 <= j < p ==> !OccursAt(s, pat, j)
    ensures Find(s, pat) == Some(p)
  {
    FindFromIs(s, pat, 0, p);
  }

  /** Without a start marker that has an end marker after it, the text is left as it is. */
  lemma SpliceWithoutSpan(s: string, sec: string)
    requires '\\' !in sec
    requires forall i, j :: OccursAt(s, StartMarker, i) && OccursAt(s, EndMarker, j) ==> j < i + |StartMarker|
    ensures Splice(s, sec) == s
  {
    match Find(s, StartMarker)
    case None =>
    case Some(i) =>
      match FindFrom(s, EndMarker, i + |StartMarker|)
      case None =>
      case Some(j) => assert false;
  }

  /** An occurrence lying wholly inside the middle piece of u + x + v is an occurrence in x. */
  lemma OccursInMiddle(u: string, x: string, v: string, pat: string, j: nat)
    requires j + |pat| <= |x|
    ensures OccursAt(u + x + v, pat, |u| + j) <==> OccursAt(x, pat, j)
  {
    assert (u + x + v)[|u| + j..|u| + j + |pat|] == x[j..j + |pat|];
  }

  /** Where the first span of pre + START + mid + END + post lies. */
  lemma FirstSpanOfPieces(pre: string, mid: string, post: string)
    requires var s := pre + StartMarker + mid + EndMarker + post;
      && (forall j :: 0 <= j < |pre| ==> !OccursAt(s, StartMarker, j))
      && (forall j :: |pre| + |StartMarker| <= j < |pre| + |StartMarker| + |mid| ==> !OccursAt(s, EndMarker, j))
    ensures FirstSpan(pre + StartMarker + mid + EndMarker + post)
         == Some((|pre|, |pre| + |StartMarker| + |mid| + |EndMarker|))
  {
    var s := pre + StartMarker + mid + EndMarker + post;
    StartOfPieces(pre, mid, post);
    EndOfPieces(pre, mid, post);
    FirstSpanIs(s, |pre|, |pre| + |StartMarker| + |mid|);
  }

  lemma StartOfPieces(pre: string, mid: string, post: string)
    requires forall j :: 0 <= j < |pre| ==> !OccursAt(pre + StartMarker + mid + EndMarker + post, StartMarker, j)
    ensures Find(pre + StartMarker + mid + EndMarker + post, StartMarker) == Some(|pre|)
  {
    var s := pre + StartMarker + mid + EndMarker + post;
    assert s == pre + StartMarker + (mid + EndMarker + post);
    OccursInMiddle(pre, StartMarker, mid + EndMarker + post, StartMarker, 0);
    FindIs(s, StartMarker, |pre|);
  }

  lemma EndOfPieces(pre: string, mid: string, post: string)
    requires var s := pre + StartMarker + mid + EndMarker + post;
      forall j :: |pre| + |StartMarker| <= j < |pre| + |StartMarker| + |mid| ==> !OccursAt(s, EndMarker, j)
    ensures FindFrom(pre + StartMarker + mid + EndMarker + post, EndMarker, |pre| + |StartMarker|)
         == Some(|pre| + |StartMarker| + |mid|)
  {
    var s := pre + StartMarker + mid + EndMarker + post;
    OccursInMiddle(pre + StartMarker + mid, EndMarker, post, EndMarker, 0);
    FindFromIs(s, EndMarker, |pre| + |StartMarker|, |pre| + |StartMarker| + |mid|);
  }

  /**
   * A first span pre + START + mid + END is replaced by the section and
   * the text before it is kept: no start marker begins inside pre and no
   * end marker begins inside mid.
   */
  lemma SpliceFirstSpan(pre: string, mid: string, post: string, sec: string)
    requires '\\' !in sec
    requires var s := pre + StartMarker + mid + EndMarker + post;
      && (forall j :: 0 <= j < |pre| ==> !OccursAt(s, StartMarker, j))
      && (forall j :: |pre| + |StartMarker| <= j < |pre| + |StartMarker| + |mid| ==> !OccursAt(s, EndMarker, j))
    ensures Splice(pre + StartMarker + mid + EndMarker + post, sec) == pre + sec + Splice(post, sec)
  {
    var s := pre + StartMarker + mid + EndMarker + post;
    var stop := |pre| + |StartMarker| + |mid| + |EndMarker|;
    FirstSpanOfPieces(pre, mid, post);
    SpliceUnfold(s, sec, |pre|, stop);
    assert s[..|pre|] == pre;
    assert s[stop..] == post;
  }

  /** An occurrence lying wholly inside a prefix is an occurrence in the prefix. */
  lemma OccursInPrefix(s: string, pat: string, n: nat, j: nat)
    requires n <= |s| && j + |pat| <= n
    ensures OccursAt(s, pat, j) <==> OccursAt(s[..n], pat, j)
  {
    assert s[..n][j..j + |pat|] == s[j..j + |pat|];
  }

  /** The text before the first occurrence of a pattern does not hold it. */
  lemma PrefixBeforeFirst(s: string, pat: string, i: nat)
    requires Find(s, pat) == Some(i)
    ensures forall j :: 0 <= j < i ==> !OccursAt(s[..i], pat, j)
  {
    forall j | 0 <= j < i ensures !OccursAt(s[..i], pat, j) {
      if j + |pat| <= i {
        OccursInPrefix(s, pat, i, j);
      }
    }
  }

  /**
   * Text that opens with '<' cannot complete a start marker begun before
   * it: in u + w no start marker begins inside u unless u holds one of
   * its own.
   */
  lemma NoStartStraddles(u: string, w: string)
    requires w != [] && w[0] == '<'
    requires forall j :: 0 <= j < |u| ==> !OccursAt(u, StartMarker, j)
    ensures forall j :: 0 <= j < |u| ==> !OccursAt(u + w, StartMarker, j)
  {
    MarkerShapes();
    var t := u + w;
    forall j | 0 <= j < |u| ensures !OccursAt(t, StartMarker, j) {
      if j + |StartMarker| <= |u| {
        OccursInPrefix(t, StartMarker, |u|, j);
        assert t[..|u|] == u;
      } else if j + |StartMarker| <= |t| {
        assert t[j..j + |StartMarker|][|u| - j] == t[|u|] == '<';
      }
    }
  }

  /**
   * After a framed section's start marker, the next end marker is the
   * one closing the section.
   */
  lemma FramedEndFirst(u: string, sec: string, v: string)
    requires Framed(sec)
    ensures FindFrom(u + sec + v, EndMarker, |u| + |StartMarker|) == Some(|u| + |sec| - |EndMarker|)
  {
    var e := |sec| - |EndMarker|;
    OccursInMiddle(u, sec, v, EndMarker, e);
    NoneInMiddle(u, sec, v, EndMarker, |StartMarker|, e);
    FindFromIs(u + sec + v, EndMarker, |u| + |StartMarker|, |u| + e);
  }

  /** A stretch of the middle piece of u + x + v without occurrences has none in the whole text either. */
  lemma NoneInMiddle(u: string, x: string, v: string, pat: string, lo: nat, hi: nat)
    requires lo <= hi && hi + |pat| <= |x|
    requires forall j :: lo <= j < hi ==> !OccursAt(x, pat, j)
    ensures forall j :: |u| + lo <= j < |u| + hi ==> !OccursAt(u + x + v, pat, j)
  {
    forall j | |u| + lo <= j < |u| + hi ensures !OccursAt(u + x + v, pat, j) {
      OccursInMiddle(u, x, v, pat, j - |u|);
    }
  }

  /** After text without a start marker, a framed section is the first span. */
  lemma FirstSpanIsSection(u: string, sec: string, tail: string)
    requires Framed(sec)
    requires forall j :: 0 <= j < |u| ==> !OccursAt(u, StartMarker, j)
    ensures FirstSpan(u + sec + tail) == Some((|u|, |u| + |sec|))
  {
    var e := |u| + |sec| - |EndMarker|;
    StartOfSection(u, sec, tail);
    FramedEndFirst(u, sec, tail);
    FirstSpanIs(u + sec + tail, |u|, e);
    assert e + |EndMarker| == |u| + |sec|;
  }

  /** After text without a start marker, the first start marker is the one opening the section. */
  lemma StartOfSection(u: string, sec: string, tail: string)
    requires OccursAt(sec, StartMarker, 0)
    requires forall j :: 0 <= j < |u| ==> !OccursAt(u, StartMarker, j)
    ensures Find(u + sec + tail, StartMarker) == Some(|u|)
  {
    var t := u + sec + tail;
    MarkerShapes();
    assert sec[0] == sec[0..|StartMarker|][0] == '<';
    assert t == u + (sec + tail);
    NoStartStraddles(u, sec + tail);
    OccursInMiddle(u, sec, tail, StartMarker, 0);
    FindIs(t, StartMarker, |u|);
  }

  /**
   * A framed section after text without a start marker is replaced by
   * itself, and the splice goes on after it.
   */
  lemma SpliceAfterSection(u: string, sec: string, tail: string)
    requires '\\' !in sec && Framed(sec)
    requires forall j :: 0 <= j < |u| ==> !OccursAt(u, StartMarker, j)
    ensures Splice(u + sec + tail, sec) == u + sec + Splice(tail, sec)
  {
    var t := u + sec + tail;
    FirstSpanIsSection(u, sec, tail);
    SpliceUnfold(t, sec, |u|, |u| + |sec|);
    assert t[..|u|] == u;
    assert t[|u| + |sec|..] == tail;
  }

  /**
   * Replacing with a framed section twice is replacing once: re-running
   * the update with an unchanged status leaves the README as it is.
   */
  lemma {:induction false} SpliceIdempotent(s: string, sec: string)
    requires '\\' !in sec && Framed(sec)
    ensures Splice(Splice(s, sec), sec) == Splice(s, sec)
    decreases |s|
  {
    match FirstSpan(s)
    case None =>
    case Some((i, stop)) =>
      SpliceUnfold(s, sec, i, stop);
      PrefixBeforeFirst(s, StartMarker, i);
      SpliceIdempotent(s[stop..], sec);
      SpliceAfterSection(s[..i], sec, Splice(s[stop..], sec));
  }

  // ---------------------------------------------------------------------
  // Inserting the section when a marker is missing.
  // ---------------------------------------------------------------------

  /** A line the section is placed before: a level-two heading or the TL;DR quote. */
  predicate IsAnchor(line: string) {
    StartsWith(line, "## ") || StartsWith(line, "> **TL;DR")
  }

  /** The first anchor line at or after i, or |lines|. */
  function FirstAnchorFrom(lines: seq<string>, i: nat): (k: nat)
    requires i <= |lines|
    ensures i <= k <= |lines|
    ensures k < |lines| ==> IsAnchor(lines[k])
    ensures forall j :: i <= j < k ==> !IsAnchor(lines[j])
    decreases |lines| - i
  {
    if i == |lines| || IsAnchor(lines[i]) then i else FirstAnchorFrom(lines, i + 1)
  }

  /** Where the section goes: before the first anchor line, or before the first line when there is none. */
  function InsertPosition(lines: seq<string>): (k: nat)
    ensures k == 0 || k < |lines|
    ensures (exists i :: 0 <= i < |lines| && IsAnchor(lines[i])) ==>
      (k < |lines| && IsAnchor(lines[k]) && forall j :: 0 <= j < k ==> !IsAnchor(lines[j]))
    ensures (forall i :: 0 <= i < |lines| ==> !IsAnchor(lines[i])) ==> k == 0
  {
    var k := FirstAnchorFrom(lines, 0);
    if k == |lines| then 0 else k
  }

  /** The search loop of `update_readme`: the first anchor line, 0 when there is none. */
  method FindInsertPosition(lines: seq<string>) returns (pos: nat)
    ensures pos == InsertPosition(lines)
  {
    var i := 0;
    while i < |lines|
      invariant 0 <= i <= |lines|
      invariant forall j :: 0 <= j < i ==> !IsAnchor(lines[j])
    {
      if IsAnchor(lines[i]) {
        return i;
      }
      i := i + 1;
    }
    return 0;
  }

  /** The README with the section inserted as a line of its own before line `InsertPosition`. */
  function Inserted(s: string, sec: string): string {
    var lines := Split(s, '\n');
    var k := InsertPosition(lines);
    Join(lines[..k] + [sec + "\n"] + lines[k..], '\n')
  }

  /** Where line k of `lines` starts in the joined text. */
  function LineOffset(lines: seq<string>, k: nat): nat
    requires k <= |lines|
  {
    if k == 0 then 0 else |Join(lines[..k], '\n')| + 1
  }

  lemma JoinStartsWithFirst(parts: seq<string>, sep: char)
    requires |parts| > 0
    ensures StartsWith(Join(parts, sep), parts[0])
  {
    if |parts| > 1 {
      assert Join(parts, sep) == parts[0] + ([sep] + Join(parts[1..], sep));
    }
  }

  /** The text algebra behind `InsertLineAt`. */
  lemma SplitAtLine(ja: string, jb: string, x: string)
    ensures var s := ja + "\n" + jb; var o := |ja| + 1;
      && s[o - 1] == '\n' && s[..o] == ja + "\n" && s[o..] == jb
      && ja + "\n" + (x + "\n" + jb) == s[..o] + x + "\n" + s[o..]
  {
    var s := ja + "\n" + jb;
    assert s[..|ja| + 1] == ja + "\n";
    assert s[|ja| + 1..] == jb;
  }

  /** Joining with a line put first. */
  lemma JoinCons(x: string, b: seq<string>)
    requires |b| > 0
    ensures Join([x] + b, '\n') == x + "\n" + Join(b, '\n')
  {
    JoinAppend([x], b, '\n');
  }

  /** Inserting a line x before line k of a joined text puts x and a newline in at that line's start. */
  lemma InsertLineAt(lines: seq<string>, k: nat, x: string)
    requires k < |lines|
    ensures var s := Join(lines, '\n'); var o := LineOffset(lines, k);
      && o <= |s|
      && (o == 0 || s[o - 1] == '\n')
      && StartsWith(s[o..], lines[k])
      && Join(lines[..k] + [x] + lines[k..], '\n') == s[..o] + x + "\n" + s[o..]
  {
    var a, b := lines[..k], lines[k..];
    assert lines == a + b;
    JoinStartsWithFirst(b, '\n');
    if k == 0 {
      JoinCons(x, b);
      assert a + [x] + b == [x] + b;
    } else {
      InsertBetween(a, b, x);
    }
  }

  /** Inserting a line between two non-empty runs of lines, after the newline that ends the first run. */
  lemma InsertBetween(a: seq<string>, b: seq<string>, x: string)
    requires |a| > 0 && |b| > 0
    ensures var s := Join(a + b, '\n'); var o := |Join(a, '\n')| + 1;
      && o <= |s| && s[o - 1] == '\n' && s[o..] == Join(b, '\n')
      && Join(a + [x] + b, '\n') == s[..o] + x + "\n" + s[o..]
  {
    JoinCons(x, b);
    assert a + [x] + b == a + ([x] + b);
    JoinAppend(a, [x] + b, '\n');
    JoinAppend(a, b, '\n');
    SplitAtLine(Join(a, '\n'), Join(b, '\n'), x);
  }

  /**
   * Inserting keeps every original line in order: the result is the
   * original text with the section and a blank line put in at the start
   * of the chosen line, which is the first anchor line when there is one.
   */
  lemma InsertionKeepsText(s: string, sec: string)
    ensures var lines := Split(s, '\n'); var k := InsertPosition(lines); var o := LineOffset(lines, k);
      && k < |lines| && o <= |s|
      && (o == 0 || s[o - 1] == '\n')
      && StartsWith(s[o..], lines[k])
      && Inserted(s, sec) == s[..o] + sec + "\n\n" + s[o..]
  {
    var lines := Split(s, '\n');
    var k := InsertPosition(lines);
    var o := LineOffset(lines, k);
    var x := sec + "\n";
    JoinSplit(s, '\n');
    InsertLineAt(lines, k, x);
    NewlineAfterSection(s[..o], sec, s[o..]);
  }

  lemma NewlineAfterSection(p: string, sec: string, q: string)
    ensures p + (sec + "\n") + "\n" + q == p + sec + "\n\n" + q
  {
  }

  // ---------------------------------------------------------------------
  // `update_readme`.
  // ---------------------------------------------------------------------

  /** The README text after the update: replace when both markers occur, insert otherwise. */
  function Updated(s: string, sec: string): string
    requires '\\' !in sec
  {
    if Contains(s, StartMarker) && Contains(s, EndMarker) then Splice(s, sec) else Inserted(s, sec)
  }

  /** A text holding x somewhere holds both markers when x is framed. */
  lemma FramedHasMarkers(u: string, sec: string, v: string)
    requires Framed(sec)
    ensures Contains(u + sec + v, StartMarker) && Contains(u + sec + v, EndMarker)
  {
    OccursInMiddle(u, sec, v, StartMarker, 0);
    OccursInMiddle(u, sec, v, EndMarker, |sec| - |EndMarker|);
  }

  /** Two newlines and then text without a start marker hold none either. */
  lemma NoStartAfterBlankLine(x: string)
    requires !Contains(x, StartMarker)
    ensures forall j :: !OccursAt("\n\n" + x, StartMarker, j)
  {
    MarkerShapes();
    var w := "\n\n" + x;
    assert w[2..] == x;
    forall j ensures !OccursAt(w, StartMarker, j) {
      if 2 <= j {
        OccursShift(w, StartMarker, 2, j - 2);
      } else if 0 <= j && j + |StartMarker| <= |w| {
        assert w[j..j + |StartMarker|][0] == w[j] == '\n';
      }
    }
  }

  /** The insertion puts the section at some line start o of s. */
  lemma InsertedForm(s: string, sec: string) returns (o: nat)
    ensures o <= |s| && Inserted(s, sec) == s[..o] + sec + ("\n\n" + s[o..])
  {
    InsertionKeepsText(s, sec);
    o := LineOffset(Split(s, '\n'), InsertPosition(Split(s, '\n')));
    assert s[..o] + sec + "\n\n" + s[o..] == s[..o] + sec + ("\n\n" + s[o..]);
  }

  /** Neither a prefix nor a suffix of a text without a start marker holds one. */
  lemma NoStartInParts(s: string, o: nat)
    requires o <= |s| && !Contains(s, StartMarker)
    ensures forall j :: 0 <= j < o ==> !OccursAt(s[..o], StartMarker, j)
    ensures !Contains(s[o..], StartMarker)
  {
    forall j | 0 <= j < o ensures !OccursAt(s[..o], StartMarker, j) {
      if j + |StartMarker| <= o {
        OccursInPrefix(s, StartMarker, o, j);
      }
    }
    if Contains(s[o..], StartMarker) {
      var j :| 0 <= j <= |s[o..]| && OccursAt(s[o..], StartMarker, j);
      OccursShift(s, StartMarker, o, j);
    }
  }

  /** The insertion case of `UpdateSettles`. */
  lemma InsertedSettles(s: string, sec: string)
    requires '\\' !in sec && Framed(sec)
    requires !Contains(s, StartMarker)
    ensures Updated(Inserted(s, sec), sec) == Inserted(s, sec)
  {
    var o := InsertedForm(s, sec);
    var tail := "\n\n" + s[o..];
    NoStartInParts(s, o);
    FramedHasMarkers(s[..o], sec, tail);
    SpliceAfterSection(s[..o], sec, tail);
    NoStartAfterBlankLine(s[o..]);
    SpliceWithoutSpan(tail, sec);
  }

  /**
   * Running the update twice with the same framed section gives what
   * running it once gave, unless the README has a start marker and no
   * end marker, where the first run inserts a second start marker.
   */
  lemma UpdateSettles(s: string, sec: string)
    requires '\\' !in sec && Framed(sec)
    requires Contains(s, EndMarker) || !Contains(s, StartMarker)
    ensures Updated(Updated(s, sec), sec) == Updated(s, sec)
  {
    if Contains(s, StartMarker) && Contains(s, EndMarker) {
      SpliceIdempotent(s, sec);
      match FirstSpan(s)
      case None =>
      case Some((i, stop)) =>
        SpliceUnfold(s, sec, i, stop);
        FramedHasMarkers(s[..i], sec, Splice(s[stop..], sec));
    } else {
      InsertedSettles(s, sec);
    }
  }

  /** The README file: its text, or None when there is no README. */
  class ReadmeFile {
    var content: Option<string>

    constructor(content: Option<string>)
      ensures this.content == content
    {
      this.content := content;
    }

    /**
     * `update_readme` with the section `generate_status_section`
     * produced: no README means no update; otherwise the section replaces
     * every marked span when both markers occur, and is inserted as a
     * line of its own otherwise.
     */
    method Update(sec: string) returns (updated: bool)
      requires '\\' !in sec
      modifies this
      ensures updated <==> old(content).Some?
      ensures old(content).None? ==> content == None
      ensures old(content).Some? ==> content == Some(Updated(old(content).value, sec))
    {
      if content.None? {
        return false;
      }
      var text := content.value;
      var result: string;
      if Contains(text, StartMarker) && Contains(text, EndMarker) {
        result := Splice(text, sec);
      } else {
        var lines := Split(text, '\n');
        var pos := FindInsertPosition(lines);
        lines := lines[..pos] + [sec + "\n"] + lines[pos..];
        result := Join(lines, '\n');
      }
      content := Some(result);
      return true;
    }
  }
}
