/**
 * The scheduler's configuration: the JSON values a configuration document
 * can hold, the built-in defaults, the merge of a user document over them,
 * the typed view the scheduler reads, the timezone table and its lookup,
 * and the parsing of "HH:MM" window bounds.
 */
module Config {
  import opened Wrappers
  import opened Text

  /** One active window as written in the document: {"start": "HH:MM", "end": "HH:MM"}. */
  datatype Window = Window(start: string, end: string)

  /** The JSON values the scheduler's keys can hold. */
  datatype Value =
    | Null
    | Bool(b: bool)
    | Int(i: int)
    | Float(x: real)
    | Str(s: string)
    | WindowList(windows: seq<Window>)

  /** The configuration file as found on disk. */
  datatype ConfigFile =
    | Missing                                 // no file
    | Corrupt                                 // open, read or JSON decoding fails
    | Document(doc: map<string, Value>)       // a JSON object

  /** The built-in defaults (time_manager.py, `_load_config`). */
  const Defaults: map<string, Value> := map[
    "timezone" := Str("Asia/Kolkata"),
    "min_interval_hours" := Int(3),
    "max_interval_hours" := Int(4),
    "random_delay_minutes" := Int(30),
    "weekday_windows" := WindowList([Window("07:00", "23:30")]),
    "weekend_windows" := WindowList([Window("09:00", "23:30")]),
    "use_random_delays" := Bool(true)
  ]

  /** `defaults.update(user)`: every user key wins, every other default stays. */
  function Merge(defaults: map<string, Value>, user: map<string, Value>): (m: map<string, Value>)
    ensures m.Keys == defaults.Keys + user.Keys
    ensures forall k :: k in user ==> m[k] == user[k]
    ensures forall k :: k in defaults && k !in user ==> m[k] == defaults[k]
  {
    defaults + user
  }

  /**
   * The configuration `_load_config` returns: the defaults overridden by a
   * readable document, or the defaults alone when there is no document or
   * it cannot be read.
   */
  function LoadConfig(file: ConfigFile): (m: map<string, Value>)
    ensures Defaults.Keys <= m.Keys
    ensures !file.Document? ==> m == Defaults
    ensures file.Document? ==> m.Keys == Defaults.Keys + file.doc.Keys
    ensures file.Document? ==> forall k :: k in file.doc ==> m[k] == file.doc[k]
    ensures file.Document? ==> forall k :: k in Defaults && k !in file.doc ==> m[k] == Defaults[k]
  {
    match file
    case Document(user) => Merge(Defaults, user)
    case _ => Defaults
  }

  /** The file left on disk by `_load_config`: a missing file is created with the defaults. */
  function ConfigFileAfterLoad(file: ConfigFile): (f: ConfigFile)
    ensures file.Missing? ==> f == Document(Defaults)
    ensures !file.Missing? ==> f == file
  {
    if file.Missing? then Document(Defaults) else file
  }

  /** Loading the document that was written for a missing file gives the defaults again. */
  lemma LoadWrittenDefaults()
    ensures LoadConfig(ConfigFileAfterLoad(Missing)) == LoadConfig(Missing)
  {
    assert Merge(Defaults, Defaults) == Defaults;
  }

  /**
   * A window together with `_parse_time` of its two bounds (None where
   * parsing raises). Parsing is pure, so parsing once here gives the same
   * values as the source's parsing on every visit of the window.
   */
  datatype TimedWindow = TimedWindow(window: Window, start: Option<(int, int)>, end: Option<(int, int)>)

  function Timed(w: Window): (tw: TimedWindow)
    ensures tw.window == w && tw.start == ParseTime(w.start) && tw.end == ParseTime(w.end)
  {
    TimedWindow(w, ParseTime(w.start), ParseTime(w.end))
  }

  function TimedAll(ws: seq<Window>): (r: seq<TimedWindow>)
    ensures |r| == |ws| && forall i :: 0 <= i < |ws| ==> r[i] == Timed(ws[i])
  {
    seq(|ws|, i requires 0 <= i < |ws| => Timed(ws[i]))
  }

  /** The typed settings the scheduler reads from the merged configuration. */
  datatype Settings = Settings(
    timezone: string,
    minIntervalHours: real,
    maxIntervalHours: real,
    randomDelayMinutes: int,
    useRandomDelays: bool,
    weekdayWindows: seq<TimedWindow>,
    weekendWindows: seq<TimedWindow>)

  /** A value `uniform` and `timedelta` accept as a number; a JSON boolean is Python's int 0 or 1. */
  predicate IsNumber(v: Value) {
    v.Int? || v.Float? || v.Bool?
  }

  function NumberValue(v: Value): real
    requires IsNumber(v)
  {
    match v
    case Int(i) => i as real
    case Float(x) => x
    case Bool(b) => if b then 1.0 else 0.0
  }

  /** A value `randint` accepts as an integer bound: an integer or a boolean. */
  predicate IsIntegral(v: Value) {
    v.Int? || v.Bool?
  }

  function IntegralValue(v: Value): int
    requires IsIntegral(v)
  {
    match v
    case Int(i) => i
    case Bool(b) => if b then 1 else 0
  }

  /** Python truthiness, as in `if self.config['use_random_delays']:`. */
  predicate Truthy(v: Value) {
    match v
    case Null => false
    case Bool(b) => b
    case Int(i) => i != 0
    case Float(x) => x != 0.0
    case Str(s) => s != ""
    case WindowList(ws) => ws != []
  }

  /**
   * The typed view of a merged configuration, or None when a key the
   * scheduler uses holds a value of the wrong kind (the source would raise
   * when it reached that key). `random_delay_minutes` is read only when
   * random delays are enabled, so it is checked only then.
   */
  function SettingsOf(m: map<string, Value>): (r: Option<Settings>)
    requires Defaults.Keys <= m.Keys
    ensures r.None? <==>
      !(m["timezone"].Str?
        && IsNumber(m["min_interval_hours"]) && IsNumber(m["max_interval_hours"])
        && (Truthy(m["use_random_delays"]) ==> IsIntegral(m["random_delay_minutes"]))
        && m["weekday_windows"].WindowList? && m["weekend_windows"].WindowList?)
    ensures r.Some? ==> Str(r.value.timezone) == m["timezone"]
    ensures r.Some? ==> IsNumber(m["min_interval_hours"]) && r.value.minIntervalHours == NumberValue(m["min_interval_hours"])
    ensures r.Some? ==> IsNumber(m["max_interval_hours"]) && r.value.maxIntervalHours == NumberValue(m["max_interval_hours"])
    ensures r.Some? ==> r.value.useRandomDelays == Truthy(m["use_random_delays"])
    ensures r.Some? ==> m["weekday_windows"].WindowList? && r.value.weekdayWindows == TimedAll(m["weekday_windows"].windows)
    ensures r.Some? ==> m["weekend_windows"].WindowList? && r.value.weekendWindows == TimedAll(m["weekend_windows"].windows)
    ensures r.Some? && r.value.useRandomDelays ==>
      IsIntegral(m["random_delay_minutes"]) && r.value.randomDelayMinutes == IntegralValue(m["random_delay_minutes"])
  {
    if m["timezone"].Str?
      && IsNumber(m["min_interval_hours"]) && IsNumber(m["max_interval_hours"])
      && (Truthy(m["use_random_delays"]) ==> IsIntegral(m["random_delay_minutes"]))
      && m["weekday_windows"].WindowList? && m["weekend_windows"].WindowList?
    then
      var useDelays := Truthy(m["use_random_delays"]);
      Some(Settings(
        m["timezone"].s,
        NumberValue(m["min_interval_hours"]),
        NumberValue(m["max_interval_hours"]),
        if useDelays then IntegralValue(m["random_delay_minutes"]) else 0,
        useDelays,
        TimedAll(m["weekday_windows"].windows),
        TimedAll(m["weekend_windows"].windows)))
    else None
  }

  const DefaultSettings: Settings := Settings(
    "Asia/Kolkata", 3.0, 4.0, 30, true,
    [TimedWindow(Window("07:00", "23:30"), Some((7, 0)), Some((23, 30)))],
    [TimedWindow(Window("09:00", "23:30"), Some((9, 0)), Some((23, 30)))])

  /** With no document, or one that cannot be read, the scheduler runs on the built-in values. */
  lemma DefaultsSettings()
    ensures SettingsOf(LoadConfig(Missing)) == Some(DefaultSettings)
    ensures SettingsOf(LoadConfig(Corrupt)) == Some(DefaultSettings)
  {
    DefaultWindowsParse();
    assert "timezone" in Defaults;
  }

  lemma DefaultWindowsParse()
    ensures TimedAll([Window("07:00", "23:30")]) == DefaultSettings.weekdayWindows
    ensures TimedAll([Window("09:00", "23:30")]) == DefaultSettings.weekendWindows
  {
    Parses0700();
    Parses0900();
    Parses2330();
    TimedOne(Window("07:00", "23:30"), Some((7, 0)), Some((23, 30)));
    TimedOne(Window("09:00", "23:30"), Some((9, 0)), Some((23, 30)));
  }

  lemma TimedOne(w: Window, start: Option<(int, int)>, end: Option<(int, int)>)
    requires ParseTime(w.start) == start && ParseTime(w.end) == end
    ensures TimedAll([w]) == [TimedWindow(w, start, end)]
  {
  }

  /** Two digits, a colon and two digits read as the two two-digit numbers, leading zeros allowed. */
  lemma ParseClockText(s: string)
    requires |s| == 5 && s[2] == ':'
    requires IsDigit(s[0]) && IsDigit(s[1]) && IsDigit(s[3]) && IsDigit(s[4])
    ensures ParseTime(s) == Some((DigitValue(s[0]) * 10 + DigitValue(s[1]), DigitValue(s[3]) * 10 + DigitValue(s[4])))
  {
    assert FindChar(s, ':', 1) == 2;
    assert FindChar(s, ':', 0) == 2;
    assert FindChar(s, ':', 3) == 5;
    assert SkipSpace(s, 0, 2) == 0 && SkipSpaceBack(s, 0, 2) == 2;
    assert SkipSpace(s, 3, 5) == 3 && SkipSpaceBack(s, 3, 5) == 5;
    assert DigitsIn(s, 0, 2) && DigitsIn(s, 3, 5);
    assert ValueIn(s, 0, 2) == DigitValue(s[0]) * 10 + DigitValue(s[1]);
    assert ValueIn(s, 3, 5) == DigitValue(s[3]) * 10 + DigitValue(s[4]);
  }

  lemma Parses0700() ensures ParseTime("07:00") == Some((7, 0)) { ParseClockText("07:00"); }
  lemma Parses0900() ensures ParseTime("09:00") == Some((9, 0)) { ParseClockText("09:00"); }
  lemma Parses2330() ensures ParseTime("23:30") == Some((23, 30)) { ParseClockText("23:30"); }

  // ---------------------------------------------------------------------
  // Timezones

  /** The fixed UTC offsets, in hours, of the timezone names the scheduler knows. */
  const Timezones: map<string, real> := map[
    "UTC" := 0.0,
    "GMT" := 0.0,
    "EST" := -5.0,
    "EDT" := -4.0,
    "CST" := -6.0,
    "CDT" := -5.0,
    "MST" := -7.0,
    "MDT" := -6.0,
    "PST" := -8.0,
    "PDT" := -7.0,
    "IST" := 5.5,
    "Asia/Kolkata" := 5.5,
    "JST" := 9.0,
    "AEST" := 10.0,
    "NZST" := 12.0,
    "CET" := 1.0,
    "EET" := 2.0,
    "BST" := 1.0,
    "CEST" := 2.0
  ]

  /** `tz_name.upper().startswith("UTC")`. */
  predicate StartsWithUtc(name: string) {
    |name| >= 3 && Upper(name[0]) == 'U' && Upper(name[1]) == 'T' && Upper(name[2]) == 'C'
  }

  /**
   * `_parse_timezone`: the UTC offset in hours for a timezone name.
   * `parseOffset` stands for Python's `float(...)` on the text after "UTC"
   * (None where it raises ValueError).
   */
  function ParseTimezone(name: string, parseOffset: string -> Option<real>): (r: real)
    ensures name in Timezones ==> r == Timezones[name]
    ensures StartsWithUtc(name) && |name| == 3 ==> r == 0.0
    ensures StartsWithUtc(name) && |name| > 3 ==> r == parseOffset(name[3..]).GetOr(0.0)
    ensures !StartsWithUtc(name) && name !in Timezones ==> r == 0.0
  {
    if StartsWithUtc(name) then
      if |name| > 3 then parseOffset(name[3..]).GetOr(0.0) else 0.0
    else if name in Timezones then Timezones[name]
    else 0.0
  }

  // ---------------------------------------------------------------------
  // "HH:MM"

  /**
   * `_parse_time`: the text has exactly one ':' (so that `split(':')`
   * yields the two parts the unpacking expects), and both sides read as
   * integers; None is the ValueError case.
   */
  function ParseTime(s: string): Option<(int, int)> {
    var i := FindChar(s, ':', 0);
    if i == |s| || FindChar(s, ':', i + 1) < |s| then None
    else BothRead(ParseIntIn(s, 0, i), ParseIntIn(s, i + 1, |s|))
  }

  /** The hour and the minute, when both sides read as integers. */
  function BothRead(h: Option<int>, m: Option<int>): Option<(int, int)> {
    if h.Some? && m.Some? then Some((h.value, m.value)) else None
  }

  /** The source's own formulation: `h, m = map(int, s.split(':'))`. */
  function ParseTimeBySplit(s: string): Option<(int, int)> {
    var parts := Split(s, ':');
    if |parts| != 2 then None
    else BothRead(ParseInt(parts[0]), ParseInt(parts[1]))
  }

  /** Scanning for the colon reads the text exactly as splitting on it does. */
  lemma ParseTimeMatchesSplit(s: string)
    ensures ParseTime(s) == ParseTimeBySplit(s)
  {
    assert s[0..] == s;
    FindCharIn(s, ':', 0);
    if ':' in s {
      var i := IndexOf(s, ':');
      var rest := s[i + 1..];
      FindCharIn(s, ':', i + 1);
      assert Split(s, ':') == [s[..i]] + Split(rest, ':');
      assert (':' in rest) == (|Split(rest, ':')| > 1);
      if ':' !in rest {
        assert Split(s, ':') == [s[..i], rest];
        assert s[0..i] == s[..i] && s[i + 1..|s|] == rest;
        ParseIntInSlice(s, 0, i);
        ParseIntInSlice(s, i + 1, |s|);
      }
    }
  }

  /** Printing an hour and a minute with a colon between them parses back to the same pair. */
  lemma ParseTimeRoundTrip(h: int, m: int)
    ensures ParseTime(IntToString(h) + ":" + IntToString(m)) == Some((h, m))
  {
    NoColonInNumber(h);
    NoColonInNumber(m);
    ParseTimeJoined(IntToString(h), IntToString(m));
    ParseIntRoundTrip(h);
    ParseIntRoundTrip(m);
  }

  /** Two colon-free texts joined by a colon parse as the two texts parsed on their own. */
  lemma ParseTimeJoined(a: string, b: string)
    requires forall k :: 0 <= k < |a| ==> a[k] != ':'
    requires forall k :: 0 <= k < |b| ==> b[k] != ':'
    ensures ParseTime(a + ":" + b) == BothRead(ParseInt(a), ParseInt(b))
  {
    var s := a + ":" + b;
    ColonBetween(a, b);
    ParseTimeAt(s, |a|);
    assert s[0..|a|] == a && s[|a| + 1..|s|] == b;
  }

  /** With its only colon at i, the text parses as the two sides of i. */
  lemma ParseTimeAt(s: string, i: nat)
    requires i < |s| && FindChar(s, ':', 0) == i && FindChar(s, ':', i + 1) == |s|
    ensures ParseTime(s) == BothRead(ParseInt(s[0..i]), ParseInt(s[i + 1..|s|]))
  {
    ParseIntInSlice(s, 0, i);
    ParseIntInSlice(s, i + 1, |s|);
  }

  /** The joining colon is the first colon, and no second one follows it. */
  lemma ColonBetween(a: string, b: string)
    requires forall k :: 0 <= k < |a| ==> a[k] != ':'
    requires forall k :: 0 <= k < |b| ==> b[k] != ':'
    ensures FindChar(a + ":" + b, ':', 0) == |a|
    ensures FindChar(a + ":" + b, ':', |a| + 1) == |a| + 1 + |b|
  {
    var s := a + ":" + b;
    assert s[|a|] == ':';
    assert forall k :: 0 <= k < |a| ==> s[k] == a[k];
    assert forall k :: |a| < k < |s| ==> s[k] == b[k - |a| - 1];
  }

  lemma NoColonInNumber(n: int)
    ensures forall k :: 0 <= k < |IntToString(n)| ==> IntToString(n)[k] != ':'
  {
    var d := NatToString(if n < 0 then -n else n);
    assert forall k :: 0 <= k < |d| ==> IsDigit(d[k]);
  }
}
