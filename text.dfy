/**
 * String helpers shared by the scheduler and the README status writer:
 * Python-style `int(...)` parsing and `str(n)` printing of integers,
 * whitespace stripping, `str.split(sep)` / `sep.join(parts)` on one
 * separator character, prefix tests and substring search.
 *
 * Only ASCII is modelled: whitespace is the ASCII set that Python's
 * `str.isspace` accepts, digits are '0'..'9', and upper-casing maps
 * 'a'..'z' only.
 *
 * Parsing works on an index range [lo, hi) of the text rather than on
 * slices, so that the parse of a constant such as "07:00" can be
 * evaluated by the verifier cheaply; `ParseIntInSlice` ties the range
 * form to the slice it reads.
 */
module Text {
  import opened Wrappers

  /** Python's ASCII whitespace: space, \t \n \v \f \r and \x1c..\x1f. */
  predicate IsSpace(c: char) {
    c == ' ' || ('\t' <= c <= '\r') || ('\U{1C}' <= c <= '\U{1F}')
  }

  predicate IsDigit(c: char) {
    '0' <= c <= '9'
  }

  predicate AllDigits(s: string) {
    forall i :: 0 <= i < |s| ==> IsDigit(s[i])
  }

  /** ASCII upper-casing of one character. */
  function Upper(c: char): char {
    if 'a' <= c <= 'z' then (c as int - 32) as char else c
  }

  /** Index of the first non-space in s[lo..hi], or hi. */
  function SkipSpace(s: string, lo: nat, hi: nat): (r: nat)
    requires lo <= hi <= |s|
    ensures lo <= r <= hi
    ensures forall i :: lo <= i < r ==> IsSpace(s[i])
    ensures r < hi ==> !IsSpace(s[r])
    decreases hi - lo
  {
    if lo == hi || !IsSpace(s[lo]) then lo else SkipSpace(s, lo + 1, hi)
  }

  /** Index just past the last non-space in s[lo..hi], or lo. */
  function SkipSpaceBack(s: string, lo: nat, hi: nat): (r: nat)
    requires lo <= hi <= |s|
    ensures lo <= r <= hi
    ensures forall i :: r <= i < hi ==> IsSpace(s[i])
    ensures lo < r ==> !IsSpace(s[r - 1])
  {
    if hi == lo || !IsSpace(s[hi - 1]) then hi else SkipSpaceBack(s, lo, hi - 1)
  }

  /** Python's `s.strip()` with no argument. */
  function Strip(s: string): (r: string)
    ensures r == [] || (!IsSpace(r[0]) && !IsSpace(r[|r| - 1]))
    ensures exists lo, hi ::
      (&& 0 <= lo <= hi <= |s| && r == s[lo..hi]
       && (forall i :: 0 <= i < lo ==> IsSpace(s[i]))
       && (forall i :: hi <= i < |s| ==> IsSpace(s[i])))
  {
    var lo := SkipSpace(s, 0, |s|);
    var hi := SkipSpaceBack(s, lo, |s|);
    assert 0 <= lo <= hi <= |s| && s[lo..hi] == s[lo..hi];
    s[lo..hi]
  }

  predicate DigitsIn(s: string, lo: nat, hi: nat)
    requires lo <= hi <= |s|
  {
    forall i :: lo <= i < hi ==> IsDigit(s[i])
  }

  function DigitValue(c: char): nat
    requires IsDigit(c)
  {
    c as int - '0' as int
  }

  function DigitChar(d: nat): (c: char)
    requires d < 10
    ensures IsDigit(c) && DigitValue(c) == d
  {
    ('0' as int + d) as char
  }

  /** The value of the decimal digits s[lo..hi], most significant first. */
  function ValueIn(s: string, lo: nat, hi: nat): nat
    requires lo <= hi <= |s| && DigitsIn(s, lo, hi)
    decreases hi - lo
  {
    if hi == lo then 0 else ValueIn(s, lo, hi - 1) * 10 + DigitValue(s[hi - 1])
  }

  /** An optional sign followed by one or more digits, in s[lo..hi]. */
  function ParseSignedIn(s: string, lo: nat, hi: nat): Option<int>
    requires lo <= hi <= |s|
  {
    if lo < hi && (s[lo] == '+' || s[lo] == '-') then
      if lo + 1 < hi && DigitsIn(s, lo + 1, hi) then
        var v: int := ValueIn(s, lo + 1, hi);
        Some(if s[lo] == '-' then -v else v)
      else None
    else if lo < hi && DigitsIn(s, lo, hi) then Some(ValueIn(s, lo, hi))
    else None
  }

  /**
   * Python's `int(text)` for a decimal literal, read from s[lo..hi]:
   * surrounding whitespace is ignored, a sign is optional, at least one
   * digit is required; anything else is the ValueError case, here None.
   */
  function ParseIntIn(s: string, lo: nat, hi: nat): Option<int>
    requires lo <= hi <= |s|
  {
    var a := SkipSpace(s, lo, hi);
    ParseSignedIn(s, a, SkipSpaceBack(s, a, hi))
  }

  /** Python's `int(s)`. */
  function ParseInt(s: string): Option<int> {
    ParseIntIn(s, 0, |s|)
  }

  lemma SkipSpaceShift(s: string, lo: nat, hi: nat, a: nat)
    requires lo <= a <= hi <= |s|
    ensures SkipSpace(s, a, hi) == lo + SkipSpace(s[lo..hi], a - lo, hi - lo)
    decreases hi - a
  {
    if a < hi {
      assert s[lo..hi][a - lo] == s[a];
      SkipSpaceShift(s, lo, hi, a + 1);
    }
  }

  lemma SkipSpaceBackShift(s: string, lo: nat, hi: nat, a: nat, b: nat)
    requires lo <= a <= b <= hi <= |s|
    ensures SkipSpaceBack(s, a, b) == lo + SkipSpaceBack(s[lo..hi], a - lo, b - lo)
  {
    if a < b {
      assert s[lo..hi][b - 1 - lo] == s[b - 1];
      SkipSpaceBackShift(s, lo, hi, a, b - 1);
    }
  }

  lemma {:induction false} DigitsValueShift(s: string, lo: nat, hi: nat, a: nat, b: nat)
    requires lo <= a <= b <= hi <= |s|
    ensures DigitsIn(s, a, b) <==> DigitsIn(s[lo..hi], a - lo, b - lo)
    ensures DigitsIn(s, a, b) ==> ValueIn(s, a, b) == ValueIn(s[lo..hi], a - lo, b - lo)
    decreases b - a
  {
    var t := s[lo..hi];
    assert forall i :: a <= i < b ==> s[i] == t[i - lo];
    assert DigitsIn(s, a, b) <==> DigitsIn(t, a - lo, b - lo) by {
      if DigitsIn(t, a - lo, b - lo) {
        forall i | a <= i < b ensures IsDigit(s[i]) {
          assert IsDigit(t[i - lo]);
        }
      }
    }
    if a < b && DigitsIn(s, a, b) {
      DigitsValueShift(s, lo, hi, a, b - 1);
      assert s[b - 1] == t[b - 1 - lo];
    }
  }

  lemma ParseSignedShift(s: string, lo: nat, hi: nat, a: nat, b: nat)
    requires lo <= a <= b <= hi <= |s|
    ensures ParseSignedIn(s, a, b) == ParseSignedIn(s[lo..hi], a - lo, b - lo)
  {
    if a < b {
      assert s[a] == s[lo..hi][a - lo];
      DigitsValueShift(s, lo, hi, a + 1, b);
      DigitsValueShift(s, lo, hi, a, b);
    }
  }

  /** Reading a range of the text reads exactly the slice of that range. */
  lemma ParseIntInSlice(s: string, lo: nat, hi: nat)
    requires lo <= hi <= |s|
    ensures ParseIntIn(s, lo, hi) == ParseInt(s[lo..hi])
  {
    var a := SkipSpace(s, lo, hi);
    var b := SkipSpaceBack(s, a, hi);
    StripShift(s, lo, hi);
    ParseSignedShift(s, lo, hi, a, b);
  }

  /** Where stripping a range stops, measured in the slice of that range. */
  lemma StripShift(s: string, lo: nat, hi: nat)
    requires lo <= hi <= |s|
    ensures var t, a := s[lo..hi], SkipSpace(s, lo, hi);
      && a == lo + SkipSpace(t, 0, |t|)
      && SkipSpaceBack(s, a, hi) == lo + SkipSpaceBack(t, a - lo, |t|)
  {
    SkipSpaceShift(s, lo, hi, lo);
    SkipSpaceBackShift(s, lo, hi, SkipSpace(s, lo, hi), hi);
  }

  /** Decimal digits of a natural number, without leading zeros. */
  function NatToString(n: nat): (s: string)
    ensures s != [] && AllDigits(s)
  {
    if n < 10 then [DigitChar(n)] else NatToString(n / 10) + [DigitChar(n % 10)]
  }

  /** Python's `str(n)` for an integer. */
  function IntToString(n: int): string {
    if n < 0 then "-" + NatToString(-n) else NatToString(n)
  }

  lemma {:induction false} DigitsRoundTrip(n: nat)
    ensures ValueIn(NatToString(n), 0, |NatToString(n)|) == n
  {
    if n >= 10 {
      var s := NatToString(n);
      var p := NatToString(n / 10);
      assert s == p + [DigitChar(n % 10)];
      assert s[0..|p|] == p;
      DigitsValueShift(s, 0, |p|, 0, |p|);
      DigitsRoundTrip(n / 10);
    }
  }

  /** The digits `str(n)` prints at the head of a text read back as n. */
  lemma ReadNatPrefix(n: nat, rest: string)
    ensures |NatToString(n)| <= |NatToString(n) + rest|
    ensures DigitsIn(NatToString(n) + rest, 0, |NatToString(n)|)
    ensures ValueIn(NatToString(n) + rest, 0, |NatToString(n)|) == n
  {
    var d := NatToString(n);
    var s := d + rest;
    assert s[0..|d|] == d;
    DigitsRoundTrip(n);
    DigitsValueShift(s, 0, |d|, 0, |d|);
  }

  /** Reading back what `str(n)` printed gives n again. */
  lemma ParseIntRoundTrip(n: int)
    ensures ParseInt(IntToString(n)) == Some(n)
  {
    var s := IntToString(n);
    var m := if n < 0 then -n else n;
    var d := NatToString(m);
    DigitsRoundTrip(m);
    assert !IsSpace(s[0]) && !IsSpace(s[|s| - 1]);
    assert SkipSpace(s, 0, |s|) == 0;
    assert SkipSpaceBack(s, 0, |s|) == |s|;
    if n < 0 {
      assert s[1..|s|] == d;
      DigitsValueShift(s, 1, |s|, 1, |s|);
    } else {
      assert s[0] != '+' && s[0] != '-';
    }
  }

  /** `prefix` is a prefix of `s`, as Python's `s.startswith(prefix)`. */
  predicate StartsWith(s: string, prefix: string) {
    |prefix| <= |s| && s[..|prefix|] == prefix
  }

  predicate EndsWith(s: string, suffix: string) {
    |suffix| <= |s| && s[|s| - |suffix|..] == suffix
  }

  /** Index of the first occurrence of c in s[k..], or |s|. */
  function FindChar(s: string, c: char, k: nat): (r: nat)
    requires k <= |s|
    ensures k <= r <= |s| && (r < |s| ==> s[r] == c)
    ensures forall j :: k <= j < r ==> s[j] != c
    decreases |s| - k
  {
    if k == |s| || s[k] == c then k else FindChar(s, c, k + 1)
  }

  /** Index of the first occurrence of character `c` in `s`. */
  function IndexOf(s: string, c: char): (i: nat)
    requires c in s
    ensures i < |s| && s[i] == c && c !in s[..i]
  {
    if s[0] == c then 0 else 1 + IndexOf(s[1..], c)
  }

  /** Scanning from k finds c exactly when c occurs in s[k..], and then at its first occurrence. */
  lemma FindCharIn(s: string, c: char, k: nat)
    requires k <= |s|
    ensures FindChar(s, c, k) < |s| <==> c in s[k..]
    ensures c in s[k..] ==> FindChar(s, c, k) == k + IndexOf(s[k..], c)
  {
    var r := FindChar(s, c, k);
    if c in s[k..] {
      var i := IndexOf(s[k..], c);
      assert s[k + i] == c;
      forall j | k <= j < k + i ensures s[j] != c {
        assert s[k..][..i][j - k] == s[j];
      }
      assert r < |s|;
      assert s[k..][r - k] == c;
      assert r == k + i;
    }
  }

  /** Python's `s.split(sep)` for a one-character separator. */
  function Split(s: string, sep: char): (parts: seq<string>)
    ensures |parts| > 0
    ensures forall k :: 0 <= k < |parts| ==> sep !in parts[k]
    decreases |s|
  {
    if sep in s then
      var i := IndexOf(s, sep);
      [s[..i]] + Split(s[i + 1..], sep)
    else [s]
  }

  /** Python's `sep.join(parts)` for a one-character separator. */
  function Join(parts: seq<string>, sep: char): string {
    if |parts| == 0 then ""
    else if |parts| == 1 then parts[0]
    else parts[0] + [sep] + Join(parts[1..], sep)
  }

  /** Splitting and joining again gives back the original text. */
  lemma {:induction false} JoinSplit(s: string, sep: char)
    ensures Join(Split(s, sep), sep) == s
    decreases |s|
  {
    if sep in s {
      var i := IndexOf(s, sep);
      JoinSplit(s[i + 1..], sep);
      assert s == s[..i] + [sep] + s[i + 1..];
    }
  }

  /** Joining two non-empty lists of parts puts one separator between them. */
  lemma {:induction false} JoinAppend(a: seq<string>, b: seq<string>, sep: char)
    requires |a| > 0 && |b| > 0
    ensures Join(a + b, sep) == Join(a, sep) + [sep] + Join(b, sep)
  {
    if |a| > 1 {
      assert (a + b)[1..] == a[1..] + b;
      JoinAppend(a[1..], b, sep);
    } else {
      assert (a + b)[1..] == b;
    }
  }

  /** `pat` occurs in `s` starting at index i. */
  predicate OccursAt(s: string, pat: string, i: int) {
    0 <= i && i + |pat| <= |s| && s[i..i + |pat|] == pat
  }

  /** Python's `pat in s`. */
  predicate Contains(s: string, pat: string) {
    exists i :: 0 <= i <= |s| && OccursAt(s, pat, i)
  }

  lemma OccursShift(s: string, pat: string, k: nat, j: int)
    requires k <= |s|
    ensures OccursAt(s[k..], pat, j) <==> j >= 0 && OccursAt(s, pat, k + j)
  {
    if j >= 0 && k + j + |pat| <= |s| {
      assert s[k..][j..j + |pat|] == s[k + j..k + j + |pat|];
    }
  }

  /** The index of the first occurrence of `pat` in `s` at or after k. */
  function FindFrom(s: string, pat: string, k: nat): (r: Option<nat>)
    ensures r.Some? ==> k <= r.value && OccursAt(s, pat, r.value)
    ensures r.Some? ==> forall j :: k <= j < r.value ==> !OccursAt(s, pat, j)
    ensures r.None? ==> forall j :: k <= j ==> !OccursAt(s, pat, j)
    decreases |s| - k
  {
    if k + |pat| > |s| then None
    else if s[k..k + |pat|] == pat then Some(k)
    else FindFrom(s, pat, k + 1)
  }

  /** The index of the first occurrence of `pat` in `s`, as `s.find(pat)`. */
  function Find(s: string, pat: string): (r: Option<nat>)
    ensures r.Some? ==> OccursAt(s, pat, r.value)
    ensures r.Some? ==> forall j :: 0 <= j < r.value ==> !OccursAt(s, pat, j)
    ensures r.None? ==> forall j :: !OccursAt(s, pat, j)
  {
    FindFrom(s, pat, 0)
  }
}
