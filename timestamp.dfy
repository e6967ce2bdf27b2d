/**
 * SubRip clock strings `HH:MM:SS,mmm` for a time given as whole seconds and the truncated
 * milliseconds of the fraction.
 */
module Timestamp {
  import opened Wrappers
  import opened Decimal

  type Millis = m: nat | m < 1000

  /**
   * Hours (at least two digits, no upper bound), minutes and seconds (two digits each) and
   * milliseconds (three digits), zero-padded and separated by ':', ':' and ','. Hours are the
   * whole seconds divided by 3600, minutes what is left divided by 60, seconds what is left of
   * the minute; `FormatIsClock` and `Clock`'s contract say where each field sits.
   */
  function FormatTimestamp(seconds: nat, millis: Millis): string
  {
    Clock(seconds / 3600, seconds % 3600 / 60, seconds % 60, millis)
  }

  /** The clock string of hours, minutes, seconds and milliseconds, each zero-padded. */
  function Clock(hours: nat, minutes: nat, secs: nat, millis: Millis): string
  {
    ZeroPad(hours, 2) + ":" + ZeroPad(minutes, 2) + ":" + ZeroPad(secs, 2) + "," + ZeroPad(millis, 3)
  }

  /**
   * Where each field of the clock string of minutes below 60 and seconds below 60 sits, and
   * what it denotes: the hours take the first `|r| - 10` characters, at least two, with no
   * leading zero beyond the padding.
   */
  lemma ClockLayout(hours: nat, minutes: nat, secs: nat, millis: Millis)
    requires minutes < 60 && secs < 60
    ensures var r := Clock(hours, minutes, secs, millis);
            var h := |r| - 10;
            && |r| >= 12 && h >= 2 && (h > 2 ==> r[0] != '0')
            && r[h] == ':' && r[h + 3] == ':' && r[h + 6] == ','
            && Field(r, 0, h) == Some(hours)
            && Field(r, h + 1, h + 3) == Some(minutes)
            && Field(r, h + 4, h + 6) == Some(secs)
            && Field(r, h + 7, h + 10) == Some(millis as nat)
  {
    PowersUsed();
    ZeroPadExact(minutes, 2);
    ZeroPadExact(secs, 2);
    ZeroPadExact(millis, 3);
    var hh, mm, ss, ms := ZeroPad(hours, 2), ZeroPad(minutes, 2), ZeroPad(secs, 2), ZeroPad(millis, 3);
    assert |hh| > 2 ==> hh[0] != '0' by {
      if |hh| > 2 {
        assert hh == NatToString(hours);
      }
    }
    var r := Clock(hours, minutes, secs, millis);
    JoinLayout(hh, mm, ss, ms);
    var h := |hh|;
    assert |r| - 10 == h;
    assert r[0..h] == hh && Value(hh) == hours;
    assert r[h + 1..h + 3] == mm && Value(mm) == minutes;
    assert r[h + 4..h + 6] == ss && Value(ss) == secs;
    assert r[h + 7..h + 10] == ms && Value(ms) == millis;
    assert h > 2 ==> r[0] == hh[0];
  }

  /** Where each of four fields of the given widths sits once they are joined by the separators. */
  lemma JoinLayout(hh: string, mm: string, ss: string, ms: string)
    requires |hh| >= 2 && |mm| == 2 && |ss| == 2 && |ms| == 3
    ensures var r := hh + ":" + mm + ":" + ss + "," + ms;
            var h := |hh|;
            && |r| == h + 10
            && r[h] == ':' && r[h + 3] == ':' && r[h + 6] == ','
            && r[..h] == hh && r[h + 1..h + 3] == mm && r[h + 4..h + 6] == ss && r[h + 7..] == ms
  {
  }

  lemma PowersUsed()
    ensures Pow10(2) == 100 && Pow10(3) == 1000
  {
    assert Pow10(1) == 10;
  }

  /** The digits `s[lo..hi]` and the number they denote, if they are all digits. */
  function Field(s: string, lo: nat, hi: nat): Option<nat>
    requires lo <= hi <= |s|
  {
    if AllDigits(s[lo..hi]) then Some(Value(s[lo..hi])) else None
  }

  /** Reads a clock string back into seconds and milliseconds; fails unless it is well formed. */
  function ParseTimestamp(s: string): (r: Option<(nat, Millis)>)
  {
    if |s| < 12 then None
    else
      var h := |s| - 10;
      var hours, minutes, secs, millis := Field(s, 0, h), Field(s, h + 1, h + 3), Field(s, h + 4, h + 6), Field(s, h + 7, h + 10);
      if s[h] == ':' && s[h + 3] == ':' && s[h + 6] == ','
         && hours.Some? && minutes.Some? && secs.Some? && millis.Some?
         && minutes.value < 60 && secs.value < 60 && millis.value < 1000
      then Some((hours.value * 3600 + minutes.value * 60 + secs.value, millis.value as Millis))
      else None
  }

  /** Whole seconds split into hours, minutes below 60 and seconds below 60 that add back up. */
  lemma ClockSplit(t: nat) returns (hours: nat, minutes: nat, secs: nat)
    ensures minutes < 60 && secs < 60 && hours * 3600 + minutes * 60 + secs == t
  {
    hours, minutes, secs := t / 3600, t % 3600 / 60, t % 60;
    var r := t % 3600;
    assert t == hours * 3600 + r;
    assert r == r / 60 * 60 + r % 60;
    assert r % 60 == t % 60;
  }

  /** There is only one such split, and it is the one the formatter computes. */
  lemma ClockSplitUnique(t: nat, hours: nat, minutes: nat, secs: nat)
    requires minutes < 60 && secs < 60 && hours * 3600 + minutes * 60 + secs == t
    ensures t / 3600 == hours && t % 3600 / 60 == minutes && t % 60 == secs
  {
  }

  lemma FormatIsClock(t: nat, millis: Millis, hours: nat, minutes: nat, secs: nat)
    requires minutes < 60 && secs < 60 && hours * 3600 + minutes * 60 + secs == t
    ensures FormatTimestamp(t, millis) == Clock(hours, minutes, secs, millis)
  {
    ClockSplitUnique(t, hours, minutes, secs);
  }

  /**
   * The formatted string field by field: hours `t div 3600` in at least two digits with no
   * leading zero beyond the padding, then minutes `(t mod 3600) div 60` and seconds `t mod 60` in
   * two digits each and the milliseconds in three, separated by ':', ':' and ','.
   */
  lemma FormatLayout(t: nat, millis: Millis)
    ensures var r := FormatTimestamp(t, millis);
            var h := |r| - 10;
            && |r| >= 12 && h >= 2 && (h > 2 ==> r[0] != '0')
            && r[h] == ':' && r[h + 3] == ':' && r[h + 6] == ','
            && Field(r, 0, h) == Some(t / 3600)
            && Field(r, h + 1, h + 3) == Some(t % 3600 / 60)
            && Field(r, h + 4, h + 6) == Some(t % 60)
            && Field(r, h + 7, h + 10) == Some(millis as nat)
  {
    var hours, minutes, secs := ClockSplit(t);
    ClockSplitUnique(t, hours, minutes, secs);
    FormatIsClock(t, millis, hours, minutes, secs);
    ClockLayout(hours, minutes, secs, millis);
  }

  /** The clock string of a split time reads back as that time. */
  lemma ParseClock(t: nat, hours: nat, minutes: nat, secs: nat, millis: Millis)
    requires minutes < 60 && secs < 60 && hours * 3600 + minutes * 60 + secs == t
    ensures ParseTimestamp(Clock(hours, minutes, secs, millis)) == Some((t, millis))
  {
    ClockLayout(hours, minutes, secs, millis);
    ParseLaidOut(Clock(hours, minutes, secs, millis), t, hours, minutes, secs, millis);
  }

  /** Any string laid out as a clock string reads back as the time its fields denote. */
  lemma ParseLaidOut(r: string, t: nat, hours: nat, minutes: nat, secs: nat, millis: Millis)
    requires minutes < 60 && secs < 60 && hours * 3600 + minutes * 60 + secs == t
    requires |r| >= 12
    requires var h := |r| - 10;
             && r[h] == ':' && r[h + 3] == ':' && r[h + 6] == ','
             && Field(r, 0, h) == Some(hours)
             && Field(r, h + 1, h + 3) == Some(minutes)
             && Field(r, h + 4, h + 6) == Some(secs)
             && Field(r, h + 7, h + 10) == Some(millis as nat)
    ensures ParseTimestamp(r) == Some((t, millis))
  {
  }

  /** Nothing is lost: the clock string reads back as the time it was made from. */
  lemma ParseFormat(seconds: nat, millis: Millis)
    ensures ParseTimestamp(FormatTimestamp(seconds, millis)) == Some((seconds, millis))
  {
    var hours, minutes, secs := ClockSplit(seconds);
    FormatIsClock(seconds, millis, hours, minutes, secs);
    ParseClock(seconds, hours, minutes, secs, millis);
  }

  /** Distinct times give distinct clock strings. */
  lemma FormatInjective(s1: nat, m1: Millis, s2: nat, m2: Millis)
    requires FormatTimestamp(s1, m1) == FormatTimestamp(s2, m2)
    ensures s1 == s2 && m1 == m2
  {
    ParseFormat(s1, m1);
    ParseFormat(s2, m2);
  }

  /** Zero and one padded: "00", "000" and "01". */
  lemma PadSmall()
    ensures ZeroPad(0, 2) == "00" && ZeroPad(0, 3) == "000" && ZeroPad(1, 2) == "01"
  {
    assert NatToString(0) == "0" && NatToString(1) == "1";
    assert Zeros(1) == "0" && Zeros(2) == "00";
  }

  /** Three-digit milliseconds need no padding. */
  lemma PadFull()
    ensures ZeroPad(234, 3) == "234" && ZeroPad(999, 3) == "999"
  {
    assert NatToString(2) == "2" && NatToString(23) == "23";
    assert NatToString(9) == "9" && NatToString(99) == "99";
  }

  /** Midnight. */
  lemma FormatMidnight()
    ensures FormatTimestamp(0, 0) == "00:00:00,000"
  {
    PadSmall();
  }

  /** One hour, one minute, one second and 234 ms. */
  lemma FormatHourMinuteSecond()
    ensures FormatTimestamp(3661, 234) == "01:01:01,234"
  {
    PadSmall();
    PadFull();
    FormatIsClock(3661, 234, 1, 1, 1);
  }

  /** The last millisecond of the first second. */
  lemma FormatLastMillisecond()
    ensures FormatTimestamp(1, 999) == "00:00:01,999"
  {
    PadSmall();
    PadFull();
    FormatIsClock(1, 999, 0, 0, 1);
  }

  /** Python's `x // d` on floats, for a positive divisor. */
  function FloorDiv(x: real, d: real): int
    requires d > 0.0
  {
    (x / d).Floor
  }

  /** Python's `x % d` on floats, for a positive divisor: `x` less the whole multiples of `d`. */
  function Mod(x: real, d: real): real
    requires d > 0.0
  {
    x - d * FloorDiv(x, d) as real
  }

  /** A quotient that lies between `q` and `q + 1` truncates to `q`. */
  lemma QuotientFloor(x: real, d: real, q: int)
    requires d > 0.0 && q as real * d <= x < (q + 1) as real * d
    ensures FloorDiv(x, d) == q
  {
    var y := x / d;
    assert y - q as real == (x - q as real * d) / d;
    assert (q + 1) as real - y == ((q + 1) as real * d - x) / d;
  }

  /** On a non-negative time, dividing by a whole number of seconds and truncating is the integer quotient of the whole seconds. */
  lemma FloorDivWhole(t: real, d: nat)
    requires t >= 0.0 && d > 0
    ensures FloorDiv(t, d as real) == t.Floor / d
    ensures Mod(t, d as real) == (t.Floor % d) as real + (t - t.Floor as real)
  {
    var w := t.Floor;
    var q, r := w / d, w % d;
    assert w == q * d + r && 0 <= r < d;
    assert (q * d) as real == q as real * d as real;
    assert ((q + 1) * d) as real == (q + 1) as real * d as real;
    QuotientFloor(t, d as real, q);
  }

  /** The whole seconds of a non-negative time and the milliseconds its fraction truncates to. */
  function SplitTime(t: real): (r: (nat, Millis))
    requires t >= 0.0
    ensures r.0 as real <= t < r.0 as real + 1.0
    ensures r.0 as real + r.1 as real / 1000.0 <= t < r.0 as real + (r.1 + 1) as real / 1000.0
  {
    var whole := t.Floor;
    var millis := ((t - whole as real) * 1000.0).Floor;
    (whole, millis)
  }

  /**
   * The formatter on a time in seconds, computed as the source does: hours `t // 3600`, minutes
   * `(t % 3600) // 60`, seconds `t % 60` and milliseconds `(t - int(t)) * 1000`, each truncated.
   */
  function FormatSeconds(t: real): string
    requires t >= 0.0
  {
    var hours := FloorDiv(t, 3600.0);
    var minutes := FloorDiv(Mod(t, 3600.0), 60.0);
    var secs := Mod(t, 60.0).Floor;
    var millis := ((t - t.Floor as real) * 1000.0).Floor;
    Clock(hours, minutes, secs, millis)
  }

  /** Computing on the time itself and computing on its whole seconds agree. */
  lemma FormatSecondsWhole(t: real)
    requires t >= 0.0
    ensures FormatSeconds(t) == FormatTimestamp(SplitTime(t).0, SplitTime(t).1)
  {
    var w := t.Floor;
    var hours, minutes, secs := ClockSplit(w);
    FloorDivWhole(t, 3600);
    var rest := Mod(t, 3600.0);
    assert rest >= 0.0 && rest.Floor == w % 3600;
    FloorDivWhole(rest, 60);
    FloorDivWhole(t, 60);
    ClockSplitUnique(w, hours, minutes, secs);
    assert FloorDiv(t, 3600.0) == hours;
    assert FloorDiv(rest, 60.0) == minutes;
    assert Mod(t, 60.0).Floor == secs;
    assert FormatSeconds(t) == Clock(hours, minutes, secs, SplitTime(t).1);
    FormatIsClock(w, SplitTime(t).1, hours, minutes, secs);
  }

  /** The clock string of a time reads back as that time truncated to the millisecond. */
  lemma ParseFormatSeconds(t: real)
    requires t >= 0.0
    ensures var p := ParseTimestamp(FormatSeconds(t));
            && p.Some?
            && p.value.0 as real + p.value.1 as real / 1000.0 <= t
            && t < p.value.0 as real + (p.value.1 + 1) as real / 1000.0
  {
    FormatSecondsWhole(t);
    ParseFormat(SplitTime(t).0, SplitTime(t).1);
  }
}
