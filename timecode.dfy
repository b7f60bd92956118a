/** Time codes: `formatTime`, which writes a millisecond count as `HH:MM:SS,mmm`,
    and `parseTime`, which reads the time-begin option back into milliseconds. */
module TimeCode {
  import opened JsText

  /** A string of `k` zeros. */
  function Zeros(k: nat): (z: string)
    ensures |z| == k && forall i :: 0 <= i < k ==> z[i] == '0'
  {
    seq(k, _ => '0')
  }

  /** `sprintf("%0<width>d", n)`: the decimal notation of `n`, padded on the left with
      zeros to at least `width` characters. */
  function ZeroPad(n: nat, width: nat): (r: string)
    ensures AllDigits(r) && DigitsValue(r) == n
    ensures |r| >= width && |r| >= 1
    ensures n < Pow10(width) ==> |r| == width || (width == 0 && |r| == 1)
  {
    var d := NatToString(n);
    NatToStringLength(n, width);
    if |d| < width then
      DigitsValueLeadingZeros(Zeros(width - |d|), d);
      Zeros(width - |d|) + d
    else d
  }

  /** A number below 10^w has at most `w` digits (and always at least one). */
  lemma {:induction false} NatToStringLength(n: nat, w: nat)
    ensures n < Pow10(w) ==> |NatToString(n)| <= w || (w == 0 && |NatToString(n)| == 1)
  {
    if n >= 10 && w > 0 {
      NatToStringLength(n / 10, w - 1);
    }
  }

  /** The `%02d` field that `formatTime` writes for hours, AS WRITTEN: JavaScript passes
      the quotient `t / 3600000` as a floating-point number and `sprintf`'s `%d` reads it
      with `parseInt` of its string form. For t = 1, 2 or 3 the quotient is below 1e-6,
      so its string form is in exponent notation (`2.7777777777777776e-7` for t = 1) and
      `parseInt` reads its first digit. Every other field, and the hours of every other
      t >= 0, is the truncated quotient. */
  function HoursAsWritten(t: nat): (h: nat)
    ensures t == 0 || t >= 4 ==> h == t / 3600000
  {
    if 1 <= t <= 3 then t * 100 / 36 else t / 3600000
  }

  /** `formatTime(t)` as the source computes it, for t >= 0. */
  function FormatTimeAsWritten(t: nat): (r: string)
    ensures t == 0 || t >= 4 ==> r == FormatTime(t)
  {
    Stamp(ZeroPad(HoursAsWritten(t), 2), ZeroPad(t / 60000 % 60, 2),
          ZeroPad(t / 1000 % 60, 2), ZeroPad(t % 1000, 3))
  }

  /** A cue one millisecond into the file is written as two hours in, and reading the
      time code back gives 7200001 instead of 1. */
  lemma FormatTimeAsWrittenMisreadsOneMillisecond()
    ensures FormatTimeAsWritten(1) == "02:00:00,001"
    ensures ParseTime(FormatTimeAsWritten(1)) == Some(7200001)
  {
    SmallFields();
    assert HoursAsWritten(1) == 2;
    assert 1 / 60000 % 60 == 0 && 1 / 1000 % 60 == 0 && 1 % 1000 == 1;
    var h, m, sec, ms := ZeroPad(2, 2), ZeroPad(0, 2), ZeroPad(0, 2), ZeroPad(1, 3);
    assert FormatTimeAsWritten(1) == Stamp(h, m, sec, ms);
    StampLiteral();
    ReadTwoHoursOneMillisecond();
  }

  lemma StampLiteral()
    ensures Stamp("02", "00", "00", "001") == "02:00:00,001"
  {
  }

  lemma ReadTwoHoursOneMillisecond()
    ensures ParseTime(Stamp("02", "00", "00", "001")) == Some(7200001)
  {
    assert DigitsValue("02") == 2 && DigitsValue("00") == 0 && DigitsValue("001") == 1 by {
      assert "02"[..1] == "0" && "00"[..1] == "0" && "001"[..2] == "00" && "00"[..1] == "0";
      assert "0"[..0] == [];
    }
    ParseStamp("02", "00", "00", "001", 7200001);
  }

  /** One second is written `00:00:01,000`. */
  lemma OneSecond()
    ensures FormatTimeAsWritten(1000) == "00:00:01,000"
  {
    assert HoursAsWritten(1000) == 0;
    assert 1000 / 60000 % 60 == 0 && 1000 / 1000 % 60 == 1 && 1000 % 1000 == 0;
    var h, m, sec, ms := ZeroPad(0, 2), ZeroPad(0, 2), ZeroPad(1, 2), ZeroPad(0, 3);
    assert FormatTimeAsWritten(1000) == Stamp(h, m, sec, ms);
    SecondFields();
    SecondLiteral();
  }

  lemma SecondFields()
    ensures ZeroPad(0, 2) == "00" && ZeroPad(1, 2) == "01" && ZeroPad(0, 3) == "000"
  {
    assert NatToString(0) == "0" && NatToString(1) == "1";
    assert Zeros(1) == "0" && Zeros(2) == "00";
  }

  lemma SecondLiteral()
    ensures Stamp("00", "00", "01", "000") == "00:00:01,000"
  {
  }

  lemma SmallFields()
    ensures ZeroPad(2, 2) == "02" && ZeroPad(0, 2) == "00" && ZeroPad(1, 3) == "001"
  {
    assert NatToString(0) == "0" && NatToString(1) == "1" && NatToString(2) == "2";
    assert Zeros(1) == "0" && Zeros(2) == "00";
  }

  /** `HH:MM:SS,mmm` assembled from its four fields. */
  function Stamp(h: string, m: string, s: string, ms: string): string
  {
    h + ":" + ClockText(m, s, ms)
  }

  /** `MM:SS,mmm` assembled from its three fields. */
  function ClockText(m: string, s: string, ms: string): string
  {
    m + ":" + s + "," + ms
  }

  /** Where the fields of a time code sit, counted from its end. */
  lemma StampSlices(h: string, m: string, s: string, ms: string)
    requires |m| == 2 && |s| == 2 && |ms| == 3
    ensures var r := Stamp(h, m, s, ms); var n := |r|;
      && n == |h| + 10 && r[..n - 10] == h && r[n - 10] == ':'
      && r[n - 9..n - 7] == m && r[n - 7] == ':' && r[n - 6..n - 4] == s
      && r[n - 4] == ',' && r[n - 3..] == ms && r[n - 3..n] == ms
  {
  }

  /** `formatTime(t)` as evidently intended: hours, minutes, seconds and milliseconds by
      truncating division, written `%02d:%02d:%02d,%03d`. */
  function FormatTime(t: nat): (r: string)
  {
    Stamp(ZeroPad(t / 3600000, 2), ZeroPad(t / 60000 % 60, 2),
          ZeroPad(t / 1000 % 60, 2), ZeroPad(t % 1000, 3))
  }

  /** The hours field has exactly two digits below 100 hours and more from there on. */
  lemma HoursWidth(t: nat)
    ensures |ZeroPad(t / 3600000, 2)| == 2 <==> t < 360000000
  {
    var h := t / 3600000;
    if t >= 360000000 {
      var d := NatToString(h);
      if |d| <= 2 {
        DigitsValueBound(d);
        assert Pow10(2) == 100;
      }
    }
  }

  /** The layout of a time code, read from its end: three digits of milliseconds
      worth `millis`, a comma, two digits of seconds worth `seconds`, a colon, two digits
      of minutes worth `minutes`, a colon, and at least one digit of hours worth `hours`. */
  predicate TimeLayout(r: string, hours: nat, minutes: nat, seconds: nat, millis: nat)
  {
    var n := |r|;
    && n >= 11 && r[n - 10] == ':' && r[n - 7] == ':' && r[n - 4] == ','
    && AllDigits(r[..n - 10]) && DigitsValue(r[..n - 10]) == hours
    && AllDigits(r[n - 9..n - 7]) && DigitsValue(r[n - 9..n - 7]) == minutes
    && AllDigits(r[n - 6..n - 4]) && DigitsValue(r[n - 6..n - 4]) == seconds
    && AllDigits(r[n - 3..]) && DigitsValue(r[n - 3..]) == millis
  }

  /** `formatTime(t)` lays out hours, minutes below 60, seconds below 60 and milliseconds
      of `t`, and is exactly twelve characters long below 100 hours. */
  lemma FormatTimeLayout(t: nat)
    ensures TimeLayout(FormatTime(t), t / 3600000, t / 60000 % 60, t / 1000 % 60, t % 1000)
    ensures t / 60000 % 60 < 60 && t / 1000 % 60 < 60
    ensures |FormatTime(t)| >= 12 && (t < 360000000 <==> |FormatTime(t)| == 12)
  {
    var a, b, c, d := t / 3600000, t / 60000 % 60, t / 1000 % 60, t % 1000;
    var h, m, s, ms := ZeroPad(a, 2), ZeroPad(b, 2), ZeroPad(c, 2), ZeroPad(d, 3);
    assert FormatTime(t) == Stamp(h, m, s, ms);
    StampLayout(h, m, s, ms);
    HoursWidth(t);
  }

  /** The fields of `formatTime(t)`, named so that later proofs need no division. */
  lemma FormatTimeFields(t: nat) returns (a: nat, b: nat, c: nat, d: nat)
    ensures TimeLayout(FormatTime(t), a, b, c, d)
    ensures 1000 * (60 * (60 * a + b) + c) + d == t
    ensures t < 360000000 ==> |FormatTime(t)| == 12
  {
    a, b, c, d := t / 3600000, t / 60000 % 60, t / 1000 % 60, t % 1000;
    FormatTimeLayout(t);
    RecombineDigits(t, a, b, c, d);
  }

  /** A time code assembled from digit fields has the layout of their values. */
  lemma StampLayout(h: string, m: string, s: string, ms: string)
    requires |h| >= 1 && AllDigits(h) && |m| == 2 && AllDigits(m)
    requires |s| == 2 && AllDigits(s) && |ms| == 3 && AllDigits(ms)
    ensures |Stamp(h, m, s, ms)| == |h| + 10
    ensures TimeLayout(Stamp(h, m, s, ms), DigitsValue(h), DigitsValue(m), DigitsValue(s), DigitsValue(ms))
  {
    StampSlices(h, m, s, ms);
  }

  // ----- parseTime -----

  datatype Clock = Clock(minutes: nat, seconds: nat, millis: nat)

  /** The value of the two digits at `i`. */
  function TwoDigits(s: string, i: nat): nat
    requires i + 2 <= |s| && IsDigit(s[i]) && IsDigit(s[i + 1])
  {
    10 * DigitValue(s[i]) + DigitValue(s[i + 1])
  }

  /** `(\d\d):(\d\d)(?:,(\d\d\d))?$` matched against all of `u`: `u` is `MM:SS` or
      `MM:SS,mmm`. */
  function ClockOf(u: string): (r: Option<Clock>)
    ensures r.Some? ==> |u| == 5 || |u| == 9
    ensures r.Some? ==> r.value.minutes < 100 && r.value.seconds < 100 && r.value.millis < 1000
  {
    if |u| >= 5 && IsDigit(u[0]) && IsDigit(u[1]) && u[2] == ':' && IsDigit(u[3]) && IsDigit(u[4]) then
      if |u| == 5 then Some(Clock(TwoDigits(u, 0), TwoDigits(u, 3), 0))
      else if |u| == 9 && u[5] == ',' && IsDigit(u[6]) && IsDigit(u[7]) && IsDigit(u[8]) then
        Some(Clock(TwoDigits(u, 0), TwoDigits(u, 3), 100 * DigitValue(u[6]) + TwoDigits(u, 7)))
      else None
    else None
  }

  /** `parseTime(s)`: `H:MM:SS[,mmm]` or `MM:SS[,mmm]` to milliseconds, else `parseInt(s)`
      (`None` for `NaN`). The optional hours group is tried first, with its greedy
      digit run; giving digits back cannot help, as a digit would then stand where the
      colon is required. */
  function ParseTime(s: string): (r: Option<int>)
  {
    var n := DigitRun(s, 0);
    var withHours := if 0 < n < |s| && s[n] == ':' then ClockOf(s[n + 1..]) else None;
    match withHours
    case Some(c) => Some(1000 * (60 * (60 * DigitsValue(s[..n]) + c.minutes) + c.seconds) + c.millis)
    case None =>
      match ClockOf(s)
      case Some(c) => Some(1000 * (60 * c.minutes + c.seconds) + c.millis)
      case None => ParseInt(s)
  }

  /** The fixed-radix decomposition of a millisecond count recombines to that count. */
  lemma Recombine(t: nat)
    ensures 1000 * (60 * (60 * (t / 3600000) + t / 60000 % 60) + t / 1000 % 60) + t % 1000 == t
  {
    var q := t / 1000;
    assert t == 1000 * q + t % 1000;
    assert q / 60 == t / 60000;
    assert q % 60 == t / 1000 % 60;
    assert q == 60 * (q / 60) + q % 60;
    var p := t / 60000;
    assert p / 60 == t / 3600000;
    assert p == 60 * (p / 60) + p % 60;
  }

  /** A time code with all four fields in place reads back as their fixed-radix sum,
      hours included. */
  lemma ParseStamp(h: string, m: string, s: string, ms: string, v: int)
    requires |h| >= 1 && AllDigits(h) && |m| == 2 && AllDigits(m)
    requires |s| == 2 && AllDigits(s) && |ms| == 3 && AllDigits(ms)
    requires v == 1000 * (60 * (60 * DigitsValue(h) + DigitsValue(m)) + DigitsValue(s)) + DigitsValue(ms)
    ensures ParseTime(Stamp(h, m, s, ms)) == Some(v)
  {
    var r := Stamp(h, m, s, ms);
    var tail := ClockText(m, s, ms);
    assert r[..|h|] == h && r[|h|] == ':' && r[|h| + 1..] == tail;
    DigitRunUpTo(r, |h|);
    ClockOfText(m, s, ms);
    ParseTimeWithHours(r, |h|);
  }

  /** Digits, a colon and a clock: the hours alternative of the pattern matches. */
  lemma ParseTimeWithHours(r: string, n: nat)
    requires 0 < n < |r| && DigitRun(r, 0) == n && r[n] == ':' && ClockOf(r[n + 1..]).Some?
    ensures var c := ClockOf(r[n + 1..]).value;
      ParseTime(r) == Some(1000 * (60 * (60 * DigitsValue(r[..n]) + c.minutes) + c.seconds) + c.millis)
  {
  }

  /** The greedy digit run at the start of `r` ends at the first non-digit. */
  lemma DigitRunUpTo(r: string, k: nat)
    requires k < |r| && AllDigits(r[..k]) && !IsDigit(r[k])
    ensures DigitRun(r, 0) == k
  {
    assert forall j :: 0 <= j < k ==> IsDigit(r[j]) by {
      forall j | 0 <= j < k ensures IsDigit(r[j]) { assert r[..k][j] == r[j]; }
    }
  }

  /** `MM:SS,mmm` is read by the clock part of the pattern. */
  lemma ClockOfText(m: string, s: string, ms: string)
    requires |m| == 2 && AllDigits(m) && |s| == 2 && AllDigits(s) && |ms| == 3 && AllDigits(ms)
    ensures ClockOf(ClockText(m, s, ms)) == Some(Clock(DigitsValue(m), DigitsValue(s), DigitsValue(ms)))
  {
    var c := ClockText(m, s, ms);
    ClockTextShape(m, s, ms);
    TwoDigitsValue(m);
    TwoDigitsValue(s);
    ThreeDigitsValue(ms);
    ClockOfNine(c);
    var v := ClockOf(c).value;
    assert v.minutes == DigitsValue(m);
    assert v.seconds == DigitsValue(s);
    assert v.millis == DigitsValue(ms);
  }

  lemma ClockOfNine(c: string)
    requires |c| == 9 && c[2] == ':' && c[5] == ','
    requires IsDigit(c[0]) && IsDigit(c[1]) && IsDigit(c[3]) && IsDigit(c[4])
    requires IsDigit(c[6]) && IsDigit(c[7]) && IsDigit(c[8])
    ensures ClockOf(c) == Some(Clock(TwoDigits(c, 0), TwoDigits(c, 3), 100 * DigitValue(c[6]) + TwoDigits(c, 7)))
  {
  }

  /** Where the fields of `MM:SS,mmm` sit, and the values of their digit pairs. */
  lemma ClockTextShape(m: string, s: string, ms: string)
    requires |m| == 2 && AllDigits(m) && |s| == 2 && AllDigits(s) && |ms| == 3 && AllDigits(ms)
    ensures var c := ClockText(m, s, ms);
      && |c| == 9 && c[2] == ':' && c[5] == ','
      && IsDigit(c[0]) && IsDigit(c[1]) && IsDigit(c[3]) && IsDigit(c[4])
      && IsDigit(c[6]) && IsDigit(c[7]) && IsDigit(c[8])
      && c[6] == ms[0] && TwoDigits(c, 0) == TwoDigits(m, 0)
      && TwoDigits(c, 3) == TwoDigits(s, 0) && TwoDigits(c, 7) == TwoDigits(ms, 1)
  {
    var c := ClockText(m, s, ms);
    assert c[0] == m[0] && c[1] == m[1] && c[2] == ':';
    assert c[3] == s[0] && c[4] == s[1] && c[5] == ',';
    assert c[6] == ms[0] && c[7] == ms[1] && c[8] == ms[2];
  }

  lemma TwoDigitsValue(d: string)
    requires |d| == 2 && AllDigits(d)
    ensures DigitsValue(d) == TwoDigits(d, 0)
  {
    assert d[..1][..0] == [];
    assert DigitsValue(d[..1]) == DigitValue(d[0]);
  }

  lemma ThreeDigitsValue(d: string)
    requires |d| == 3 && AllDigits(d)
    ensures DigitsValue(d) == 100 * DigitValue(d[0]) + TwoDigits(d, 1)
  {
    assert d[..2][..1][..0] == [];
    assert DigitsValue(d[..2][..1]) == DigitValue(d[0]);
    assert DigitsValue(d[..2]) == 10 * DigitValue(d[0]) + DigitValue(d[1]);
  }

  /** Reading a time code back gives the milliseconds it was written from. */
  lemma ParseFormatTime(t: nat)
    ensures ParseTime(FormatTime(t)) == Some(t)
  {
    var a, b, c, d := t / 3600000, t / 60000 % 60, t / 1000 % 60, t % 1000;
    RecombineDigits(t, a, b, c, d);
    var h, m, s, ms := ZeroPad(a, 2), ZeroPad(b, 2), ZeroPad(c, 2), ZeroPad(d, 3);
    assert FormatTime(t) == Stamp(h, m, s, ms);
    ParseStamp(h, m, s, ms, t);
  }

  lemma RecombineDigits(t: nat, a: nat, b: nat, c: nat, d: nat)
    requires a == t / 3600000 && b == t / 60000 % 60 && c == t / 1000 % 60 && d == t % 1000
    ensures 1000 * (60 * (60 * a + b) + c) + d == t
  {
    Recombine(t);
  }
}
