/** SubRip timestamps: `format_timedelta`, which writes a duration as
    `HH:MM:SS,mmm`, and `datetime.strptime(t, '%H:%M:%S,%f')` minus
    `datetime(1900, 1, 1)`, which reads one back. Durations are whole
    microseconds, the resolution of Python's `timedelta`. */
module Timecode {
  import opened Wrappers
  import opened Text

  const MicrosPerMilli: nat := 1000
  const MillisPerDay: nat := 86_400_000

  /** The four fields `format_timedelta` prints. */
  datatype Clock = Clock(hours: nat, minutes: nat, seconds: nat, millis: nat)

  /** The split of a millisecond count into hours, minutes, seconds and
      milliseconds, with `//` and `%`. The fields are in range and add up to
      the count again. */
  function ToClock(totalMs: nat): (c: Clock)
    ensures c.millis < 1000 && c.seconds < 60 && c.minutes < 60
    ensures c.hours * 3_600_000 + c.minutes * 60_000 + c.seconds * 1000 + c.millis == totalMs
  {
    var totalS := totalMs / 1000;
    var c := Clock(totalS / 3600, (totalS % 3600) / 60, totalS % 60, totalMs % 1000);
    assert totalMs == totalS * 1000 + c.millis;
    assert totalS == c.hours * 3600 + c.minutes * 60 + c.seconds;
    c
  }

  lemma MulAtLeast(k: int, d: int)
    requires k >= 1 && d > 0
    ensures k * d >= d
  {
    if k > 1 {
      MulAtLeast(k - 1, d);
      assert k * d == (k - 1) * d + d;
    }
  }

  /** Quotient and remainder are the only pair that rebuilds the dividend. */
  lemma DivModUnique(x: int, d: int, q: int, r: int)
    requires d > 0 && 0 <= r < d && x == q * d + r
    ensures x / d == q && x % d == r
  {
    var q0, r0 := x / d, x % d;
    assert (q - q0) * d == r0 - r;
    assert (q0 - q) * d == r - r0;
    if q > q0 {
      MulAtLeast(q - q0, d);
    } else if q < q0 {
      MulAtLeast(q0 - q, d);
    }
  }

  /** The fields are determined by the count: any in-range fields that add up
      to it are the ones `ToClock` gives. */
  lemma ToClockUnique(h: nat, m: nat, s: nat, ms: nat)
    requires ms < 1000 && s < 60 && m < 60
    ensures ToClock(h * 3_600_000 + m * 60_000 + s * 1000 + ms) == Clock(h, m, s, ms)
  {
    var totalS := h * 3600 + m * 60 + s;
    DivModUnique(h * 3_600_000 + m * 60_000 + s * 1000 + ms, 1000, totalS, ms);
    DivModUnique(totalS, 3600, h, m * 60 + s);
    DivModUnique(m * 60 + s, 60, m, s);
    DivModUnique(totalS, 60, h * 60 + m, s);
  }

  /** f"{n:0w}": the decimal digits of n, left-padded with zeros to w. */
  function Field(n: nat, width: nat): (r: string)
    ensures forall i :: 0 <= i < |r| ==> IsDigit(r[i])
    ensures DigitsValue(r) == n
    ensures |r| >= width
  {
    ZeroPad(Decimal(n), width)
  }

  /** `format_timedelta`: the duration is first truncated to whole
      milliseconds, then printed with at least two digits for hours, minutes
      and seconds and exactly three for the milliseconds. */
  function FormatTimedelta(us: nat): (r: string)
    ensures |r| >= 12
    ensures r[|r| - 10] == ':' && r[|r| - 7] == ':' && r[|r| - 4] == ','
  {
    var c := ToClock(us / MicrosPerMilli);
    FieldWidth(c.minutes, 2);
    FieldWidth(c.seconds, 2);
    FieldWidth(c.millis, 3);
    Field(c.hours, 2) + ":" + Field(c.minutes, 2) + ":" + Field(c.seconds, 2) + "," + Field(c.millis, 3)
  }

  /** A value below 10^width is printed with exactly width digits. */
  lemma FieldWidth(n: nat, width: nat)
    requires (width == 2 && n < 100) || (width == 3 && n < 1000)
    ensures |Field(n, width)| == width
  {
  }

  // ---------------------------------------------------------------- digits

  function Pow10(n: nat): (r: nat)
    ensures r >= 1
  {
    if n == 0 then 1 else 10 * Pow10(n - 1)
  }

  lemma {:induction false} DigitsBound(d: string)
    requires forall i :: 0 <= i < |d| ==> IsDigit(d[i])
    ensures DigitsValue(d) < Pow10(|d|)
    decreases |d|
  {
    if d != [] {
      DigitsBound(d[..|d| - 1]);
    }
  }

  /** Two digit strings of the same length with the same value are equal. */
  lemma {:induction false} DigitsInjective(a: string, b: string)
    requires |a| == |b|
    requires forall i :: 0 <= i < |a| ==> IsDigit(a[i])
    requires forall i :: 0 <= i < |b| ==> IsDigit(b[i])
    requires DigitsValue(a) == DigitsValue(b)
    ensures a == b
    decreases |a|
  {
    if a != [] {
      var n := |a| - 1;
      assert DigitValue(a[n]) == DigitsValue(a) % 10 == DigitValue(b[n]);
      assert DigitsValue(a[..n]) == DigitsValue(a) / 10 == DigitsValue(b[..n]);
      DigitsInjective(a[..n], b[..n]);
      assert a == a[..n] + [a[n]] && b == b[..n] + [b[n]];
    }
  }

  /** Printing the value of a digit string with its own width gives it back. */
  lemma FieldOfDigits(d: string)
    requires forall i :: 0 <= i < |d| ==> IsDigit(d[i])
    requires 2 <= |d| <= 3
    ensures Field(DigitsValue(d), |d|) == d
  {
    DigitsBound(d);
    assert Pow10(2) == 100 && Pow10(3) == 1000;
    FieldWidth(DigitsValue(d), |d|);
    DigitsInjective(Field(DigitsValue(d), |d|), d);
  }

  // ---------------------------------------------------------------- strptime

  /** `\d{2}:\d{2}:\d{2},\d{3}` at position i of t. */
  predicate TimecodeAt(t: string, i: nat) {
    i + 12 <= |t|
    && IsDigit(t[i]) && IsDigit(t[i + 1]) && t[i + 2] == ':'
    && IsDigit(t[i + 3]) && IsDigit(t[i + 4]) && t[i + 5] == ':'
    && IsDigit(t[i + 6]) && IsDigit(t[i + 7]) && t[i + 8] == ','
    && IsDigit(t[i + 9]) && IsDigit(t[i + 10]) && IsDigit(t[i + 11])
  }

  /** A text that starts with a timecode: what the parser passes to
      `strptime`. */
  type Stamp = t: string | TimecodeAt(t, 0) witness "00:00:00,000"

  function TwoDigits(t: string, i: nat): (v: nat)
    requires i + 2 <= |t| && IsDigit(t[i]) && IsDigit(t[i + 1])
    ensures v < 100
  {
    DigitsBound(t[i..i + 2]);
    DigitsValue(t[i..i + 2])
  }

  /** `%f`: one to six digits, padded on the right with zeros to six, read
      as microseconds. */
  function FractionMicros(frac: string): nat
    requires IsDigits(frac) && |frac| <= 6
  {
    DigitsValue(frac) * Pow10(6 - |frac|)
  }

  /** `datetime.strptime(t, '%H:%M:%S,%f') - datetime(1900, 1, 1)` in
      microseconds, for a text that starts with a timecode (the only texts
      the parser hands it). `%H` takes 00-23 and `%M` 00-59; `%S` takes up to
      61 but `datetime` refuses a second above 59; `%f` takes one to six
      digits and pads them on the right to microseconds; and nothing may
      follow them. Any other text raises `ValueError`, here `None`. */
  function Strptime(t: string): (r: Option<nat>)
    requires TimecodeAt(t, 0)
    ensures r.Some? <==> TwoDigits(t, 0) <= 23 && TwoDigits(t, 3) <= 59 && TwoDigits(t, 6) <= 59
                         && |t| <= 15 && IsDigits(t[9..])
  {
    var h := TwoDigits(t, 0);
    var m := TwoDigits(t, 3);
    var s := TwoDigits(t, 6);
    var frac := t[9..];
    if h <= 23 && m <= 59 && s <= 59 && |frac| <= 6 && IsDigits(frac) then
      Some(((h * 60 + m) * 60 + s) * 1_000_000 + FractionMicros(frac))
    else None
  }

  /** A parsed timestamp lies within the first day. */
  lemma StrptimeBound(t: string)
    requires TimecodeAt(t, 0) && Strptime(t).Some?
    ensures Strptime(t).value < MillisPerDay * MicrosPerMilli
  {
    var frac := t[9..];
    DigitsBound(frac);
    assert FractionMicros(frac) < 1_000_000 by {
      assert Pow10(|frac|) * Pow10(6 - |frac|) == 1_000_000 by {
        var k := |frac|;
        assert 3 <= k <= 6;
        if k == 3 { } else if k == 4 { } else if k == 5 { } else { }
      }
    }
  }

  /** The shape of a printed duration shorter than a day: three two-digit
      fields and a three-digit one. */
  lemma FormatWithinDay(us: nat)
    requires us < MillisPerDay * MicrosPerMilli
    ensures var t := FormatTimedelta(us);
            var c := ToClock(us / MicrosPerMilli);
            |t| == 12 && TimecodeAt(t, 0)
            && t[0..2] == Field(c.hours, 2) && t[3..5] == Field(c.minutes, 2)
            && t[6..8] == Field(c.seconds, 2) && t[9..] == Field(c.millis, 3)
  {
    var c := ToClock(us / MicrosPerMilli);
    assert c.hours < 24;
    var a, b, d, e := Field(c.hours, 2), Field(c.minutes, 2), Field(c.seconds, 2), Field(c.millis, 3);
    assert |a| == 2 && |b| == 2 && |d| == 2 && |e| == 3;
    var t := a + ":" + b + ":" + d + "," + e;
    assert t == FormatTimedelta(us);
    assert t[0..2] == a && t[3..5] == b && t[6..8] == d && t[9..] == e;
  }

  /** Reading back a printed duration shorter than a day gives it truncated
      to whole milliseconds. */
  lemma StrptimeOfFormat(us: nat)
    requires us < MillisPerDay * MicrosPerMilli
    ensures TimecodeAt(FormatTimedelta(us), 0)
    ensures Strptime(FormatTimedelta(us)) == Some(us / MicrosPerMilli * MicrosPerMilli)
  {
    var t := FormatTimedelta(us);
    var c := ToClock(us / MicrosPerMilli);
    FormatFields(us, t, c);
    StrptimeOfTwelve(t);
  }

  /** The fields of a printed duration shorter than a day read back as the
      clock fields it was printed from. */
  lemma FormatFields(us: nat, t: string, c: Clock)
    requires us < MillisPerDay * MicrosPerMilli
    requires t == FormatTimedelta(us) && c == ToClock(us / MicrosPerMilli)
    ensures TimecodeAt(t, 0) && |t| == 12 && IsDigits(t[9..]) && c.hours <= 23
    ensures TwoDigits(t, 0) == c.hours && TwoDigits(t, 3) == c.minutes && TwoDigits(t, 6) == c.seconds
    ensures DigitsValue(t[9..]) == c.millis
  {
    FormatWithinDay(us);
    assert c.hours <= 23;
  }

  /** The value of a twelve-character timecode: its fields in milliseconds,
      times a thousand. */
  lemma StrptimeOfTwelve(t: string)
    requires TimecodeAt(t, 0) && |t| == 12 && Strptime(t).Some?
    ensures Strptime(t).value
         == (TwoDigits(t, 0) * 3_600_000 + TwoDigits(t, 3) * 60_000 + TwoDigits(t, 6) * 1000 + DigitsValue(t[9..])) * 1000
  {
    assert FractionMicros(t[9..]) == DigitsValue(t[9..]) * 1000 by {
      assert Pow10(6 - |t[9..]|) == 1000;
    }
  }

  /** The text printed for a count of whole milliseconds with in-range fields. */
  lemma FormatOfMillis(us: nat, h: nat, m: nat, s: nat, f: nat)
    requires f < 1000 && s < 60 && m < 60
    requires us == (h * 3_600_000 + m * 60_000 + s * 1000 + f) * 1000
    ensures FormatTimedelta(us) == Field(h, 2) + ":" + Field(m, 2) + ":" + Field(s, 2) + "," + Field(f, 3)
  {
    var ms := h * 3_600_000 + m * 60_000 + s * 1000 + f;
    DivModUnique(us, 1000, ms, 0);
    ToClockUnique(h, m, s, f);
  }

  /** A twelve-character timecode is its four fields printed back with
      their separators. */
  lemma FieldsOfTimecode(t: string)
    requires TimecodeAt(t, 0) && |t| == 12
    ensures DigitsValue(t[9..]) < 1000
    ensures t == Field(TwoDigits(t, 0), 2) + ":" + Field(TwoDigits(t, 3), 2) + ":"
               + Field(TwoDigits(t, 6), 2) + "," + Field(DigitsValue(t[9..]), 3)
  {
    DigitsBound(t[9..]);
    assert Pow10(3) == 1000;
    FieldOfDigits(t[0..2]);
    FieldOfDigits(t[3..5]);
    FieldOfDigits(t[6..8]);
    FieldOfDigits(t[9..]);
    assert t == t[0..2] + ":" + t[3..5] + ":" + t[6..8] + "," + t[9..];
  }

  /** Printing a parsed timecode with exactly three fraction digits gives the
      timecode back, character for character. */
  lemma FormatOfStrptime(t: string)
    requires TimecodeAt(t, 0) && |t| == 12 && Strptime(t).Some?
    ensures FormatTimedelta(Strptime(t).value) == t
  {
    var h, m, s := TwoDigits(t, 0), TwoDigits(t, 3), TwoDigits(t, 6);
    var f := DigitsValue(t[9..]);
    FieldsOfTimecode(t);
    StrptimeOfTwelve(t);
    FormatOfMillis(Strptime(t).value, h, m, s, f);
  }
}
