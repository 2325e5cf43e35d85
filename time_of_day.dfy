/**
 * The java.time behaviour the results code relies on: a LocalTime is the
 * nanosecond of the day; LocalTime.parse reads ISO local times; the two
 * DateTimeFormatter patterns of LSM ("mm:ss.S" and "HH'h'mm") print them.
 */
module TimeOfDay {

  import opened Wrappers
  import opened JavaText

  const NanosPerSecond: int := 1_000_000_000
  const NanosPerMinute: int := 60 * NanosPerSecond
  const NanosPerHour: int := 60 * NanosPerMinute
  const NanosPerDay: int := 24 * NanosPerHour

  /** A LocalTime, as its nanosecond of the day. */
  type Time = t: int | 0 <= t < NanosPerDay

  /** LocalTime.MIN, 00:00. */
  const Midnight: Time := 0

  /** Euclidean division is determined by a quotient and a remainder in range. */
  lemma DivModUnique(x: int, d: int, q: int, r: int)
    requires d > 0 && 0 <= r < d && x == q * d + r
    ensures x / d == q && x % d == r
  {
    var q', r' := x / d, x % d;
    assert (q - q') * d == r' - r;
    if q > q' {
      MulAtLeast(q - q', d);
    } else if q < q' {
      MulAtLeast(q' - q, d);
    }
  }

  lemma MulAtLeast(a: int, d: int)
    requires a >= 1 && d > 0
    ensures a * d >= d
  {
    assert a * d == d + (a - 1) * d;
  }

  function Hour(t: Time): (h: nat)
    ensures h < 24
  {
    t / NanosPerHour
  }

  function Minute(t: Time): (m: nat)
    ensures m < 60
  {
    t / NanosPerMinute % 60
  }

  function Second(t: Time): (s: nat)
    ensures s < 60
  {
    t / NanosPerSecond % 60
  }

  function NanoOfSecond(t: Time): (n: nat)
    ensures n < NanosPerSecond
  {
    t % NanosPerSecond
  }

  /** LocalTime.of(hour, minute, second, nano). */
  function Of(h: nat, m: nat, s: nat, n: nat): (t: Time)
    requires h < 24 && m < 60 && s < 60 && n < NanosPerSecond
    ensures Hour(t) == h && Minute(t) == m && Second(t) == s && NanoOfSecond(t) == n
  {
    var t := h * NanosPerHour + m * NanosPerMinute + s * NanosPerSecond + n;
    DivModUnique(t, NanosPerHour, h, m * NanosPerMinute + s * NanosPerSecond + n);
    DivModUnique(t, NanosPerMinute, h * 60 + m, s * NanosPerSecond + n);
    DivModUnique(h * 60 + m, 60, h, m);
    DivModUnique(t, NanosPerSecond, (h * 60 + m) * 60 + s, n);
    DivModUnique((h * 60 + m) * 60 + s, 60, h * 60 + m, s);
    t
  }

  /** A time is made of its fields. */
  lemma OfFields(t: Time)
    ensures Of(Hour(t), Minute(t), Second(t), NanoOfSecond(t)) == t
  {
    var seconds := t / NanosPerSecond;
    var minutes := seconds / 60;
    assert t == seconds * NanosPerSecond + NanoOfSecond(t);
    assert seconds == minutes * 60 + Second(t);
    DivModUnique(t, NanosPerMinute, minutes, Second(t) * NanosPerSecond + NanoOfSecond(t));
    assert minutes == Hour(t) * 60 + Minute(t) by {
      DivModUnique(t, NanosPerHour, minutes / 60, Minute(t) * NanosPerMinute + Second(t) * NanosPerSecond + NanoOfSecond(t));
    }
  }

  /** LocalTime.plus(Duration): the time moved by d nanoseconds, wrapping around midnight. */
  function Plus(t: Time, d: int): (r: Time)
    ensures (r - t - d) % NanosPerDay == 0
  {
    (t + d) % NanosPerDay
  }

  /** A move that stays within the day does not wrap. */
  lemma PlusWithinDay(t: Time, d: int)
    requires 0 <= t + d < NanosPerDay
    ensures Plus(t, d) == t + d
  {
    DivModUnique(t + d, NanosPerDay, 0, t + d);
  }

  /** LocalTime.plusHours(1): the next hour, same minute, second and nanosecond. */
  function PlusOneHour(t: Time): (r: Time)
    ensures Hour(r) == (Hour(t) + 1) % 24
    ensures Minute(r) == Minute(t) && Second(r) == Second(t) && NanoOfSecond(r) == NanoOfSecond(t)
  {
    NextHour(t);
    Plus(t, NanosPerHour)
  }

  lemma NextHour(t: Time)
    ensures Plus(t, NanosPerHour)
         == Of((Hour(t) + 1) % 24, Minute(t), Second(t), NanoOfSecond(t))
  {
    OfFields(t);
    var h, m, s, n := Hour(t), Minute(t), Second(t), NanoOfSecond(t);
    var u := Of((h + 1) % 24, m, s, n);
    if h < 23 {
      DivModUnique(t + NanosPerHour, NanosPerDay, 0, u);
    } else {
      DivModUnique(t + NanosPerHour, NanosPerDay, 1, u);
    }
    assert Plus(t, NanosPerHour) == (t + NanosPerHour) % NanosPerDay == u;
  }

  /** LocalTime.withMinute(m): only the minute replaced. */
  function WithMinute(t: Time, m: nat): (r: Time)
    requires m < 60
    ensures Hour(r) == Hour(t) && Minute(r) == m && Second(r) == Second(t)
    ensures NanoOfSecond(r) == NanoOfSecond(t)
  {
    OfFields(t);
    Of(Hour(t), m, Second(t), NanoOfSecond(t))
  }

  /** A two-digit field, zero-padded. */
  function TwoDigits(n: nat): (r: string)
    requires n < 100
    ensures |r| == 2 && IsAsciiDigit(r[0]) && IsAsciiDigit(r[1])
    ensures 10 * DigitValue(r[0]) + DigitValue(r[1]) == n
  {
    [DigitChar(n / 10), DigitChar(n % 10)]
  }

  /** The value of the two digits at i and i + 1. */
  function TwoDigitValue(s: string, i: nat): nat
    requires i + 1 < |s| && IsAsciiDigit(s[i]) && IsAsciiDigit(s[i + 1])
  {
    10 * DigitValue(s[i]) + DigitValue(s[i + 1])
  }

  /** "HH:mm", the fixed start of every ISO local time. */
  predicate HourMinuteShape(s: string)
  {
    |s| >= 5 && IsAsciiDigit(s[0]) && IsAsciiDigit(s[1]) && s[2] == ':'
    && IsAsciiDigit(s[3]) && IsAsciiDigit(s[4])
  }

  /** ":ss" after the minutes. */
  predicate SecondShape(s: string)
  {
    |s| >= 8 && s[5] == ':' && IsAsciiDigit(s[6]) && IsAsciiDigit(s[7])
  }

  /** "." and up to nine digits of fraction after the seconds. */
  predicate FractionShape(s: string)
  {
    9 <= |s| <= 18 && s[8] == '.' && AllAsciiDigits(s[9..])
  }

  /**
   * LocalTime.parse with ISO_LOCAL_TIME: "HH:mm", optionally ":ss",
   * optionally "." and a fraction of zero to nine digits; hour, minute and second
   * within range; anything else is a DateTimeParseException.
   */
  function ParseIso(s: string): (r: Result<Time, Error>)
    ensures r.Failure? ==> r.error == DateTimeParse
    ensures r.Success? ==>
              HourMinuteShape(s) && Hour(r.value) == TwoDigitValue(s, 0) && Minute(r.value) == TwoDigitValue(s, 3)
    ensures r.Success? ==>
              (|s| == 5 && Second(r.value) == 0 && NanoOfSecond(r.value) == 0)
              || (SecondShape(s) && Second(r.value) == TwoDigitValue(s, 6))
    ensures r.Success? ==> |s| == 5 || |s| == 8 || FractionShape(s)
    ensures r.Success? && |s| == 8 ==> NanoOfSecond(r.value) == 0
    ensures r.Success? && |s| > 8 ==> NanoOfSecond(r.value) == FractionNanos(s[9..])
  {
    if !(|s| == 5 || |s| == 8 || 9 <= |s| <= 18) || !HourMinuteShape(s) then Failure(DateTimeParse)
    else if |s| > 5 && !SecondShape(s) then Failure(DateTimeParse)
    else if |s| > 8 && !FractionShape(s) then Failure(DateTimeParse)
    else
      var h := TwoDigitValue(s, 0);
      var m := TwoDigitValue(s, 3);
      var sec := if |s| > 5 then TwoDigitValue(s, 6) else 0;
      var nano := if |s| > 8 then FractionNanos(s[9..]) else 0;
      if h < 24 && m < 60 && sec < 60 then Success(Of(h, m, sec, nano)) else Failure(DateTimeParse)
  }

  /**
   * The fraction digits read as nanoseconds: padded with zeros to nine
   * places, then read in base 10; no digits is zero.
   */
  function FractionNanos(digits: string): (n: nat)
    requires |digits| <= 9 && AllAsciiDigits(digits)
    ensures n < NanosPerSecond
  {
    var padded := digits + Zeros(9 - |digits|);
    DigitsValueBound(padded);
    assert Pow10(9) == NanosPerSecond;
    DigitsValue(padded)
  }

  /** k zero digits. */
  function Zeros(k: nat): (z: string)
    ensures |z| == k && AllAsciiDigits(z)
  {
    seq(k, _ => '0')
  }

  /** Zero digits are worth zero, however many. */
  lemma {:induction false} DigitsValueZeros(k: nat)
    ensures DigitsValue(Zeros(k)) == 0
  {
    if k > 0 {
      assert Zeros(k)[..k - 1] == Zeros(k - 1);
      DigitsValueZeros(k - 1);
    }
  }

  /** Reading "HH:mm:ss" gives that time, the form CrewTimer exports. */
  lemma ParseIsoSeconds(h: nat, m: nat, sec: nat)
    requires h < 24 && m < 60 && sec < 60
    ensures ParseIso(TwoDigits(h) + ":" + TwoDigits(m) + ":" + TwoDigits(sec)) == Success(Of(h, m, sec, 0))
  {
  }

  /** Reading "HH:mm" gives that time at second 0. */
  lemma ParseIsoMinutes(h: nat, m: nat)
    requires h < 24 && m < 60
    ensures ParseIso(TwoDigits(h) + ":" + TwoDigits(m)) == Success(Of(h, m, 0, 0))
  {
  }

  /** A decimal point with no digits after it is a fraction of zero. */
  lemma ParseIsoEmptyFraction(h: nat, m: nat, sec: nat)
    requires h < 24 && m < 60 && sec < 60
    ensures ParseIso(TwoDigits(h) + ":" + TwoDigits(m) + ":" + TwoDigits(sec) + ".") == Success(Of(h, m, sec, 0))
  {
    DigitsValueZeros(9);
    assert "" + Zeros(9) == Zeros(9);
  }

  /** "HH:mm:ss." and up to nine digits reads as that time, the digits giving the nanoseconds. */
  lemma ParseIsoFraction(h: nat, m: nat, sec: nat, digits: string)
    requires h < 24 && m < 60 && sec < 60
    requires |digits| <= 9 && AllAsciiDigits(digits)
    ensures ParseIso(TwoDigits(h) + ":" + TwoDigits(m) + ":" + TwoDigits(sec) + "." + digits)
         == Success(Of(h, m, sec, FractionNanos(digits)))
  {
    var s := TwoDigits(h) + ":" + TwoDigits(m) + ":" + TwoDigits(sec) + "." + digits;
    assert s[9..] == digits;
  }

  /** An hour of 24 is out of range. */
  lemma ParseIsoRejectsHour24()
    ensures ParseIso("24:00") == Failure(DateTimeParse)
  {
  }

  /**
   * The "mm:ss.S" pattern: minute of the hour, second, and the tenth of a
   * second truncated; the hour is not printed.
   */
  function FormatDelta(t: Time): (r: string)
    ensures |r| == 7 && r[2] == ':' && r[5] == '.'
    ensures IsAsciiDigit(r[0]) && IsAsciiDigit(r[1]) && IsAsciiDigit(r[3]) && IsAsciiDigit(r[4])
    ensures TwoDigitValue(r, 0) == Minute(t) && TwoDigitValue(r, 3) == Second(t)
    ensures DigitValue(r[6]) == NanoOfSecond(t) / 100_000_000
  {
    TwoDigits(Minute(t)) + ":" + TwoDigits(Second(t)) + "." + [DigitChar(NanoOfSecond(t) / 100_000_000)]
  }

  /** s, in the "mm:ss.S" shape, reads back the minutes and seconds of the duration d (nanoseconds). */
  predicate ShowsMinutesSeconds(s: string, d: int)
  {
    && |s| == 7 && s[2] == ':' && s[5] == '.'
    && IsAsciiDigit(s[0]) && IsAsciiDigit(s[1]) && IsAsciiDigit(s[3]) && IsAsciiDigit(s[4])
    && TwoDigitValue(s, 0) == d / NanosPerMinute % 60
    && TwoDigitValue(s, 3) == d / NanosPerSecond % 60
  }

  /** A whole hour more or less does not change a printed delta. */
  lemma FormatDeltaDropsHours(t: Time)
    ensures FormatDelta(PlusOneHour(t)) == FormatDelta(t)
  {
  }

  /** s, in the "HH'h'mm" shape, reads back a clock time given as minutes since midnight. */
  predicate ShowsClock(s: string, minuteOfDay: int)
  {
    && |s| == 5 && s[2] == 'h'
    && IsAsciiDigit(s[0]) && IsAsciiDigit(s[1]) && IsAsciiDigit(s[3]) && IsAsciiDigit(s[4])
    && TwoDigitValue(s, 0) * 60 + TwoDigitValue(s, 3) == minuteOfDay
  }

  /** The "HH'h'mm" pattern: hour of the day, "h", minute. */
  function FormatRaceTime(t: Time): (r: string)
    ensures |r| == 5 && r[2] == 'h'
    ensures IsAsciiDigit(r[0]) && IsAsciiDigit(r[1]) && IsAsciiDigit(r[3]) && IsAsciiDigit(r[4])
    ensures TwoDigitValue(r, 0) == Hour(t) && TwoDigitValue(r, 3) == Minute(t)
  {
    TwoDigits(Hour(t)) + "h" + TwoDigits(Minute(t))
  }
}
