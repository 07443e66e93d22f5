/** `pad` and `timestamp` (wl.js:114-128). The clock reading `new Date()`
    is a parameter: the fields its getters return. */
module Clock {

  predicate IsDigit(c: char) {
    '0' <= c <= '9'
  }

  predicate AllDigits(s: string) {
    forall i :: 0 <= i < |s| ==> IsDigit(s[i])
  }

  function DigitChar(d: nat): (c: char)
    requires d < 10
    ensures IsDigit(c) && c as int - '0' as int == d
  {
    ('0' as int + d) as char
  }

  /** `Number.prototype.toString()` for a non-negative integer. */
  function DecimalString(n: nat): (r: string)
    ensures 1 <= |r| && AllDigits(r)
    ensures |r| == 1 <==> n < 10
    ensures r[0] == '0' <==> n == 0
  {
    if n < 10 then [DigitChar(n)] else DecimalString(n / 10) + [DigitChar(n % 10)]
  }

  /** The number a string of decimal digits denotes, leading zeros allowed. */
  function DecimalValue(s: string): nat
    requires AllDigits(s)
  {
    if s == [] then 0 else 10 * DecimalValue(s[..|s| - 1]) + (s[|s| - 1] as int - '0' as int)
  }

  lemma {:induction false} DecimalRoundTrip(n: nat)
    ensures DecimalValue(DecimalString(n)) == n
  {
    if n >= 10 {
      DecimalRoundTrip(n / 10);
      var s := DecimalString(n);
      assert s[..|s| - 1] == DecimalString(n / 10);
    }
  }

  lemma {:induction false} LeadingZero(s: string)
    requires AllDigits(s)
    ensures AllDigits("0" + s) && DecimalValue("0" + s) == DecimalValue(s)
  {
    if s != [] {
      LeadingZero(s[..|s| - 1]);
      assert ("0" + s)[..|s|] == "0" + s[..|s| - 1];
    }
  }

  /** `pad(n)`: one-digit numbers get a leading zero, others are printed as is. */
  function Pad(n: nat): (r: string)
    ensures AllDigits(r) && |r| >= 2
  {
    var s := DecimalString(n);
    if |s| == 1 then "0" + s else s
  }

  /** Every number below 100 pads to exactly two digits that read back as
      the number; from 10 on, padding changes nothing. */
  lemma {:induction false} PadTwoDigits(n: nat)
    ensures n < 100 ==> |Pad(n)| == 2
    ensures DecimalValue(Pad(n)) == n
    ensures n >= 10 ==> Pad(n) == DecimalString(n)
  {
    DecimalRoundTrip(n);
    if n < 10 {
      LeadingZero(DecimalString(n));
    } else if n < 100 {
      assert DecimalString(n) == DecimalString(n / 10) + [DigitChar(n % 10)];
    }
  }

  /** The fields of a `Date` as its getters return them; `month` is
      `getMonth()`, counted from 0. */
  datatype Moment = Moment(year: nat, month: nat, date: nat, hours: nat, minutes: nat, seconds: nat)

  /** `timestamp()`: "YYYY-MM-DD HH:MM:SS" for a four-digit year; the
      source joins the eleven parts in one go, grouped here as date, space
      and time. */
  function Timestamp(m: Moment): (r: string)
    ensures |r| >= 16
  {
    DatePart(m) + " " + TimePart(m)
  }

  function DatePart(m: Moment): string {
    DecimalString(m.year) + "-" + Pad(m.month + 1) + "-" + Pad(m.date)
  }

  function TimePart(m: Moment): string {
    Pad(m.hours) + ":" + Pad(m.minutes) + ":" + Pad(m.seconds)
  }

  predicate ValidMoment(m: Moment) {
    1000 <= m.year <= 9999 && m.month < 12 && 1 <= m.date <= 31 &&
    m.hours < 24 && m.minutes < 60 && m.seconds < 60
  }

  lemma {:induction false} FourDigits(n: nat)
    requires 1000 <= n <= 9999
    ensures |DecimalString(n)| == 4
  {
    assert |DecimalString(n / 10 / 10)| == 2;
  }

  /** Three pieces joined by two one-character separators. */
  lemma Joined3(a: string, s1: char, b: string, s2: char, c: string)
    ensures var t := a + [s1] + b + [s2] + c;
            && |t| == |a| + |b| + |c| + 2
            && t[..|a|] == a && t[|a|] == s1
            && t[|a| + 1..|a| + 1 + |b|] == b && t[|a| + 1 + |b|] == s2
            && t[|a| + 2 + |b|..] == c
  {
    var t := a + [s1] + b + [s2] + c;
    assert t[|a| + 1..|a| + 1 + |b|] == b by {
      forall k | 0 <= k < |b| ensures t[|a| + 1 + k] == b[k] { }
    }
    assert t[|a| + 2 + |b|..] == c;
  }

  /** The pieces of a timestamp sit at fixed offsets. */
  lemma DateLayout(m: Moment)
    requires ValidMoment(m)
    ensures var d := DatePart(m);
            && |d| == 10 && d[4] == '-' && d[7] == '-'
            && d[..4] == DecimalString(m.year) && d[5..7] == Pad(m.month + 1) && d[8..] == Pad(m.date)
  {
    FourDigits(m.year);
    PadTwoDigits(m.month + 1);
    PadTwoDigits(m.date);
    Joined3(DecimalString(m.year), '-', Pad(m.month + 1), '-', Pad(m.date));
  }

  lemma TimeLayout(m: Moment)
    requires ValidMoment(m)
    ensures var t := TimePart(m);
            && |t| == 8 && t[2] == ':' && t[5] == ':'
            && t[..2] == Pad(m.hours) && t[3..5] == Pad(m.minutes) && t[6..] == Pad(m.seconds)
  {
    PadTwoDigits(m.hours);
    PadTwoDigits(m.minutes);
    PadTwoDigits(m.seconds);
    Joined3(Pad(m.hours), ':', Pad(m.minutes), ':', Pad(m.seconds));
  }

  lemma {:induction false} TimestampPieces(m: Moment)
    requires ValidMoment(m)
    ensures var t := Timestamp(m);
            && |t| == 19
            && t[4] == '-' && t[7] == '-' && t[10] == ' ' && t[13] == ':' && t[16] == ':'
            && t[..4] == DecimalString(m.year) && t[5..7] == Pad(m.month + 1)
            && t[8..10] == Pad(m.date) && t[11..13] == Pad(m.hours)
            && t[14..16] == Pad(m.minutes) && t[17..19] == Pad(m.seconds)
  {
    var date, time, t := DatePart(m), TimePart(m), Timestamp(m);
    DateLayout(m);
    TimeLayout(m);
    assert t[..10] == date && t[10] == ' ' && t[11..] == time by {
      assert t == date + [' '] + time;
    }
    assert t[..4] == date[..4] && t[5..7] == date[5..7] && t[8..10] == date[8..] by {
      assert t[..10] == date;
    }
    assert t[11..13] == time[..2] && t[14..16] == time[3..5] && t[17..19] == time[6..] by {
      assert t[11..] == time;
    }
  }

  /** For a four-digit year the timestamp is 19 characters with its
      separators at fixed places, and every field reads back. */
  lemma {:induction false} TimestampLayout(m: Moment)
    requires ValidMoment(m)
    ensures var t := Timestamp(m);
            && |t| == 19
            && t[4] == '-' && t[7] == '-' && t[10] == ' ' && t[13] == ':' && t[16] == ':'
            && AllDigits(t[..4]) && DecimalValue(t[..4]) == m.year
            && AllDigits(t[5..7]) && DecimalValue(t[5..7]) == m.month + 1
            && AllDigits(t[8..10]) && DecimalValue(t[8..10]) == m.date
            && AllDigits(t[11..13]) && DecimalValue(t[11..13]) == m.hours
            && AllDigits(t[14..16]) && DecimalValue(t[14..16]) == m.minutes
            && AllDigits(t[17..19]) && DecimalValue(t[17..19]) == m.seconds
  {
    TimestampPieces(m);
    DecimalRoundTrip(m.year);
    PadTwoDigits(m.month + 1);
    PadTwoDigits(m.date);
    PadTwoDigits(m.hours);
    PadTwoDigits(m.minutes);
    PadTwoDigits(m.seconds);
  }
}
