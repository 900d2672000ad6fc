/** Timestamps as the pipeline uses them: timezone-naive instants, their calendar date,
    their `'%H:%M'` text and day arithmetic. */
module Clock {

  /** The time of day of an instant, in whole seconds after midnight. */
  type TimeOfDay = s: int | 0 <= s < 86400

  /** A timezone-naive pandas Timestamp: a day number and the second within that day. */
  datatype Instant = Instant(day: int, second: TimeOfDay)

  /** Timestamp comparison `a <= b`. */
  predicate NotAfter(a: Instant, b: Instant)
  {
    a.day < b.day || (a.day == b.day && a.second <= b.second)
  }

  /** Python's `max(a, b)`: `a` unless `b > a`. */
  function Later(a: Instant, b: Instant): (r: Instant)
    ensures r == a || r == b
    ensures NotAfter(a, r) && NotAfter(b, r)
  {
    if NotAfter(b, a) then a else b
  }

  /** Python's `min(a, b)`: `a` unless `b < a`. */
  function Earlier(a: Instant, b: Instant): (r: Instant)
    ensures r == a || r == b
    ensures NotAfter(r, a) && NotAfter(r, b)
  {
    if NotAfter(a, b) then a else b
  }

  /** `t - timedelta(days=n)`: the same time of day, `n` days earlier. */
  function DaysBefore(t: Instant, n: int): Instant
  {
    Instant(t.day - n, t.second)
  }

  /** `pd.to_datetime(t.strftime('%Y-%m-%d'))`, and equally `pd.to_datetime(t.date())`:
      midnight at the start of the calendar date of `t`. */
  function Midnight(t: Instant): Instant
  {
    Instant(t.day, 0)
  }

  /** Truncating to the date keeps exactly the calendar date: two instants share a
      truncated value if and only if they fall on the same day, whatever their times. */
  lemma MidnightIsDate(a: Instant, b: Instant)
    ensures Midnight(a) == Midnight(b) <==> a.day == b.day
    ensures NotAfter(Midnight(a), a)
  {
  }

  /** Truncating to the date commutes with `max` and `min`: the date of the later instant
      is the later of the two dates, and the same for the earlier. */
  lemma DateOfLaterEarlier(a: Instant, b: Instant)
    ensures Midnight(Later(a, b)).day == if a.day < b.day then b.day else a.day
    ensures Midnight(Earlier(a, b)).day == if a.day < b.day then a.day else b.day
  {
  }

  function Digit(n: int): (c: char)
    requires 0 <= n < 10
    ensures '0' <= c <= '9'
  {
    ('0' as int + n) as char
  }

  /** `'%02d' % n`: two decimal digits with a leading zero. */
  function TwoDigits(n: int): (s: string)
    requires 0 <= n < 100
    ensures |s| == 2
  {
    [Digit(n / 10), Digit(n % 10)]
  }

  lemma TwoDigitsInjective(n: int, m: int)
    requires 0 <= n < 100 && 0 <= m < 100
    ensures TwoDigits(n) == TwoDigits(m) <==> n == m
  {
    if TwoDigits(n) == TwoDigits(m) {
      assert Digit(n / 10) == Digit(m / 10) && Digit(n % 10) == Digit(m % 10);
      assert n == 10 * (n / 10) + n % 10;
      assert m == 10 * (m / 10) + m % 10;
    }
  }

  function Hour(t: Instant): int
  {
    t.second / 3600
  }

  function Minute(t: Instant): int
  {
    t.second % 3600 / 60
  }

  /** `t.strftime('%H:%M')`: hour and minute, two digits each, seconds dropped. */
  function HourMinute(t: Instant): (s: string)
    ensures |s| == 5 && s[2] == ':'
  {
    TwoDigits(Hour(t)) + ":" + TwoDigits(Minute(t))
  }

  /** The text identifies the minute of the day and nothing finer: two instants get the
      same `'%H:%M'` text exactly when they fall in the same minute of the day. */
  lemma HourMinuteIsMinuteOfDay(a: Instant, b: Instant)
    ensures HourMinute(a) == HourMinute(b) <==> a.second / 60 == b.second / 60
  {
    var sa, sb := HourMinute(a), HourMinute(b);
    MinuteOfDay(a.second);
    MinuteOfDay(b.second);
    if sa == sb {
      assert sa[..2] == TwoDigits(Hour(a)) && sb[..2] == TwoDigits(Hour(b));
      assert sa[3..] == TwoDigits(Minute(a)) && sb[3..] == TwoDigits(Minute(b));
      TwoDigitsInjective(Hour(a), Hour(b));
      TwoDigitsInjective(Minute(a), Minute(b));
    }
  }

  lemma MinuteOfDay(s: TimeOfDay)
    ensures s / 60 == (s / 3600) * 60 + s % 3600 / 60
    ensures 0 <= s / 3600 < 24 && 0 <= s % 3600 / 60 < 60
  {
  }
}
