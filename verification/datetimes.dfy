/** The slice of Python's `datetime` the pipeline uses: a proleptic
    Gregorian calendar instant at microsecond resolution, its position on a
    single time line, and the `%Y%m%d` rendering.
 */
module DateTimes {
  import opened Text

  const MicrosPerSecond: int := 1_000_000
  const MicrosPerHour: int := 3600 * MicrosPerSecond

  datatype DateTime = DateTime(year: int, month: int, day: int,
                               hour: int, minute: int, second: int, micro: int)
  {
    /** The range a Python `datetime` object always lies in. */
    predicate Valid() {
      && 1 <= year <= 9999
      && 1 <= month <= 12
      && 1 <= day <= DaysInMonth(year, month)
      && 0 <= hour < 24
      && 0 <= minute < 60
      && 0 <= second < 60
      && 0 <= micro < MicrosPerSecond
    }
  }

  predicate IsLeap(y: int) {
    y % 4 == 0 && (y % 100 != 0 || y % 400 == 0)
  }

  function DaysInMonth(y: int, m: int): int {
    if m == 2 then (if IsLeap(y) then 29 else 28)
    else if m == 4 || m == 6 || m == 9 || m == 11 then 30
    else 31
  }

  /** Days in the years before `y` (year 1 starts at day 0). */
  function DaysBeforeYear(y: int): int {
    var p := y - 1;
    p * 365 + p / 4 - p / 100 + p / 400
  }

  /** Days in the months of year `y` before month `m`. */
  function DaysBeforeMonth(y: int, m: int): int
    decreases m
  {
    if m <= 1 then 0 else DaysBeforeMonth(y, m - 1) + DaysInMonth(y, m - 1)
  }

  /** Microseconds since 0001-01-01T00:00: the position of `t` on one line,
      which is what comparing two datetimes compares. */
  function Micros(t: DateTime): int {
    var days := DaysBeforeYear(t.year) + DaysBeforeMonth(t.year, t.month) + t.day - 1;
    ((days * 24 + t.hour) * 60 + t.minute) * 60 * MicrosPerSecond
      + t.second * MicrosPerSecond + t.micro
  }

  /** `t.strftime("%Y%m%d")`, the year padded to four digits. */
  function FormatYmd(t: DateTime): string {
    FormatInt(t.year, 4) + FormatInt(t.month, 2) + FormatInt(t.day, 2)
  }

  /** The date text is eight digits and reads back as the date's year, month
      and day. */
  lemma FormatYmdRoundTrip(t: DateTime)
    requires t.Valid()
    ensures |FormatYmd(t)| == 8
    ensures AllDigits(FormatYmd(t))
    ensures ParseDigits(FormatYmd(t)[..4]) == t.year
    ensures ParseDigits(FormatYmd(t)[4..6]) == t.month
    ensures ParseDigits(FormatYmd(t)[6..]) == t.day
  {
    var y, m, d := ZeroPad(t.year, 4), ZeroPad(t.month, 2), ZeroPad(t.day, 2);
    DigitsWidth(t.year, 4);
    DigitsWidth(t.month, 2);
    DigitsWidth(t.day, 2);
    var s := FormatYmd(t);
    assert s == y + m + d;
    assert s[..4] == y;
    assert s[4..6] == m;
    assert s[6..] == d;
    ParseZeroPad(t.year, 4);
    ParseZeroPad(t.month, 2);
    ParseZeroPad(t.day, 2);
  }

  /** A number below 10^width has at most `width` digits. */
  lemma {:induction false} DigitsWidth(n: nat, width: nat)
    requires 1 <= width
    requires n < Pow10(width)
    ensures |Digits(n)| <= width
    decreases width
  {
    if n >= 10 {
      assert width >= 2;
      assert n / 10 < Pow10(width - 1);
      DigitsWidth(n / 10, width - 1);
    }
  }

  function Pow10(k: nat): nat {
    if k == 0 then 1 else 10 * Pow10(k - 1)
  }
}
