/** The `Last Scrape` timestamp: the `"%Y-%m-%d %H:%M"` format written with
    `strftime` and read back with `strptime`, and the `datetime` arithmetic
    that compares two instants. */
module Timestamps {
  import opened Records
  import opened Decimal

  /** A `datetime`: the calendar fields, then seconds and microseconds. */
  datatype DateTime = DateTime(year: int, month: int, day: int,
                               hour: int, minute: int, second: int, micro: int)

  predicate IsLeap(y: int) {
    y % 4 == 0 && (y % 100 != 0 || y % 400 == 0)
  }

  function DaysInMonth(y: int, m: int): (n: int)
    requires 1 <= m <= 12
    ensures 28 <= n <= 31
  {
    if m == 2 then (if IsLeap(y) then 29 else 28)
    else if m == 4 || m == 6 || m == 9 || m == 11 then 30
    else 31
  }

  function DaysBeforeMonth(y: int, m: int): int
    requires 1 <= m <= 12
  {
    if m == 1 then 0 else DaysBeforeMonth(y, m - 1) + DaysInMonth(y, m - 1)
  }

  function DaysBeforeYear(y: int): int {
    var p := y - 1;
    p * 365 + p / 4 - p / 100 + p / 400
  }

  /** What `datetime` accepts: years 1 to 9999 and in-range fields. */
  predicate Valid(t: DateTime) {
    1 <= t.year <= 9999 && 1 <= t.month <= 12 && 1 <= t.day <= DaysInMonth(t.year, t.month) &&
    0 <= t.hour < 24 && 0 <= t.minute < 60 && 0 <= t.second < 60 && 0 <= t.micro < 1000000
  }

  /** Proleptic Gregorian day number; 0001-01-01 is day 1. */
  function Ordinal(t: DateTime): int
    requires 1 <= t.month <= 12
  {
    DaysBeforeYear(t.year) + DaysBeforeMonth(t.year, t.month) + t.day
  }

  const MicrosPerSecond := 1000000
  const MicrosPerMinute := 60 * MicrosPerSecond
  const MicrosPerHour := 60 * MicrosPerMinute

  /** The instant `t` in microseconds, so that `a - b >= timedelta(hours=k)`
      reads `Micros(a) - Micros(b) >= k * MicrosPerHour`. */
  function Micros(t: DateTime): int
    requires 1 <= t.month <= 12
  {
    ((Ordinal(t) * 24 + t.hour) * 60 + t.minute) * MicrosPerMinute + t.second * MicrosPerSecond + t.micro
  }

  /** The instant the minute-precision stamp of `t` denotes. */
  function Truncate(t: DateTime): DateTime {
    t.(second := 0, micro := 0)
  }

  /** `t.strftime("%Y-%m-%d %H:%M")`. */
  function FormatStamp(t: DateTime): (r: string)
    requires Valid(t)
    ensures |r| == 16 && r[4] == '-' && r[7] == '-' && r[10] == ' ' && r[13] == ':'
    ensures AllDigits(r[0..4]) && AllDigits(r[5..7]) && AllDigits(r[8..10]) &&
            AllDigits(r[11..13]) && AllDigits(r[14..16])
    ensures Value(r[0..4]) == t.year && Value(r[5..7]) == t.month && Value(r[8..10]) == t.day &&
            Value(r[11..13]) == t.hour && Value(r[14..16]) == t.minute
  {
    assert Pow10(2) == 100 && Pow10(4) == 10000;
    PaddedRoundTrip(t.year, 4);
    PaddedRoundTrip(t.month, 2);
    PaddedRoundTrip(t.day, 2);
    PaddedRoundTrip(t.hour, 2);
    PaddedRoundTrip(t.minute, 2);
    StampLayout(Padded(t.year, 4), Padded(t.month, 2), Padded(t.day, 2), Padded(t.hour, 2), Padded(t.minute, 2));
    Padded(t.year, 4) + "-" + Padded(t.month, 2) + "-" + Padded(t.day, 2) + " " +
    Padded(t.hour, 2) + ":" + Padded(t.minute, 2)
  }

  /** `datetime.strptime(s, "%Y-%m-%d %H:%M")` for zero-padded fields;
      `None` stands for the `ValueError` it raises. */
  function ParseStamp(s: string): (r: Option<DateTime>)
    ensures r.Some? ==> Valid(r.value) && r.value == Truncate(r.value)
    ensures r.Some? ==> |s| == 16
    ensures r.Some? ==> FormatStamp(r.value) == s
  {
    if |s| == 16 && s[4] == '-' && s[7] == '-' && s[10] == ' ' && s[13] == ':' &&
       AllDigits(s[0..4]) && AllDigits(s[5..7]) && AllDigits(s[8..10]) &&
       AllDigits(s[11..13]) && AllDigits(s[14..16])
    then
      var t := DateTime(Value(s[0..4]), Value(s[5..7]), Value(s[8..10]),
                        Value(s[11..13]), Value(s[14..16]), 0, 0);
      if Valid(t) then StampOfFields(s); Some(t) else None
    else None
  }

  /** A stamp in the layout, every field zero-padded, is what `strftime`
      writes for the fields it holds. */
  lemma StampOfFields(s: string)
    requires |s| == 16 && s[4] == '-' && s[7] == '-' && s[10] == ' ' && s[13] == ':'
    requires AllDigits(s[0..4]) && AllDigits(s[5..7]) && AllDigits(s[8..10])
    requires AllDigits(s[11..13]) && AllDigits(s[14..16])
    ensures Padded(Value(s[0..4]), 4) + "-" + Padded(Value(s[5..7]), 2) + "-" + Padded(Value(s[8..10]), 2) + " " +
            Padded(Value(s[11..13]), 2) + ":" + Padded(Value(s[14..16]), 2) == s
  {
    PaddedOfValue(s[0..4], 4);
    PaddedOfValue(s[5..7], 2);
    PaddedOfValue(s[8..10], 2);
    PaddedOfValue(s[11..13], 2);
    PaddedOfValue(s[14..16], 2);
    StampPieces(s);
  }

  /** A string in the stamp layout is its fields joined by the separators. */
  lemma StampPieces(s: string)
    requires |s| == 16 && s[4] == '-' && s[7] == '-' && s[10] == ' ' && s[13] == ':'
    ensures s == s[0..4] + "-" + s[5..7] + "-" + s[8..10] + " " + s[11..13] + ":" + s[14..16]
  {
  }

  /** A stamp written with `strftime` parses back, with `strptime`, to the
      instant it was taken at, less its seconds. */
  lemma ParseFormatStamp(t: DateTime)
    requires Valid(t)
    ensures ParseStamp(FormatStamp(t)) == Some(Truncate(t))
  {
  }

  /** Where the fields and separators of a stamp sit. */
  lemma StampLayout(y: string, mo: string, d: string, h: string, mi: string)
    requires |y| == 4 && |mo| == 2 && |d| == 2 && |h| == 2 && |mi| == 2
    ensures var s := y + "-" + mo + "-" + d + " " + h + ":" + mi;
      |s| == 16 && s[4] == '-' && s[7] == '-' && s[10] == ' ' && s[13] == ':' &&
      s[0..4] == y && s[5..7] == mo && s[8..10] == d && s[11..13] == h && s[14..16] == mi
  {
  }

  /** Within one minute the stamp's instant is at most `now` and less than a
      minute before it. */
  lemma TruncateWithinMinute(t: DateTime)
    requires Valid(t)
    ensures 0 <= Micros(t) - Micros(Truncate(t)) < MicrosPerMinute
  {
  }
}
