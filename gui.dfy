/** The arithmetic of the progress window: `format_time`, which renders a
    number of seconds as `HH:MM:SS`, and the progress fraction. */
module Gui {
  import opened Records
  import opened Decimal

  /** Python's `x // d` for a positive divisor: the floor of the quotient. */
  function FloorDiv(x: real, d: int): int
    requires d > 0
  {
    (x / d as real).Floor
  }

  /** Python's `x % d` for a positive divisor: what is left after taking
      `x // d` times `d`, always in `[0, d)`. */
  function FloorMod(x: real, d: int): (r: real)
    requires d > 0
    ensures 0.0 <= r < d as real
  {
    FloorOfQuotient(x, d);
    x - (d * FloorDiv(x, d)) as real
  }

  /** `int(x)`: truncation toward zero. */
  function Int(x: real): int {
    if x >= 0.0 then x.Floor else -((-x).Floor)
  }

  /** The floor of `x / d` is the floor of `x` divided (rounding down) by `d`. */
  lemma FloorOfQuotient(x: real, d: int)
    requires d > 0
    ensures (x / d as real).Floor == x.Floor / d
    ensures (d * (x.Floor / d)) as real <= x < (d * (x.Floor / d) + d) as real
  {
    var f, q := x.Floor, x.Floor / d;
    assert d * q <= f < d * q + d;
    var y := x / d as real;
    assert y * d as real == x;
    assert q as real <= y by {
      assert (d * q) as real == q as real * d as real;
    }
    assert y < (q + 1) as real by {
      assert (d * q + d) as real == (q + 1) as real * d as real;
    }
  }

  /** Taking away a whole number takes it away from the floor. */
  lemma FloorShift(x: real, k: int)
    ensures (x - k as real).Floor == x.Floor - k
  {
  }

  /** The three fields `format_time` computes: `int(seconds // 3600)`,
      `int((seconds % 3600) // 60)` and `int(seconds % 60)`. */
  function ClockFields(seconds: real): (r: (int, int, int))
    ensures r.0 == seconds.Floor / 3600
    ensures r.1 == (seconds.Floor % 3600) / 60 && 0 <= r.1 < 60
    ensures r.2 == seconds.Floor % 60 && 0 <= r.2 < 60
    ensures r.0 * 3600 + r.1 * 60 + r.2 == seconds.Floor
  {
    var hours := Int(FloorDiv(seconds, 3600) as real);
    var minutes := Int(FloorDiv(FloorMod(seconds, 3600), 60) as real);
    var secs := Int(FloorMod(seconds, 60));
    FieldsOfFloor(seconds);
    ClockSplit(seconds.Floor);
    (hours, minutes, secs)
  }

  /** Hours, minutes and seconds add back up to the whole. */
  lemma ClockSplit(f: int)
    ensures 0 <= (f % 3600) / 60 < 60
    ensures (f / 3600) * 3600 + ((f % 3600) / 60) * 60 + f % 60 == f
  {
    var r := f % 3600;
    assert f == (f / 3600) * 3600 + r;
    assert r == (r / 60) * 60 + r % 60;
    assert r % 60 == f % 60 by {
      assert f == ((f / 3600) * 60 + r / 60) * 60 + r % 60;
    }
  }

  /** Each field equals the floor of `seconds` split by integer division. */
  lemma FieldsOfFloor(seconds: real)
    ensures Int(FloorDiv(seconds, 3600) as real) == seconds.Floor / 3600
    ensures Int(FloorDiv(FloorMod(seconds, 3600), 60) as real) == (seconds.Floor % 3600) / 60
    ensures Int(FloorMod(seconds, 60)) == seconds.Floor % 60
  {
    var f := seconds.Floor;
    FloorOfQuotient(seconds, 3600);
    FloorOfQuotient(seconds, 60);
    var rest := FloorMod(seconds, 3600);
    FloorShift(seconds, 3600 * (f / 3600));
    assert rest.Floor == f % 3600;
    FloorOfQuotient(rest, 60);
    FloorShift(seconds, 60 * (f / 60));
    assert FloorMod(seconds, 60).Floor == f % 60;
  }

  /** `f"{n:02d}"`: at least two digits, zero-padded; a negative number
      keeps its sign in front and needs no padding at width two. */
  function Pad2(n: int): (r: string)
    ensures n >= 0 ==> |r| >= 2 && AllDigits(r) && Value(r) == n
    ensures 0 <= n < 100 ==> |r| == 2
    ensures n < 0 ==> |r| >= 2 && r[0] == '-' && AllDigits(r[1..]) && Value(r[1..]) == -n
  {
    if n >= 0 then
      PaddedValue(n, 2);
      TwoDigits(n);
      Padded(n, 2)
    else
      var d := Digits(-n);
      ValueOfDigits(-n);
      assert ("-" + d)[1..] == d;
      "-" + d
  }

  /** A number below a hundred pads to exactly two digits. */
  lemma TwoDigits(n: nat)
    ensures n < 100 ==> |Padded(n, 2)| == 2
  {
    if n < 100 {
      assert Pow10(2) == 100;
      PaddedRoundTrip(n, 2);
    }
  }

  /** `f"{hours:02d}:{minutes:02d}:{seconds:02d}"`. */
  function Clock(hours: int, minutes: int, secs: int): string {
    Pad2(hours) + ":" + Pad2(minutes) + ":" + Pad2(secs)
  }

  /** `format_time(seconds)`: for a duration that is not negative, digits
      with a colon before each of the last two two-digit fields, and
      exactly `HH:MM:SS` under a hundred hours. */
  function FormatTime(seconds: real): (r: string)
    ensures seconds >= 0.0 ==>
      |r| >= 8 && r[|r| - 6] == ':' && r[|r| - 3] == ':' &&
      forall i :: 0 <= i < |r| && i != |r| - 6 && i != |r| - 3 ==> IsDigit(r[i])
    ensures 0.0 <= seconds < 360000.0 ==> |r| == 8
  {
    var fields := ClockFields(seconds);
    if seconds >= 0.0 then
      ClockShape(fields.0, fields.1, fields.2);
      assert seconds < 360000.0 ==> fields.0 < 100 by {
        if seconds < 360000.0 {
          assert seconds.Floor < 360000;
        }
      }
      Clock(fields.0, fields.1, fields.2)
    else
      Clock(fields.0, fields.1, fields.2)
  }

  /** Where the digits and colons of a rendering with fields that are not
      negative sit. */
  lemma ClockShape(hours: int, minutes: int, secs: int)
    requires hours >= 0 && 0 <= minutes < 60 && 0 <= secs < 60
    ensures var r := Clock(hours, minutes, secs);
      |r| >= 8 && r[|r| - 6] == ':' && r[|r| - 3] == ':' &&
      (hours < 100 ==> |r| == 8) &&
      forall i :: 0 <= i < |r| && i != |r| - 6 && i != |r| - 3 ==> IsDigit(r[i])
  {
    ColonShape(Pad2(hours), Pad2(minutes), Pad2(secs));
  }

  /** Digits, a colon, two digits, a colon and two digits. */
  lemma ColonShape(h: string, m: string, sc: string)
    requires |h| >= 2 && |m| == 2 && |sc| == 2 && AllDigits(h) && AllDigits(m) && AllDigits(sc)
    ensures var r := h + ":" + m + ":" + sc;
      |r| == |h| + 6 && r[|r| - 6] == ':' && r[|r| - 3] == ':' &&
      forall i :: 0 <= i < |r| && i != |r| - 6 && i != |r| - 3 ==> IsDigit(r[i])
  {
    var r := h + ":" + m + ":" + sc;
    forall i | 0 <= i < |r| && i != |r| - 6 && i != |r| - 3
      ensures IsDigit(r[i])
    {
      if i < |h| {
        assert r[i] == h[i];
      } else if i < |h| + 3 {
        assert r[i] == m[i - |h| - 1];
      } else {
        assert r[i] == sc[i - |h| - 4];
      }
    }
  }

  /** Reads `HH:MM:SS` back as its three fields. */
  function ParseClock(s: string): (r: Option<(int, int, int)>)
    ensures r.Some? ==> 0 <= r.value.0 < 100 && 0 <= r.value.1 < 100 && 0 <= r.value.2 < 100
    ensures r.Some? ==> Clock(r.value.0, r.value.1, r.value.2) == s
  {
    if |s| == 8 && s[2] == ':' && s[5] == ':' &&
       AllDigits(s[0..2]) && AllDigits(s[3..5]) && AllDigits(s[6..8])
    then
      ClockOfFields(s);
      Some((Value(s[0..2]), Value(s[3..5]), Value(s[6..8])))
    else None
  }

  /** Eight characters in the `HH:MM:SS` layout are what `format_time`
      writes for the fields they hold. */
  lemma ClockOfFields(s: string)
    requires |s| == 8 && s[2] == ':' && s[5] == ':'
    requires AllDigits(s[0..2]) && AllDigits(s[3..5]) && AllDigits(s[6..8])
    ensures Value(s[0..2]) < 100 && Value(s[3..5]) < 100 && Value(s[6..8]) < 100
    ensures Clock(Value(s[0..2]), Value(s[3..5]), Value(s[6..8])) == s
  {
    assert Pow10(2) == 100;
    ValueBound(s[0..2]);
    ValueBound(s[3..5]);
    ValueBound(s[6..8]);
    PaddedOfValue(s[0..2], 2);
    PaddedOfValue(s[3..5], 2);
    PaddedOfValue(s[6..8], 2);
    ClockPieces(s);
  }

  /** Eight characters in the layout are their fields joined by colons. */
  lemma ClockPieces(s: string)
    requires |s| == 8 && s[2] == ':' && s[5] == ':'
    ensures s == s[0..2] + ":" + s[3..5] + ":" + s[6..8]
  {
  }

  /** Under a hundred hours the rendering is exactly eight characters, and
      it reads back as the three fields `format_time` computed. */
  lemma FormatTimeRoundTrip(seconds: real)
    requires 0.0 <= seconds < 360000.0
    ensures |FormatTime(seconds)| == 8
    ensures ParseClock(FormatTime(seconds)) == Some(ClockFields(seconds))
  {
    var fields := ClockFields(seconds);
    var (hours, minutes, secs) := fields;
    assert hours < 100 by {
      assert seconds.Floor < 360000;
    }
    ClockRoundTrip(hours, minutes, secs);
    var text := FormatTime(seconds);
    assert text == Clock(hours, minutes, secs);
  }

  /** Fields under a hundred render as eight characters that read back as
      the same fields. */
  lemma ClockRoundTrip(hours: int, minutes: int, secs: int)
    requires 0 <= hours < 100 && 0 <= minutes < 100 && 0 <= secs < 100
    ensures |Clock(hours, minutes, secs)| == 8
    ensures ParseClock(Clock(hours, minutes, secs)) == Some((hours, minutes, secs))
  {
    assert Pow10(2) == 100;
    PaddedRoundTrip(hours, 2);
    PaddedRoundTrip(minutes, 2);
    PaddedRoundTrip(secs, 2);
    ClockLayout(Padded(hours, 2), Padded(minutes, 2), Padded(secs, 2));
  }

  /** Where the fields and colons of `HH:MM:SS` sit. */
  lemma ClockLayout(hh: string, mm: string, ss: string)
    requires |hh| == 2 && |mm| == 2 && |ss| == 2
    ensures var s := hh + ":" + mm + ":" + ss;
      |s| == 8 && s[2] == ':' && s[5] == ':' && s[0..2] == hh && s[3..5] == mm && s[6..8] == ss
  {
  }

  /** Every field but the hours is always two digits, even for a negative
      duration, where the hours count down from `-1`. */
  lemma NegativeDuration()
    ensures ClockFields(-1.0) == (-1, 59, 59)
    ensures FormatTime(-1.0) == "-1:59:59"
  {
    assert (-1.0).Floor == -1;
    assert ClockFields(-1.0) == (-1, 59, 59);
    assert Pad2(-1) == "-1" by {
      assert Digits(1) == "1";
    }
    assert Pad2(59) == "59" by {
      assert Pow10(2) == 100;
      assert Digits(59) == "59" by {
        assert Digits(5) == "5" && Digits(9) == "9";
      }
    }
    assert FormatTime(-1.0) == Clock(-1, 59, 59);
  }

  /** The progress fraction: `0` when nothing is to be scraped, otherwise
      `processed / to_scrape`, so it never divides by zero. */
  function Fraction(processed: int, toScrape: int): (r: real)
    ensures toScrape == 0 ==> r == 0.0
    ensures toScrape != 0 ==> r * toScrape as real == processed as real
    ensures 0 <= processed <= toScrape ==> 0.0 <= r <= 1.0
  {
    if toScrape == 0 then 0.0 else processed as real / toScrape as real
  }
}
