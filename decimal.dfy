/** Decimal digit strings: `str(n)` for a natural number, `int(s)` for a
    string of digits, and the zero padding of format specs such as `02d`. */
module Decimal {

  predicate IsDigit(c: char) {
    '0' <= c <= '9'
  }

  predicate AllDigits(s: string) {
    forall i :: 0 <= i < |s| ==> IsDigit(s[i])
  }

  function Pow10(n: nat): (p: nat)
    ensures p >= 1
  {
    if n == 0 then 1 else 10 * Pow10(n - 1)
  }

  function DigitChar(d: nat): (c: char)
    requires d < 10
    ensures IsDigit(c)
  {
    ((d + '0' as int) as char)
  }

  function DigitValue(c: char): (d: nat)
    requires IsDigit(c)
    ensures d < 10
  {
    c as int - '0' as int
  }

  /** `str(n)`: the shortest decimal rendering of `n`. */
  function Digits(n: nat): (s: string)
    ensures |s| >= 1 && AllDigits(s)
  {
    if n < 10 then [DigitChar(n)] else Digits(n / 10) + [DigitChar(n % 10)]
  }

  /** `int(s)` for a string of decimal digits (`int("")` is taken as 0). */
  function Value(s: string): nat
    requires AllDigits(s)
  {
    if s == [] then 0 else Value(s[..|s| - 1]) * 10 + DigitValue(s[|s| - 1])
  }

  function Zeros(n: nat): (s: string)
    ensures |s| == n && AllDigits(s)
    ensures forall i :: 0 <= i < n ==> s[i] == '0'
  {
    if n == 0 then [] else Zeros(n - 1) + ['0']
  }

  /** Left-pads `s` with zeros to at least `width` characters, as the `0`
      flag of a Python format spec does for a non-negative number. */
  function ZeroPad(s: string, width: nat): (r: string)
    ensures |r| == if |s| >= width then |s| else width
    ensures AllDigits(s) ==> AllDigits(r)
  {
    if |s| >= width then s else Zeros(width - |s|) + s
  }

  /** `f"{n:0{width}d}"` for a natural number. */
  function Padded(n: nat, width: nat): string {
    ZeroPad(Digits(n), width)
  }

  lemma {:induction false} ValueConcat(a: string, b: string)
    requires AllDigits(a) && AllDigits(b)
    ensures AllDigits(a + b)
    ensures Value(a + b) == Value(a) * Pow10(|b|) + Value(b)
  {
    if b == [] {
      assert a + b == a;
    } else {
      var b' := b[..|b| - 1];
      assert (a + b)[..|a + b| - 1] == a + b';
      ValueConcat(a, b');
      assert b[..|b| - 1] == b';
      var va, vb, p, d := Value(a), Value(b'), Pow10(|b'|), DigitValue(b[|b| - 1]);
      assert AllDigits(a + b);
      assert Value(a + b) == Value(a + b') * 10 + d;
      assert Value(b) == vb * 10 + d;
      assert Pow10(|b|) == p * 10;
      Distribute(va, p, vb, d);
    }
  }

  lemma Distribute(va: int, p: int, vb: int, d: int)
    ensures (va * p + vb) * 10 + d == va * (p * 10) + (vb * 10 + d)
  {
  }

  lemma {:induction false} ValueOfZeros(n: nat)
    ensures Value(Zeros(n)) == 0
  {
    if n > 0 {
      assert Zeros(n)[..n - 1] == Zeros(n - 1);
      ValueOfZeros(n - 1);
    }
  }

  /** `int(str(n)) == n`. */
  lemma {:induction false} ValueOfDigits(n: nat)
    ensures Value(Digits(n)) == n
  {
    if n >= 10 {
      var s := Digits(n);
      assert s[..|s| - 1] == Digits(n / 10);
      ValueOfDigits(n / 10);
    }
  }

  /** A number below `10^width` needs at most `width` digits. */
  lemma {:induction false} DigitsFit(n: nat, width: nat)
    requires width >= 1 && n < Pow10(width)
    ensures |Digits(n)| <= width
  {
    if n >= 10 {
      assert width >= 2;
      DigitsFit(n / 10, width - 1);
    }
  }

  /** Padding `n` to `width` digits gives a string of exactly `width`
      digits that reads back as `n`. */
  lemma PaddedRoundTrip(n: nat, width: nat)
    requires width >= 1 && n < Pow10(width)
    ensures |Padded(n, width)| == width && AllDigits(Padded(n, width))
    ensures Value(Padded(n, width)) == n
  {
    DigitsFit(n, width);
    PaddedValue(n, width);
  }

  /** Padding never shortens, and reads back as the number it renders. */
  lemma PaddedValue(n: nat, width: nat)
    ensures AllDigits(Padded(n, width)) && |Padded(n, width)| >= width
    ensures Value(Padded(n, width)) == n
  {
    ValueOfDigits(n);
    var s := Digits(n);
    if |s| < width {
      ValueAfterZeros(width - |s|, s);
    }
  }

  /** Leading zeros do not change the value. */
  lemma ValueAfterZeros(k: nat, s: string)
    requires AllDigits(s)
    ensures AllDigits(Zeros(k) + s) && Value(Zeros(k) + s) == Value(s)
  {
    ValueConcat(Zeros(k), s);
    ValueOfZeros(k);
  }
  /** `k` digits hold a value below `10^k`. */
  lemma {:induction false} ValueBound(s: string)
    requires AllDigits(s)
    ensures Value(s) < Pow10(|s|)
  {
    if s != [] {
      ValueBound(s[..|s| - 1]);
    }
  }

  /** Two digit strings of the same length with the same value are the
      same string: leading zeros included, the width fixes the text. */
  lemma {:induction false} ValueInjective(a: string, b: string)
    requires AllDigits(a) && AllDigits(b) && |a| == |b| && Value(a) == Value(b)
    ensures a == b
  {
    if a != [] {
      var n := |a| - 1;
      var da, db := DigitValue(a[n]), DigitValue(b[n]);
      assert da == Value(a) % 10 && db == Value(b) % 10;
      assert Value(a[..n]) == Value(a) / 10 && Value(b[..n]) == Value(b) / 10;
      ValueInjective(a[..n], b[..n]);
      assert a[n] == b[n] by {
        assert a[n] as int == da + '0' as int && b[n] as int == db + '0' as int;
      }
      assert a == a[..n] + [a[n]] && b == b[..n] + [b[n]];
    }
  }

  /** Reading `width` digits and padding the number back to `width`
      digits gives the same text. */
  lemma PaddedOfValue(s: string, width: nat)
    requires AllDigits(s) && |s| == width && width >= 1
    ensures Padded(Value(s), width) == s
  {
    ValueBound(s);
    PaddedRoundTrip(Value(s), width);
    ValueInjective(Padded(Value(s), width), s);
  }
}
