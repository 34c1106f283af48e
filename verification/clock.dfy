/**
 * The `msToTime` formatter of the ranking handler: a duration in
 * milliseconds rendered as `HH:MM:SS.mmm`.
 */
module Clock {
  import opened Decimal
  import opened Text

  const SecondMs: nat := 1000
  const MinuteMs: nat := 60000
  const HourMs: nat := 3600000
  /** Only two hour digits are kept, so the reading wraps every hundred hours. */
  const WrapMs: nat := 360000000

  /** JavaScript's `%`: truncating division, so the remainder takes the dividend's sign. */
  function TruncatedRem(a: int, b: int): (r: int)
    requires b > 0
    ensures -b < r < b
    ensures a >= 0 ==> 0 <= r && r == a % b
    ensures a < 0 ==> r <= 0
  {
    if a >= 0 then a % b else -((-a) % b)
  }

  /**
   * `msToTime(duration)` for an integer duration. `Math.floor` on a positive
   * divisor is Dafny's `/`; each field is padded with zeros and cut to its
   * last characters with `slice`.
   */
  function MsToTime(duration: int): (r: string)
    ensures |r| == 12
    ensures r[2] == ':' && r[5] == ':' && r[8] == '.'
  {
    var hour := duration / 3600000;
    var minute := (duration - 3600000 * hour) / 60000;
    Layout(Padded(hour, 2), Padded(minute, 2), Padded(TruncatedRem(duration, 60000), 5))
  }

  /** `('0…0' + n).slice(-width)` with `width` zeros in front. */
  function Padded(n: int, width: nat): (s: string)
    ensures |s| == width
  {
    Tail(Zeros(width) + IntToString(n), width)
  }

  /** `${hh}:${mm}:${ms.slice(0, 2)}.${ms.slice(2, 5)}` */
  function Layout(hh: string, mm: string, ms: string): (r: string)
    requires |hh| == 2 && |mm| == 2 && |ms| == 5
    ensures |r| == 12
    ensures r[2] == ':' && r[5] == ':' && r[8] == '.'
  {
    hh + ":" + mm + ":" + ms[..2] + "." + ms[2..]
  }

  predicate NumeralChars(s: string) {
    forall k :: 0 <= k < |s| ==> IsDigit(s[k]) || s[k] == '-'
  }

  lemma PaddedChars(n: int, width: nat)
    ensures NumeralChars(Padded(n, width))
  {
    var s := Zeros(width) + IntToString(n);
    assert NumeralChars(s);
  }

  lemma {:induction false} LayoutChars(hh: string, mm: string, ms: string)
    requires |hh| == 2 && |mm| == 2 && |ms| == 5
    requires NumeralChars(hh) && NumeralChars(mm) && NumeralChars(ms)
    ensures forall k :: 0 <= k < 12 ==> IsDigit(Layout(hh, mm, ms)[k]) || Layout(hh, mm, ms)[k] in "-:."
  {
    var r := Layout(hh, mm, ms);
    forall k | 0 <= k < 12
      ensures IsDigit(r[k]) || r[k] in "-:."
    {
      if k < 2 {
        assert r[k] == hh[k];
      } else if 3 <= k < 5 {
        assert r[k] == mm[k - 3];
      } else if 6 <= k < 8 {
        assert r[k] == ms[k - 6];
      } else if 9 <= k {
        assert r[k] == ms[k - 7];
      }
    }
  }

  /** Whatever the duration, the text holds only digits, minus signs and separators. */
  lemma MsToTimeCharacters(duration: int)
    ensures forall k :: 0 <= k < |MsToTime(duration)| ==> IsDigit(MsToTime(duration)[k]) || MsToTime(duration)[k] in "-:."
  {
    var hour := duration / HourMs;
    var minute := (duration - HourMs * hour) / MinuteMs;
    var rem := TruncatedRem(duration, MinuteMs);
    PaddedChars(hour, 2);
    PaddedChars(minute, 2);
    PaddedChars(rem, 5);
    LayoutChars(Padded(hour, 2), Padded(minute, 2), Padded(rem, 5));
  }

  /** Reference rendering: zero-padded hours, minutes, seconds and milliseconds. */
  function ClockText(h: nat, m: nat, s: nat, ms: nat): (r: string)
    requires h < 100 && m < 60 && s < 60 && ms < 1000
  {
    Digits(h, 2) + ":" + Digits(m, 2) + ":" + Digits(s, 2) + "." + Digits(ms, 3)
  }

  /** `HH:MM:SS.mmm` shape: three separators, digits everywhere else. */
  predicate IsClockText(s: string) {
    && |s| == 12
    && s[2] == ':' && s[5] == ':' && s[8] == '.'
    && AllDigits(s[..2]) && AllDigits(s[3..5]) && AllDigits(s[6..8]) && AllDigits(s[9..])
  }

  /** The number of milliseconds a clock text denotes. */
  function ParseClock(s: string): nat
    requires IsClockText(s)
  {
    ParseNat(s[..2]) * HourMs + ParseNat(s[3..5]) * MinuteMs + ParseNat(s[6..8]) * SecondMs + ParseNat(s[9..])
  }

  lemma ParseField(n: nat, k: nat)
    requires n < Pow10(k)
    ensures ParseNat(Digits(n, k)) == n
  {
    ParseDigits(n, k);
  }

  /** Reading the reference rendering gives back its fields. */
  lemma ClockTextRoundTrip(h: nat, m: nat, s: nat, ms: nat)
    requires h < 100 && m < 60 && s < 60 && ms < 1000
    ensures IsClockText(ClockText(h, m, s, ms))
    ensures ParseNat(ClockText(h, m, s, ms)[..2]) == h
    ensures ParseNat(ClockText(h, m, s, ms)[3..5]) == m
    ensures ParseNat(ClockText(h, m, s, ms)[6..8]) == s
    ensures ParseNat(ClockText(h, m, s, ms)[9..]) == ms
  {
    var r := ClockText(h, m, s, ms);
    assert r[..2] == Digits(h, 2);
    assert r[3..5] == Digits(m, 2);
    assert r[6..8] == Digits(s, 2);
    assert r[9..] == Digits(ms, 3);
    ParseField(h, 2);
    ParseField(m, 2);
    ParseField(s, 2);
    ParseField(ms, 3);
  }

  /** `('0…0' + n).slice(-k)` with `k` zeros is the field of the low `k` digits. */
  lemma PaddedField(n: nat, k: nat)
    ensures Padded(n, k) == Digits(n % Pow10(k), k)
  {
    TailOfPadded(k, n, k);
    DigitsMod(n, k);
  }

  lemma MillisecondField(d: nat)
    ensures Padded(TruncatedRem(d, 60000), 5) == Digits((d / SecondMs) % 60, 2) + Digits(d % SecondMs, 3)
  {
    var x := d % MinuteMs;
    TailOfPadded(5, x, 5);
    calc {
      Padded(TruncatedRem(d, 60000), 5);
      Tail(Zeros(5) + NatToString(x), 5);
      Digits(x, 2 + 3);
      { DigitsSplit(x, 2, 3); DropDigitsIsDiv(x, 3); assert Pow10(3) == SecondMs; }
      Digits(x / SecondMs, 2) + Digits(x, 3);
      { DigitsMod(x, 3); assert Pow10(3) == SecondMs; }
      Digits(x / SecondMs, 2) + Digits(x % SecondMs, 3);
      { DivModNest(d, 60, SecondMs); }
      Digits((d / SecondMs) % 60, 2) + Digits(d % SecondMs, 3);
    }
  }

  /**
   * For a non-negative duration the text is the zero-padded decomposition
   * into hours (last two digits), minutes, seconds and milliseconds.
   */
  lemma MsToTimeDecomposes(d: nat)
    ensures MsToTime(d) == ClockText((d / HourMs) % 100, (d / MinuteMs) % 60, (d / SecondMs) % 60, d % SecondMs)
  {
    HourText(d);
    MinuteText(d);
    MillisecondField(d);
    LayoutOfFields(Digits((d / HourMs) % 100, 2), Digits((d / MinuteMs) % 60, 2),
                   Digits((d / SecondMs) % 60, 2), Digits(d % SecondMs, 3));
  }

  lemma HourText(d: nat)
    ensures Padded(d / 3600000, 2) == Digits((d / HourMs) % 100, 2)
  {
    PaddedField(d / HourMs, 2);
  }

  lemma MinuteText(d: nat)
    ensures Padded((d - 3600000 * (d / 3600000)) / 60000, 2) == Digits((d / MinuteMs) % 60, 2)
  {
    var minute := (d - 3600000 * (d / 3600000)) / 60000;
    MinuteValue(d);
    PaddedField(minute, 2);
    assert minute % Pow10(2) == minute;
  }

  /** The source's minute computation is the minute of the hour. */
  lemma MinuteValue(d: nat)
    ensures (d - 3600000 * (d / 3600000)) / 60000 == (d / MinuteMs) % 60
  {
    assert d - 3600000 * (d / 3600000) == d % 3600000;
    DivModNest(d, 60, MinuteMs);
  }

  /** The layout puts the separators between the fields. */
  lemma LayoutOfFields(hh: string, mm: string, ss: string, mmm: string)
    requires |hh| == 2 && |mm| == 2 && |ss| == 2 && |mmm| == 3
    ensures Layout(hh, mm, ss + mmm) == hh + ":" + mm + ":" + ss + "." + mmm
  {
    assert (ss + mmm)[..2] == ss && (ss + mmm)[2..] == mmm;
  }

  /**
   * Reading the text back gives the duration modulo one hundred hours, with
   * minute and second fields below sixty: hours beyond 99 lose their
   * leading digits.
   */
  lemma MsToTimeRoundTrip(d: nat)
    ensures IsClockText(MsToTime(d))
    ensures ParseClock(MsToTime(d)) == d % WrapMs
    ensures ParseNat(MsToTime(d)[3..5]) < 60 && ParseNat(MsToTime(d)[6..8]) < 60
  {
    var h, m, s, ms := (d / HourMs) % 100, (d / MinuteMs) % 60, (d / SecondMs) % 60, d % SecondMs;
    MsToTimeDecomposes(d);
    ClockTextRoundTrip(h, m, s, ms);
    assert s * SecondMs + ms == d % MinuteMs by {
      DivModNest(d, 60, SecondMs);
    }
    assert m * MinuteMs + d % MinuteMs == d % HourMs by {
      DivModNest(d, 60, MinuteMs);
    }
    assert h * HourMs + d % HourMs == d % WrapMs by {
      DivModNest(d, 100, HourMs);
    }
  }

  /** Below one hundred hours nothing is lost: the text reads back as the duration. */
  lemma MsToTimeExact(d: nat)
    requires d < WrapMs
    ensures IsClockText(MsToTime(d))
    ensures ParseClock(MsToTime(d)) == d
  {
    MsToTimeRoundTrip(d);
    DivModUnique(d, WrapMs, 0, d);
  }

  /** The reference rendering, character by character. */
  lemma ClockTextSpelled(h: nat, m: nat, s: nat, ms: nat)
    requires h < 100 && m < 60 && s < 60 && ms < 1000
    ensures ClockText(h, m, s, ms)
      == [Digit(h / 10), Digit(h % 10), ':', Digit(m / 10), Digit(m % 10), ':',
          Digit(s / 10), Digit(s % 10), '.', Digit(ms / 100), Digit(ms / 10 % 10), Digit(ms % 10)]
  {
    TwoDigits(h);
    TwoDigits(m);
    TwoDigits(s);
    assert Digits(ms, 3) == [Digit(ms / 100), Digit(ms / 10 % 10), Digit(ms % 10)] by {
      assert ms / 10 / 10 == ms / 100;
      assert Digits(ms / 10, 2) == Digits(ms / 100, 1) + [Digit(ms / 10 % 10)];
    }
  }

  lemma TwoDigits(n: nat)
    requires n < 100
    ensures Digits(n, 2) == [Digit(n / 10), Digit(n % 10)]
  {
    var hi := n / 10;
    assert hi < 10 && hi % 10 == hi && hi / 10 == 0;
    assert Digits(hi, 1) == [Digit(hi)];
  }

  // Worked readings: zero, one minute and a bit, one hour and a bit.

  lemma MsToTimeExampleZero()
    ensures MsToTime(0) == "00:00:00.000"
  {
    MsToTimeDecomposes(0);
    assert (0 / HourMs) % 100 == 0 && (0 / MinuteMs) % 60 == 0;
    assert (0 / SecondMs) % 60 == 0 && 0 % SecondMs == 0;
    ClockTextSpelled(0, 0, 0, 0);
  }

  lemma MsToTimeExampleMinute()
    ensures MsToTime(61234) == "00:01:01.234"
  {
    MsToTimeDecomposes(61234);
    assert (61234 / HourMs) % 100 == 0 && (61234 / MinuteMs) % 60 == 1;
    assert (61234 / SecondMs) % 60 == 1 && 61234 % SecondMs == 234;
    ClockTextSpelled(0, 1, 1, 234);
  }

  lemma MsToTimeExampleHour()
    ensures MsToTime(3661000) == "01:01:01.000"
  {
    MsToTimeDecomposes(3661000);
    assert (3661000 / HourMs) % 100 == 1 && (3661000 / MinuteMs) % 60 == 1;
    assert (3661000 / SecondMs) % 60 == 1 && 3661000 % SecondMs == 0;
    ClockTextSpelled(1, 1, 1, 0);
  }
}
