/**
 * Times of day as whole seconds since midnight, their `H:i:s` and `H:i`
 * renderings, and the minute and hour arithmetic the models and resources
 * perform on them. Hours are counted in hundredths, the precision of the
 * `decimal(5,2)` total_hours column.
 */
module Clock {
  import opened Wrappers
  import opened Text

  const SecondsPerDay: int := 86400

  /** A time of day: seconds since midnight. */
  type Time = t: int | 0 <= t < 86400

  function Hour(t: Time): (h: nat)
    ensures h < 24
  {
    t / 3600
  }

  function Minute(t: Time): (m: nat)
    ensures m < 60
  {
    t / 60 % 60
  }

  function Second(t: Time): (s: nat)
    ensures s < 60
  {
    t % 60
  }

  /** Division by 60 undoes `q * 60 + r` for a remainder below 60. */
  lemma DivBy60(a: int, q: int, r: int)
    requires 0 <= r < 60 && a == q * 60 + r
    ensures a / 60 == q && a % 60 == r
  {
  }

  /** Division by 3600 undoes `q * 3600 + r` for a remainder below 3600. */
  lemma DivBy3600(a: int, q: int, r: int)
    requires 0 <= r < 3600 && a == q * 3600 + r
    ensures a / 3600 == q && a % 3600 == r
  {
  }

  /** The time h:m:s. */
  function At(h: nat, m: nat, s: nat): (t: Time)
    requires h < 24 && m < 60 && s < 60
    ensures Hour(t) == h && Minute(t) == m && Second(t) == s
  {
    var t := h * 3600 + m * 60 + s;
    DivBy3600(t, h, m * 60 + s);
    DivBy60(t, h * 60 + m, s);
    DivBy60(h * 60 + m, h, m);
    t
  }

  lemma TimeFromParts(t: Time)
    ensures At(Hour(t), Minute(t), Second(t)) == t
  {
    var q := t / 60;
    assert t == q * 60 + t % 60;
    assert q == (q / 60) * 60 + q % 60;
    DivBy3600(t, q / 60, (q % 60) * 60 + t % 60);
  }

  /** PHP's `format('H:i:s')`. */
  function FormatHms(t: Time): (s: string)
    ensures |s| == 8 && s[2] == ':' && s[5] == ':'
    ensures AllDigits(s[0..2]) && AllDigits(s[3..5]) && AllDigits(s[6..8])
  {
    var s := Pad2(Hour(t)) + ":" + Pad2(Minute(t)) + ":" + Pad2(Second(t));
    assert s[0..2] == Pad2(Hour(t)) && s[3..5] == Pad2(Minute(t)) && s[6..8] == Pad2(Second(t));
    s
  }

  /** PHP's `format('H:i')`: the `H:i:s` text with the seconds dropped. */
  function FormatHm(t: Time): (s: string)
    ensures s == FormatHms(t)[..5]
  {
    Pad2(Hour(t)) + ":" + Pad2(Minute(t))
  }

  lemma Pad2OfDigits(s: string)
    requires |s| == 2 && AllDigits(s)
    ensures ParseDigits(s) < 100 && Pad2(ParseDigits(s)) == s
  {
    assert s[..1][..0] == [];
    assert ParseDigits(s[..1]) == DigitValue(s[0]);
    assert ParseDigits(s) == 10 * DigitValue(s[0]) + DigitValue(s[1]);
  }

  /**
   * Laravel's `date_format:H:i:s` rule: two digits per field, and the value
   * must render back to the same text, so "24:00:00" and "9:00:00" fail.
   */
  function ParseHms(s: string): (r: Option<Time>)
    ensures r.Some? ==> FormatHms(r.value) == s
  {
    if |s| == 8 && s[2] == ':' && s[5] == ':'
       && AllDigits(s[0..2]) && AllDigits(s[3..5]) && AllDigits(s[6..8])
    then
      var h, m, sec := ParseDigits(s[0..2]), ParseDigits(s[3..5]), ParseDigits(s[6..8]);
      if h < 24 && m < 60 && sec < 60 then
        Pad2OfDigits(s[0..2]);
        Pad2OfDigits(s[3..5]);
        Pad2OfDigits(s[6..8]);
        var t := At(h, m, sec);
        assert FormatHms(t) == s[0..2] + ":" + s[3..5] + ":" + s[6..8];
        Some(t)
      else None
    else None
  }

  lemma ParseFormatHms(t: Time)
    ensures ParseHms(FormatHms(t)) == Some(t)
  {
    var s := FormatHms(t);
    assert s[0..2] == Pad2(Hour(t)) && s[3..5] == Pad2(Minute(t)) && s[6..8] == Pad2(Second(t));
    TimeFromParts(t);
  }

  /**
   * Carbon's `diffInMinutes` read as an absolute difference: the whole
   * minutes between two times, any leftover seconds dropped.
   */
  function MinutesBetween(a: Time, b: Time): (m: nat)
    ensures m < 1440
    ensures 60 * m <= b - a < 60 * m + 60 || 60 * m <= a - b < 60 * m + 60
  {
    (if a <= b then b - a else a - b) / 60
  }

  lemma MinutesBetweenSymmetric(a: Time, b: Time)
    ensures MinutesBetween(a, b) == MinutesBetween(b, a)
  {
  }

  /**
   * PHP's `round($minutes / 60, 2)`, counted in hundredths of an hour: the
   * hundredth nearest to minutes/60. A tie cannot arise, since minutes/60
   * is a whole number of thirds of a hundredth.
   */
  function HundredthsOfHours(minutes: nat): (r: nat)
    ensures -30 < 100 * minutes - 60 * r < 30
  {
    var r := (10 * minutes + 3) / 6;
    var k := 5 * minutes - 3 * r;
    assert 0 <= 2 * k + 3 < 6;
    assert -1 <= k <= 1;
    assert 100 * minutes - 60 * r == 20 * k;
    r
  }

  /** Any minute count within one day rounds to less than 24 hours, so it fits decimal(5,2). */
  lemma HundredthsWithinDay(minutes: nat)
    requires minutes < 1440
    ensures HundredthsOfHours(minutes) < 2400
  {
  }

  lemma HundredthsOfWholeHours(hours: nat)
    ensures HundredthsOfHours(60 * hours) == 100 * hours
  {
  }

  /** Two hundredth counts both nearest to minutes/60 are the same count. */
  lemma NearestHundredthUnique(minutes: nat, r: nat)
    requires -30 < 100 * minutes - 60 * r < 30
    ensures r == HundredthsOfHours(minutes)
  {
  }
}
