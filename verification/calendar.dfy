/**
 * Calendar dates as day numbers (days since 1970-01-01), the weekday Carbon
 * reports for them, and their `Y-m-d` text. The conversion between day
 * numbers and civil (year, month, day) dates is the proleptic Gregorian one.
 */
module Calendar {
  import opened Text

  /** Days since 1970-01-01; negative before it. */
  type Day = int

  /** Carbon's `dayOfWeek`: 0 is Sunday, 6 is Saturday. 1970-01-01 was a Thursday. */
  function Weekday(d: Day): (w: nat)
    ensures w < 7
  {
    (d + 4) % 7
  }

  lemma WeekdayNext(d: Day)
    ensures Weekday(d + 1) == (Weekday(d) + 1) % 7
  {
  }

  lemma WeekdayWeekly(d: Day)
    ensures Weekday(d + 7) == Weekday(d)
  {
  }

  datatype Civil = Civil(year: int, month: int, day: int)

  /** Years into a 400-year era for a day `doe` into that era. */
  function YearOfEra(doe: int): int
  {
    (doe - doe / 1460 + doe / 36524 - doe / 146096) / 365
  }

  /** Days from the start of an era (a March 1st) to the start of its year `yoe`. */
  function YearStart(yoe: int): int
  {
    365 * yoe + yoe / 4 - yoe / 100
  }

  lemma EraDecomposition(n: int)
    requires 0 <= n < 146097
    ensures 0 <= YearOfEra(n) < 400
    ensures 0 <= n - YearStart(YearOfEra(n)) <= 365
  {
    // Split n into centuries, four-year cycles and years of the era.
    var c := if n / 36524 < 4 then n / 36524 else 3;
    var r1 := n - 36524 * c;
    assert 0 <= r1 <= 36524;
    var q := r1 / 1461;
    var r2 := r1 - 1461 * q;
    assert 0 <= q <= 24 && 0 <= r2 <= 1460;
    var k := if r2 / 365 < 4 then r2 / 365 else 3;
    var r3 := r2 - 365 * k;
    assert 0 <= k <= 3 && 0 <= r3 <= 365;
    var y := 100 * c + 4 * q + k;
    var t := 24 * c + q + 365 * k + r3;
    assert n == 1460 * (25 * c + q) + t;
    assert n / 1460 == 25 * c + q + t / 1460;
    assert r3 == 0 ==> t / 1460 == 0;
    assert n / 36524 - n / 146096 == c;
    assert n - n / 1460 + n / 36524 - n / 146096 == 365 * y + r3 - t / 1460;
    assert YearOfEra(n) == y;
    assert y / 4 == 25 * c + q;
    assert y / 100 == c;
    assert YearStart(y) == 36524 * c + 1461 * q + 365 * k;
  }

  /** Months counted from March (0) to February (11) back to 1..12. */
  function MonthFromShifted(mp: int): int
  {
    if mp < 10 then mp + 3 else mp - 9
  }

  /** The civil date of a day number. */
  function CivilFromDays(z: Day): (c: Civil)
    ensures 1 <= c.month <= 12 && 1 <= c.day <= 31
  {
    var z' := z + 719468;
    var era := z' / 146097;
    var doe := z' - era * 146097;
    EraDecomposition(doe);
    var yoe := YearOfEra(doe);
    var doy := doe - YearStart(yoe);
    var mp := (5 * doy + 2) / 153;
    var m := MonthFromShifted(mp);
    var y := yoe + era * 400;
    Civil(if m <= 2 then y + 1 else y, m, doy - (153 * mp + 2) / 5 + 1)
  }

  /** The day number of a civil date. */
  function DaysFromCivil(c: Civil): Day
  {
    var y := if c.month <= 2 then c.year - 1 else c.year;
    var era := y / 400;
    var yoe := y - era * 400;
    var mp := if c.month > 2 then c.month - 3 else c.month + 9;
    var doy := (153 * mp + 2) / 5 + c.day - 1;
    era * 146097 + YearStart(yoe) + doy - 719468
  }

  lemma DaysFromCivilFromDays(z: Day)
    ensures DaysFromCivil(CivilFromDays(z)) == z
  {
    var z' := z + 719468;
    var era := z' / 146097;
    var doe := z' - era * 146097;
    EraDecomposition(doe);
    var yoe := YearOfEra(doe);
    var doy := doe - YearStart(yoe);
    var mp := (5 * doy + 2) / 153;
    assert 0 <= mp <= 11;
    var c := CivilFromDays(z);
    var y' := if c.month <= 2 then c.year - 1 else c.year;
    assert y' == yoe + era * 400;
    assert y' / 400 == era;
    assert (if c.month > 2 then c.month - 3 else c.month + 9) == mp;
  }

  /** PHP's `Y`: at least four digits, zero-padded, with '-' before years BCE. */
  function FormatYear(y: int): (s: string)
    ensures |s| >= 4
  {
    if y >= 0 then PadZeros(NatToString(y), 4) else "-" + PadZeros(NatToString(-y), 4)
  }

  /** The year a `FormatYear` text denotes. */
  function ReadYear(s: string): int
  {
    if s != [] && s[0] == '-' && AllDigits(s[1..]) then -(ParseDigits(s[1..]) as int)
    else if AllDigits(s) then ParseDigits(s)
    else 0
  }

  lemma {:induction false} ReadFormatYear(y: int)
    ensures ReadYear(FormatYear(y)) == y
  {
    var n: nat := if y >= 0 then y else -y;
    var padded := PadZeros(NatToString(n), 4);
    PadZerosValue(NatToString(n), 4);
    ParseNatToString(n);
    assert IsDigit(padded[0]);
    if y < 0 {
      var s := FormatYear(y);
      assert s == "-" + padded;
      assert s[1..] == padded;
    }
  }

  /** `Y-m-d`, as Carbon's `toDateString()` and `format('Y-m-d')` render a day. */
  function FormatDay(z: Day): (s: string)
    ensures |s| >= 10
  {
    FormatCivil(CivilFromDays(z))
  }

  function FormatCivil(c: Civil): (s: string)
    requires 1 <= c.month <= 12 && 1 <= c.day <= 31
    ensures |s| >= 10
  {
    FormatYear(c.year) + "-" + Pad2(c.month) + "-" + Pad2(c.day)
  }

  lemma FormatCivilInjective(ca: Civil, cb: Civil)
    requires 1 <= ca.month <= 12 && 1 <= ca.day <= 31
    requires 1 <= cb.month <= 12 && 1 <= cb.day <= 31
    requires FormatCivil(ca) == FormatCivil(cb)
    ensures ca == cb
  {
    var s := FormatCivil(ca);
    var ya, yb := FormatYear(ca.year), FormatYear(cb.year);
    assert |ya| == |yb|;
    assert s[..|ya|] == ya && s[..|yb|] == yb;
    assert s[|s| - 5..|s| - 3] == Pad2(ca.month) == Pad2(cb.month);
    assert s[|s| - 2..] == Pad2(ca.day) == Pad2(cb.day);
    ReadFormatYear(ca.year);
    ReadFormatYear(cb.year);
  }

  /** Distinct days never share a `Y-m-d` text. */
  lemma FormatDayInjective(a: Day, b: Day)
    ensures FormatDay(a) == FormatDay(b) <==> a == b
  {
    if FormatDay(a) == FormatDay(b) {
      FormatCivilInjective(CivilFromDays(a), CivilFromDays(b));
      DaysFromCivilFromDays(a);
      DaysFromCivilFromDays(b);
    }
  }

  /**
   * The pattern `/^\d{4}-\d{2}-\d{2}$/`: four digits, a dash, two digits, a
   * dash, two digits. PCRE's `$` also matches before one final newline.
   */
  predicate DateShape(s: string)
  {
    var body := if |s| == 11 && s[10] == '\n' then s[..10] else s;
    |body| == 10 && body[4] == '-' && body[7] == '-'
    && AllDigits(body[0..4]) && AllDigits(body[5..7]) && AllDigits(body[8..10])
  }

  /** Every day of the years 0000 to 9999 renders in the shape the pattern checks. */
  lemma FormatDayShape(z: Day)
    requires 0 <= CivilFromDays(z).year <= 9999
    ensures DateShape(FormatDay(z))
  {
    CivilShape(CivilFromDays(z));
  }

  /** Days of the years 0000 to 9999 render in exactly ten characters. */
  lemma FormatDayLength(z: Day)
    requires 0 <= CivilFromDays(z).year <= 9999
    ensures |FormatDay(z)| == 10
  {
    NatToStringLength(CivilFromDays(z).year);
  }

  lemma CivilShape(c: Civil)
    requires 1 <= c.month <= 12 && 1 <= c.day <= 31
    requires 0 <= c.year <= 9999
    ensures DateShape(FormatCivil(c))
  {
    var y := FormatYear(c.year);
    NatToStringLength(c.year);
    assert |y| == 4;
    var s := FormatCivil(c);
    assert s[0..4] == y && s[5..7] == Pad2(c.month) && s[8..10] == Pad2(c.day);
  }

  lemma {:induction false} NatToStringLength(n: nat)
    requires n < 10000
    ensures |NatToString(n)| <= 4
  {
    if n >= 10 {
      NatToStringLength(n / 10);
      if n < 1000 {
        NatToStringShort(n / 10);
      }
    }
  }

  lemma {:induction false} NatToStringShort(n: nat)
    requires n < 100
    ensures |NatToString(n)| <= 2
  {
  }

  /** 1970-01-01, a Thursday, is day 0; 2025-05-28, a Wednesday, is day 20236. */
  lemma CalendarAnchors()
    ensures DaysFromCivil(Civil(1970, 1, 1)) == 0 && Weekday(0) == 4
    ensures DaysFromCivil(Civil(2025, 5, 28)) == 20236 && Weekday(20236) == 3
  {
  }
}
