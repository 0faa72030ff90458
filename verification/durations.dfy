/**
 * The "{hours}h {minutes}m" text shared by the clock-in status, the recent
 * registrations resource and the front-end formatter, with a reader that
 * recovers the two numbers from it.
 */
module Durations {
  import opened Wrappers
  import opened Text

  /** "{h}h {m}m". */
  function HoursMinutesText(h: nat, m: nat): (s: string)
    ensures |s| >= 5 && s[|s| - 1] == 'm'
  {
    NatToString(h) + "h " + NatToString(m) + "m"
  }

  /** Reads "{digits}h {digits}m" back into its two numbers. */
  function ReadHoursMinutes(s: string): (r: Option<(nat, nat)>)
    ensures r.Some? ==> |s| >= 5 && s[|s| - 1] == 'm'
  {
    var i := LeadingDigits(s);
    if 0 < i && i + 3 < |s| && s[i] == 'h' && s[i + 1] == ' ' && s[|s| - 1] == 'm' && AllDigits(s[i + 2..|s| - 1])
    then Some((ParseDigits(s[..i]), ParseDigits(s[i + 2..|s| - 1])))
    else None
  }

  /** Two digit strings joined as "{a}h {b}m" read back as their values. */
  lemma ReadParts(a: string, b: string)
    requires a != [] && b != [] && AllDigits(a) && AllDigits(b)
    ensures ReadHoursMinutes(a + "h " + b + "m") == Some((ParseDigits(a), ParseDigits(b)))
  {
    var rest := "h " + b + "m";
    var s := a + rest;
    assert a + "h " + b + "m" == s;
    LeadingDigitsOf(a, rest);
    assert s[..|a|] == a;
    assert s[|a|] == 'h' && s[|a| + 1] == ' ' && s[|s| - 1] == 'm';
    assert s[|a| + 2..|s| - 1] == b;
  }

  /** The text reads back as the numbers it was built from. */
  lemma ReadHoursMinutesText(h: nat, m: nat)
    ensures ReadHoursMinutes(HoursMinutesText(h, m)) == Some((h, m))
  {
    ReadParts(NatToString(h), NatToString(m));
    ParseNatToString(h);
    ParseNatToString(m);
  }

  /**
   * A whole number of minutes as "{h}h {m}m" with h = floor(minutes / 60)
   * and m = minutes mod 60.
   */
  function DurationText(minutes: nat): (s: string)
    ensures ReadHoursMinutes(s).Some?
    ensures var (h, m) := ReadHoursMinutes(s).value; 60 * h + m == minutes && m < 60
  {
    ReadHoursMinutesText(minutes / 60, minutes % 60);
    HoursMinutesText(minutes / 60, minutes % 60)
  }

  /** Different minute counts give different texts. */
  lemma DurationTextInjective(a: nat, b: nat)
    ensures DurationText(a) == DurationText(b) <==> a == b
  {
  }
}
