/**
 * The two resources that turn a registration into display fields: the recent
 * registrations list of the dashboard and the admin overview.
 */
module Resources {
  import opened Wrappers
  import opened Text
  import opened Clock
  import opened Calendar
  import opened Registrations
  import opened Durations

  // ---------------------------------------------------------------------------
  // Recent registrations

  /** The recent-registration fields computed from the record. */
  datatype RecentView = RecentView(
    id: nat, date: Day, clockIn: Option<string>, clockOut: Option<string>,
    totalHours: Option<string>, totalHoursDecimal: Option<nat>,
    latitude: Option<int>, longitude: Option<int>, notes: Option<string>, status: string)

  /**
   * "{hours}h {minutes}m" of a minute total. A zero total is falsy, so both
   * parts are null and interpolate as empty: the text is then "h m".
   */
  function RecentHoursText(total: nat): (s: string)
    ensures total == 0 ==> s == "h m"
    ensures total > 0 ==> ReadHoursMinutes(s).Some?
    ensures total > 0 ==> var (h, m) := ReadHoursMinutes(s).value; 60 * h + m == total && m < 60
  {
    var hours := if total != 0 then NatToString(total / 60) else "";
    var minutes := if total != 0 then NatToString(total % 60) else "";
    assert total != 0 ==> ReadHoursMinutes(hours + "h " + minutes + "m") == Some((total / 60, total % 60)) by {
      if total != 0 {
        ReadHoursMinutesText(total / 60, total % 60);
      }
    }
    hours + "h " + minutes + "m"
  }

  /**
   * One entry of the recent list: times as HH:MM, and for a closed
   * registration the minute total as text and as hours rounded to hundredths.
   */
  function RecentEntry(r: Registration): (v: RecentView)
    ensures v.id == r.id && v.date == r.date && v.status == r.status && v.notes == r.notes
    ensures v.latitude == r.latitude && v.longitude == r.longitude
    ensures v.clockIn == Some(FormatHms(r.clockIn)[..5])
    ensures v.clockOut.None? <==> IsOpen(r)
    ensures v.clockOut.Some? ==> v.clockOut.value == FormatHms(r.clockOut.value)[..5]
    ensures v.totalHours.None? <==> IsOpen(r)
    ensures v.totalHours.Some? ==> v.totalHours.value == RecentHoursText(MinutesBetween(r.clockIn, r.clockOut.value))
    ensures v.totalHoursDecimal == CalculateTotalHours(r)
  {
    var totalMinutes := if r.clockOut.Some? then Some(MinutesBetween(r.clockIn, r.clockOut.value)) else None;
    RecentView(
      r.id, r.date, Some(FormatHm(r.clockIn)),
      if r.clockOut.Some? then Some(FormatHm(r.clockOut.value)) else None,
      if totalMinutes.Some? then Some(RecentHoursText(totalMinutes.value)) else None,
      if totalMinutes.Some? then Some(HundredthsOfHours(totalMinutes.value)) else None,
      r.latitude, r.longitude, r.notes, r.status)
  }

  /** A registration closed at the minute it opened shows "h m" beside a decimal total of 0. */
  lemma RecentZeroMinutes(r: Registration)
    requires r.clockOut == Some(r.clockIn)
    ensures RecentEntry(r).totalHours == Some("h m") && RecentEntry(r).totalHoursDecimal == Some(0)
  {
  }

  // ---------------------------------------------------------------------------
  // Admin overview

  /** `floor(total_hours)` of a total in hundredths. */
  function WholeHours(total: nat): nat
  {
    total / 100
  }

  /**
   * `round((total_hours - floor(total_hours)) * 60)`: the minutes nearest to
   * the fractional hour. The fraction is a whole number of hundredths, so the
   * product is a multiple of 0.6 and is never halfway between two integers.
   */
  function FractionMinutes(total: nat): (m: nat)
    ensures m <= 59
    ensures -50 < 100 * m - 60 * (total % 100) < 50
  {
    (6 * (total % 100) + 5) / 10
  }

  /**
   * The whole hours as "{h}h" and the minutes as "{m}m", each omitted when
   * zero, joined by a space and trimmed.
   */
  function HoursAndMinutesTrimmed(hours: nat, minutes: nat): (s: string)
    requires hours > 0 || minutes > 0
    ensures hours > 0 && minutes > 0 ==> s == HoursMinutesText(hours, minutes)
    ensures hours > 0 && minutes == 0 ==> s == NatToString(hours) + "h"
    ensures hours == 0 ==> s == NatToString(minutes) + "m"
  {
    var text := (if hours > 0 then NatToString(hours) + "h " else "") + (if minutes > 0 then NatToString(minutes) + "m" else "");
    if hours > 0 && minutes > 0 then
      TrimBothParts(hours, minutes);
      Trim(text)
    else if hours > 0 then
      TrimHoursPart(hours);
      Trim(text)
    else
      assert text == NatToString(minutes) + "m";
      TrimMinutesPart(minutes);
      Trim(text)
  }

  /**
   * `total_hours_formatted`: null for a null or zero total; otherwise the
   * whole hours and the fraction's minutes, zero parts omitted.
   */
  function AdminHoursText(total: Option<nat>): (s: Option<string>)
    ensures s.None? <==> total.None? || total.value == 0
    ensures s.Some? ==> s.value != []
    ensures s.Some? && WholeHours(total.value) > 0 && FractionMinutes(total.value) > 0
            ==> s.value == HoursMinutesText(WholeHours(total.value), FractionMinutes(total.value))
    ensures s.Some? && WholeHours(total.value) > 0 && FractionMinutes(total.value) == 0
            ==> s.value == NatToString(WholeHours(total.value)) + "h"
    ensures s.Some? && WholeHours(total.value) == 0 ==> s.value == NatToString(FractionMinutes(total.value)) + "m"
  {
    if total.None? || total.value == 0 then None
    else
      var hours := WholeHours(total.value);
      var minutes := FractionMinutes(total.value);
      FractionOfSmallTotal(total.value);
      Some(HoursAndMinutesTrimmed(hours, minutes))
  }

  /** A text from a digit to a unit letter needs no trimming. */
  lemma TrimUnitText(core: string)
    requires core != [] && IsDigit(core[0]) && (core[|core| - 1] == 'h' || core[|core| - 1] == 'm')
    ensures Trim(core) == core
  {
    TrimVisible(core);
  }

  /** "{h}h {m}m" needs no trimming. */
  lemma TrimBothParts(hours: nat, minutes: nat)
    ensures Trim((NatToString(hours) + "h ") + (NatToString(minutes) + "m")) == HoursMinutesText(hours, minutes)
  {
    var digits := NatToString(hours);
    var core := digits + "h " + NatToString(minutes) + "m";
    assert core[0] == digits[0];
    assert (digits + "h ") + (NatToString(minutes) + "m") == core;
    TrimUnitText(core);
  }

  /** "{h}h " loses its trailing space. */
  lemma TrimHoursPart(hours: nat)
    ensures Trim((NatToString(hours) + "h ") + "") == NatToString(hours) + "h"
  {
    var digits := NatToString(hours);
    var core := digits + "h";
    assert core[0] == digits[0];
    assert (digits + "h ") + "" == core + " ";
    TrimTrailing(core, " ");
  }

  /** "{m}m" needs no trimming. */
  lemma TrimMinutesPart(minutes: nat)
    ensures Trim(NatToString(minutes) + "m") == NatToString(minutes) + "m"
  {
    var digits := NatToString(minutes);
    var core := digits + "m";
    assert core[0] == digits[0];
    TrimUnitText(core);
  }

  /** A positive total below one hour still has a positive minute part, so the text is never empty. */
  lemma FractionOfSmallTotal(total: nat)
    requires 0 < total
    ensures WholeHours(total) > 0 || FractionMinutes(total) > 0
  {
  }

  /** 2.5 hours reads "2h 30m". */
  lemma AdminHoursTwoAndAHalf()
    ensures AdminHoursText(Some(250)) == Some("2h 30m")
  {
    assert WholeHours(250) == 2 && FractionMinutes(250) == 30;
    assert NatToString(2) == "2";
    assert NatToString(30) == NatToString(3) + "0";
    assert HoursMinutesText(2, 30) == "2h 30m";
  }

  /** Half an hour reads "30m". */
  lemma AdminHoursHalf()
    ensures AdminHoursText(Some(50)) == Some("30m")
  {
    assert WholeHours(50) == 0 && FractionMinutes(50) == 30;
    assert NatToString(30) == NatToString(3) + "0";
    assert NatToString(30) + "m" == "30m";
  }

  /** Three hours read "3h". */
  lemma AdminHoursThree()
    ensures AdminHoursText(Some(300)) == Some("3h")
  {
    assert WholeHours(300) == 3 && FractionMinutes(300) == 0;
    assert NatToString(3) == "3";
    assert NatToString(3) + "h" == "3h";
  }

  /** The admin overview entry: the registration with its times as HH:MM and its total as text. */
  datatype AdminView = AdminView(registration: Registration, clockInText: string, clockOutText: Option<string>, totalHoursText: Option<string>)

  function AdminEntry(r: Registration): (v: AdminView)
    ensures v.registration == r
    ensures v.clockInText == FormatHms(r.clockIn)[..5]
    ensures v.clockOutText.None? <==> IsOpen(r)
    ensures v.clockOutText.Some? ==> v.clockOutText.value == FormatHms(r.clockOut.value)[..5]
    ensures v.totalHoursText == AdminHoursText(r.totalHours)
  {
    AdminView(r, FormatHm(r.clockIn), if r.clockOut.Some? then Some(FormatHm(r.clockOut.value)) else None, AdminHoursText(r.totalHours))
  }
}
