/**
 * The front end's display formatters: times, status colours, hour totals and
 * avatar links. The locale-dependent time formatting is not modelled.
 */
module Formatters {
  import opened Wrappers
  import opened Text
  import opened Clock
  import opened Registrations
  import opened Durations
  import opened Resources
  import opened EditPayload

  /**
   * `formatTime`: '-' for a falsy value and an HH:MM string unchanged. Any
   * other value goes to the locale formatter, which is outside the model:
   * the result is then None.
   */
  function FormatTime(time: JsValue): (r: Option<string>)
    ensures !Truthy(time) ==> r == Some("-")
    ensures Truthy(time) && ShortTime(time) ==> r == Some(time.s)
    ensures r.None? <==> Truthy(time) && !ShortTime(time)
  {
    if !Truthy(time) then Some("-")
    else if ShortTime(time) then Some(time.s)
    else None
  }

  /** The HH:MM times of the recent registrations list pass through `formatTime` as they are. */
  lemma RecentTimesDisplayedAsSent(r: Registration)
    ensures FormatTime(JsString(RecentEntry(r).clockIn.value)) == RecentEntry(r).clockIn
    ensures r.clockOut.Some? ==> FormatTime(JsString(RecentEntry(r).clockOut.value)) == RecentEntry(r).clockOut
  {
  }

  /** `getStatusColor`: the Vuetify colour of a registration status. */
  function StatusColor(status: string): (c: string)
    ensures c == "success" <==> status == "approved"
    ensures c == "error" <==> status == "rejected"
    ensures c == "warning" <==> status == "pending"
    ensures c == "grey" <==> status != "approved" && status != "rejected" && status != "pending"
  {
    if status == "approved" then "success"
    else if status == "rejected" then "error"
    else if status == "pending" then "warning"
    else "grey"
  }

  /** Every registration starts pending, so a new one is shown in the warning colour. */
  lemma NewRegistrationShownAsWarning(r: Registration)
    requires r.status == "pending"
    ensures StatusColor(r.status) == "warning"
  {
  }

  /**
   * `formatHoursAndMinutes` of a total in hundredths: '-' for null or 0,
   * otherwise "{floor}h {round(fraction * 60)}m" with both parts always present.
   */
  function FormatHoursAndMinutes(total: Option<nat>): (s: string)
    ensures s == "-" <==> total.None? || total.value == 0
    ensures s != "-" ==> ReadHoursMinutes(s).Some?
    ensures s != "-" ==>
            var (h, m) := ReadHoursMinutes(s).value;
            h == total.value / 100 && m <= 59 && -50 < 100 * m - 60 * (total.value % 100) < 50
  {
    if total.None? || total.value == 0 then "-"
    else
      ReadHoursMinutesText(WholeHours(total.value), FractionMinutes(total.value));
      HoursMinutesText(WholeHours(total.value), FractionMinutes(total.value))
  }

  /**
   * The front end and the admin resource render a total alike when both of
   * its parts are non-zero; the front end alone keeps a zero part.
   */
  lemma HoursTextsAgreeWhenBothParts(total: nat)
    requires WholeHours(total) > 0 && FractionMinutes(total) > 0
    ensures AdminHoursText(Some(total)) == Some(FormatHoursAndMinutes(Some(total)))
  {
  }

  /** Three hours: the front end shows "3h 0m" where the admin resource shows "3h". */
  lemma ThreeHoursRenderedTwoWays()
    ensures FormatHoursAndMinutes(Some(300)) == "3h 0m"
    ensures AdminHoursText(Some(300)) == Some("3h")
  {
    AdminHoursThree();
    ThreeHoursZeroMinutesText();
    assert WholeHours(300) == 3 && FractionMinutes(300) == 0;
  }

  lemma ThreeHoursZeroMinutesText()
    ensures HoursMinutesText(3, 0) == "3h 0m"
  {
    assert NatToString(3) == "3" && NatToString(0) == "0";
  }

  const AvatarBase: string := "https://i.pravatar.cc/150?u="

  /** `getAvatarUrl`: the avatar service's address keyed by the user id. */
  function AvatarUrl(userId: nat): (url: string)
    ensures IsPrefix(AvatarBase, url)
    ensures AllDigits(url[|AvatarBase|..]) && ParseDigits(url[|AvatarBase|..]) == userId
  {
    ParseNatToString(userId);
    assert (AvatarBase + NatToString(userId))[|AvatarBase|..] == NatToString(userId);
    AvatarBase + NatToString(userId)
  }

  /** Different users get different avatar addresses. */
  lemma AvatarUrlInjective(a: nat, b: nat)
    ensures AvatarUrl(a) == AvatarUrl(b) <==> a == b
  {
  }
}
