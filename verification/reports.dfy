/**
 * The report endpoints: generating a time report for one user or a staff
 * registry for a location, listing recent reports and downloading one. A
 * report is a row recording what was asked for and where its file lives.
 */
module Reports {
  import opened Wrappers
  import opened Text
  import opened Calendar
  import opened Rows
  import opened Sorting
  import opened Roles
  import opened Registrations

  /** A row of the reports table; `createdAt` is the creation timestamp in seconds. */
  datatype Report = Report(
    id: nat, kind: string, format: string, startDate: Day, endDate: Day,
    userId: Option<nat>, locationId: Option<nat>, filePath: string, createdBy: nat, createdAt: int)

  /** A reply of the report endpoints; `Invalid` is the validator's 422. */
  datatype Reply =
    | Generated(message: string, report: Report, registrationsCount: nat)
    | Downloading(message: string, report: Report)
    | Recent(reports: seq<Report>)
    | Invalid
    | Refused(status: nat, message: string)

  const Unauthorized: string := "Unauthorized"

  function ReportKey(r: Report): nat
  {
    r.id
  }

  /** Some user row carries `id`. */
  predicate HasUser(users: seq<User>, id: nat)
  {
    exists u :: u in users && u.id == id
  }

  /** A registration dated within `[start, end]`. */
  predicate DatedWithin(start: Day, end: Day, r: Registration)
  {
    start <= r.date <= end
  }

  // ---------------------------------------------------------------------------
  // time reports

  /** The body of a time report request; `userId` may be absent, null or a user id. */
  datatype TimeReportRequest = TimeReportRequest(userId: Field<nat>, startDate: Day, endDate: Day, format: string)

  predicate ValidFormat(format: string)
  {
    format == "pdf" || format == "excel"
  }

  /** The validator's rules: an existing user when one is named, start on or before end, a known format. */
  predicate ValidTimeReport(users: seq<User>, req: TimeReportRequest)
  {
    (req.userId.Present? ==> HasUser(users, req.userId.value))
    && req.startDate <= req.endDate && ValidFormat(req.format)
  }

  /** Where a time report's file is stored. */
  function TimeReportPath(personalId: string, start: Day, end: Day, format: string): string
  {
    ("reports/time_report_" + personalId + "_") + (FormatDay(start) + "_" + FormatDay(end) + "." + format)
  }

  /** Two ten-character dates and a suffix, joined as in a report path, can be read apart. */
  lemma DatesAndFormatApart(a: string, b: string, c: string)
    requires |a| == 10 && |b| == 10
    ensures var t := a + "_" + b + "." + c;
            t[..10] == a && t[11..21] == b && t[22..] == c
  {
  }

  /**
   * For one user, the path of a time report names its period and format
   * unambiguously (for four-digit years).
   */
  lemma TimeReportPathInjective(pid: string, s1: Day, e1: Day, f1: string, s2: Day, e2: Day, f2: string)
    requires 0 <= CivilFromDays(s1).year <= 9999 && 0 <= CivilFromDays(e1).year <= 9999
    requires 0 <= CivilFromDays(s2).year <= 9999 && 0 <= CivilFromDays(e2).year <= 9999
    requires TimeReportPath(pid, s1, e1, f1) == TimeReportPath(pid, s2, e2, f2)
    ensures s1 == s2 && e1 == e2 && f1 == f2
  {
    FormatDayLength(s1);
    FormatDayLength(e1);
    FormatDayLength(s2);
    FormatDayLength(e2);
    var pre := "reports/time_report_" + pid + "_";
    var t1 := FormatDay(s1) + "_" + FormatDay(e1) + "." + f1;
    var t2 := FormatDay(s2) + "_" + FormatDay(e2) + "." + f2;
    assert t1 == (pre + t1)[|pre|..] == (pre + t2)[|pre|..] == t2;
    DatesAndFormatApart(FormatDay(s1), FormatDay(e1), f1);
    DatesAndFormatApart(FormatDay(s2), FormatDay(e2), f2);
    FormatDayInjective(s1, s2);
    FormatDayInjective(e1, e2);
  }

  /**
   * `generateTimeReport`: the validator runs first (422); then a caller who
   * names a user other than themself (null counts as other) needs to be an
   * admin or manager (403); otherwise one report row is added for the named
   * user, or the caller, and the reply counts that user's registrations in
   * the period.
   */
  function GenerateTimeReport(reports: seq<Report>, registrations: seq<Registration>, users: seq<User>,
                              caller: User, req: TimeReportRequest, now: int): (result: (seq<Report>, Reply))
    requires HasUser(users, caller.id)
    ensures !ValidTimeReport(users, req) <==> result == (reports, Invalid)
    ensures ValidTimeReport(users, req) && req.userId.Sent() && req.userId != Present(caller.id) && !IsSupervisor(caller)
            <==> result == (reports, Refused(403, Unauthorized))
    ensures result.1.Generated? <==>
            ValidTimeReport(users, req) && !(req.userId.Sent() && req.userId != Present(caller.id) && !IsSupervisor(caller))
    ensures result.1.Generated? ==>
            var target := req.userId.OrElse(Some(caller.id)).value;
            var r := result.1.report;
            result.0 == reports + [r] && (forall x :: x in reports ==> x.id < r.id)
            && r.kind == "time_report" && r.format == req.format && r.startDate == req.startDate && r.endDate == req.endDate
            && r.userId == Some(target) && r.locationId.None? && r.createdBy == caller.id && r.createdAt == now
            && (exists u :: u in users && u.id == target && r.filePath == TimeReportPath(u.personalId, req.startDate, req.endDate, req.format))
            && result.1.registrationsCount == |Filter(registrations, (x: Registration) => x.userId == target && DatedWithin(req.startDate, req.endDate, x))|
    ensures result.0 == reports || result.1.Generated?
  {
    if !ValidTimeReport(users, req) then (reports, Invalid)
    else if req.userId.Sent() && req.userId != Present(caller.id) && !IsSupervisor(caller) then
      (reports, Refused(403, Unauthorized))
    else
      var target := req.userId.OrElse(Some(caller.id)).value;
      var targetUser := First(users, (u: User) => u.id == target);
      assert targetUser.Some?;
      var path := TimeReportPath(targetUser.value.personalId, req.startDate, req.endDate, req.format);
      var r := Report(NextKey(reports, ReportKey), "time_report", req.format, req.startDate, req.endDate,
                      Some(target), None, path, caller.id, now);
      var count := |Filter(registrations, (x: Registration) => x.userId == target && DatedWithin(req.startDate, req.endDate, x))|;
      (reports + [r], Generated("Time report generated successfully", r, count))
  }

  /** A plain user's own report, asked for with or without their id, is always generated when valid. */
  lemma OwnTimeReportAllowed(reports: seq<Report>, registrations: seq<Registration>, users: seq<User>,
                             caller: User, req: TimeReportRequest, now: int)
    requires HasUser(users, caller.id)
    requires ValidTimeReport(users, req) && (req.userId == Missing || req.userId == Present(caller.id))
    ensures GenerateTimeReport(reports, registrations, users, caller, req, now).1.Generated?
    ensures GenerateTimeReport(reports, registrations, users, caller, req, now).1.report.userId == Some(caller.id)
  {
  }

  // ---------------------------------------------------------------------------
  // staff registry

  datatype RegistryRequest = RegistryRequest(startDate: Day, endDate: Day, locationId: nat)

  /** Where a staff registry's file is stored. */
  function RegistryPath(locationId: nat, start: Day, end: Day): string
  {
    "reports/staff_registry_" + NatToString(locationId) + "_" + FormatDay(start) + "_" + FormatDay(end) + ".pdf"
  }

  /**
   * `generateStaffRegistry`: admins and managers only, checked before the
   * validator (an existing location, start on or before end); adds one pdf
   * report row and counts every registration in the period whose user exists.
   */
  function GenerateStaffRegistry(reports: seq<Report>, registrations: seq<Registration>, users: seq<User>,
                                 locationIds: set<nat>, caller: User, req: RegistryRequest, now: int): (result: (seq<Report>, Reply))
    ensures !IsSupervisor(caller) <==> result == (reports, Refused(403, Unauthorized))
    ensures IsSupervisor(caller) && (req.locationId !in locationIds || req.endDate < req.startDate)
            <==> result == (reports, Invalid)
    ensures result.1.Generated? <==> IsSupervisor(caller) && req.locationId in locationIds && req.startDate <= req.endDate
    ensures result.1.Generated? ==>
            var r := result.1.report;
            result.0 == reports + [r] && (forall x :: x in reports ==> x.id < r.id)
            && r.kind == "staff_registry" && r.format == "pdf" && r.startDate == req.startDate && r.endDate == req.endDate
            && r.userId.None? && r.locationId == Some(req.locationId) && r.createdBy == caller.id && r.createdAt == now
            && r.filePath == RegistryPath(req.locationId, req.startDate, req.endDate)
            && result.1.registrationsCount == |Filter(registrations, x => DatedWithin(req.startDate, req.endDate, x) && HasUser(users, x.userId))|
    ensures result.0 == reports || result.1.Generated?
  {
    if !IsSupervisor(caller) then (reports, Refused(403, Unauthorized))
    else if req.locationId !in locationIds || req.endDate < req.startDate then (reports, Invalid)
    else
      var r := Report(NextKey(reports, ReportKey), "staff_registry", "pdf", req.startDate, req.endDate,
                      None, Some(req.locationId), RegistryPath(req.locationId, req.startDate, req.endDate), caller.id, now);
      var count := |Filter(registrations, x => DatedWithin(req.startDate, req.endDate, x) && HasUser(users, x.userId))|;
      (reports + [r], Generated("Staff registry generated successfully", r, count))
  }

  /**
   * The registry's count does not depend on the location: registrations are
   * selected by period alone, so every location gets the same number.
   */
  lemma RegistryCountIgnoresLocation(reports: seq<Report>, registrations: seq<Registration>, users: seq<User>,
                                     locationIds: set<nat>, caller: User, start: Day, end: Day, a: nat, b: nat, now: int)
    requires IsSupervisor(caller) && a in locationIds && b in locationIds && start <= end
    ensures GenerateStaffRegistry(reports, registrations, users, locationIds, caller, RegistryRequest(start, end, a), now).1.registrationsCount
            == GenerateStaffRegistry(reports, registrations, users, locationIds, caller, RegistryRequest(start, end, b), now).1.registrationsCount
  {
  }

  // ---------------------------------------------------------------------------
  // recent reports and downloads

  /** A report the caller may see and download: their own, one they created, or any for admins and managers. */
  predicate VisibleTo(caller: User, r: Report)
  {
    IsSupervisor(caller) || r.userId == Some(caller.id) || r.createdBy == caller.id
  }

  function NewestCreatedFirst(r: Report): seq<int>
  {
    [-r.createdAt]
  }

  /** Every report the caller may see, newest first. */
  function VisibleReports(reports: seq<Report>, caller: User): (visible: seq<Report>)
    ensures forall x :: x in visible <==> x in reports && VisibleTo(caller, x)
    ensures |visible| == |Filter(reports, x => VisibleTo(caller, x))|
    ensures SortedBy(visible, NewestCreatedFirst)
  {
    var v := SortBy(Filter(reports, x => VisibleTo(caller, x)), NewestCreatedFirst);
    assert forall x :: x in v <==> x in multiset(v);
    v
  }

  /**
   * `getRecentReports`: the visible reports, newest first, at most `limit`
   * of them (10 by default).
   */
  function RecentReports(reports: seq<Report>, caller: User, limit: Option<nat>): (rows: seq<Report>)
    ensures |rows| == if limit.GetOr(10) < |Filter(reports, x => VisibleTo(caller, x))| then limit.GetOr(10)
                      else |Filter(reports, x => VisibleTo(caller, x))|
    ensures forall x :: x in rows ==> x in reports && VisibleTo(caller, x)
  {
    Take(VisibleReports(reports, caller), limit.GetOr(10))
  }

  /** The listing key orders reports by creation time, later first. */
  lemma NewestCreatedFirstOrder(a: Report, b: Report)
    ensures KeyLeq(NewestCreatedFirst(a), NewestCreatedFirst(b)) <==> a.createdAt >= b.createdAt
  {
    assert NewestCreatedFirst(a)[1..] == [];
  }

  /**
   * The recent reports come newest first, and no visible report left out of
   * the list is newer than one in it.
   */
  lemma RecentReportsNewestFirst(reports: seq<Report>, caller: User, limit: Option<nat>)
    ensures var rows := RecentReports(reports, caller, limit);
            (forall i, j :: 0 <= i < j < |rows| ==> rows[i].createdAt >= rows[j].createdAt)
            && (forall x, y :: x in reports && VisibleTo(caller, x) && x !in rows && y in rows ==> y.createdAt >= x.createdAt)
  {
    var visible := VisibleReports(reports, caller);
    var rows := Take(visible, limit.GetOr(10));
    TakeSorted(visible, NewestCreatedFirst, limit.GetOr(10));
    forall i, j | 0 <= i < j < |rows|
      ensures rows[i].createdAt >= rows[j].createdAt
    {
      NewestCreatedFirstOrder(rows[i], rows[j]);
    }
    forall x, y | x in reports && VisibleTo(caller, x) && x !in rows && y in rows
      ensures y.createdAt >= x.createdAt
    {
      NewestCreatedFirstOrder(y, x);
    }
  }

  /** `downloadReport`: allowed exactly to the report's user, its creator, admins and managers. */
  function DownloadReport(caller: User, r: Report): (reply: Reply)
    ensures reply.Downloading? <==> VisibleTo(caller, r)
    ensures reply.Downloading? ==> reply.report == r
    ensures !reply.Downloading? ==> reply == Refused(403, Unauthorized)
  {
    if r.userId != Some(caller.id) && r.createdBy != caller.id && !IsSupervisor(caller) then Refused(403, Unauthorized)
    else Downloading("Report download initiated", r)
  }

  /** Whatever a plain user can list among recent reports, they can download. */
  lemma RecentReportsDownloadable(reports: seq<Report>, caller: User, limit: Option<nat>, r: Report)
    requires r in RecentReports(reports, caller, limit)
    ensures DownloadReport(caller, r).Downloading?
  {
  }
}
