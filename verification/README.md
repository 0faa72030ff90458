# timecheck core in Dafny

This project models the decision logic of timecheck. timecheck is a time-and-attendance system with a Laravel API and a Vue front end. Employees clock in and out. They record and edit time registrations with a date, a clock-in time and an optional clock-out time. Admins and managers also plan schedules, manage locations and overtime rules, and generate reports.

The model is functional:
- **Records.** Every database table is a `seq` of immutable records. Laravel's `first()` is the first match in sequence order. New ids are one more than the largest id in the table.
- **Times and dates.** A time of day is a number of seconds, 0..86399, so lexicographic order on `H:i:s` text is numeric order. A date is a day number counted from 1970-01-01, with a weekday (0 = Sunday) and a `Y-m-d` rendering. Hour totals are integer hundredths of an hour, matching the `decimal(5,2)` column.
- **Endpoints.** Each endpoint is a pure function. It takes the table and the caller and returns the table afterwards together with a reply datatype. The reply carries the HTTP status of every guard: 403, 404, 422 and the success codes.
- **Outside inputs.** "Today", "now", coordinates that would be generated at random, and the server's answers on the front end are all parameters.

Modules, following the program's structure:

- **Overlap.** The overlap check for a new or edited registration, in two forms:
  - the intended form, stated as plain predicates;
  - the as-written form, evaluated through `Query`. `Query` is a small model of Laravel's where-builder with SQL's AND-over-OR precedence and NULL comparisons.
- **Registrations and Schedules.** `calculateTotalHours` and the recomputing `save` of the two models.
- **Clocking.** The trait that clocks a user in and out and reports their status.
- **RegistrationApi and ScheduleApi.** The two controllers. ScheduleApi includes the weekday-filtered `generateRecurring` loop, proved with loop invariants.
- **Resources, Durations and AdminRegistrations.** The "Xh Ym" renderings of durations, and the admin listing with its default date window.
- **Reports, Locations and OvertimeRules.** Report paths and visibility, and the different role rules of the location and overtime-rule controllers.
- **Front end:**
  - `EditPayload`: edit-payload normalisation;
  - `Formatters`;
  - `Router`: the navigation guard;
  - `AuthStore` and `Snackbar`: the two stores as small state machines;
  - `UseApi` and `ErrorHandler`: error classification.
- **Helpers.** `Wrappers`, `Text`, `Clock`, `Calendar`, `Rows`, `Sorting` and `Query`.

Source paths below are relative to the repository root.

## Model

| member | source | states |
|---|---|---|
| Overlap.FindOverlap | backend/app/Services/TimeRegistrationService.php:26-63 | The intended check. Any registration it returns belongs to the same user and date and is not the excluded one. An open candidate gets back an open sibling whenever one exists. Otherwise it gets a sibling covering its clock-in, and none exactly when no sibling is open or covers it. A closed candidate gets back a sibling that starts, ends or lies inside its interval (ends included), and none exactly when no sibling does. |
| Overlap.FindOverlapAsWritten | backend/app/Services/TimeRegistrationService.php:26-63 | The check as the query builder evaluates it. An open candidate gets a result exactly when an open sibling exists. For a closed candidate, only the first of the three interval tests keeps the user/date/exclusion scope: the two `orWhere` groups match any row of the table. |
| Overlap.OpenSibling | backend/app/Services/TimeRegistrationService.php:36-40 | `whereNull('clock_out')->first()` finds a registration exactly when the user has an open one on that date other than the excluded one, and what it finds is such a registration. |
| Overlap.FallbackSelectsNothing | backend/app/Services/TimeRegistrationService.php:37-46 | The fallback query still carries the `whereNull('clock_out')` added at line 37, so it asks for `clock_out >= clockIn` on rows whose clock-out is NULL. No row satisfies that. |
| Overlap.ScopedWhere | backend/app/Services/TimeRegistrationService.php:28-33 | One AND-ed clause after the scope clauses selects exactly the in-scope rows that satisfy it. A zero or absent id excludes nothing (`if ($excludeId)`). |
| Overlap.EscapingWheres | backend/app/Services/TimeRegistrationService.php:50-62 | The clause list the closed-candidate branch builds selects exactly the rows of the escaped form: scoped starts-inside, unscoped ends-inside or contains. |
| Overlap.WithinMeansCovers | backend/app/Services/TimeRegistrationService.php:44-45 | `clock_in <= t AND clock_out >= t` holds for a row exactly when it is closed and spans t, ends included. A NULL clock-out never matches. |
| Overlap.InsideMeansContained | backend/app/Services/TimeRegistrationService.php:60-61 | `clock_in >= in AND clock_out <= out` holds exactly when a closed row lies within [in, out]. |
| Overlap.ScopeMeansInScope | backend/app/Services/TimeRegistrationService.php:28-33 | The scope clauses all hold for a row exactly when it has the same user and date and is not the excluded id. |
| Overlap.ClashIsIntersection | backend/app/Services/TimeRegistrationService.php:50-62 | With in < out on both sides, the three-way check equals the inclusive intersection test max(in) <= min(out). |
| Overlap.ClashSymmetric | backend/app/Services/TimeRegistrationService.php:50-62 | With in < out on both sides, whether a clashes with b does not depend on which one is the candidate. |
| Overlap.TouchingIntervalsClash | backend/app/Services/TimeRegistrationService.php:50-53 | The comparisons are inclusive, so a sibling that ends exactly when the candidate starts is reported. |
| Overlap.EditIntoNeighbourReported | backend/tests/Feature/TimeRegistrationEditTest.php:75-106 | Editing 09:00-12:00 to 09:00-14:00 beside 13:00-17:00 on the same day: the intended check reports the 13:00 registration, while the as-written check reports the edited registration itself. |
| Overlap.EditMatchesItself | backend/app/Services/TimeRegistrationService.php:50-62 | As written, an edit of a closed registration whose new clock-out falls inside its stored interval, or whose new interval contains it, is matched against the registration itself. The intended check finds nothing for the same edit when the registration has no siblings. |
| Overlap.EditLoneRegistration | backend/tests/Feature/TimeRegistrationEditTest.php:36-55 | Moving a lone registration to 10:00-13:00 with its own id excluded reports nothing. |
| Overlap.EditBesideOtherDate | backend/tests/Feature/TimeRegistrationEditTest.php:125-153 | The test's scenario: a registration on the next day is edited to the same times as one the day before. The intended check reports nothing. The as-written check reports the other day's registration, because its `orWhere` groups escape the date scope. |
| Overlap.OpenCandidateInsideClosedSibling | backend/app/Services/TimeRegistrationService.php:42-46 | The commented fallback should report a closed sibling covering an open candidate's clock-in. The intended check reports it; the as-written check returns nothing. |
| Overlap.AsWrittenReportsIntendedConflicts | backend/app/Services/TimeRegistrationService.php:50-62 | The as-written check over-approximates: every conflict the intended check finds for a closed candidate also makes the as-written check report something. |
| Overlap.FormsAgreeOnSiblings | backend/app/Services/TimeRegistrationService.php:50-62 | When every row of the table is a sibling (same user and date, not excluded), both forms return the same registration for a closed candidate. |
| Overlap.FormsAgreeOnOpenSibling | backend/app/Services/TimeRegistrationService.php:36-40 | When an open sibling exists, both forms return the same registration for an open candidate. |
| Query.AllAndSelects | backend/app/Services/TimeRegistrationService.php:28-33 | A query made only of AND-ed `where` clauses selects a row exactly when every clause is true for it. |
| Query.FirstWhere | backend/app/Services/TimeRegistrationService.php:37 | `->first()`: the result is a row of the table the clauses select, and there is none exactly when they select no row. |
| Registrations.CalculateTotalHours | backend/app/Models/TimeRegistration.php:55-65 | Null exactly when clock-out is absent. Otherwise it is the whole-minute difference over 60, rounded to the nearest hundredth, and below 24.00, so it fits `decimal(5,2)`. |
| Registrations.Save | backend/app/Models/TimeRegistration.php:70-78 | After saving, total hours agree with the times. With a clock-out the total is recomputed; without one the record is unchanged. Only total hours can change. |
| Registrations.SaveIdempotent | backend/app/Models/TimeRegistration.php:70-78 | Saving twice is saving once. |
| Registrations.SaveKeepsConsistent | backend/app/Models/TimeRegistration.php:70-78 | A record whose total already agrees with its times is left unchanged by `save`. |
| Registrations.TotalHoursSymmetric | backend/app/Models/TimeRegistration.php:61-64 | The absolute minute difference makes the total independent of which end is clock-in. |
| Registrations.TenToOneIsThreeHours | backend/tests/Feature/TimeRegistrationEditTest.php:46-62 | 10:00 to 13:00 is exactly 3.00 hours. |
| Registrations.NewestFirstOrder | backend/app/Http/Controllers/Api/TimeRegistrationController.php:67-68 | The listing key orders by date descending, then clock-in descending. |
| Registrations.InsertKeepsIdsUnique | backend/app/Http/Controllers/Api/TimeRegistrationController.php:104-110 | Inserting a record whose id exceeds every stored id keeps ids unique. |
| Registrations.UpdateRowKeepsIds | backend/app/Http/Controllers/Api/TimeRegistrationController.php:170 | Writing a record back by id keeps ids unique and puts the record in the table when its id was there. |
| Schedules.CalculateTotalHours | backend/app/Models/Schedule.php:61-67 | Always defined: the minute difference over 60, rounded to a hundredth, below 24.00. |
| Schedules.Save | backend/app/Models/Schedule.php:72-78 | `save` always overwrites total hours with the computed value and changes nothing else. |
| Schedules.SaveDiscardsSuppliedHours | backend/database/seeders/ScheduleSeeder.php:82 | Whatever total the caller supplies, the saved schedule is the same. |
| Schedules.DayShiftHours | backend/database/seeders/ScheduleSeeder.php:40-42 | 08:00 to 16:00 is 8.00 hours. |
| Schedules.NightShiftHours | backend/database/seeders/ScheduleSeeder.php:58-59 | 16:00 to 00:00, both on the same day, is saved as 16.00 hours, not the 8.0 the seeder passes in. |
| Roles.RolesExclusive | backend/app/Models/User.php:76-87 | No user is both admin and manager. |
| Roles.PlainRolesUnprivileged | backend/app/Http/Controllers/Api/AuthController.php:63 | The default role 'employee' and the tests' role 'user' are neither admin nor manager. |
| Clocking.ActiveRegistration | backend/app/Traits/TimeRegistrationTrait.php:42-51 | Returns only an open registration of that user dated today, and returns none exactly when no such registration exists. |
| Clocking.ChosenCoordinates | backend/app/Traits/TimeRegistrationTrait.php:69-78 | Supplied coordinates are stored as given when both are present. Otherwise the generated pair is used. |
| Clocking.ClockInUser | backend/app/Traits/TimeRegistrationTrait.php:81-88 | Adds exactly one record under a fresh id: that user, dated today, clocked in now, open, 'pending', with no total. |
| Clocking.ClockInMakesActive | backend/app/Traits/TimeRegistrationTrait.php:42-51 | After clocking in the user is active today. If they were not active before, the new record is the active one. |
| Clocking.ClockOutUser | backend/app/Traits/TimeRegistrationTrait.php:126-146 | Sets clock-out to now and total hours to the computed value, and keeps every other field. The end coordinates are not fillable and are dropped. The record is written back in place. |
| Clocking.ClockOutEndsActive | backend/app/Traits/TimeRegistrationTrait.php:126-130 | After clocking out, the closed record is no longer an active registration of the user. |
| Clocking.DurationOf | backend/app/Traits/TimeRegistrationTrait.php:176-181 | The duration text exists exactly for a closed record. It reads back as h and m with 60h + m equal to the absolute minute difference and m < 60. |
| Clocking.UserStatus | backend/app/Traits/TimeRegistrationTrait.php:163-190 | Clocked in exactly when an active registration exists. The clock-in time is present exactly then and parses back to its clock-in. The duration is always null, because active registrations never have a clock-out. |
| RegistrationApi.Index | backend/app/Http/Requests/TimeRegistration/IndexTimeRegistrationRequest.php:27-31 | Refused (422) exactly when both bounds are sent and the end is before the start, or an unknown status is sent. Otherwise, before pagination, exactly the stored rows passing the role, date-range or single-date, and status filters of backend/app/Http/Controllers/Api/TimeRegistrationController.php:49-64, as a permutation of them, newest first. |
| RegistrationApi.IndexShowsOwnRows | backend/app/Http/Controllers/Api/TimeRegistrationController.php:49-53 | A plain user sees only their own registrations, whatever they ask for. |
| RegistrationApi.IndexNewestFirst | backend/app/Http/Controllers/Api/TimeRegistrationController.php:67-68 | In the listing a later date comes first, and on the same date a later clock-in. |
| RegistrationApi.OneSidedRangeIgnored | backend/app/Http/Controllers/Api/TimeRegistrationController.php:56-60 | A start date sent without an end date passes validation (every rule is `sometimes`) and is then ignored: the listing equals the one for the same query without it. |
| RegistrationApi.Recent | backend/app/Http/Controllers/Api/TimeRegistrationController.php:276-296 | Only the caller's own rows, newest first, and as many as the limit allows (5 by default). No own row left out is newer than a row kept. |
| RegistrationApi.StoreRegistration | backend/app/Http/Controllers/Api/TimeRegistrationController.php:77-113 | Creating for another user is refused with 403 unless the caller is admin or manager; nothing is checked or created. Otherwise 422 with an unchanged table exactly when the overlap check returns a registration, and that registration is the one named. Otherwise exactly one 'pending' record with the request's values is appended under a fresh id. The check is a parameter: the controller runs the as-written form, and the intended form is the corrected variant. |
| RegistrationApi.StoreAddsNoClash | backend/app/Http/Controllers/Api/TimeRegistrationController.php:89-100 | In either form of the check, a closed registration created by `store` clashes with none of its siblings. |
| RegistrationApi.StoreKeepsOneOpenPerDay | backend/app/Http/Controllers/Api/TimeRegistrationController.php:89-110 | In either form of the check, `store` never gives a user a second open registration on a date. |
| RegistrationApi.StoreRefusedByOtherUsersRow | backend/app/Http/Controllers/Api/TimeRegistrationController.php:89-100 | As written, a registration of another user, on any date, whose interval covers the new clock-out refuses the creation with 422. The intended check creates it when the caller has no rows. |
| RegistrationApi.RegistrationById | backend/app/Http/Controllers/Api/TimeRegistrationController.php:118 | Route model binding finds the record with that id, or none when no record has it. |
| RegistrationApi.Show | backend/app/Http/Controllers/Api/TimeRegistrationController.php:118-128 | An unknown id gives 404. A known record gives 403 exactly when the caller is neither its owner nor an admin or manager, and 200 with the record otherwise. |
| RegistrationApi.Update | backend/app/Http/Controllers/Api/TimeRegistrationController.php:133-173 | Requires what the edit FormRequest lets through: a known status (pending, approved or rejected) when one is sent, and a clock-out after the clock-in when both are sent. A 403 goes to a non-owner who is neither admin nor manager, and to such a caller sending a status. For a caller past both guards: 422 with an unchanged table exactly when date, clock-in or clock-out is sent and the overlap check (excluding the record, a null clock-out falling back to the stored one) returns a registration, which the reply names. Otherwise 200, and every sent field (user_id, date, clock-in, clock-out, coordinates, notes, status, and total_hours while open) overwrites the stored one, the total is recomputed when closed, and the record is written back in place. The controller runs the as-written form. |
| RegistrationApi.UpdateById | backend/app/Http/Controllers/Api/TimeRegistrationController.php:133 | Under the same FormRequest precondition as `Update`: an unknown id is 404, and a known one is edited as `Update` states. |
| RegistrationApi.EditWithValidData | backend/tests/Feature/TimeRegistrationEditTest.php:30-62 | In both forms of the check, the test's edit of 09:00-12:00 to 10:00-13:00 succeeds and stores 3.00 hours. |
| RegistrationApi.EditWithOverlappingData | backend/tests/Feature/TimeRegistrationEditTest.php:69-113 | The test's overlapping edit is refused with 422 and the table is unchanged. As written the reply names the edited registration itself; with the intended check it names the 13:00 registration. |
| RegistrationApi.EditRefusedByItself | backend/app/Http/Controllers/Api/TimeRegistrationController.php:149-160 | As written, an allowed edit of a closed registration whose new clock-out falls within its stored interval is refused with 422, however it is sent. The intended check accepts the same edit of a registration without siblings. |
| RegistrationApi.ClockIn | backend/app/Http/Controllers/Api/TimeRegistrationController.php:178-206 | 422 "You are already clocked in" with the active registration exactly when one exists today, and the table unchanged. Otherwise 201 with a new active registration starting now. |
| RegistrationApi.ClockInKeepsOneOpenPerDay | backend/tests/Feature/TimeRegistrationTest.php:74-95 | Clocking in never gives a user a second open registration on a date. |
| RegistrationApi.ClockOut | backend/app/Http/Controllers/Api/TimeRegistrationController.php:238-258 | 404 exactly when there is no active registration today, and 200 exactly when there is one. The reply carries that registration with clock-out set to now and every other field kept except the recomputed total, which is consistent with the times; the table has it written back in place. |
| RegistrationApi.ClockOutKeepsOneOpenPerDay | backend/app/Http/Controllers/Api/TimeRegistrationController.php:245-257 | Clocking out keeps at most one open registration per user and date. |
| RegistrationApi.NullClockOutEdit | backend/app/Http/Controllers/Api/TimeRegistrationController.php:149-170 | Sending clock_out as null checks the stored clock-out but stores null. As written, the check matches the closed record itself and the edit is refused. With the intended check it succeeds, and a user with an open registration ends up with two open registrations on one day. |
| ScheduleApi.ScheduleById | backend/app/Http/Controllers/Api/ScheduleController.php:74 | Route model binding finds the schedule with that id, or none when no schedule has it. |
| ScheduleApi.EarliestFirstOrder | backend/app/Http/Controllers/Api/ScheduleController.php:39-40 | The listing key orders by date, then start time, ascending. |
| ScheduleApi.Index | backend/app/Http/Controllers/Api/ScheduleController.php:15-42 | Before pagination: exactly the stored schedules passing the role, date and location filters, as a permutation of them, earliest first. |
| ScheduleApi.IndexShowsOwnSchedules | backend/app/Http/Controllers/Api/ScheduleController.php:20-25 | Plain users only see their own schedules. |
| ScheduleApi.WeekStart | backend/app/Http/Controllers/Api/ScheduleController.php:194 | The start of the week is the Monday on or before today. |
| ScheduleApi.CurrentWeek | backend/app/Http/Controllers/Api/ScheduleController.php:190-204 | Exactly the caller's schedules from that Monday to the Sunday after, earliest first. |
| ScheduleApi.CurrentWeekHoldsToday | backend/app/Http/Controllers/Api/ScheduleController.php:194-198 | A schedule of the caller dated today is in the current week. |
| ScheduleApi.StoreSchedule | backend/app/Http/Controllers/Api/ScheduleController.php:47-69 | 403 exactly for callers who are neither admin nor manager. For the others, 422 exactly when the end time is not after the start time. Otherwise 201 with one schedule appended under a fresh id: the request's values, `is_recurring` defaulting to false, and computed total hours. |
| ScheduleApi.ShowSchedule | backend/app/Http/Controllers/Api/ScheduleController.php:74-84 | Shown exactly when the schedule exists and the caller owns it or is admin or manager. Otherwise 404 for an unknown id and 403 for a known one. |
| ScheduleApi.UpdateSchedule | backend/app/Http/Controllers/Api/ScheduleController.php:89-111 | 404 for an unknown id and 403 for a plain caller, then 422 when both times are sent and the end is not after the start, each with the table unchanged. Exactly the remaining requests succeed with 200: each sent field (user, date, times, location, recurring flag, pattern) overwrites the stored one, the total is recomputed, and the schedule is written back in place. |
| ScheduleApi.UpdateIgnoresSuppliedTotal | backend/app/Http/Controllers/Api/ScheduleController.php:108 | A total_hours sent with an update has no effect on the result. |
| ScheduleApi.DestroySchedule | backend/app/Http/Controllers/Api/ScheduleController.php:116-128 | Deletes exactly when the schedule exists and the caller is admin or manager. The remaining table is the old one without that id. |
| ScheduleApi.OnlySupervisorsChangeSchedules | backend/app/Http/Controllers/Api/ScheduleController.php:47-128 | For a plain user, store, update and destroy leave the table unchanged and answer 403. |
| ScheduleApi.GetByDate | backend/app/Http/Controllers/Api/ScheduleController.php:133-185 | 422 exactly when the text is not 4 digits, '-', 2 digits, '-', 2 digits. A stored schedule of the caller on that date is returned when one exists. Otherwise the 08:00-17:00 mock is returned for today and the 09:00-18:00 mock for tomorrow. The reply is 404 exactly when none of these applies. |
| ScheduleApi.MocksAreNineHours | backend/app/Http/Controllers/Api/ScheduleController.php:156-172 | Both mocks claim 9.0 hours, which is what their times give. |
| ScheduleApi.NoDayInMonthNinetyNine | backend/app/Http/Controllers/Api/ScheduleController.php:138 | No calendar day renders as '2025-99-99'. |
| ScheduleApi.NonCalendarShape | backend/app/Http/Controllers/Api/ScheduleController.php:138 | '2025-99-99' passes the shape check. |
| ScheduleApi.NonCalendarDatePassesShape | backend/app/Http/Controllers/Api/ScheduleController.php:138-180 | '2025-99-99' passes the check and, with nothing stored for it, is answered 404, not 422. |
| ScheduleApi.GenerateRecurring | backend/app/Http/Controllers/Api/ScheduleController.php:209-260 | 403 for plain callers, then 422 exactly when the end date is not after the start date, the end time not after the start time, the weekday list is empty, or a weekday is outside 0-6. Otherwise every created schedule's date lies in [start, end] with a selected weekday and copies the request's user, times and location, with is_recurring true and pattern 'weekly'. Every selected day gets a schedule, in strictly increasing date order, under fresh ids, and the message reports the count. |
| ScheduleApi.CreatedWhenDone | backend/app/Http/Controllers/Api/ScheduleController.php:237-253 | When the day loop passes the end date, the schedules built so far are exactly one per selected day, in order. |
| ScheduleApi.AppendKeepsCreated | backend/app/Http/Controllers/Api/ScheduleController.php:239-250 | Creating a schedule for a selected day keeps the loop invariant for the next day. |
| ScheduleApi.SkipKeepsCreated | backend/app/Http/Controllers/Api/ScheduleController.php:237-254 | Skipping an unselected day keeps the loop invariant for the next day. |
| Resources.RecentHoursText | backend/app/Http/Resources/RecentTimeRegistrationResource.php:21-30 | For a positive total the text reads back as h and m with 60h + m = total and m < 60. For zero minutes the falsy checks blank both parts, so the text is literally "h m". |
| Resources.RecentEntry | backend/app/Http/Resources/RecentTimeRegistrationResource.php:16-37 | Copies the plain fields and renders times as HH:MM. The totals are present exactly for a closed registration. total_hours_decimal is the model's rounded total. |
| Resources.RecentZeroMinutes | backend/app/Http/Resources/RecentTimeRegistrationResource.php:21-31 | A registration closed at its own clock-in shows "h m" and 0 hours. |
| Resources.FractionMinutes | backend/app/Http/Resources/AdminTimeRegistrationResource.php:25 | The minutes of the fractional hour are the nearest whole number to fraction times 60, and never more than 59 for two-decimal totals. |
| Resources.HoursAndMinutesTrimmed | backend/app/Http/Resources/AdminTimeRegistrationResource.php:26-27 | Zero hours or zero minutes are omitted, and the trimmed text has no stray space. |
| Resources.AdminHoursText | backend/app/Http/Resources/AdminTimeRegistrationResource.php:22-28 | Null exactly for a null or zero total. Otherwise the text is "Xh Ym", "Xh" or "Ym" from the whole hours and rounded minutes, never empty. |
| Resources.AdminHoursTwoAndAHalf | backend/app/Http/Resources/AdminTimeRegistrationResource.php:21 | 2.50 hours is shown as "2h 30m". |
| Resources.AdminHoursHalf | backend/app/Http/Resources/AdminTimeRegistrationResource.php:26 | 0.50 hours is shown as "30m". |
| Resources.AdminHoursThree | backend/app/Http/Resources/AdminTimeRegistrationResource.php:26-27 | 3.00 hours is shown as "3h". |
| Resources.AdminEntry | backend/app/Http/Resources/AdminTimeRegistrationResource.php:16-54 | Carries the registration and its HH:MM times. The clock-out text is null exactly for an open registration. The formatted total is `AdminHoursText`. |
| Durations.ReadHoursMinutesText | backend/app/Traits/TimeRegistrationTrait.php:181 | The "{h}h {m}m" text reads back to exactly (h, m). |
| Durations.DurationText | backend/app/Traits/TimeRegistrationTrait.php:178-181 | The text of a minute count reads back as h = floor(total/60) and m = total mod 60. |
| Durations.DurationTextInjective | backend/app/Traits/TimeRegistrationTrait.php:178-181 | Different minute counts give different texts. |
| AdminRegistrations.DateWindow | backend/app/Http/Controllers/Api/AdminTimeRegistrationController.php:24-25 | The end defaults to today and the start to seven days before the end. |
| AdminRegistrations.DefaultWindowIsEightDays | backend/app/Http/Controllers/Api/AdminTimeRegistrationController.php:24-36 | With no dates sent, a day is listed exactly when it is today or one of the seven days before. The window starts on today's weekday. |
| AdminRegistrations.WindowRows | backend/app/Http/Controllers/Api/AdminTimeRegistrationController.php:35-39 | Exactly the rows dated within the window, as a permutation of them, newest first. |
| AdminRegistrations.AdminIndex | backend/app/Http/Requests/AdminTimeRegistration/IndexAdminTimeRegistrationRequest.php:12-28 | 403 exactly for callers who are neither admin nor manager. For the others, 422 exactly when both dates are sent and the end is before the start. Otherwise one entry per row in the window the controller computes. |
| AdminRegistrations.RenderWindow | backend/app/Http/Controllers/Api/AdminTimeRegistrationController.php:48 | Each listed row becomes its resource entry, in order. |
| AdminRegistrations.AdminIndexListsWindow | backend/app/Http/Controllers/Api/AdminTimeRegistrationController.php:35-48 | The listing holds every row in the window and nothing else, each rendered by the resource, newest first. |
| AdminRegistrations.FutureStartListsNothing | backend/app/Http/Controllers/Api/AdminTimeRegistrationController.php:24-36 | A start date after today, sent without an end date, passes validation; the end defaults to today, so nothing is listed. |
| Reports.TimeReportPathInjective | backend/app/Http/Controllers/Api/ReportController.php:45-50 | For one user, the report path determines the start date, the end date and the format. |
| Reports.GenerateTimeReport | backend/app/Http/Controllers/Api/ReportController.php:18-70 | Invalid input is refused: an unknown user, an end before the start, or a format other than pdf or excel. A plain caller asking for another user gets 403. Exactly the remaining requests succeed: one report is appended, with path "reports/time_report_{personal_id}_{start}_{end}.{format}", and the count is the target user's registrations in the range. |
| Reports.OwnTimeReportAllowed | backend/app/Http/Controllers/Api/ReportController.php:30-34 | Any user may generate a valid report about themselves. |
| Reports.GenerateStaffRegistry | backend/app/Http/Controllers/Api/ReportController.php:75-124 | 403 exactly for plain callers. Invalid input is refused: an unknown location or an end before the start. Exactly the remaining requests succeed: one pdf report is appended with path "reports/staff_registry_{location}_{start}_{end}.pdf". |
| Reports.RegistryCountIgnoresLocation | backend/app/Http/Controllers/Api/ReportController.php:91-96 | The registry's count is the same for every location: the query never filters by location. |
| Reports.VisibleReports | backend/app/Http/Controllers/Api/ReportController.php:136-144 | Exactly the reports the caller may see, newest first. Plain users see those where they are the user or the creator. |
| Reports.RecentReports | backend/app/Http/Controllers/Api/ReportController.php:129-149 | At most `limit` (10 by default) visible reports, all of them visible. |
| Reports.RecentReportsNewestFirst | backend/app/Http/Controllers/Api/ReportController.php:144-145 | Recent reports come newest first, and no visible report left out is newer than one listed. |
| Reports.DownloadReport | backend/app/Http/Controllers/Api/ReportController.php:154-170 | Download is allowed exactly for the report's user, its creator, an admin or a manager. Anyone else gets 403. |
| Reports.RecentReportsDownloadable | backend/app/Http/Controllers/Api/ReportController.php:136-162 | Every report in a caller's recent list can be downloaded by that caller. |
| Locations.LocationById | backend/app/Http/Controllers/Api/LocationController.php:57 | Route model binding finds the location with that id, or none when no location has it. |
| Locations.Index | backend/app/Http/Controllers/Api/LocationController.php:14-28 | Open to every caller: the locations whose name or address contains the search text, as a permutation of them, sorted by name. |
| Locations.IndexWithoutSearchListsAll | backend/app/Http/Controllers/Api/LocationController.php:19-27 | Without a search every location is listed. |
| Locations.ShowLocation | backend/app/Http/Controllers/Api/LocationController.php:57-61 | Any caller sees an existing location; an unknown id is 404. |
| Locations.StoreLocation | backend/app/Http/Controllers/Api/LocationController.php:33-52 | 403 exactly for callers who are neither admin nor manager. For the others, 422 exactly when the name or the address is empty or longer than 255 characters. Otherwise the location is appended under a fresh id with the request's values. |
| Locations.UpdateLocation | backend/app/Http/Controllers/Api/LocationController.php:66-85 | 404 for an unknown id and 403 for plain callers, then 422 when a sent name or address is empty or longer than 255 characters, each with the table unchanged. Exactly the remaining requests succeed: each sent field overwrites the stored one, in place. |
| Locations.SchedulesAt | backend/app/Http/Controllers/Api/LocationController.php:100-103 | Exactly the schedules that reference the location. |
| Locations.DestroyLocationAsWritten | backend/app/Http/Controllers/Api/LocationController.php:90-110 | As written: 404 for an unknown id and 403 for non-admins. For an admin the call to the undefined `schedules()` relation fails with a server error. The table is never changed. |
| Locations.DestroyLocation | backend/app/Http/Controllers/Api/LocationController.php:90-110 | As intended: only admins may delete. A location referenced by schedules gives 422 with the (positive) count and no deletion. It is removed exactly when it exists, the caller is an admin, and no schedule references it. |
| Locations.DestroyKeepsReferences | backend/app/Http/Controllers/Api/LocationController.php:99-107 | Deletion never leaves a schedule pointing at a missing location. |
| Locations.ManagersCreateButCannotDelete | backend/app/Http/Controllers/Api/LocationController.php:38-97 | A manager can create a valid location but gets 403 when deleting one. |
| Locations.AsWrittenNeverDeletes | backend/app/Models/Location.php:38-49 | An admin deleting an unreferenced location gets a server error as written, while the intended guard deletes it. |
| Locations.GetNearby | backend/app/Http/Controllers/Api/LocationController.php:115-140 | Returns every location whatever the coordinates, echoes them, and the radius defaults to 5. |
| OvertimeRules.RuleById | backend/app/Http/Controllers/Api/OvertimeRuleController.php:66 | Route model binding finds the rule with that id, or none when no rule has it. |
| OvertimeRules.Index | backend/app/Http/Controllers/Api/OvertimeRuleController.php:14-36 | 403 exactly for non-admins, managers included. Otherwise the rules matching the is_active and type filters, when given, as a permutation of them, sorted by name. |
| OvertimeRules.ActiveRules | backend/app/Http/Controllers/Api/OvertimeRuleController.php:123-128 | With no role check: exactly the active rules, sorted by name. |
| OvertimeRules.ActiveRulesAreFilteredIndex | backend/app/Http/Controllers/Api/OvertimeRuleController.php:123-128 | For an admin, `index` filtered to active rules gives the same list as `getActiveRules`. |
| OvertimeRules.StoreRule | backend/app/Http/Controllers/Api/OvertimeRuleController.php:41-61 | 403 exactly for non-admins. An empty name or one over 255 characters, an unknown type, or a multiplier below 1 is refused. Exactly the remaining requests succeed: the rule is appended under a fresh id, active by default. |
| OvertimeRules.ShowRule | backend/app/Http/Controllers/Api/OvertimeRuleController.php:66-76 | An existing rule is shown to admins only; others get 403 and an unknown id 404. |
| OvertimeRules.UpdateRule | backend/app/Http/Controllers/Api/OvertimeRuleController.php:81-101 | 404, 403 for non-admins, and a refusal for a sent name that is empty or over 255 characters, or an invalid type or multiplier, each leaving the table unchanged. Exactly the remaining requests succeed: the sent fields overwrite the stored ones, in place. |
| OvertimeRules.UpdateKeepsRulesValid | backend/app/Http/Controllers/Api/OvertimeRuleController.php:90-98 | If every stored rule has a name of 1 to 255 characters, a known type and a multiplier of at least 1, that still holds after an update. |
| OvertimeRules.DestroyRule | backend/app/Http/Controllers/Api/OvertimeRuleController.php:106-118 | Deletes exactly when the rule exists and the caller is admin. The rest of the table is kept. |
| OvertimeRules.ManagersRefused | backend/app/Http/Controllers/Api/OvertimeRuleController.php:14-118 | A manager gets 403 from index, store, show, update and destroy, and nothing changes. |
| EditPayload.NormaliseClockIn | frontend/src/services/dashboardSimple/timeTrackingService.js:32-34 | A truthy 5-character clock_in gets ":00" appended. Every other key is unchanged. |
| EditPayload.NormaliseClockOut | frontend/src/services/dashboardSimple/timeTrackingService.js:35-39 | A truthy 5-character clock_out gets ":00" appended and an empty one becomes null. Every other key is unchanged. |
| EditPayload.Normalise | frontend/src/services/dashboardSimple/timeTrackingService.js:31-39 | The copy has the same keys, and every key other than the two times passes through unchanged. |
| EditPayload.NormaliseCompletesTimes | frontend/src/services/dashboardSimple/timeTrackingService.js:32-39 | "HH:MM" times become "HH:MM:00", and an empty clock-out becomes null. |
| EditPayload.NormaliseEstablishes | frontend/src/services/dashboardSimple/timeTrackingService.js:31-39 | After normalisation neither time is a 5-character string and clock-out is not empty. |
| EditPayload.NormaliseIdempotent | frontend/src/services/dashboardSimple/timeTrackingService.js:31-39 | Normalising twice is normalising once. A normalised payload, with 8-character times or null, is left alone. |
| Formatters.FormatTime | frontend/src/utils/formatters.js:2-14 | '-' for a falsy value and a 5-character value unchanged. Any other value takes the locale branch, which is not modelled. |
| Formatters.RecentTimesDisplayedAsSent | frontend/src/utils/formatters.js:5 | The HH:MM times the recent-registration resource sends are displayed unchanged. |
| Formatters.StatusColor | frontend/src/utils/formatters.js:29-36 | approved, rejected and pending map to success, error and warning, each in both directions. Anything else maps to grey. |
| Formatters.NewRegistrationShownAsWarning | frontend/src/utils/formatters.js:33 | A freshly created (pending) registration is shown in the warning colour. |
| Formatters.FormatHoursAndMinutes | frontend/src/utils/formatters.js:39-46 | '-' exactly for null or zero. Otherwise the text always has both parts: the whole hours and the minutes nearest to fraction times 60. |
| Formatters.HoursTextsAgreeWhenBothParts | frontend/src/utils/formatters.js:39-46 | When both parts are non-zero the front end and the admin resource render a total identically. |
| Formatters.ThreeHoursRenderedTwoWays | frontend/src/utils/formatters.js:45 | 3.00 hours is "3h 0m" on the front end but "3h" in the admin resource. |
| Formatters.AvatarUrl | frontend/src/utils/formatters.js:49-51 | The URL is the avatar base followed by digits that read back as the user id. |
| Formatters.AvatarUrlInjective | frontend/src/utils/formatters.js:49-51 | Different users get different avatar URLs. |
| Router.FindRoute | frontend/src/router/index.ts:17-83 | The record with that exact path when one exists; otherwise the catch-all. |
| Router.Resolve | frontend/src/router/index.ts:93-94 | A path matches exactly one record of the table. |
| Router.Decide | frontend/src/router/index.ts:103-115 | '/login' exactly when the route requires a session and there is none. '/dashboard' exactly when, failing that, the route requires admin and the user is not an admin, or the target is '/login' with a session. The decision is always allow, '/login' or '/dashboard'. |
| Router.Guard | frontend/src/router/index.ts:91-116 | With a token but no user loaded the session is checked first. The decision is taken on the state after that. |
| Router.FindRouteByPath | frontend/src/router/index.ts:17-83 | In a table without repeated paths a record is found by its own path. |
| Router.AdminPages | frontend/src/router/index.ts:42-76 | Exactly '/admin/time-registrations' and '/users' require the admin role. |
| Router.SessionPages | frontend/src/router/index.ts:17-83 | Every known page except '/' and '/login' requires a session; unknown paths do not. |
| Router.SignedOutAdminPageGoesToLogin | frontend/src/router/index.ts:103-108 | Without a session an admin page redirects to '/login', not '/dashboard', because the session rule is checked first. |
| Router.ManagerAdminPageGoesToDashboard | frontend/src/router/index.ts:106-108 | A signed-in manager asking for an admin page is sent to '/dashboard'. |
| Router.RestoredAdminSessionAllowed | frontend/src/router/index.ts:97-101 | A stored token whose user is fetched as an admin reaches an admin page without signing in again. |
| AuthStore.Initial | frontend/src/stores/auth.ts:16-20 | The session starts with the stored token and no user. The header is restored only for a non-empty token. |
| AuthStore.Login | frontend/src/stores/auth.ts:27-50 | Returns true exactly on a server answer. Success stores the user and token, saves the token and sets the bearer header. Failure changes nothing. |
| AuthStore.Logout | frontend/src/stores/auth.ts:52-63 | Ends signed out, with user, token, saved token and header cleared, whatever the server answered. |
| AuthStore.CheckAuth | frontend/src/stores/auth.ts:65-79 | Without a token: false and no change. On success the user is set and the token kept. On failure everything is cleared. |
| AuthStore.ActionsKeepMirrored | frontend/src/stores/auth.ts:27-79 | Every action keeps the saved token and the header in step with the token. |
| AuthStore.LoginAuthenticatesIffTokenNonEmpty | frontend/src/stores/auth.ts:23-45 | Login reports success for any answer, but the session counts as authenticated only when the token is non-empty. |
| AuthStore.Bearer | frontend/src/stores/auth.ts:42 | The header is "Bearer " followed by the token. |
| Snackbar.ShowMessage | frontend/src/stores/snackbar.js:11-16 | Sets message, colour and timeout, and shows the bar. |
| Snackbar.ShowVariant | frontend/src/stores/snackbar.js:18-32 | Each variant shows the message in its own colour, with the variant's default timeout unless one is given. |
| Snackbar.Hide | frontend/src/stores/snackbar.js:34-36 | Hides the bar and keeps message, colour and timeout. |
| Snackbar.VariantTimeoutsOrdered | frontend/src/stores/snackbar.js:18-32 | Errors stay longest (5000), then warnings (4000), then success and info (3000). The variants' colours are distinct. |
| Snackbar.ShowForgetsPrevious | frontend/src/stores/snackbar.js:11-36 | Showing a message does not depend on the previous state, and hiding then showing is just showing. |
| UseApi.HandleApiError | frontend/src/composables/useApi.ts:29-61 | Warning colour with the server's message exactly for a 422 that carries one. 401 gives the session-expired text. Other responses give "Server error: " plus the message or 'Unknown error'. No response gives the no-response text, and anything else "Error: " plus the reason. The bar is always shown. |
| UseApi.HandledFailureForgetsBar | frontend/src/composables/useApi.ts:29-61 | A handled error's bar depends only on the error and the timeout. |
| UseApi.BareValidationFailureIsServerError | frontend/src/composables/useApi.ts:35-47 | A 422 without a message is reported as "Server error: Unknown error" in the error colour. |
| UseApi.ApiRequest | frontend/src/composables/useApi.ts:64-107 | `loading` is false on exit. Data is returned exactly when the method is supported and the request succeeded. An unsupported method is reported as "Unsupported method: …". On success with notification the bar shows the given or default message in the success colour. |
| UseApi.MethodCaseIgnored | frontend/src/composables/useApi.ts:76 | The method is matched case-insensitively. |
| UseApi.UnsupportedMethodReported | frontend/src/composables/useApi.ts:76-103 | 'PATCH' returns nothing and shows "Error: Unsupported method: PATCH". 'Get' behaves like 'get'. |
| ErrorHandler.FormatErrorMessage | frontend/src/utils/errorHandler.ts:11-52 | One message per kind of error: validation lists all messages joined by ", "; API error with status and message, or with status and status text; network error; request error; plain error; unknown. |
| ErrorHandler.TextNamesKind | frontend/src/utils/errorHandler.ts:11-52 | The message's prefix identifies which kind of error produced it. |
| ErrorHandler.ValidationListsMessages | frontend/src/utils/errorHandler.ts:21-26 | Per-field message lists are flattened in order: [[a], [b, c]] gives "Validation error: a, b, c". |
| ErrorHandler.ValidationNamesEveryMessage | frontend/src/utils/errorHandler.ts:21-26 | For any validation reply, every message of every field occurs in the formatted text. |
| ErrorHandler.HandleApiError | frontend/src/utils/errorHandler.ts:57-84 | Returns exactly the formatted message. The logged line is that message, prefixed by "[context] " when a context is given. |
| Clock.ParseFormatHms | backend/app/Http/Requests/TimeRegistration/StoreTimeRegistrationRequest.php:28-29 | Every time of day renders as `H:i:s` text that parses back to it. |
| Clock.MinutesBetweenSymmetric | backend/app/Traits/TimeRegistrationTrait.php:178 | The absolute whole-minute difference does not depend on argument order. |
| Clock.NearestHundredthUnique | backend/app/Models/TimeRegistration.php:64 | `round(minutes / 60, 2)` is the one hundredth within half a hundredth of the exact value. |
| Calendar.WeekdayNext | backend/app/Http/Controllers/Api/ScheduleController.php:239-253 | Advancing one day advances the weekday by one, modulo 7. |
| Calendar.DaysFromCivilFromDays | backend/app/Http/Controllers/Api/ScheduleController.php:242 | Converting a day number to a calendar date and back gives the same day. |
| Calendar.FormatDayInjective | backend/app/Http/Controllers/Api/ScheduleController.php:142-151 | Different days render as different `Y-m-d` texts. |
| Calendar.CalendarAnchors | backend/tests/Feature/TimeRegistrationEditTest.php:38 | 1970-01-01 is day 0, a Thursday; 2025-05-28, the tests' date, is day 20236, a Wednesday. |

## Left out

- Carbon parsing, timezones and `now()`: "today" and "now" are parameters. Times are assumed to be normalised times of day, not the `Y-m-d H:i:s` datetimes a cast attribute would give.
- Pagination (`paginate($request->per_page ?? 15)`): listings are modelled before pagination.
- Reports.GenerateTimeReport: the file path is built from dates rendered as `Y-m-d`, while the source concatenates the request's raw date text. The two agree for dates sent in that form; other accepted spellings (`2025-5-1`, `May 1 2025`) give a different path in the source.
- Reports.GenerateStaffRegistry: the same holds for the staff registry's path.
- SQL `LIKE` collation and wildcards: location search is plain substring containment on code points, and `orderBy('name')` is code-point order.
- Laravel's validator and FormRequest classes. A FormRequest (the time-registration store and update requests) refuses a request before the controller runs, so its rules appear as a `requires`: the clock-out-after-clock-in rule on `RegistrationApi.StoreRegistration`, and that rule together with the status rule (`in:pending,approved,rejected`) on `RegistrationApi.Update` and `RegistrationApi.UpdateById`. Every other modelled rule is an explicit 422 branch, placed after the guards that come first in the source: the listing filters of `RegistrationApi.Index` and `AdminRegistrations.AdminIndex`, the time and date order and the non-empty weekday list (`required` refuses an empty array) of the schedule endpoints, the report checks, and the `required|string|max:255` names and addresses and the type and multiplier rules of locations and overtime rules. Laravel skips every rule of an absent key marked `sometimes`, `required_with` included, and the non-implicit rules of any absent key, so a one-sided date range passes. Not modelled: `exists:` lookups other than the report's user and location, `date_format`, `per_page`, and the `string`, `boolean` and `numeric` type rules, which the model's field types stand in for. Laravel's TrimStrings and ConvertEmptyStringsToNull middleware are not modelled: a string arrives as given, so a name of spaces only counts as non-empty.
- RegistrationApi.Recent: the 1-50 bound on `limit` is not checked; the limit is taken as given.
- ScheduleApi.StoreSchedule: `recurrence_pattern` (`required_if:is_recurring,true|in:daily,weekly,monthly`) is not validated, and neither is it in `ScheduleApi.UpdateSchedule`.
- ScheduleApi.UpdateSchedule: an end time sent without a start time is not compared with the stored start time, as in the source.
- PHP's loose comparison: user ids are compared as numbers, though `!==` on an unconverted request value could differ.
- The schedules migration is not part of this model. `ScheduleApi.StoreSchedule` assumes `is_recurring` defaults to false.
- `generateRandomSwedishCoordinates`, events, listeners and logging: generated coordinates are a parameter, and logging has no effect in the model.
- `isClockIn` and `status`: both return `Clocking.UserStatus` through a field-copying resource.
- The end coordinates of clock-out: they are not fillable and are dropped, and the model does not store them.
- The test at backend/tests/Feature/TimeRegistrationTest.php:148-151 expects 422 for clocking out without an active registration. The code answers 404, and the model follows the code.
- `calculateStatistics`, `formatDate` and the locale branch of `formatTime`: they depend on JavaScript `Date`, `toLocale*String` and float rounding.
- Formatters.FormatHoursAndMinutes: the input is a two-decimal total in hundredths, so the float arithmetic of `Math.round` is not modelled. A fraction whose minutes round to 60 cannot arise from two decimals.
- Router: route matching is exact-path only. Vue Router's case-insensitive and trailing-slash matching, nested routes and params are not modelled. Console output is left out.
- AuthStore: the transport is left out. The server's answers are inputs, and the result of the logout call is ignored, as in the source. main.ts's request interceptor is not part of this model.
- UseApi: only the snackbar state and `loading` are modelled, not the axios call. `ToLower` covers ASCII letters only.
- ErrorHandler: a response with a null body (`data.errors` on null) is not modelled. `console.error` output is represented by the returned log line.
- OvertimeRules: the multiplier is held in hundredths (1.5 is 150), and the validator's `min:1` is a multiplier of at least 100. A multiplier with more than two decimals, such as 1.255, is not represented.
- Locations.GetNearby: coordinates are integers and the radius is a real. The 0.1-50 radius validation is not modelled.
- Coordinates: latitude and longitude of registrations (Registrations.Registration, RegistrationApi.StoreRequest, RegistrationApi.UpdateRequest, Clocking) and of locations are integers, while the rules accept any number (`nullable|numeric`) and the columns hold decimals. The model never computes with them, only stores and echoes them, so the fractional part is not represented.

## Findings

| source | as written | input that shows it | evidently intended | confidence | as-written member | corrected member |
|---|---|---|---|---|---|---|
| backend/app/Services/TimeRegistrationService.php:50-62 | The two `orWhere` groups are appended at the top level, so SQL's AND-over-OR precedence leaves them outside the user/date/exclusion scope | Registration A: 09:00-12:00 on 2025-05-28. Registration B: 10:00-14:00 on 2025-05-29, same user. B is edited to 09:00-12:00. The check reports A, so the edit is refused | All three interval tests are scoped to the same user and date and exclude the edited registration, as the test at backend/tests/Feature/TimeRegistrationEditTest.php:117-153 expects | high; not executed | Overlap.EditBesideOtherDate | Overlap.FindOverlap |
| backend/app/Services/TimeRegistrationService.php:37-46 | `whereNull('clock_out')` mutates the shared builder, so the fallback asks for `clock_out >= clockIn` on rows whose clock-out is NULL and never matches | A closed sibling 09:00-12:00 and an open candidate clocking in at 10:00 on the same day: nothing is reported | The fallback reports a closed sibling whose interval contains the open candidate's clock-in, as its comment says | high; not executed | Overlap.OpenCandidateInsideClosedSibling | Overlap.FindOverlap |
| backend/app/Services/TimeRegistrationService.php:50-62 | The unscoped `orWhere` groups also match the edited registration, although the first group excludes it; the update path of backend/app/Http/Controllers/Api/TimeRegistrationController.php:149-160 passes the closed record's own interval whenever a time is not sent | The owner of 09:00-17:00 edits it to 10:00-16:00, or resends 09:00-17:00: the check returns the record itself and the edit is refused with 422. The edit test's overlapping case is refused naming the edited record, not the 13:00 one | An edit is checked only against the user's other registrations of that date | high; not executed | RegistrationApi.EditRefusedByItself | Overlap.FindOverlap |
| backend/app/Services/TimeRegistrationService.php:50-62 | The same groups ignore user and date on `store` | User 2 has 08:00-18:00 on 2025-05-01. User 1 creates 09:00-12:00 on 2025-06-01 with no registrations of their own: 422 naming user 2's registration | A new registration is checked only against the same user's registrations of that date | high; not executed | RegistrationApi.StoreRefusedByOtherUsersRow | Overlap.FindOverlap |
| backend/app/Http/Controllers/Api/LocationController.php:100-103 | `destroy` calls `$location->schedules()`, which backend/app/Models/Location.php:38-49 does not define, so every admin delete of an existing location fails with a server error | An admin deletes an existing location that no schedule references: 500, and nothing is deleted | Refuse with 422 while schedules reference the location; otherwise delete it | medium; not executed | Locations.AsWrittenNeverDeletes | Locations.DestroyLocation |
