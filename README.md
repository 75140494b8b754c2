# Turnos: appointment scheduling core in Dafny

This project models the scheduling core of the `turnos` medical-appointment backend.

**Scheduling**
- **Free slots.** A doctor's free slots on a date are computed from the weekly schedule windows minus the booked appointments. The loop is `getDoctorAvailability` with its `addMinutes` helper.
- **Appointment lifecycle.** This covers create, update (reschedule or status change), and the dedicated cancel, delete, confirm and complete operations.
- **Listing filter.** The `WHERE` clause that `getAllAppointments` builds.

**Doctors**
- Create, update and soft-delete a doctor.
- Replace a doctor's weekly schedule.

**Authentication and access**
- The token middlewares: `authenticateToken` and `optionalAuth`.
- The role guards: `requireRole`, `requireAdmin` and `requireStaff`.
- The access guards for a clinic, a doctor and a patient.

**Helpers these rely on**
- **JWT helpers.** Extracting a bearer token, building the token payload, and classifying verification errors.
- **Generic table helpers.** `create`, `update`, `softDelete`, `findById`, and the `findAll` query and page arithmetic.

How the system is represented:

- **Time.** Times of day are minutes since midnight. Dates are day numbers. The weekday of a date is an input.
- **Tables.** A table is a sequence of records. A record's id is its position plus one, as an auto-increment column gives. Each record carries an `is_active` flag.
  - `findById` sees only active rows.
  - The controllers' own `SELECT * … WHERE id = ?` sees every row (`Database.SelectById`).
  - The doctor schedule table has no id. Its rows are physically deleted.
- **Controllers.** Each controller is a module-level method that takes the `Store.Db` object holding the tables. It updates the tables it touches and returns `Ok(value)` or `Fail(code, message)`. The HTTP status codes and the Spanish messages are those the code sends.
- **Middlewares.** Each middleware returns `Next` or `Reject(code, message)`.

The model proves two invariants over the stored state:

- **NoDoubleBooking.** No two non-cancelled appointments of one doctor on one date overlap.
  - Create, cancel, confirm, complete and delete preserve it.
  - Update preserves it, except when it reopens a cancelled appointment in place. `ReopenCanDoubleBook` exhibits that case.
- **DistinctDoctors.** No two active doctors share a user or a licence number.
  - Create, update and delete preserve it.

The slot loop compares time texts. Its test `currentTime < endTime` holds on the window's start when `start < end`. After that `currentTime` is an `addMinutes` result `HH:MM`, and the end is a database `HH:MM:SS`. A proper prefix sorts first, so a grid point equal to the end still passes. The loop therefore offers the start when it is before the end, and every later grid point `t` with `t <= end`, even when `t + duration > end` (`Availability.Before`). `Availability.Scenarios` shows that 08:00–09:00 with 30-minute slots offers 08:00, 08:30 and 09:00, and that a 45-minute window yields two 30-minute slots. Slots from overlapping windows are kept twice (`Availability.DuplicatesKept`).

An update that carries both a date and a time is always handled as a move. The code compares the body's date text with the row's DATE column, which mysql2 returns as a `Date` object, so `!==` always holds. The time side compares `HH:MM` with `HH:MM:SS` and differs too. The availability check then runs even for unchanged values, and it counts the appointment's own row, so re-sending a live appointment's own date and time gets 409 (`Appointments.ResendOwnSlotRefused`).

## Model

| member | source | states |
|---|---|---|
| Text.SplitJoin | src/controllers/appointmentController.js:633 | `split` on a separator loses nothing: joining the pieces with that separator gives back the text |
| Text.Pad2 | src/controllers/appointmentController.js:637 | `padStart(2, '0')` of a number's decimal text is all digits, at least two long, exactly two below 100, and reads back as the number |
| Clock.NumberOf | src/controllers/appointmentController.js:633 | on digit-only pieces, `Number` yields the value, and the empty piece yields 0; every other piece reads as NaN (see Left out) |
| Clock.SignedRem60 | src/controllers/appointmentController.js:636 | `totalMinutes % 60` is the remainder that differs from the total by a multiple of 60, lies strictly between -60 and 60, and has the sign of the total (not Dafny's non-negative `%`) |
| Clock.FormatParse | src/controllers/appointmentController.js:635-637 | a formatted non-negative total reads back as that total |
| Clock.FormatIsNotNaN | src/controllers/appointmentController.js:637 | a formatted time, negative ones included, is never the text `NaN:NaN` |
| Clock.AddMinutesReadsBack | src/controllers/appointmentController.js:632-638 | `addMinutes(s, m)` on a readable `s`, with `m` of either sign and a sum that is not negative, reads back as the time of `s` plus `m`, with no wrap at 24:00 |
| Clock.AddMinutesNegative | src/controllers/appointmentController.js:632-638 | a negative sum gives signed pieces: hours `floor(sum / 60)` as a minus sign and digits, and minutes with the sign of the sum (or `00`); read as signed numbers they give the sum only on a whole hour, and an hour less otherwise |
| Clock.NegativeEndExample | src/controllers/appointmentController.js:591-594 | the end of an appointment stored at `00:05:00` with duration -10 is the text `-1:-5`, which stands for -65 minutes rather than -5 |
| Clock.AddMinutesNaNExactly | src/controllers/appointmentController.js:633-637 | `addMinutes` gives `NaN:NaN` exactly when its input has no readable hours and minutes |
| Clock.AddMinutesShape | src/controllers/appointmentController.js:635-637 | for a sum from 0 to just under 100 hours the result is five characters, two-digit hours, a colon, then two-digit minutes below 60 |
| Clock.SecondsIgnored | src/controllers/appointmentController.js:633 | a seconds piece (`HH:MM:SS`, as the database returns times) does not change the time read |
| AppointmentStatus.ParseStatus | src/controllers/appointmentController.js:385 | a status text maps to the status of that name, and every status name maps back to its status |
| AppointmentStatus.AcceptsRequestNamesTransition | src/controllers/appointmentController.js:370-383 | `validTransitions[current].includes(requested)` holds iff the requested text names a status the table allows from the current one |
| AppointmentStatus.TableShape | src/controllers/appointmentController.js:370-376 | completed and no_show have no exits; only cancelled moves to scheduled; only confirmed reaches completed and no_show; no status moves to itself |
| AppointmentStatus.WalkFacts | src/controllers/appointmentController.js:370-376 | along any chain of allowed changes, completed and no_show come last, and a chain from scheduled reaches completed only through confirmed |
| AppointmentStatus.DedicatedPathsAgainstTable | src/controllers/appointmentController.js:439-451 | cancel accepts exactly what the table lets move to cancelled, and confirm exactly what may move to confirmed; complete also accepts scheduled, which the table does not; delete refuses only completed |
| Availability.OverlapFacts | src/controllers/appointmentController.js:591-597 | the overlap test is symmetric, and intervals that only touch do not overlap |
| Availability.GenerateSlots | src/controllers/appointmentController.js:578-609 | the nested loop, whose test depends on whether `currentTime` is still the database's text, returns exactly the slots of each window in window order |
| Availability.WindowSlotsSound | src/controllers/appointmentController.js:585-604 | every offered slot has the consultation duration, overlaps no booking, and starts on the window's grid `start + k*d`: the start itself only when it is before `end`, a later point up to and including `end`; it lies between the start and the end |
| Availability.WindowSlotsComplete | src/controllers/appointmentController.js:587-607 | every grid point that passes the loop test (the start when below `end`, later points up to `end`) and whose slot overlaps no booking is offered |
| Availability.ScheduleSlotsExactly | src/controllers/appointmentController.js:581-609 | a slot is offered iff some window has it on its grid and passing the loop test, and it overlaps no booking |
| Availability.WindowSlotsAscending | src/controllers/appointmentController.js:585-608 | within a window the offered times are strictly increasing and not before the window's start |
| Availability.DuplicatesKept | src/controllers/appointmentController.js:581-609 | two identical windows give every slot twice |
| Availability.Scenarios | src/controllers/appointmentController.js:587-607 | concrete days: 08:00-09:00 gives 08:00, 08:30 and 09:00; a booking at 08:00 leaves 08:30 and 09:00; 08:00-08:45 gives 08:00 and 08:30; 08:00-08:00 gives nothing |
| Availability.OnGridBounds | src/controllers/appointmentController.js:587 | an offered start is between the window's start and end, and equals the end only when it is not the start |
| Database.FindById | src/config/database.js:66-70 | the result is an active row with the asked id, or no row with that id is active |
| Database.SelectById | src/controllers/appointmentController.js:326-330 | the controllers' `SELECT * … WHERE id = ?` finds a row with that id, deleted or not, or no row has it |
| Database.KeyedLookup | src/config/database.js:66-70 | on an auto-increment table, the row with id `i` is at position `i-1`; `findById` also needs it active |
| Database.Insert | src/config/database.js:119-128 | inserting appends one active row with the next id and keeps every earlier row |
| Database.UpdateRows | src/config/database.js:131-139 | `UPDATE … WHERE id = ?` changes the data of the row with that id only, keeping its flag |
| Database.SoftDeleteRows | src/config/database.js:142-146 | soft delete clears the flag of the row with that id only |
| Database.SoftDeleteHides | src/config/database.js:142-146 | after a soft delete `findById` misses that id and answers as before for every other id |
| Database.Placeholders | src/config/database.js:121 | one `?` per key |
| Database.Assignments | src/config/database.js:132 | one `key = ?` per key, in key order |
| Database.CreatePlaceholders | src/config/database.js:119-128 | the INSERT text has as many `?` as bound values, one per key, values in key order |
| Database.UpdatePlaceholders | src/config/database.js:131-139 | the UPDATE text has one `?` per key plus one for the id, matching the bound values, id last |
| Database.SoftDeletePlaceholder | src/config/database.js:142-146 | the soft-delete text has exactly one `?`, and the id is its only bound value |
| Database.FindByIdPlaceholder | src/config/database.js:66-70 | the find-by-id text has exactly one `?`, and the id is its only bound value |
| Database.Pages | src/config/database.js:113 | `Math.ceil(total / limit)` is a number exactly when the limit is positive |
| Database.PagesCover | src/config/database.js:83-113 | the page count times the limit covers the total; no pages iff no rows; offsets of pages 1..p fall inside the total and step by the limit |
| Database.CeilingCovers | src/config/database.js:113 | `ceil(total / limit)` pages of `limit` rows hold every row, one page fewer does not, and there are no pages exactly when there are no rows |
| Database.FindAllQueries | src/config/database.js:83-102 | both queries carry the caller's filter, or `is_active = 1` when there is none, in the same place: before the ORDER/LIMIT/OFFSET tail in the row query, and at the end of the count query |
| Database.Paginate | src/config/database.js:107-115 | page, limit and total are carried over; the page count is a number exactly when the limit is positive, and it is then the ceiling of total / limit: enough pages of `limit` rows to hold the total, one page fewer is not, and zero exactly when there are no rows |
| Jwt.ExtractTokenExactly | src/config/jwt.js:72-83 | a header yields token `t` iff it is exactly `Bearer ` + `t` with no further space in `t` |
| Jwt.ExtractTokenErrors | src/config/jwt.js:73-80 | a missing or empty header gives the missing-header error, and any other refusal the format error |
| Jwt.PayloadDeterminedByProfile | src/config/jwt.js:86-95 | two users give the same payload iff id, email, role, names and active flag agree; the password never affects it |
| Jwt.VerifyErrorClasses | src/config/jwt.js:26-34 | the expired message appears iff the library reports `TokenExpiredError`, the invalid message iff it reports `JsonWebTokenError`, and the generic prefix otherwise; messages are never empty |
| Auth.AuthenticateExactly | src/middleware/auth.js:5-31 | authentication succeeds iff the header gives a token that verifies to the id of an active user, and the claims are that user's payload |
| Auth.AuthenticateFailureMessages | src/middleware/auth.js:14-37 | every failure carries a non-empty message; "user not found or inactive" appears iff the token verified but the user is gone |
| Auth.AuthenticateToken | src/middleware/auth.js:5-39 | on success `req.user` is set to the claims and the request passes; on failure it is a 401 with the failure's message and `req.user` is untouched |
| Auth.OptionalAuth | src/middleware/auth.js:202-229 | never rejects; `req.user` is set exactly when authentication succeeds |
| Auth.RequireRole | src/middleware/auth.js:42-63 | passes iff there is a user whose role is allowed; 401 iff there is no user; otherwise 403 listing the allowed roles joined by ", " |
| Auth.SingleRoleIsList | src/middleware/auth.js:52 | a single role behaves as the one-element list |
| Auth.AdminAndStaff | src/middleware/auth.js:66-69 | `requireAdmin` admits only admin; `requireStaff` admits exactly admin and secretary; the others get 403 |
| Auth.ClinicAccessDecision | src/middleware/auth.js:72-115 | passes iff admin, secretary linked to the clinic, or a role other than patient and secretary; patients get 403; no user gives 500 |
| Auth.DoctorAccessDecision | src/middleware/auth.js:118-161 | passes iff admin, or secretary of the doctor's clinic, hence only staff; users otherwise get 403; no user gives 500 |
| Auth.PatientAccessDecision | src/middleware/auth.js:164-199 | passes iff the role is not patient or the patient owns the record; no user gives 500 |
| Appointments.EffectiveDuration | src/controllers/appointmentController.js:255 | the requested duration if non-zero, else the doctor's if non-zero, else 30; never zero, and positive exactly when the request is not negative (a negative request is used as it is) |
| Appointments.Occupied | src/controllers/appointmentController.js:569-575 | the booked intervals are exactly those of the doctor's non-cancelled appointments on that date, active or not |
| Appointments.SlotFreeExactly | src/controllers/appointmentController.js:257-264 | the availability check passes iff the requested interval overlaps no non-cancelled appointment of the doctor on that date |
| Appointments.Windows | src/controllers/appointmentController.js:551-556 | the windows are exactly the active schedule rows of that doctor and weekday |
| Appointments.GetDoctorAvailability | src/controllers/appointmentController.js:533-620 | 404 for a missing doctor, "does not work" with no window, else the consultation duration and the slots of the windows minus the occupied intervals |
| Appointments.WindowFromRow | src/controllers/appointmentController.js:551-556 | every window of a doctor's day comes from an active schedule row of that doctor and weekday with the same start and end, so every minute from its start to its end lies in that row |
| Appointments.OfferedSlotsBookable | src/controllers/appointmentController.js:568-609 | every offered slot would pass the availability check for its duration, and starts in an active window of that weekday, at its end only when that is not its start |
| Appointments.FreeMeansNoClash | src/controllers/appointmentController.js:257-269 | a booking that passes the availability check clashes with no stored appointment |
| Appointments.AppendKeeps | src/controllers/appointmentController.js:271-284 | inserting a booking that passed the availability check keeps no-double-booking |
| Appointments.ReplaceKeeps | src/controllers/appointmentController.js:453-459 | replacing an appointment by a cancelled, same-interval or checked one keeps no-double-booking |
| Appointments.SoftDeleteKeeps | src/controllers/appointmentController.js:509 | soft-deleting an appointment keeps no-double-booking |
| Appointments.CreateAppointment | src/controllers/appointmentController.js:220-293 | checks patient, doctor and clinic (404s), then that the doctor belongs to the clinic (400), then the slot for the effective duration, a negative requested one included (409); on success inserts a scheduled row with that duration, created by the caller, and keeps no-double-booking |
| Appointments.Apply | src/controllers/appointmentController.js:363-394 | an update never changes patient, doctor, clinic, duration or creator, and an empty patch changes nothing |
| Appointments.UpdateAppointment | src/controllers/appointmentController.js:305-417 | 404 when missing; 409 when date and time are both given and that interval is taken, the appointment's own included; 400 naming both states for a refused status; 500 for an empty update; else the patch from the body's fields is applied; no-double-booking is kept unless a cancelled appointment is reopened in place |
| Appointments.NegativeDurationSharesStart | src/controllers/appointmentController.js:217-280 | a request with a negative duration passes the availability check at the exact start of a live appointment of the same doctor, so a second appointment is booked at that time |
| Appointments.ResendOwnSlotRefused | src/controllers/appointmentController.js:343-361 | an update re-sending a live appointment's own date and time is a move, and the availability check refuses it |
| Appointments.AcceptedUpdateKeeps | src/controllers/appointmentController.js:343-396 | any accepted update that does not reopen a cancellation keeps no-double-booking |
| Appointments.ReopenCanDoubleBook | src/controllers/appointmentController.js:370-385 | a cancelled appointment whose time was rebooked can be moved back to scheduled without a check, booking the doctor twice |
| Appointments.CancelAppointment | src/controllers/appointmentController.js:420-480 | 404 when missing; 400 when already cancelled; 400 when completed or no_show; else cancelled with the reason (or the default) by the caller; keeps no-double-booking |
| Appointments.DeleteAppointment | src/controllers/appointmentController.js:483-530 | 404 when missing; 400 when completed; else soft-deleted; keeps no-double-booking |
| Appointments.ConfirmAppointment | src/controllers/appointmentController.js:792-838 | 404 when missing; 400 unless scheduled; else confirmed; keeps no-double-booking |
| Appointments.ClosingNotes | src/controllers/appointmentController.js:871-873 | closing notes follow the existing notes, with the separator between them, and stand alone when there were none, and leave notes unchanged when absent |
| Appointments.CompleteAppointment | src/controllers/appointmentController.js:841-896 | 404 when missing; 400 unless scheduled or confirmed; else completed with the closing notes; keeps no-double-booking |
| Appointments.Params | src/controllers/appointmentController.js:20-52 | only given filters add a parameter, each given filter's value is among them, and none is empty |
| Appointments.TermsAppend | src/controllers/appointmentController.js:20-52 | clause text and parameters of concatenated filter lists concatenate |
| Appointments.Extend | src/controllers/appointmentController.js:24-52 | one more filter appends its condition, and its value when given |
| Appointments.ConditionMark | src/controllers/appointmentController.js:25 | each condition text holds exactly one `?` |
| Appointments.ConditionsMatchParams | src/controllers/appointmentController.js:20-52 | the clause has exactly as many `?` as parameters |
| Appointments.FilterColumnsPlain | src/controllers/appointmentController.js:24-51 | no filter's column or operator contains `?` |
| Appointments.AddFilter | src/controllers/appointmentController.js:24-27 | one `if` step turns the clause and parameters of the first `k` filters into those of the first `k + 1`: the condition and value are appended only when the filter is given |
| Appointments.AddFilters | src/controllers/appointmentController.js:23-52 | the six `if` steps, run in order from a base clause with no parameters, leave the base followed by all the given filters' conditions, and their values in the same order |
| Appointments.UpToPrefix | src/controllers/appointmentController.js:23-52 | handling the first `k` filters one at a time gives exactly the conditions and values of that prefix of the filter list |
| Appointments.ListFilterClause | src/controllers/appointmentController.js:20-52 | the clause is `1 = 1` plus the given filters' conditions in order, with their values as parameters, and its `?` count equals the parameter count |
| Doctors.CreateDoctor | src/controllers/doctorController.js:193-266 | 404 for a missing user; 409 when the user is already an active doctor; 404 for a missing clinic or specialty; 409 for a licence in use; else inserts the doctor with a duration defaulting to 30 and keeps distinct doctors |
| Doctors.AddDoctorKeeps | src/controllers/doctorController.js:236-257 | adding a doctor whose user and licence are unused keeps distinct doctors |
| Doctors.ApplyDoctor | src/controllers/doctorController.js:301-344 | an update never changes the doctor's user |
| Doctors.UpdateDoctor | src/controllers/doctorController.js:278-365 | 404 when missing; 404 for a given but missing clinic or specialty; 409 when the licence belongs to another active doctor; 500 for an empty update; else only the given fields change; keeps distinct doctors |
| Doctors.UpdateDoctorKeeps | src/controllers/doctorController.js:325-344 | changing a doctor without changing the user, with a licence no other active doctor holds, keeps distinct doctors |
| Doctors.UpcomingCount | src/controllers/doctorController.js:381-387 | the count is positive iff the doctor has an appointment today or later that is neither cancelled nor completed |
| Doctors.DeleteDoctor | src/controllers/doctorController.js:368-415 | 404 when missing; 400 with upcoming appointments; else soft-deleted, after which the doctor is not found and has no upcoming appointment; keeps distinct doctors |
| Doctors.EntryRows | src/controllers/doctorController.js:482-489 | one row per entry, in order, active unless the entry says otherwise |
| Doctors.UpdateDoctorSchedules | src/controllers/doctorController.js:455-503 | 404 for a missing doctor, leaving the schedule table as it was; else the doctor's rows are dropped and one row per entry appended in order; the other tables keep their id-keyed invariant |
| Doctors.RowsOfAppend | src/controllers/doctorController.js:478-489 | a doctor's rows in two concatenated tables are the two tables' rows, in order |
| Doctors.WindowsAppend | src/controllers/appointmentController.js:551-556 | the windows of two concatenated tables are those of each, in order |
| Doctors.RowsNotOfFacts | src/controllers/doctorController.js:479 | the delete leaves no row of the doctor, keeps every other doctor's rows and leaves no window |
| Doctors.EntryRowsOwn | src/controllers/doctorController.js:482-489 | the inserted rows all belong to the doctor |
| Doctors.ScheduleReplaced | src/controllers/doctorController.js:478-489 | after the replacement the doctor's rows are exactly the entries, every other doctor's rows are unchanged, and the doctor's windows come from the entries alone |

## Left out

- **SQL execution.** Statements are not executed. Query texts are modelled only for the generic helpers (`Database.CreateStatement`, `UpdateStatement`, `SoftDeleteStatement`, `FindByIdStatement`, `FindAllQueries`) and for the appointment list filter. The controllers act directly on the tables.
- **Database failures.** Connection errors, constraint violations and timeouts are not modelled. In the controllers they become 500 replies with the generic server-error message. A failure of the user lookup inside `Auth.AuthenticateToken` becomes a 401 carrying the driver's error message. One inside `Auth.OptionalAuth` is swallowed, and the request continues without a user. In the clinic, doctor and patient access guards a failure becomes a 500 with that guard's own message ("Error verificando acceso a clínica" and so on). The one controller 500 that is modelled is the empty `SET` list of an update with nothing to change, which is invalid SQL.
- **"Could not update/cancel/delete/confirm/complete" replies.** These 400 replies are unreachable here. The row was just found, and `affectedRows` counts matched rows, not changed ones.
- **Stored procedure.** `CheckAppointmentAvailability` is not part of this model; its body is not in the repository. `Appointments.SlotFree` stands for it: the requested interval must overlap no non-cancelled appointment of the doctor on that date, whatever the row's `is_active`. This is the same test the slot loop uses.
  - Consequence: a reschedule checks the new time against the appointment's own old interval too, so re-sending a live appointment's own date and time is refused (`Appointments.ResendOwnSlotRefused`).
- **Weekday.** MySQL's `DAYOFWEEK` of the date is an input. Dates and times are numbers of minutes, not text. Database times are taken to have zero seconds.
- Availability.WindowSlots: the text comparisons of the slot loop are modelled on minutes. They agree for hours below 100 and zero seconds. A window whose start and end differ only in seconds, and a grid point at 100 hours or more (a duration of days), are not modelled.
- **Request validation.** The express-validator checks on the request bodies (400 "Datos de entrada inválidos") are not modelled. Bodies are taken as already well-typed. Absent fields are modelled as `None`, `""` or 0, matching JavaScript truthiness.
- **Token library.** Signing and verifying with jsonwebtoken is a parameter (`verify`) of `Auth.Authenticate`. `generateToken`, `decodeToken`, `generateRefreshToken` and `verifyRefreshToken` are not modelled; they are thin wrappers over that library.
- **Password hashing.** bcrypt is not modelled.
- **Access lookups.** The `clinic_users` and `patients` lookups of the access guards are boolean inputs (`accessRow`, `ownsRow`).
- **Concurrency.** Concurrent requests and the check-then-insert race of the availability check and the insert are not modelled; every operation runs alone.
- **Schedule row order.** The schedule query has no `ORDER BY`. The model uses table order.
- **Listing and stats endpoints.** In `getAllAppointments`, `orderBy`/`orderDir`, the joins and the page arithmetic of the listing itself are not modelled. Neither are `getAppointmentById`, `getTodayAppointments`, `getAppointmentStats`, the doctor listing endpoints, `executeTransaction` and `testConnection`.
- **Appointment history.** The code writes no `appointment_history` rows; `getAppointmentById` only reads them, and it is not modelled.
- Appointments.UpdateAppointment: does not promise no-double-booking when a cancelled appointment is reopened in place, because the code runs no availability check on that path (`Appointments.ReopenCanDoubleBook`).
- Clock.NumberOf: reads only digit-only pieces. JavaScript's `Number` also reads "+8", " 8", "8.5", "1e1" and "0x1f". The model gives NaN (`None`) for them. `Number` also reads a leading minus sign, as in "-1", which `addMinutes` writes for a negative sum (`Clock.AddMinutesNegative`). The times the slot loop parses again come from TIME columns and from `addMinutes` with a non-negative consultation duration, so they are digits. An appointment's end, which can be negative, is only compared as text, never parsed. A text that starts with `-` sorts below every digit, just as a negative minute count is below every time of day, so the minute comparison of the model agrees with it.
- Doctors.CreateDoctor, Doctors.UpdateDoctor, Appointments.GetDoctorAvailability: a doctor's consultation duration is a natural number. (An appointment's own duration is an integer, and a negative request `duration` is modelled: see `Appointments.NegativeDurationSharesStart`.) The code stores any truthy `consultationDuration`, a negative one included (`consultationDuration || 30`, `if (consultationDuration)`). Only 0 falls back to 30. The route validators check only `isInt`, and they check `consultation_duration`, a name the controllers do not read. With a negative duration, `addMinutes` yields texts such as "-1:-15". These always sort below the end, so the slot loop never ends and blocks the server. The model's `nat` durations exclude this input.
- Doctors.LicenseTaken: compares licence numbers exactly. MySQL's default collation compares them case-insensitively and ignores trailing spaces, so the database finds more duplicates than the model.
