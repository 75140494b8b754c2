/** The appointment controller: availability of a doctor on a date, and the
    create, update, cancel, delete, confirm and complete handlers, each on the
    in-memory store; plus the filter builder of the appointment listing.
    The `CheckAppointmentAvailability` stored procedure is not part of this
    model; it is taken to apply the same half-open overlap test as the slot
    loop (see `SlotFree`). */
module Appointments {
  import opened Wrappers
  import opened Text
  import opened Database
  import opened Schema
  import opened AppointmentStatus
  import opened Availability
  import opened Store

  const AppointmentNotFound: string := "Turno no encontrado"
  const PatientNotFound: string := "Paciente no encontrado"
  const DoctorNotFound: string := "Médico no encontrado"
  const ClinicNotFound: string := "Clínica no encontrada"
  const NotInClinic: string := "El médico no pertenece a la clínica especificada"
  const SlotTaken: string := "El horario seleccionado no está disponible"
  const NewSlotTaken: string := "El nuevo horario seleccionado no está disponible"
  const AlreadyCancelled: string := "El turno ya está cancelado"
  const CannotCancel: string := "No se puede cancelar un turno completado o con inasistencia"
  const DefaultCancellation: string := "Cancelado por usuario"
  const CannotDelete: string := "No se puede eliminar un turno completado"
  const CannotConfirm: string := "Solo se pueden confirmar turnos programados"
  const CannotComplete: string := "Solo se pueden completar turnos programados o confirmados"
  const ClosingSeparator: string := "\n\nNotas finales: "

  /** `duration || doctor.consultation_duration || 30` (0 stands for a
      missing value): the first non-zero one of the two, else 30. No
      validator checks the request's duration, so a negative one is truthy
      and is used as it is. */
  function EffectiveDuration(requested: int, doctorDefault: nat): (d: int)
    ensures d != 0
    ensures requested != 0 ==> d == requested
    ensures requested == 0 && doctorDefault > 0 ==> d == doctorDefault
    ensures requested == 0 && doctorDefault == 0 ==> d == 30
    ensures requested >= 0 <==> d > 0
  {
    if requested != 0 then requested else if doctorDefault != 0 then doctorDefault else 30
  }

  // ---------------------------------------------------------------------
  // Occupied time and the availability check

  /** A row the occupied-slots query returns for that doctor and date: any
      status but `cancelled`; `is_active` is not consulted. */
  predicate Blocks(a: Appointment, doctorId: int, date: nat)
  {
    a.doctorId == doctorId && a.date == date && a.status != Cancelled
  }

  function BookingOf(a: Appointment): Booking
  {
    Booking(a.time, a.duration)
  }

  /** The bookings the occupied-slots query yields, in table order (the
      query's own ordering by time does not matter to the overlap test). */
  function Occupied(rows: seq<Record<Appointment>>, doctorId: int, date: nat): (b: seq<Booking>)
    ensures |b| <= |rows|
    ensures forall x :: x in b <==>
      exists i :: 0 <= i < |rows| && Blocks(rows[i].data, doctorId, date) && x == BookingOf(rows[i].data)
  {
    if rows == [] then []
    else
      var last := rows[|rows| - 1].data;
      var rest := Occupied(rows[..|rows| - 1], doctorId, date);
      assert forall i :: 0 <= i < |rows| - 1 ==> rows[..|rows| - 1][i] == rows[i];
      rest + (if Blocks(last, doctorId, date) then [BookingOf(last)] else [])
  }

  /** The availability check of `CheckAppointmentAvailability`, taken to be
      the slot loop's test: `[time, time + duration)` overlaps no booking the
      occupied-slots query returns. */
  predicate SlotFree(rows: seq<Record<Appointment>>, doctorId: int, date: nat, time: nat, duration: int)
  {
    !IsOccupied(time, duration, Occupied(rows, doctorId, date))
  }

  /** The availability check passes exactly when no non-cancelled appointment of that
      doctor on that date overlaps the requested interval. */
  lemma SlotFreeExactly(rows: seq<Record<Appointment>>, doctorId: int, date: nat, time: nat, duration: int)
    ensures SlotFree(rows, doctorId, date, time, duration) <==>
      forall i :: 0 <= i < |rows| && Blocks(rows[i].data, doctorId, date) ==>
        !Overlaps(time, duration, BookingOf(rows[i].data))
  {
    var b := Occupied(rows, doctorId, date);
    if !SlotFree(rows, doctorId, date, time, duration) {
      var k :| 0 <= k < |b| && Overlaps(time, duration, b[k]);
      assert b[k] in b;
      var i :| 0 <= i < |rows| && Blocks(rows[i].data, doctorId, date) && b[k] == BookingOf(rows[i].data);
    }
    if exists i :: 0 <= i < |rows| && Blocks(rows[i].data, doctorId, date) && Overlaps(time, duration, BookingOf(rows[i].data)) {
      var i :| 0 <= i < |rows| && Blocks(rows[i].data, doctorId, date) && Overlaps(time, duration, BookingOf(rows[i].data));
      assert BookingOf(rows[i].data) in b;
      var k :| 0 <= k < |b| && b[k] == BookingOf(rows[i].data);
    }
  }

  // ---------------------------------------------------------------------
  // getDoctorAvailability

  /** A schedule row the availability query selects. */
  predicate Serves(r: ScheduleRow, doctorId: int, weekday: int)
  {
    r.doctorId == doctorId && r.dayOfWeek == weekday && r.isActive
  }

  /** The active windows of a doctor on a weekday, in table order. */
  function Windows(rows: seq<ScheduleRow>, doctorId: int, weekday: int): (w: seq<Window>)
    ensures |w| <= |rows|
    ensures forall x :: x in w <==>
      exists i :: 0 <= i < |rows| && Serves(rows[i], doctorId, weekday) && x == Window(rows[i].startTime, rows[i].endTime)
  {
    if rows == [] then []
    else
      var last := rows[|rows| - 1];
      var rest := Windows(rows[..|rows| - 1], doctorId, weekday);
      assert forall i :: 0 <= i < |rows| - 1 ==> rows[..|rows| - 1][i] == rows[i];
      rest + (if Serves(last, doctorId, weekday) then [Window(last.startTime, last.endTime)] else [])
  }

  /** The body of a successful availability reply. */
  datatype DayAvailability = NotWorking | Offered(consultationDuration: nat, slots: seq<Slot>)

  /** `getDoctorAvailability` for a date whose weekday (as the schedule
      table numbers it) is given. */
  method GetDoctorAvailability(db: Db, doctorId: int, date: nat, weekday: int) returns (r: Reply<DayAvailability>)
    ensures FindById(db.doctors, doctorId).None? ==> r == Fail(404, DoctorNotFound)
    ensures FindById(db.doctors, doctorId).Some? && Windows(db.schedules, doctorId, weekday) == [] ==> r == Ok(NotWorking)
    ensures FindById(db.doctors, doctorId).Some? && Windows(db.schedules, doctorId, weekday) != [] ==>
      var d := EffectiveDuration(0, FindById(db.doctors, doctorId).value.data.consultationDuration);
      r == Ok(Offered(d, ScheduleSlots(Windows(db.schedules, doctorId, weekday), d, Occupied(db.appointments, doctorId, date))))
  {
    var doctor := FindById(db.doctors, doctorId);
    if doctor.None? {
      return Fail(404, DoctorNotFound);
    }
    var windows := Windows(db.schedules, doctorId, weekday);
    if |windows| == 0 {
      return Ok(NotWorking);
    }
    var occupied := Occupied(db.appointments, doctorId, date);
    var d := EffectiveDuration(0, doctor.value.data.consultationDuration);
    var slots := GenerateSlots(windows, d, occupied);
    r := Ok(Offered(d, slots));
  }

  /** A window of the doctor's day comes from an active schedule row of that
      doctor and weekday. */
  lemma WindowFromRow(rows: seq<ScheduleRow>, doctorId: int, weekday: int, w: Window, x: nat)
    requires w in Windows(rows, doctorId, weekday) && w.start <= x <= w.end
    ensures exists i :: 0 <= i < |rows| && Serves(rows[i], doctorId, weekday) &&
                        rows[i].startTime == w.start && rows[i].endTime == w.end &&
                        rows[i].startTime <= x <= rows[i].endTime
  {
    var i :| 0 <= i < |rows| && Serves(rows[i], doctorId, weekday) && w == Window(rows[i].startTime, rows[i].endTime);
  }

  /** Every slot offered for a date passes the availability check that
      creating an appointment there with the offered duration runs, and
      every offered start lies in one of the doctor's active windows for the
      weekday: before its end, or exactly at its end when that is not also
      its start. */
  lemma OfferedSlotsBookable(schedules: seq<ScheduleRow>, appointments: seq<Record<Appointment>>,
                             doctorId: int, date: nat, weekday: int, d: nat, s: Slot)
    requires d > 0
    requires s in ScheduleSlots(Windows(schedules, doctorId, weekday), d, Occupied(appointments, doctorId, date))
    ensures s.duration == d && SlotFree(appointments, doctorId, date, s.time, d)
    ensures exists i :: 0 <= i < |schedules| && Serves(schedules[i], doctorId, weekday) &&
                        schedules[i].startTime <= s.time <= schedules[i].endTime &&
                        (s.time == schedules[i].endTime ==> schedules[i].startTime < s.time)
  {
    var windows := Windows(schedules, doctorId, weekday);
    ScheduleSlotsExactly(windows, d, Occupied(appointments, doctorId, date), s);
    var j :| 0 <= j < |windows| && OnGrid(windows[j], d, s.time);
    OnGridBounds(windows[j], d, s.time);
    WindowFromRow(schedules, doctorId, weekday, windows[j], s.time);
  }

  // ---------------------------------------------------------------------
  // No double booking

  /** `a` is a live appointment that overlaps live appointment `b` of the
      same doctor on the same date. */
  predicate Clash(a: Appointment, b: Appointment)
  {
    Blocks(a, b.doctorId, b.date) && b.status != Cancelled && Overlaps(a.time, a.duration, BookingOf(b))
  }

  /** No two non-cancelled appointments of one doctor on one date overlap. */
  ghost predicate NoDoubleBooking(rows: seq<Record<Appointment>>)
  {
    forall i, j :: 0 <= i < |rows| && 0 <= j < |rows| && i != j ==> !Clash(rows[i].data, rows[j].data)
  }

  /** An appointment that passes the availability check clashes with no
      existing row, either way round. */
  lemma FreeMeansNoClash(rows: seq<Record<Appointment>>, b: Appointment, i: int)
    requires SlotFree(rows, b.doctorId, b.date, b.time, b.duration) && 0 <= i < |rows|
    ensures !Clash(b, rows[i].data) && !Clash(rows[i].data, b)
  {
    SlotFreeExactly(rows, b.doctorId, b.date, b.time, b.duration);
    var a := rows[i].data;
    OverlapFacts(b.time, b.duration, a.time, a.duration);
  }

  /** Rewriting one row keeps the invariant when the new version is
      cancelled, or keeps a live row's doctor, date, time and duration, or
      passed the availability check against the table as it was. */
  lemma ReplaceKeeps(rows: seq<Record<Appointment>>, k: int, b: Appointment)
    requires NoDoubleBooking(rows) && 0 <= k < |rows|
    requires b.status == Cancelled
      || (rows[k].data.status != Cancelled && b.doctorId == rows[k].data.doctorId && b.date == rows[k].data.date
          && b.time == rows[k].data.time && b.duration == rows[k].data.duration)
      || SlotFree(rows, b.doctorId, b.date, b.time, b.duration)
    ensures NoDoubleBooking(rows[k := rows[k].(data := b)])
  {
    var r := rows[k := rows[k].(data := b)];
    forall i, j | 0 <= i < |r| && 0 <= j < |r| && i != j
      ensures !Clash(r[i].data, r[j].data)
    {
      if SlotFree(rows, b.doctorId, b.date, b.time, b.duration) {
        if i == k { FreeMeansNoClash(rows, b, j); }
        if j == k { FreeMeansNoClash(rows, b, i); }
      }
    }
  }

  /** Appending a row that passed the availability check keeps the invariant. */
  lemma AppendKeeps(rows: seq<Record<Appointment>>, rec: Record<Appointment>)
    requires NoDoubleBooking(rows)
    requires SlotFree(rows, rec.data.doctorId, rec.data.date, rec.data.time, rec.data.duration)
    ensures NoDoubleBooking(rows + [rec])
  {
    var r := rows + [rec];
    forall i, j | 0 <= i < |r| && 0 <= j < |r| && i != j
      ensures !Clash(r[i].data, r[j].data)
    {
      if i == |rows| { FreeMeansNoClash(rows, rec.data, j); }
      if j == |rows| { FreeMeansNoClash(rows, rec.data, i); }
    }
  }

  /** On a keyed table, updating by an existing id rewrites exactly that row. */
  lemma KeyedUpdate(rows: seq<Record<Appointment>>, id: int, b: Appointment)
    requires Keyed(rows) && 1 <= id <= |rows|
    ensures UpdateRows(rows, id, b) == rows[id - 1 := rows[id - 1].(data := b)]
  {
  }

  /** A soft delete changes no appointment's data, so it keeps the invariant. */
  lemma SoftDeleteKeeps(rows: seq<Record<Appointment>>, id: int)
    requires NoDoubleBooking(rows)
    ensures NoDoubleBooking(SoftDeleteRows(rows, id))
  {
    var r := SoftDeleteRows(rows, id);
    assert forall i :: 0 <= i < |r| ==> r[i].data == rows[i].data;
  }

  // ---------------------------------------------------------------------
  // createAppointment

  /** The request body of `createAppointment`; absent text is `""`, an
      absent duration 0. The duration is not validated and may be negative. */
  datatype NewAppointment = NewAppointment(patientId: int, doctorId: int, clinicId: int, date: nat, time: nat,
                                           reason: string, notes: string, duration: int)

  /** `createAppointment`, run by the user `caller`. */
  method CreateAppointment(db: Db, req: NewAppointment, caller: int) returns (r: Reply<Record<Appointment>>)
    requires db.Valid()
    modifies db`appointments
    ensures db.Valid()
    ensures r.Fail? ==> db.appointments == old(db.appointments)
    ensures FindById(db.patients, req.patientId).None? ==> r == Fail(404, PatientNotFound)
    ensures FindById(db.patients, req.patientId).Some? && FindById(db.doctors, req.doctorId).None? ==>
      r == Fail(404, DoctorNotFound)
    ensures (FindById(db.patients, req.patientId).Some? && FindById(db.doctors, req.doctorId).Some? &&
             FindById(db.clinics, req.clinicId).None?) ==> r == Fail(404, ClinicNotFound)
    ensures (FindById(db.patients, req.patientId).Some? && FindById(db.doctors, req.doctorId).Some? &&
             FindById(db.clinics, req.clinicId).Some?) ==>
      var doctor := FindById(db.doctors, req.doctorId).value.data;
      var d := EffectiveDuration(req.duration, doctor.consultationDuration);
      var row := Appointment(req.patientId, req.doctorId, req.clinicId, req.date, req.time, d,
                             Scheduled, req.reason, req.notes, None, caller, None);
      (doctor.clinicId != req.clinicId ==> r == Fail(400, NotInClinic)) &&
      (doctor.clinicId == req.clinicId && !SlotFree(old(db.appointments), req.doctorId, req.date, req.time, d) ==>
         r == Fail(409, SlotTaken)) &&
      (doctor.clinicId == req.clinicId && SlotFree(old(db.appointments), req.doctorId, req.date, req.time, d) ==>
         r == Ok(Record(|old(db.appointments)| + 1, true, row)) && db.appointments == Insert(old(db.appointments), row))
    ensures NoDoubleBooking(old(db.appointments)) ==> NoDoubleBooking(db.appointments)
  {
    if FindById(db.patients, req.patientId).None? {
      return Fail(404, PatientNotFound);
    }
    var doctor := FindById(db.doctors, req.doctorId);
    if doctor.None? {
      return Fail(404, DoctorNotFound);
    }
    if FindById(db.clinics, req.clinicId).None? {
      return Fail(404, ClinicNotFound);
    }
    if doctor.value.data.clinicId != req.clinicId {
      return Fail(400, NotInClinic);
    }
    var d := EffectiveDuration(req.duration, doctor.value.data.consultationDuration);
    if !SlotFree(db.appointments, req.doctorId, req.date, req.time, d) {
      return Fail(409, SlotTaken);
    }
    var row := Appointment(req.patientId, req.doctorId, req.clinicId, req.date, req.time, d,
                           Scheduled, req.reason, req.notes, None, caller, None);
    var id := |db.appointments| + 1;
    if NoDoubleBooking(db.appointments) {
      AppendKeeps(db.appointments, Record(id, true, row));
    }
    db.appointments := Insert(db.appointments, row);
    r := Ok(Record(id, true, row));
  }

  // ---------------------------------------------------------------------
  // updateAppointment

  /** The request body of `updateAppointment`. Date and time are `None` when
      absent or empty; `status` and `cancellationReason` are `""` when
      absent; `reason` and `notes` are `None` only when not sent at all. */
  datatype Change = Change(date: Option<nat>, time: Option<nat>, status: string,
                           reason: Option<string>, notes: Option<string>, cancellationReason: string)

  /** `updateData`: the columns an update writes. */
  datatype Patch = Patch(date: Option<nat>, time: Option<nat>, status: Option<Status>,
                         cancellationReason: Option<string>, cancelledBy: Option<int>,
                         reason: Option<string>, notes: Option<string>)

  predicate IsEmpty(p: Patch)
  {
    p.date.None? && p.time.None? && p.status.None? && p.cancellationReason.None? &&
    p.cancelledBy.None? && p.reason.None? && p.notes.None?
  }

  /** The row after the patch's columns are written; the others keep their values. */
  function Apply(a: Appointment, p: Patch): (b: Appointment)
    ensures b.patientId == a.patientId && b.doctorId == a.doctorId && b.clinicId == a.clinicId
    ensures b.duration == a.duration && b.createdBy == a.createdBy
    ensures IsEmpty(p) ==> b == a
  {
    a.(date := p.date.GetOr(a.date), time := p.time.GetOr(a.time), status := p.status.GetOr(a.status),
       cancellationReason := if p.cancellationReason.Some? then p.cancellationReason else a.cancellationReason,
       cancelledBy := if p.cancelledBy.Some? then p.cancelledBy else a.cancelledBy,
       reason := p.reason.GetOr(a.reason), notes := p.notes.GetOr(a.notes))
  }

  /** The update is handled as a move: both date and time are given. The
      code then tests `appointmentDate !== appointment.appointment_date ||
      appointmentTime !== appointment.appointment_time`, but mysql2 returns a
      DATE column as a `Date` object, which no text is strictly equal to, so
      the first half always holds (and the second compares `HH:MM` with the
      column's `HH:MM:SS`). Unchanged values are moved and checked too. */
  predicate Reschedules(c: Change)
  {
    c.date.Some? && c.time.Some?
  }

  /** The message of a refused status change. */
  function TransitionRefused(from: Status, requested: string): string
  {
    "No se puede cambiar el estado de " + Name(from) + " a " + requested
  }

  /** The `updateData` an accepted update builds: date and time only when
      both are given; the status when one is requested; the
      cancellation reason and canceller only when the requested status is
      `cancelled` and a reason is given; reason and notes whenever sent. */
  predicate UpdateDataFor(a: Appointment, c: Change, caller: int, p: Patch)
  {
    p.date == (if Reschedules(c) then c.date else None) &&
    p.time == (if Reschedules(c) then c.time else None) &&
    p.status == (if c.status != "" then ParseStatus(c.status) else None) &&
    p.cancellationReason == (if c.status == "cancelled" && c.cancellationReason != "" then Some(c.cancellationReason) else None) &&
    p.cancelledBy == (if c.status == "cancelled" && c.cancellationReason != "" then Some(caller) else None) &&
    p.reason == c.reason && p.notes == c.notes
  }

  /** A negative request duration passes the availability check at the very
      start of a live appointment of the same doctor: the interval
      `[time, time + duration)` is empty, so it overlaps nothing, and
      `createAppointment` books a second appointment at that time. */
  lemma NegativeDurationSharesStart()
    ensures var a := Appointment(1, 7, 1, 100, 480, 30, Scheduled, "", "", None, 1, None);
      var d := EffectiveDuration(-10, 30);
      Blocks(a, 7, 100) && d == -10 && SlotFree([Record(1, true, a)], 7, 100, 480, d)
  {
    var a := Appointment(1, 7, 1, 100, 480, 30, Scheduled, "", "", None, 1, None);
    SlotFreeExactly([Record(1, true, a)], 7, 100, 480, -10);
  }

  /** Re-sending a live appointment's own date and time is a move like any
      other, and the check then finds the appointment itself in the way, so
      `updateAppointment` answers 409. */
  lemma ResendOwnSlotRefused(rows: seq<Record<Appointment>>, id: int, c: Change)
    requires SelectById(rows, id).Some?
    requires var a := SelectById(rows, id).value.data;
      a.status != Cancelled && a.duration > 0 && c.date == Some(a.date) && c.time == Some(a.time)
    ensures var a := SelectById(rows, id).value.data;
      Reschedules(c) && !SlotFree(rows, a.doctorId, a.date, a.time, a.duration)
  {
    var a := SelectById(rows, id).value.data;
    var i :| 0 <= i < |rows| && rows[i] == SelectById(rows, id).value;
    assert Blocks(rows[i].data, a.doctorId, a.date) && Overlaps(a.time, a.duration, BookingOf(rows[i].data));
    SlotFreeExactly(rows, a.doctorId, a.date, a.time, a.duration);
  }

  /** The update brings a cancelled appointment back to life without moving it. */
  predicate Reopens(a: Appointment, c: Change, p: Patch)
  {
    a.status == Cancelled && p.status.Some? && p.status.value != Cancelled && !Reschedules(c)
  }

  /** `updateAppointment` for the row with id `id`, run by the user `caller`;
      `patch` is the `updateData` it builds. */
  method UpdateAppointment(db: Db, id: int, c: Change, caller: int) returns (r: Reply<()>, patch: Patch)
    requires db.Valid()
    modifies db`appointments
    ensures db.Valid()
    ensures r.Fail? ==> db.appointments == old(db.appointments)
    ensures SelectById(old(db.appointments), id).None? ==> r == Fail(404, AppointmentNotFound)
    ensures SelectById(old(db.appointments), id).Some? ==>
      var a := SelectById(old(db.appointments), id).value.data;
      var refusedSlot := Reschedules(c) && !SlotFree(old(db.appointments), a.doctorId, c.date.value, c.time.value, a.duration);
      var refusedStatus := c.status != "" && !AcceptsRequest(a.status, c.status);
      (refusedSlot ==> r == Fail(409, NewSlotTaken)) &&
      (!refusedSlot && refusedStatus ==> r == Fail(400, TransitionRefused(a.status, c.status))) &&
      (!refusedSlot && !refusedStatus ==>
        UpdateDataFor(a, c, caller, patch) &&
        (IsEmpty(patch) ==> r == Fail(500, ServerError)) &&
        (!IsEmpty(patch) ==> r == Ok(()) && db.appointments == UpdateRows(old(db.appointments), id, Apply(a, patch))))
    ensures (NoDoubleBooking(old(db.appointments)) && SelectById(old(db.appointments), id).Some? &&
             !Reopens(SelectById(old(db.appointments), id).value.data, c, patch)) ==> NoDoubleBooking(db.appointments)
  {
    patch := Patch(None, None, None, None, None, None, None);
    var existing := SelectById(db.appointments, id);
    if existing.None? {
      return Fail(404, AppointmentNotFound), patch;
    }
    var a := existing.value.data;
    KeyedLookup(db.appointments, id);

    if c.date.Some? && c.time.Some? {
      // The `!==` test against the stored row always holds (see `Reschedules`).
      if !SlotFree(db.appointments, a.doctorId, c.date.value, c.time.value, a.duration) {
        return Fail(409, NewSlotTaken), patch;
      }
      patch := patch.(date := c.date, time := c.time);
    }

    if c.status != "" {
      AcceptsRequestNamesTransition(a.status, c.status);
      if !AcceptsRequest(a.status, c.status) {
        return Fail(400, TransitionRefused(a.status, c.status)), patch;
      }
      patch := patch.(status := ParseStatus(c.status));
      if c.status == "cancelled" && c.cancellationReason != "" {
        patch := patch.(cancellationReason := Some(c.cancellationReason), cancelledBy := Some(caller));
      }
    }

    if c.reason.Some? { patch := patch.(reason := c.reason); }
    if c.notes.Some? { patch := patch.(notes := c.notes); }

    if IsEmpty(patch) {
      // `UPDATE appointments SET  WHERE id = ?` is not valid SQL.
      return Fail(500, ServerError), patch;
    }
    var b := Apply(a, patch);
    assert UpdateDataFor(a, c, caller, patch);
    if NoDoubleBooking(db.appointments) && !Reopens(a, c, patch) {
      AcceptedUpdateKeeps(db.appointments, id, c, caller, patch);
    }
    UpdateKeepsKeyed(db.appointments, id, b);
    db.appointments := UpdateRows(db.appointments, id, b);
    r := Ok(());
  }

  /** An accepted update keeps the no-double-booking invariant unless it
      reopens a cancelled appointment in place: a move was checked, a status
      change to a live state from a live state keeps the booking, and a
      cancellation frees it. */
  lemma AcceptedUpdateKeeps(rows: seq<Record<Appointment>>, id: int, c: Change, caller: int, p: Patch)
    requires Keyed(rows) && NoDoubleBooking(rows) && SelectById(rows, id).Some?
    requires var a := SelectById(rows, id).value.data;
      UpdateDataFor(a, c, caller, p) && !Reopens(a, c, p) &&
      (c.status != "" ==> AcceptsRequest(a.status, c.status)) &&
      (Reschedules(c) ==> SlotFree(rows, a.doctorId, c.date.value, c.time.value, a.duration))
    ensures NoDoubleBooking(UpdateRows(rows, id, Apply(SelectById(rows, id).value.data, p)))
  {
    KeyedLookup(rows, id);
    var a := rows[id - 1].data;
    var b := Apply(a, p);
    KeyedUpdate(rows, id, b);
    if c.status != "" {
      AcceptsRequestNamesTransition(a.status, c.status);
      TableShape(a.status, b.status);
    }
    ReplaceKeeps(rows, id - 1, b);
  }

  /** Reopening a cancelled appointment through an update is not re-checked:
      here appointment 1 was cancelled and its time given to appointment 2,
      and moving 1 back to `scheduled` books the doctor twice. */
  lemma ReopenCanDoubleBook()
    ensures var a := Appointment(1, 7, 1, 100, 480, 30, Cancelled, "", "", None, 1, None);
      var b := a.(status := Scheduled);
      var rows := [Record(1, true, a), Record(2, true, b)];
      NoDoubleBooking(rows) && AcceptsRequest(a.status, "scheduled") && !Reschedules(Change(None, None, "scheduled", None, None, "")) &&
      !NoDoubleBooking(UpdateRows(rows, 1, Apply(a, Patch(None, None, Some(Scheduled), None, None, None, None))))
  {
    var a := Appointment(1, 7, 1, 100, 480, 30, Cancelled, "", "", None, 1, None);
    var b := a.(status := Scheduled);
    var rows := [Record(1, true, a), Record(2, true, b)];
    assert Name(ValidTransitions(Cancelled)[0]) == "scheduled";
    var r := UpdateRows(rows, 1, Apply(a, Patch(None, None, Some(Scheduled), None, None, None, None)));
    assert r[0].data == b && r[1].data == b;
    assert Clash(r[0].data, r[1].data);
  }

  // ---------------------------------------------------------------------
  // cancel, delete, confirm, complete

  /** `cancelAppointment` with the body's `cancellationReason` (`""` when
      absent), run by the user `caller`. */
  method CancelAppointment(db: Db, id: int, reason: string, caller: int) returns (r: Reply<()>)
    requires db.Valid()
    modifies db`appointments
    ensures db.Valid()
    ensures r.Fail? ==> db.appointments == old(db.appointments)
    ensures SelectById(old(db.appointments), id).None? ==> r == Fail(404, AppointmentNotFound)
    ensures SelectById(old(db.appointments), id).Some? ==>
      var a := SelectById(old(db.appointments), id).value.data;
      (a.status == Cancelled ==> r == Fail(400, AlreadyCancelled)) &&
      (a.status == Completed || a.status == NoShow ==> r == Fail(400, CannotCancel)) &&
      (CanCancel(a.status) ==> r == Ok(()) && db.appointments == UpdateRows(old(db.appointments), id,
         a.(status := Cancelled, cancellationReason := Some(if reason != "" then reason else DefaultCancellation),
            cancelledBy := Some(caller))))
    ensures NoDoubleBooking(old(db.appointments)) ==> NoDoubleBooking(db.appointments)
  {
    var existing := SelectById(db.appointments, id);
    if existing.None? {
      return Fail(404, AppointmentNotFound);
    }
    var a := existing.value.data;
    if a.status == Cancelled {
      return Fail(400, AlreadyCancelled);
    }
    if a.status == Completed || a.status == NoShow {
      return Fail(400, CannotCancel);
    }
    var b := a.(status := Cancelled, cancellationReason := Some(if reason != "" then reason else DefaultCancellation),
                cancelledBy := Some(caller));
    KeyedLookup(db.appointments, id);
    KeyedUpdate(db.appointments, id, b);
    if NoDoubleBooking(db.appointments) {
      ReplaceKeeps(db.appointments, id - 1, b);
    }
    UpdateKeepsKeyed(db.appointments, id, b);
    db.appointments := UpdateRows(db.appointments, id, b);
    r := Ok(());
  }

  /** `deleteAppointment`: a soft delete, refused only for completed
      appointments (a row already soft-deleted is found and deleted again). */
  method DeleteAppointment(db: Db, id: int) returns (r: Reply<()>)
    requires db.Valid()
    modifies db`appointments
    ensures db.Valid()
    ensures r.Fail? ==> db.appointments == old(db.appointments)
    ensures SelectById(old(db.appointments), id).None? ==> r == Fail(404, AppointmentNotFound)
    ensures SelectById(old(db.appointments), id).Some? ==>
      var a := SelectById(old(db.appointments), id).value.data;
      (!CanDelete(a.status) ==> r == Fail(400, CannotDelete)) &&
      (CanDelete(a.status) ==> r == Ok(()) && db.appointments == SoftDeleteRows(old(db.appointments), id))
    ensures NoDoubleBooking(old(db.appointments)) ==> NoDoubleBooking(db.appointments)
  {
    var existing := SelectById(db.appointments, id);
    if existing.None? {
      return Fail(404, AppointmentNotFound);
    }
    if existing.value.data.status == Completed {
      return Fail(400, CannotDelete);
    }
    if NoDoubleBooking(db.appointments) {
      SoftDeleteKeeps(db.appointments, id);
    }
    db.appointments := SoftDeleteRows(db.appointments, id);
    r := Ok(());
  }

  /** `confirmAppointment`: only a scheduled appointment is confirmed. */
  method ConfirmAppointment(db: Db, id: int) returns (r: Reply<()>)
    requires db.Valid()
    modifies db`appointments
    ensures db.Valid()
    ensures r.Fail? ==> db.appointments == old(db.appointments)
    ensures SelectById(old(db.appointments), id).None? ==> r == Fail(404, AppointmentNotFound)
    ensures SelectById(old(db.appointments), id).Some? ==>
      var a := SelectById(old(db.appointments), id).value.data;
      (!CanConfirm(a.status) ==> r == Fail(400, CannotConfirm)) &&
      (CanConfirm(a.status) ==> r == Ok(()) && db.appointments == UpdateRows(old(db.appointments), id, a.(status := Confirmed)))
    ensures NoDoubleBooking(old(db.appointments)) ==> NoDoubleBooking(db.appointments)
  {
    var existing := SelectById(db.appointments, id);
    if existing.None? {
      return Fail(404, AppointmentNotFound);
    }
    var a := existing.value.data;
    if a.status != Scheduled {
      return Fail(400, CannotConfirm);
    }
    KeyedLookup(db.appointments, id);
    KeyedUpdate(db.appointments, id, a.(status := Confirmed));
    if NoDoubleBooking(db.appointments) {
      ReplaceKeeps(db.appointments, id - 1, a.(status := Confirmed));
    }
    UpdateKeepsKeyed(db.appointments, id, a.(status := Confirmed));
    db.appointments := UpdateRows(db.appointments, id, a.(status := Confirmed));
    r := Ok(());
  }

  /** The notes a completion leaves: closing notes are appended after a
      separator to existing notes, or stand alone when there were none; no
      closing notes leave the notes as they were. */
  function ClosingNotes(existing: string, closing: string): (n: string)
    ensures closing == "" ==> n == existing
    ensures closing != "" && existing == "" ==> n == closing
    ensures closing != "" && existing != "" ==>
      |n| == |existing| + |ClosingSeparator| + |closing| &&
      n[..|existing|] == existing && n[|existing|..|existing| + |ClosingSeparator|] == ClosingSeparator &&
      n[|existing| + |ClosingSeparator|..] == closing
  {
    if closing == "" then existing
    else if existing != "" then existing + ClosingSeparator + closing
    else closing
  }

  /** `completeAppointment` with the body's closing `notes` (`""` when
      absent): a scheduled or confirmed appointment becomes completed. */
  method CompleteAppointment(db: Db, id: int, closing: string) returns (r: Reply<()>)
    requires db.Valid()
    modifies db`appointments
    ensures db.Valid()
    ensures r.Fail? ==> db.appointments == old(db.appointments)
    ensures SelectById(old(db.appointments), id).None? ==> r == Fail(404, AppointmentNotFound)
    ensures SelectById(old(db.appointments), id).Some? ==>
      var a := SelectById(old(db.appointments), id).value.data;
      (!CanComplete(a.status) ==> r == Fail(400, CannotComplete)) &&
      (CanComplete(a.status) ==>
        r == Ok(()) &&
        db.appointments == UpdateRows(old(db.appointments), id, a.(status := Completed, notes := ClosingNotes(a.notes, closing))))
    ensures NoDoubleBooking(old(db.appointments)) ==> NoDoubleBooking(db.appointments)
  {
    var existing := SelectById(db.appointments, id);
    if existing.None? {
      return Fail(404, AppointmentNotFound);
    }
    var a := existing.value.data;
    if !(a.status == Scheduled || a.status == Confirmed) {
      return Fail(400, CannotComplete);
    }
    var b := a.(status := Completed);
    if closing != "" {
      b := b.(notes := if a.notes != "" then a.notes + ClosingSeparator + closing else closing);
    }
    KeyedLookup(db.appointments, id);
    KeyedUpdate(db.appointments, id, b);
    if NoDoubleBooking(db.appointments) {
      ReplaceKeeps(db.appointments, id - 1, b);
    }
    UpdateKeepsKeyed(db.appointments, id, b);
    db.appointments := UpdateRows(db.appointments, id, b);
    r := Ok(());
  }

  // ---------------------------------------------------------------------
  // getAllAppointments: filters

  /** The listing's filter parameters, as query-string text; `""` when absent. */
  datatype ListFilters = ListFilters(status: string, doctorId: string, patientId: string, clinicId: string,
                                     dateFrom: string, dateTo: string)

  /** The condition a filter adds: `" AND a.<column> <op> ?"`. */
  function Condition(column: string, op: string): string
  {
    " AND a." + column + " " + op + " ?"
  }

  /** A filter: its value, and the column and operator of its condition. */
  datatype Term = Term(value: string, column: string, op: string)

  /** The filters in the order the code checks them. */
  function FilterTerms(f: ListFilters): seq<Term>
  {
    [Term(f.status, "status", "="), Term(f.doctorId, "doctor_id", "="),
     Term(f.patientId, "patient_id", "="), Term(f.clinicId, "clinic_id", "="),
     Term(f.dateFrom, "appointment_date", ">="), Term(f.dateTo, "appointment_date", "<=")]
  }

  /** The condition of one filter, or nothing when the filter is absent. */
  function Piece(t: Term): string
  {
    if t.value != "" then Condition(t.column, t.op) else ""
  }

  /** The conditions of the filters that are given, in order. */
  function Conditions(terms: seq<Term>): string
  {
    if terms == [] then ""
    else Piece(terms[0]) + Conditions(terms[1..])
  }

  /** The values of the filters that are given, in order. */
  function Params(terms: seq<Term>): (r: seq<string>)
    ensures |r| <= |terms|
    ensures forall x :: x in r ==> x != ""
    ensures forall i :: 0 <= i < |terms| && terms[i].value != "" ==> terms[i].value in r
  {
    if terms == [] then []
    else (if terms[0].value != "" then [terms[0].value] else []) + Params(terms[1..])
  }

  /** Conditions and parameters of consecutive filter lists concatenate. */
  lemma {:induction false} TermsAppend(a: seq<Term>, b: seq<Term>)
    ensures Conditions(a + b) == Conditions(a) + Conditions(b)
    ensures Params(a + b) == Params(a) + Params(b)
  {
    if a == [] {
      assert a + b == b;
    } else {
      var ab := a + b;
      assert ab[0] == a[0] && ab[1..] == a[1..] + b;
      TermsAppend(a[1..], b);
      assert Conditions(ab) == Piece(a[0]) + Conditions(a[1..] + b);
      assert Conditions(ab) == Piece(a[0]) + (Conditions(a[1..]) + Conditions(b));
      var head := if a[0].value != "" then [a[0].value] else [];
      assert Params(ab) == head + Params(a[1..] + b);
      assert Params(ab) == head + (Params(a[1..]) + Params(b));
    }
  }

  /** Adding one more filter after those already handled. */
  lemma Extend(done: seq<Term>, t: Term)
    ensures Conditions(done + [t]) == Conditions(done) + Piece(t)
    ensures Params(done + [t]) == Params(done) + (if t.value != "" then [t.value] else [])
  {
    TermsAppend(done, [t]);
    assert [t][1..] == [];
  }

  /** A condition carries exactly one placeholder, its last character. */
  lemma ConditionMark(column: string, op: string)
    requires '?' !in column && '?' !in op
    ensures Count(Condition(column, op), '?') == 1
  {
    var prefix := " AND a." + column + " " + op + " ";
    assert '?' !in " AND a." && '?' !in " ";
    assert Condition(column, op) == prefix + "?";
    CountAbsent(prefix, '?');
    CountAppend(prefix, "?", '?');
  }

  /** When no column or operator contains a `?`, the conditions hold as many
      placeholders as there are parameters. */
  lemma {:induction false} ConditionsMatchParams(terms: seq<Term>)
    requires forall i :: 0 <= i < |terms| ==> '?' !in terms[i].column && '?' !in terms[i].op
    ensures Count(Conditions(terms), '?') == |Params(terms)|
  {
    if terms != [] {
      ConditionsMatchParams(terms[1..]);
      if terms[0].value != "" {
        ConditionMark(terms[0].column, terms[0].op);
      }
      CountAppend(Piece(terms[0]), Conditions(terms[1..]), '?');
    }
  }

  /** No filter's column or operator contains a `?`. */
  lemma FilterColumnsPlain(f: ListFilters)
    ensures forall i :: 0 <= i < |FilterTerms(f)| ==> '?' !in FilterTerms(f)[i].column && '?' !in FilterTerms(f)[i].op
  {
    var t := FilterTerms(f);
    forall i | 0 <= i < |t|
      ensures '?' !in t[i].column && '?' !in t[i].op
    {
      if i == 0 { assert '?' !in "status"; }
      else if i == 1 { assert '?' !in "doctor_id"; }
      else if i == 2 { assert '?' !in "patient_id"; }
      else if i == 3 { assert '?' !in "clinic_id"; }
      else { assert '?' !in "appointment_date"; }
    }
  }

  /** The clause of `getAllAppointments` holds one placeholder per parameter. */
  lemma FilterMarks(f: ListFilters)
    ensures Count("1 = 1" + Conditions(FilterTerms(f)), '?') == |Params(FilterTerms(f))|
  {
    var terms := FilterTerms(f);
    FilterColumnsPlain(f);
    ConditionsMatchParams(terms);
    assert '?' !in "1 = 1";
    CountAbsent("1 = 1", '?');
    CountAppend("1 = 1", Conditions(terms), '?');
  }

  /** The conditions of the first `k` filters. */
  function ConditionsUpTo(terms: seq<Term>, k: nat): string
    requires k <= |terms|
  {
    if k == 0 then "" else ConditionsUpTo(terms, k - 1) + Piece(terms[k - 1])
  }

  /** The values of the first `k` filters that are given. */
  function ParamsUpTo(terms: seq<Term>, k: nat): seq<string>
    requires k <= |terms|
  {
    if k == 0 then [] else ParamsUpTo(terms, k - 1) + (if terms[k - 1].value != "" then [terms[k - 1].value] else [])
  }

  /** The first `k` filters are the first `k - 1` and then filter `k - 1`. */
  lemma PrefixStep(terms: seq<Term>, k: nat)
    requires 0 < k <= |terms|
    ensures terms[..k] == terms[..k - 1] + [terms[k - 1]]
  {
  }

  /** Handling the first `k` filters one at a time gives their conditions
      and values. */
  lemma {:induction false} UpToPrefix(terms: seq<Term>, k: nat)
    requires k <= |terms|
    ensures ConditionsUpTo(terms, k) == Conditions(terms[..k])
    ensures ParamsUpTo(terms, k) == Params(terms[..k])
  {
    if k > 0 {
      var prev := terms[..k - 1];
      var t := terms[k - 1];
      UpToPrefix(terms, k - 1);
      PrefixStep(terms, k);
      Extend(prev, t);
    }
  }

  /** Appending a piece after a clause regroups freely. */
  lemma Regroup(a: string, b: string, c: string)
    ensures a + (b + c) == (a + b) + c
  {
  }

  /** One filter test of `getAllAppointments`: when filter `k` is given,
      its condition joins the clause and its value the parameters. */
  method AddFilter(whereClause: string, queryParams: seq<string>, ghost base: string, ghost terms: seq<Term>, ghost k: nat, t: Term)
    returns (whereClause': string, queryParams': seq<string>)
    requires k < |terms| && t == terms[k]
    requires whereClause == base + ConditionsUpTo(terms, k) && queryParams == ParamsUpTo(terms, k)
    ensures whereClause' == base + ConditionsUpTo(terms, k + 1) && queryParams' == ParamsUpTo(terms, k + 1)
  {
    Regroup(base, ConditionsUpTo(terms, k), Piece(t));
    if t.value != "" {
      whereClause' := whereClause + Condition(t.column, t.op);
      queryParams' := queryParams + [t.value];
    } else {
      whereClause', queryParams' := whereClause, queryParams;
    }
  }

  /** The six filter tests of `getAllAppointments`, in order, on a clause
      that starts as `base` with no parameters. */
  method AddFilters(base: string, terms: seq<Term>) returns (whereClause: string, queryParams: seq<string>)
    requires |terms| == 6
    ensures whereClause == base + Conditions(terms) && queryParams == Params(terms)
  {
    whereClause := base;
    queryParams := [];
    assert whereClause == base + ConditionsUpTo(terms, 0);
    whereClause, queryParams := AddFilter(whereClause, queryParams, base, terms, 0, terms[0]);
    whereClause, queryParams := AddFilter(whereClause, queryParams, base, terms, 1, terms[1]);
    whereClause, queryParams := AddFilter(whereClause, queryParams, base, terms, 2, terms[2]);
    whereClause, queryParams := AddFilter(whereClause, queryParams, base, terms, 3, terms[3]);
    whereClause, queryParams := AddFilter(whereClause, queryParams, base, terms, 4, terms[4]);
    whereClause, queryParams := AddFilter(whereClause, queryParams, base, terms, 5, terms[5]);
    UpToPrefix(terms, 6);
    assert terms[..6] == terms;
  }

  /** The `whereClause` and `queryParams` of `getAllAppointments`: the
      conditions and values of the given filters, in order, after `1 = 1`;
      the clause holds one placeholder per parameter. */
  method ListFilterClause(f: ListFilters) returns (whereClause: string, queryParams: seq<string>)
    ensures whereClause == "1 = 1" + Conditions(FilterTerms(f))
    ensures queryParams == Params(FilterTerms(f))
    ensures Count(whereClause, '?') == |queryParams|
  {
    whereClause, queryParams := AddFilters("1 = 1", FilterTerms(f));
    FilterMarks(f);
  }
}
