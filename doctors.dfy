/** The doctor controller: creating, updating and soft-deleting doctors, and
    replacing a doctor's weekly schedule, on the in-memory store. */
module Doctors {
  import opened Wrappers
  import opened Database
  import opened Schema
  import opened AppointmentStatus
  import opened Availability
  import opened Store
  import opened Appointments

  const UserNotFound: string := "Usuario no encontrado"
  const AlreadyDoctor: string := "El usuario ya es médico"
  const SpecialtyNotFound: string := "Especialidad no encontrada"
  const LicenseInUse: string := "Ya existe un médico con ese número de matrícula"
  const LicenseInUseByOther: string := "Ya existe otro médico con ese número de matrícula"
  const HasFutureAppointments: string := "No se puede eliminar el médico porque tiene turnos futuros programados"

  /** Some active doctor row belongs to the user. */
  predicate IsDoctor(rows: seq<Record<Doctor>>, userId: int)
  {
    exists i :: 0 <= i < |rows| && rows[i].isActive && rows[i].data.userId == userId
  }

  /** Some active doctor row, other than `except` when given, has the licence. */
  predicate LicenseTaken(rows: seq<Record<Doctor>>, license: string, except: Option<int>)
  {
    exists i :: 0 <= i < |rows| && rows[i].isActive && rows[i].data.licenseNumber == license &&
      (except.None? || rows[i].id != except.value)
  }

  /** No user is two active doctors and no licence is held by two active
      doctors: the state the creation and update checks defend. */
  ghost predicate DistinctDoctors(rows: seq<Record<Doctor>>)
  {
    forall i, j :: 0 <= i < |rows| && 0 <= j < |rows| && i != j && rows[i].isActive && rows[j].isActive ==>
      rows[i].data.userId != rows[j].data.userId && rows[i].data.licenseNumber != rows[j].data.licenseNumber
  }

  // ---------------------------------------------------------------------
  // createDoctor

  /** The request body of `createDoctor`; an absent duration is 0. */
  datatype NewDoctor = NewDoctor(userId: int, clinicId: int, specialtyId: int, licenseNumber: string,
                                 consultationDuration: nat)

  /** `createDoctor`. */
  method CreateDoctor(db: Db, req: NewDoctor) returns (r: Reply<Record<Doctor>>)
    requires db.Valid()
    modifies db`doctors
    ensures db.Valid()
    ensures r.Fail? ==> db.doctors == old(db.doctors)
    ensures FindById(db.users, req.userId).None? ==> r == Fail(404, UserNotFound)
    ensures FindById(db.users, req.userId).Some? ==>
      (IsDoctor(old(db.doctors), req.userId) ==> r == Fail(409, AlreadyDoctor)) &&
      var noClinic := FindById(db.clinics, req.clinicId).None?;
      var noSpecialty := FindById(db.specialties, req.specialtyId).None?;
      var taken := LicenseTaken(old(db.doctors), req.licenseNumber, None);
      (!IsDoctor(old(db.doctors), req.userId) && noClinic ==> r == Fail(404, ClinicNotFound)) &&
      (!IsDoctor(old(db.doctors), req.userId) && !noClinic && noSpecialty ==> r == Fail(404, SpecialtyNotFound)) &&
      (!IsDoctor(old(db.doctors), req.userId) && !noClinic && !noSpecialty && taken ==> r == Fail(409, LicenseInUse)) &&
      (!IsDoctor(old(db.doctors), req.userId) && !noClinic && !noSpecialty && !taken ==>
         var row := Doctor(req.userId, req.clinicId, req.specialtyId, req.licenseNumber,
                           if req.consultationDuration > 0 then req.consultationDuration else 30);
         r == Ok(Record(|old(db.doctors)| + 1, true, row)) && db.doctors == Insert(old(db.doctors), row))
    ensures DistinctDoctors(old(db.doctors)) ==> DistinctDoctors(db.doctors)
  {
    if FindById(db.users, req.userId).None? {
      return Fail(404, UserNotFound);
    }
    if IsDoctor(db.doctors, req.userId) {
      return Fail(409, AlreadyDoctor);
    }
    if FindById(db.clinics, req.clinicId).None? {
      return Fail(404, ClinicNotFound);
    }
    if FindById(db.specialties, req.specialtyId).None? {
      return Fail(404, SpecialtyNotFound);
    }
    if LicenseTaken(db.doctors, req.licenseNumber, None) {
      return Fail(409, LicenseInUse);
    }
    var row := Doctor(req.userId, req.clinicId, req.specialtyId, req.licenseNumber,
                      if req.consultationDuration > 0 then req.consultationDuration else 30);
    var id := |db.doctors| + 1;
    if DistinctDoctors(db.doctors) {
      AddDoctorKeeps(db.doctors, Record(id, true, row));
    }
    db.doctors := Insert(db.doctors, row);
    r := Ok(Record(id, true, row));
  }

  /** A new doctor whose user is not yet a doctor and whose licence is free
      keeps doctors distinct. */
  lemma AddDoctorKeeps(rows: seq<Record<Doctor>>, rec: Record<Doctor>)
    requires DistinctDoctors(rows)
    requires !IsDoctor(rows, rec.data.userId) && !LicenseTaken(rows, rec.data.licenseNumber, None)
    ensures DistinctDoctors(rows + [rec])
  {
    var r := rows + [rec];
    forall i, j | 0 <= i < |r| && 0 <= j < |r| && i != j && r[i].isActive && r[j].isActive
      ensures r[i].data.userId != r[j].data.userId && r[i].data.licenseNumber != r[j].data.licenseNumber
    {
      if i == |rows| {
        assert r[j] == rows[j];
      } else if j == |rows| {
        assert r[i] == rows[i];
      }
    }
  }

  // ---------------------------------------------------------------------
  // updateDoctor

  /** The request body of `updateDoctor`; absent (or falsy) values are 0 and `""`. */
  datatype DoctorChange = DoctorChange(clinicId: int, specialtyId: int, licenseNumber: string, consultationDuration: nat)

  /** `updateData` of `updateDoctor`. */
  datatype DoctorPatch = DoctorPatch(clinicId: Option<int>, specialtyId: Option<int>, licenseNumber: Option<string>,
                                     consultationDuration: Option<nat>)

  function ApplyDoctor(d: Doctor, p: DoctorPatch): (e: Doctor)
    ensures e.userId == d.userId
  {
    d.(clinicId := p.clinicId.GetOr(d.clinicId), specialtyId := p.specialtyId.GetOr(d.specialtyId),
       licenseNumber := p.licenseNumber.GetOr(d.licenseNumber),
       consultationDuration := p.consultationDuration.GetOr(d.consultationDuration))
  }

  /** Only the truthy fields of the body make it into `updateData`. */
  predicate DoctorPatchFor(c: DoctorChange, p: DoctorPatch)
  {
    p.clinicId == (if c.clinicId != 0 then Some(c.clinicId) else None) &&
    p.specialtyId == (if c.specialtyId != 0 then Some(c.specialtyId) else None) &&
    p.licenseNumber == (if c.licenseNumber != "" then Some(c.licenseNumber) else None) &&
    p.consultationDuration == (if c.consultationDuration != 0 then Some(c.consultationDuration) else None)
  }

  /** `updateDoctor` for the doctor with id `id`; `patch` is the
      `updateData` it builds. */
  method UpdateDoctor(db: Db, id: int, c: DoctorChange) returns (r: Reply<()>, patch: DoctorPatch)
    requires db.Valid()
    modifies db`doctors
    ensures db.Valid()
    ensures r.Fail? ==> db.doctors == old(db.doctors)
    ensures FindById(old(db.doctors), id).None? ==> r == Fail(404, DoctorNotFound)
    ensures FindById(old(db.doctors), id).Some? ==>
      var badClinic := c.clinicId != 0 && FindById(db.clinics, c.clinicId).None?;
      var badSpecialty := c.specialtyId != 0 && FindById(db.specialties, c.specialtyId).None?;
      var badLicense := c.licenseNumber != "" && LicenseTaken(old(db.doctors), c.licenseNumber, Some(id));
      (badClinic ==> r == Fail(404, ClinicNotFound)) &&
      (!badClinic && badSpecialty ==> r == Fail(404, SpecialtyNotFound)) &&
      (!badClinic && !badSpecialty && badLicense ==> r == Fail(409, LicenseInUseByOther)) &&
      (!badClinic && !badSpecialty && !badLicense ==>
        DoctorPatchFor(c, patch) &&
        (patch == DoctorPatch(None, None, None, None) ==> r == Fail(500, ServerError)) &&
        (patch != DoctorPatch(None, None, None, None) ==>
          r == Ok(()) &&
          db.doctors == UpdateRows(old(db.doctors), id, ApplyDoctor(FindById(old(db.doctors), id).value.data, patch))))
    ensures DistinctDoctors(old(db.doctors)) ==> DistinctDoctors(db.doctors)
  {
    patch := DoctorPatch(None, None, None, None);
    var existing := FindById(db.doctors, id);
    if existing.None? {
      return Fail(404, DoctorNotFound), patch;
    }
    if c.clinicId != 0 {
      if FindById(db.clinics, c.clinicId).None? {
        return Fail(404, ClinicNotFound), patch;
      }
      patch := patch.(clinicId := Some(c.clinicId));
    }
    if c.specialtyId != 0 {
      if FindById(db.specialties, c.specialtyId).None? {
        return Fail(404, SpecialtyNotFound), patch;
      }
      patch := patch.(specialtyId := Some(c.specialtyId));
    }
    if c.licenseNumber != "" {
      if LicenseTaken(db.doctors, c.licenseNumber, Some(id)) {
        return Fail(409, LicenseInUseByOther), patch;
      }
      patch := patch.(licenseNumber := Some(c.licenseNumber));
    }
    if c.consultationDuration != 0 {
      patch := patch.(consultationDuration := Some(c.consultationDuration));
    }
    if patch == DoctorPatch(None, None, None, None) {
      // `UPDATE doctors SET  WHERE id = ?` is not valid SQL.
      return Fail(500, ServerError), patch;
    }
    var d := ApplyDoctor(existing.value.data, patch);
    if DistinctDoctors(db.doctors) {
      UpdateDoctorKeeps(db.doctors, id, d);
    }
    UpdateKeepsKeyed(db.doctors, id, d);
    db.doctors := UpdateRows(db.doctors, id, d);
    r := Ok(());
  }

  /** Rewriting an active doctor keeps doctors distinct when the user stays
      and the licence is held by no other active doctor. */
  lemma UpdateDoctorKeeps(rows: seq<Record<Doctor>>, id: int, d: Doctor)
    requires Keyed(rows) && DistinctDoctors(rows) && FindById(rows, id).Some?
    requires d.userId == FindById(rows, id).value.data.userId
    requires d.licenseNumber == FindById(rows, id).value.data.licenseNumber || !LicenseTaken(rows, d.licenseNumber, Some(id))
    ensures DistinctDoctors(UpdateRows(rows, id, d))
  {
    KeyedLookup(rows, id);
    var r := UpdateRows(rows, id, d);
    forall i, j | 0 <= i < |r| && 0 <= j < |r| && i != j && r[i].isActive && r[j].isActive
      ensures r[i].data.userId != r[j].data.userId && r[i].data.licenseNumber != r[j].data.licenseNumber
    {
      if rows[i].id == id {
        assert i == id - 1 && r[i].data == d && r[j] == rows[j];
        assert rows[j].isActive && rows[j].id != id;
      } else if rows[j].id == id {
        assert j == id - 1 && r[j].data == d && r[i] == rows[i];
        assert rows[i].isActive && rows[i].id != id;
      }
    }
  }

  // ---------------------------------------------------------------------
  // deleteDoctor

  /** An appointment that blocks deleting its doctor: on or after `today`
      and neither cancelled nor completed (soft-deleted rows count). */
  predicate Upcoming(a: Appointment, doctorId: int, today: nat)
  {
    a.doctorId == doctorId && a.date >= today && a.status != Cancelled && a.status != Completed
  }

  /** The `COUNT(*)` of upcoming appointments of the doctor. */
  function UpcomingCount(rows: seq<Record<Appointment>>, doctorId: int, today: nat): (n: nat)
    ensures n <= |rows|
    ensures n > 0 <==> exists i :: 0 <= i < |rows| && Upcoming(rows[i].data, doctorId, today)
  {
    if rows == [] then 0
    else
      var rest := UpcomingCount(rows[..|rows| - 1], doctorId, today);
      assert forall i :: 0 <= i < |rows| - 1 ==> rows[..|rows| - 1][i] == rows[i];
      rest + (if Upcoming(rows[|rows| - 1].data, doctorId, today) then 1 else 0)
  }

  /** `deleteDoctor` on the date `today` (the database's `CURDATE()`). */
  method DeleteDoctor(db: Db, id: int, today: nat) returns (r: Reply<()>)
    requires db.Valid()
    modifies db`doctors
    ensures db.Valid()
    ensures r.Fail? ==> db.doctors == old(db.doctors)
    ensures FindById(old(db.doctors), id).None? ==> r == Fail(404, DoctorNotFound)
    ensures FindById(old(db.doctors), id).Some? ==>
      (UpcomingCount(db.appointments, id, today) > 0 ==> r == Fail(400, HasFutureAppointments)) &&
      (UpcomingCount(db.appointments, id, today) == 0 ==> r == Ok(()) && db.doctors == SoftDeleteRows(old(db.doctors), id))
    ensures r.Ok? ==>
      FindById(db.doctors, id).None? &&
      forall i :: 0 <= i < |db.appointments| ==> !Upcoming(db.appointments[i].data, id, today)
    ensures DistinctDoctors(old(db.doctors)) ==> DistinctDoctors(db.doctors)
  {
    if FindById(db.doctors, id).None? {
      return Fail(404, DoctorNotFound);
    }
    if UpcomingCount(db.appointments, id, today) > 0 {
      return Fail(400, HasFutureAppointments);
    }
    SoftDeleteHides(db.doctors, id, id);
    db.doctors := SoftDeleteRows(db.doctors, id);
    r := Ok(());
  }

  // ---------------------------------------------------------------------
  // updateDoctorSchedules

  /** One entry of the submitted schedule list; `isActive` may be left out. */
  datatype ScheduleEntry = ScheduleEntry(dayOfWeek: int, startTime: nat, endTime: nat, isActive: Option<bool>)

  /** The row inserted for an entry: `isActive` defaults to true. */
  function EntryRow(doctorId: int, e: ScheduleEntry): ScheduleRow
  {
    ScheduleRow(doctorId, e.dayOfWeek, e.startTime, e.endTime, e.isActive.GetOr(true))
  }

  /** The rows inserted for a list of entries, in order. */
  function EntryRows(doctorId: int, entries: seq<ScheduleEntry>): (rows: seq<ScheduleRow>)
    ensures |rows| == |entries|
    ensures forall i :: 0 <= i < |entries| ==> rows[i] == EntryRow(doctorId, entries[i])
  {
    if entries == [] then []
    else EntryRows(doctorId, entries[..|entries| - 1]) + [EntryRow(doctorId, entries[|entries| - 1])]
  }

  /** The rows of one doctor, in table order. */
  function RowsOf(rows: seq<ScheduleRow>, doctorId: int): seq<ScheduleRow>
  {
    if rows == [] then []
    else
      var last := rows[|rows| - 1];
      RowsOf(rows[..|rows| - 1], doctorId) + (if last.doctorId == doctorId then [last] else [])
  }

  /** The rows left by `DELETE FROM doctor_schedules WHERE doctor_id = ?`. */
  function RowsNotOf(rows: seq<ScheduleRow>, doctorId: int): seq<ScheduleRow>
  {
    if rows == [] then []
    else
      var last := rows[|rows| - 1];
      RowsNotOf(rows[..|rows| - 1], doctorId) + (if last.doctorId != doctorId then [last] else [])
  }

  /** `updateDoctorSchedules`: the doctor's rows are deleted and one row per
      entry is inserted, in order. */
  method UpdateDoctorSchedules(db: Db, id: int, entries: seq<ScheduleEntry>) returns (r: Reply<()>)
    requires db.Valid()
    modifies db`schedules
    ensures db.Valid()
    ensures FindById(db.doctors, id).None? ==> r == Fail(404, DoctorNotFound) && db.schedules == old(db.schedules)
    ensures FindById(db.doctors, id).Some? ==>
      r == Ok(()) && db.schedules == RowsNotOf(old(db.schedules), id) + EntryRows(id, entries)
  {
    if FindById(db.doctors, id).None? {
      return Fail(404, DoctorNotFound);
    }
    db.schedules := RowsNotOf(db.schedules, id);
    ghost var kept := db.schedules;
    for i := 0 to |entries|
      invariant db.schedules == kept + EntryRows(id, entries[..i])
    {
      var e := entries[i];
      db.schedules := db.schedules + [ScheduleRow(id, e.dayOfWeek, e.startTime, e.endTime, e.isActive.GetOr(true))];
      assert entries[..i + 1][..i] == entries[..i];
    }
    assert entries[..|entries|] == entries;
    r := Ok(());
  }

  /** Row filters distribute over concatenation. */
  lemma {:induction false} RowsOfAppend(a: seq<ScheduleRow>, b: seq<ScheduleRow>, doctorId: int)
    ensures RowsOf(a + b, doctorId) == RowsOf(a, doctorId) + RowsOf(b, doctorId)
  {
    if b == [] {
      assert a + b == a;
    } else {
      var ab := a + b;
      assert ab[..|ab| - 1] == a + b[..|b| - 1] && ab[|ab| - 1] == b[|b| - 1];
      RowsOfAppend(a, b[..|b| - 1], doctorId);
    }
  }

  lemma {:induction false} WindowsAppend(a: seq<ScheduleRow>, b: seq<ScheduleRow>, doctorId: int, weekday: int)
    ensures Windows(a + b, doctorId, weekday) == Windows(a, doctorId, weekday) + Windows(b, doctorId, weekday)
  {
    if b == [] {
      assert a + b == a;
    } else {
      var ab := a + b;
      assert ab[..|ab| - 1] == a + b[..|b| - 1] && ab[|ab| - 1] == b[|b| - 1];
      WindowsAppend(a, b[..|b| - 1], doctorId, weekday);
      var w := Windows(b, doctorId, weekday);
      assert Windows(ab, doctorId, weekday) == Windows(a + b[..|b| - 1], doctorId, weekday) +
        (if Serves(b[|b| - 1], doctorId, weekday) then [Window(b[|b| - 1].startTime, b[|b| - 1].endTime)] else []);
    }
  }

  /** The doctor's rows after deletion: none; every other doctor keeps all of
      theirs. */
  lemma {:induction false} RowsNotOfFacts(rows: seq<ScheduleRow>, doctorId: int, other: int, weekday: int)
    ensures RowsOf(RowsNotOf(rows, doctorId), doctorId) == []
    ensures other != doctorId ==> RowsOf(RowsNotOf(rows, doctorId), other) == RowsOf(rows, other)
    ensures Windows(RowsNotOf(rows, doctorId), doctorId, weekday) == []
  {
    if rows != [] {
      var init := rows[..|rows| - 1];
      var last := rows[|rows| - 1];
      RowsNotOfFacts(init, doctorId, other, weekday);
      var tail := if last.doctorId != doctorId then [last] else [];
      RowsOfAppend(RowsNotOf(init, doctorId), tail, doctorId);
      RowsOfAppend(RowsNotOf(init, doctorId), tail, other);
      WindowsAppend(RowsNotOf(init, doctorId), tail, doctorId, weekday);
      if last.doctorId != doctorId {
        assert [last][..0] == [];
      }
    }
  }

  /** The inserted rows all belong to the doctor. */
  lemma {:induction false} EntryRowsOwn(id: int, entries: seq<ScheduleEntry>, other: int)
    ensures RowsOf(EntryRows(id, entries), id) == EntryRows(id, entries)
    ensures other != id ==> RowsOf(EntryRows(id, entries), other) == []
  {
    if entries != [] {
      var init := entries[..|entries| - 1];
      EntryRowsOwn(id, init, other);
      var rows := EntryRows(id, entries);
      assert rows[..|rows| - 1] == EntryRows(id, init);
    }
  }

  /** After a schedule replace, the doctor's rows are exactly the submitted
      entries, in order and with `isActive` defaulted; every other doctor's
      rows are as before; and the windows the availability calculator sees
      for the doctor are those of the active submitted entries. */
  lemma ScheduleReplaced(old_: seq<ScheduleRow>, id: int, entries: seq<ScheduleEntry>, other: int, weekday: int)
    ensures RowsOf(RowsNotOf(old_, id) + EntryRows(id, entries), id) == EntryRows(id, entries)
    ensures other != id ==> RowsOf(RowsNotOf(old_, id) + EntryRows(id, entries), other) == RowsOf(old_, other)
    ensures Windows(RowsNotOf(old_, id) + EntryRows(id, entries), id, weekday) == Windows(EntryRows(id, entries), id, weekday)
  {
    RowsOfAppend(RowsNotOf(old_, id), EntryRows(id, entries), id);
    RowsOfAppend(RowsNotOf(old_, id), EntryRows(id, entries), other);
    WindowsAppend(RowsNotOf(old_, id), EntryRows(id, entries), id, weekday);
    RowsNotOfFacts(old_, id, other, weekday);
    EntryRowsOwn(id, entries, other);
  }
}
