/** The database the controllers work against, as one in-memory store: a
    table per entity. Every table but `doctor_schedules` has an
    auto-increment id and is only ever soft-deleted; schedule rows are
    physically deleted and re-inserted, so they carry no id here. */
module Store {
  import opened Database
  import opened Schema

  class Db {
    var users: seq<Record<User>>
    var patients: seq<Record<Patient>>
    var clinics: seq<Record<Clinic>>
    var specialties: seq<Record<Specialty>>
    var doctors: seq<Record<Doctor>>
    var schedules: seq<ScheduleRow>
    var appointments: seq<Record<Appointment>>

    /** Every id-keyed table holds its rows at position `id - 1`. */
    ghost predicate Valid()
      reads this
    {
      Keyed(users) && Keyed(patients) && Keyed(clinics) && Keyed(specialties) &&
      Keyed(doctors) && Keyed(appointments)
    }

    /** An empty database. */
    constructor()
      ensures Valid()
      ensures users == [] && patients == [] && clinics == [] && specialties == []
      ensures doctors == [] && schedules == [] && appointments == []
    {
      users := [];
      patients := [];
      clinics := [];
      specialties := [];
      doctors := [];
      schedules := [];
      appointments := [];
    }
  }
}
