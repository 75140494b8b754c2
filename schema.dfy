/** The rows of the tables the controllers read and write, and the shape of a
    controller's reply. Ids are integers (0 where the request left one out),
    dates are day numbers, times are minutes since midnight. */
module Schema {
  import opened Wrappers
  import opened AppointmentStatus

  /** A `users` row (its id and `is_active` flag live in the enclosing record). */
  datatype User = User(email: string, password: string, role: string, firstName: string, lastName: string)

  datatype Patient = Patient(userId: int)

  datatype Clinic = Clinic(name: string)

  datatype Specialty = Specialty(name: string)

  /** A `doctors` row. */
  datatype Doctor = Doctor(userId: int, clinicId: int, specialtyId: int, licenseNumber: string,
                           consultationDuration: nat)

  /** A `doctor_schedules` row: a weekly window `[startTime, endTime)`. */
  datatype ScheduleRow = ScheduleRow(doctorId: int, dayOfWeek: int, startTime: nat, endTime: nat, isActive: bool)

  /** An `appointments` row. */
  datatype Appointment = Appointment(
    patientId: int, doctorId: int, clinicId: int,
    date: nat, time: nat, duration: int,
    status: Status, reason: string, notes: string,
    cancellationReason: Option<string>, createdBy: int, cancelledBy: Option<int>)

  /** A controller's answer: success with a payload, or an HTTP status and the
      message of the JSON error body. */
  datatype Reply<T> = Ok(value: T) | Fail(code: int, message: string)

  /** The body every controller sends when something throws. */
  const ServerError: string := "Error interno del servidor"
}
