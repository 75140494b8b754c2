/** The authentication middleware: token authentication (strict and
    optional), the role guard and the three ownership guards. A guard either
    passes the request on (`next()`) or answers with a status and a message.
    The access queries the ownership guards run are inputs: whether the query
    returned a row. */
module Auth {
  import opened Wrappers
  import opened Text
  import opened Database
  import opened Schema
  import opened Jwt

  datatype Verdict = Next | Reject(code: int, message: string)

  const UserGone: string := "Usuario no encontrado o inactivo"

  /** The lookup `authenticateToken` and `optionalAuth` share: extract the
      token, verify it (`verify` stands for the token library, giving the
      decoded user id or its failure), and load the user with `findById`.
      Success carries the claims that become `req.user`. */
  function Authenticate(header: Option<string>, users: seq<Record<User>>,
                        verify: string -> Result<int, VerifyFailure>): Result<Claims, string>
  {
    match ExtractTokenFromHeader(header)
    case Failure(m) => Failure(m)
    case Success(token) =>
      match verify(token)
      case Failure(f) => Failure(VerifyErrorMessage(f))
      case Success(id) =>
        match FindById(users, id)
        case None => Failure(UserGone)
        case Some(u) => Success(CreateTokenPayload(u))
  }

  /** Authentication succeeds exactly for a well-formed bearer header whose
      token verifies to the id of an active user, and the claims are that
      user's token payload: exactly id, email, role, names and active flag. */
  lemma AuthenticateExactly(header: Option<string>, users: seq<Record<User>>,
                            verify: string -> Result<int, VerifyFailure>, c: Claims)
    ensures Authenticate(header, users, verify) == Success(c) <==>
      exists t, u :: ExtractTokenFromHeader(header) == Success(t) && verify(t).Success? &&
        u in users && u.id == verify(t).value && u.isActive && c == CreateTokenPayload(u) &&
        FindById(users, u.id) == Some(u)
  {
    if Authenticate(header, users, verify) == Success(c) {
      var t := ExtractTokenFromHeader(header).value;
      var u := FindById(users, verify(t).value).value;
      assert ExtractTokenFromHeader(header) == Success(t) && verify(t).Success? &&
        u in users && u.id == verify(t).value && u.isActive && c == CreateTokenPayload(u) &&
        FindById(users, u.id) == Some(u);
    }
  }

  /** A failure always carries a non-empty message, so the fallback message
      `'Token de acceso inválido'` is never used; a stale token (the user is
      gone or deactivated) is told apart from a bad one. */
  lemma AuthenticateFailureMessages(header: Option<string>, users: seq<Record<User>>,
                                    verify: string -> Result<int, VerifyFailure>)
    ensures Authenticate(header, users, verify).Failure? ==> Authenticate(header, users, verify).error != ""
    ensures Authenticate(header, users, verify) == Failure(UserGone) <==>
      exists t :: ExtractTokenFromHeader(header) == Success(t) && verify(t).Success? &&
        FindById(users, verify(t).value).None?
  {
    match ExtractTokenFromHeader(header)
    case Failure(m) => ExtractTokenErrors(header);
    case Success(t) =>
      match verify(t)
      case Failure(f) =>
        VerifyErrorClasses(f);
        assert UserGone[0] == 'U';
        if f.name != "TokenExpiredError" && f.name != "JsonWebTokenError" {
          assert VerifyErrorMessage(f)[0] == OtherPrefix[0] == 'E';
        }
      case Success(id) =>
  }

  /** The request object, as far as the middleware touches it. */
  class Request {
    var authorization: Option<string>
    var user: Option<Claims>

    constructor(authorization: Option<string>)
      ensures this.authorization == authorization && user == None
    {
      this.authorization := authorization;
      user := None;
    }
  }

  /** `authenticateToken`: on success `req.user` is set and the request
      passes; any failure answers 401 with the failure's message and leaves
      `req.user` alone. */
  method AuthenticateToken(req: Request, users: seq<Record<User>>,
                           verify: string -> Result<int, VerifyFailure>) returns (v: Verdict)
    modifies req`user
    ensures Authenticate(req.authorization, users, verify).Success? ==>
      v == Next && req.user == Some(Authenticate(req.authorization, users, verify).value)
    ensures Authenticate(req.authorization, users, verify).Failure? ==>
      v == Reject(401, Authenticate(req.authorization, users, verify).error) && req.user == old(req.user)
  {
    var r := Authenticate(req.authorization, users, verify);
    if r.Success? {
      req.user := Some(r.value);
      v := Next;
    } else {
      v := Reject(401, r.error);
    }
  }

  /** `optionalAuth`: never rejects; `req.user` is set only when a header is
      present and authentication succeeds. */
  method OptionalAuth(req: Request, users: seq<Record<User>>,
                      verify: string -> Result<int, VerifyFailure>) returns (v: Verdict)
    modifies req`user
    ensures v == Next
    ensures req.user == if Authenticate(req.authorization, users, verify).Success?
      then Some(Authenticate(req.authorization, users, verify).value) else old(req.user)
  {
    v := Next;
    if req.authorization.None? || req.authorization.value == "" {
      return;
    }
    var r := Authenticate(req.authorization, users, verify);
    if r.Success? {
      req.user := Some(r.value);
    }
  }

  /** `requireRole`'s argument: one role, or a list of them. */
  datatype Allowed = OneRole(role: string) | Roles(roles: seq<string>)

  function RoleList(a: Allowed): seq<string>
  {
    match a
    case OneRole(r) => [r]
    case Roles(rs) => rs
  }

  const Unauthorized: string := "Acceso no autorizado"
  const DeniedPrefix: string := "Acceso denegado. Roles permitidos: "

  /** `requireRole(allowed)` applied to the request's user. */
  function RequireRole(allowed: Allowed, user: Option<Claims>): (v: Verdict)
    ensures v == Next <==> user.Some? && user.value.role in RoleList(allowed)
    ensures user.None? <==> v == Reject(401, Unauthorized)
    ensures user.Some? && user.value.role !in RoleList(allowed) ==>
      v == Reject(403, DeniedPrefix + Join(RoleList(allowed), ", "))
  {
    if user.None? then Reject(401, Unauthorized)
    else
      var roles := RoleList(allowed);
      if user.value.role !in roles then Reject(403, DeniedPrefix + Join(roles, ", "))
      else Next
  }

  /** A single role behaves exactly as the one-element list. */
  lemma SingleRoleIsList(r: string, user: Option<Claims>)
    ensures RequireRole(OneRole(r), user) == RequireRole(Roles([r]), user)
  {
  }

  function RequireAdmin(user: Option<Claims>): Verdict
  {
    RequireRole(OneRole("admin"), user)
  }

  function RequireStaff(user: Option<Claims>): Verdict
  {
    RequireRole(Roles(["admin", "secretary"]), user)
  }

  /** `requireAdmin` lets through exactly admins, `requireStaff` exactly
      admins and secretaries; the refusals name the allowed roles. */
  lemma AdminAndStaff(user: Option<Claims>)
    ensures RequireAdmin(user) == Next <==> user.Some? && user.value.role == "admin"
    ensures RequireStaff(user) == Next <==> user.Some? && (user.value.role == "admin" || user.value.role == "secretary")
    ensures user.Some? && user.value.role != "admin" ==>
      RequireAdmin(user) == Reject(403, "Acceso denegado. Roles permitidos: admin")
    ensures user.Some? && user.value.role != "admin" && user.value.role != "secretary" ==>
      RequireStaff(user) == Reject(403, "Acceso denegado. Roles permitidos: admin, secretary")
  {
    assert Join(["admin"], ", ") == "admin";
    assert Join(["admin", "secretary"], ", ") == "admin, secretary" by {
      assert Join(["secretary"], ", ") == "secretary";
    }
  }

  /** `requireClinicAccess`; `accessRow` says whether the user has an active
      `clinic_users` row for the clinic. Without a user, reading `req.user.id`
      throws and the guard answers 500. */
  function RequireClinicAccess(user: Option<Claims>, accessRow: bool): Verdict
  {
    if user.None? then Reject(500, "Error verificando acceso a clínica")
    else if user.value.role == "admin" then Next
    else if user.value.role == "secretary" then
      if accessRow then Next else Reject(403, "No tienes acceso a esta clínica")
    else if user.value.role == "patient" then Reject(403, "Acceso denegado para pacientes")
    else Next
  }

  /** Who gets through `requireClinicAccess`: admins, secretaries with an
      access row, and every role other than secretary and patient; the access
      row matters to secretaries only, and patients are always refused. */
  lemma ClinicAccessDecision(user: Option<Claims>, accessRow: bool)
    ensures RequireClinicAccess(user, accessRow) == Next <==>
      user.Some? && (user.value.role == "secretary" ==> accessRow) && user.value.role != "patient"
    ensures user.Some? && user.value.role != "secretary" ==>
      RequireClinicAccess(user, accessRow) == RequireClinicAccess(user, !accessRow)
    ensures user.Some? && user.value.role == "patient" ==>
      RequireClinicAccess(user, accessRow).Reject? && RequireClinicAccess(user, accessRow).code == 403
    ensures user.None? ==> RequireClinicAccess(user, accessRow).Reject? && RequireClinicAccess(user, accessRow).code == 500
  {
  }

  /** `requireDoctorAccess`; `accessRow` says whether the user has an active
      `clinic_users` row for the active doctor's clinic. */
  function RequireDoctorAccess(user: Option<Claims>, accessRow: bool): Verdict
  {
    if user.None? then Reject(500, "Error verificando acceso a médico")
    else if user.value.role == "admin" then Next
    else if user.value.role == "secretary" then
      if accessRow then Next else Reject(403, "No tienes acceso a este médico")
    else Reject(403, "Acceso denegado")
  }

  /** Only staff get through `requireDoctorAccess`: admins always, secretaries
      with an access row; doctors and patients included, every other role is
      refused with 403. */
  lemma DoctorAccessDecision(user: Option<Claims>, accessRow: bool)
    ensures RequireDoctorAccess(user, accessRow) == Next <==>
      user.Some? && (user.value.role == "admin" || (user.value.role == "secretary" && accessRow))
    ensures RequireDoctorAccess(user, accessRow) == Next ==> RequireStaff(user) == Next
    ensures user.Some? && RequireDoctorAccess(user, accessRow) != Next ==> RequireDoctorAccess(user, accessRow).code == 403
  {
  }

  /** `requirePatientAccess`; `ownsRow` says whether an active `patients` row
      with the requested id belongs to the user. */
  function RequirePatientAccess(user: Option<Claims>, ownsRow: bool): Verdict
  {
    if user.None? then Reject(500, "Error verificando acceso a paciente")
    else if user.value.role in ["admin", "secretary"] then Next
    else if user.value.role == "patient" then
      if ownsRow then Next else Reject(403, "Solo puedes acceder a tus propios datos")
    else Next
  }

  /** A patient reaches patient data only through their own row; everyone
      else with a user passes, whatever the lookup says. */
  lemma PatientAccessDecision(user: Option<Claims>, ownsRow: bool)
    ensures RequirePatientAccess(user, ownsRow) == Next <==>
      user.Some? && (user.value.role == "patient" ==> ownsRow)
    ensures user.Some? && user.value.role != "patient" ==> RequirePatientAccess(user, ownsRow) == Next
    ensures user.None? ==> RequirePatientAccess(user, ownsRow).Reject? && RequirePatientAccess(user, ownsRow).code == 500
  {
  }
}
