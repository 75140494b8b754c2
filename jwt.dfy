/** Token helpers: reading the bearer token out of the Authorization header,
    the payload built from a user row, and how verification failures are
    reported. Signing and verifying themselves belong to a library and are
    not modelled. */
module Jwt {
  import opened Wrappers
  import opened Text
  import opened Database
  import opened Schema

  const MissingHeader: string := "Header Authorization no encontrado"
  const BadFormat: string := "Formato de token inválido. Use: Bearer <token>"

  /** `extractTokenFromHeader`: a missing or empty header, or one that does
      not split on single spaces into exactly `Bearer` and one more piece, is
      an error (thrown in the source). */
  function ExtractTokenFromHeader(header: Option<string>): Result<string, string>
  {
    if header.None? || header.value == "" then Failure(MissingHeader)
    else
      var parts := Split(header.value, ' ');
      if |parts| != 2 || parts[0] != "Bearer" then Failure(BadFormat)
      else Success(parts[1])
  }

  /** A token comes out exactly when the header is `Bearer `, one space, and a
      token without spaces (possibly empty); the prefix is case-sensitive. */
  lemma ExtractTokenExactly(h: string, t: string)
    ensures ExtractTokenFromHeader(Some(h)) == Success(t) <==> h == "Bearer " + t && ' ' !in t
  {
    if ExtractTokenFromHeader(Some(h)) == Success(t) {
      var parts := Split(h, ' ');
      SplitJoin(h, ' ');
      SplitPiecesFree(h, ' ');
      assert parts == [parts[0], parts[1]];
      assert parts[1..] == [parts[1]];
      assert h == "Bearer" + [' '] + t;
    }
    if h == "Bearer " + t && ' ' !in t {
      assert h == "Bearer" + [' '] + t;
      SplitAround("Bearer", ' ', t);
      SplitWithout(t, ' ');
    }
  }

  /** Every failure is one of the two messages, and the "not found" one comes
      exactly from a missing or empty header. */
  lemma ExtractTokenErrors(header: Option<string>)
    ensures ExtractTokenFromHeader(header).Failure? ==>
      ExtractTokenFromHeader(header).error in {MissingHeader, BadFormat}
    ensures ExtractTokenFromHeader(header) == Failure(MissingHeader) <==> header.None? || header.value == ""
  {
  }

  /** The claims put in a token and, identically, in `req.user`. */
  datatype Claims = Claims(id: int, email: string, role: string, firstName: string, lastName: string, isActive: bool)

  /** `createTokenPayload`: the six profile fields under their camel-case names. */
  function CreateTokenPayload(u: Record<User>): Claims
  {
    Claims(u.id, u.data.email, u.data.role, u.data.firstName, u.data.lastName, u.isActive)
  }

  /** Two users get the same payload exactly when they agree on id, email,
      role, names and active flag: the password never reaches the payload,
      and every other field does. */
  lemma PayloadDeterminedByProfile(u: Record<User>, v: Record<User>)
    ensures CreateTokenPayload(u) == CreateTokenPayload(v) <==>
      u.id == v.id && u.isActive == v.isActive && u.data.email == v.data.email &&
      u.data.role == v.data.role && u.data.firstName == v.data.firstName && u.data.lastName == v.data.lastName
    ensures CreateTokenPayload(u) == CreateTokenPayload(u.(data := u.data.(password := v.data.password)))
  {
  }

  /** A failure reported by the token library: the error's name and message. */
  datatype VerifyFailure = VerifyFailure(name: string, message: string)

  const ExpiredMessage: string := "Token expirado"
  const InvalidMessage: string := "Token inválido"
  const OtherPrefix: string := "Error verificando token: "

  /** The message `verifyToken` rethrows for a library failure. */
  function VerifyErrorMessage(f: VerifyFailure): string
  {
    if f.name == "TokenExpiredError" then ExpiredMessage
    else if f.name == "JsonWebTokenError" then InvalidMessage
    else OtherPrefix + f.message
  }

  /** The three classes are told apart by the message alone: expired tokens,
      malformed tokens, and everything else with the library's own message
      after a fixed prefix. */
  lemma VerifyErrorClasses(f: VerifyFailure)
    ensures VerifyErrorMessage(f) == ExpiredMessage <==> f.name == "TokenExpiredError"
    ensures VerifyErrorMessage(f) == InvalidMessage <==> f.name == "JsonWebTokenError"
    ensures f.name != "TokenExpiredError" && f.name != "JsonWebTokenError" <==>
      |VerifyErrorMessage(f)| >= |OtherPrefix| && VerifyErrorMessage(f)[..|OtherPrefix|] == OtherPrefix
    ensures VerifyErrorMessage(f) != ""
  {
    var m := VerifyErrorMessage(f);
    if f.name != "TokenExpiredError" && f.name != "JsonWebTokenError" {
      assert m[0] == 'E';
      assert m[..|OtherPrefix|] == OtherPrefix;
    } else {
      assert m[0] == 'T' && OtherPrefix[0] == 'E';
    }
  }
}
