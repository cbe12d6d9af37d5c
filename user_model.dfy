/** The user document of Backend/models/user.js: its fields, their defaults, the role
    enumeration, and what the collection guarantees (a unique, required email and a
    required password). */
module UserModel {
  import opened JsValues

  /** The `role` enumeration: "user", "moderator" or "admin". */
  datatype Role = PlainUser | Moderator | Admin

  function RoleName(r: Role): string
  {
    match r
    case PlainUser => "user"
    case Moderator => "moderator"
    case Admin => "admin"
  }

  /** The enum check on a role string: the three names and nothing else. */
  function ParseRole(s: string): (r: Option<Role>)
    ensures r.Some? ==> RoleName(r.value) == s
    ensures r.None? ==> forall x: Role :: RoleName(x) != s
  {
    if s == "user" then Some(PlainUser)
    else if s == "moderator" then Some(Moderator)
    else if s == "admin" then Some(Admin)
    else None
  }

  const DefaultRole: Role := PlainUser

  /** A stored user. `isVerified` is declared twice in the schema with the same type and
      default, so the document has it once. `createdAt` is in milliseconds. */
  datatype User = User(
    email: string,
    password: string,
    role: Role,
    skills: seq<string>,
    isVerified: bool,
    otp: Field<string>,
    otpExpiry: Field<int>,
    resetOtp: Field<string>,
    resetOtpExpiry: Field<int>,
    createdAt: int)

  /** The `required: true` validators: a String path with an empty value fails them. */
  predicate HasRequiredFields(u: User)
  {
    u.email != "" && u.password != ""
  }

  /** The collection keyed by the unique email: every document sits under its own email
      and passed validation. */
  ghost predicate WellKeyed(users: map<string, User>)
  {
    forall e :: e in users ==> users[e].email == e && HasRequiredFields(users[e])
  }

  /** `User.create({...})`: the given paths, and every other path at its schema default
      (role "user", not verified, no reset code, `createdAt` now). */
  function CreateDocument(email: string, password: string, skills: seq<string>, isVerified: bool,
                          otp: Field<string>, otpExpiry: Field<int>, now: int): User
  {
    User(email, password, DefaultRole, skills, isVerified, otp, otpExpiry, Undefined, Undefined, now)
  }
}
