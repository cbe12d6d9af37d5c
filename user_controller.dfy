/** The account handlers of Backend/controllers/user.js: signup with a one-time code,
    code verification, login, the admin-only update and listing, and the password-reset
    code cycle.

    Each handler is given twice. A pure step function (`SignupStep`, `VerifyOtpStep`, ...)
    says what the handler does to the collection and what it replies; the lemmas below
    state the handler's promises about it. The class `UserStore` holds the collection as
    a map from email to document and runs each handler imperatively, fetching the
    document, assigning its fields and saving it back; its methods are proved to do what
    the step functions say and to keep the store invariant.

    The clock (`now`, milliseconds), the random draw, bcrypt and the mailer are inputs:
    `hash` and `compare` are arbitrary functions, `mailSent` is whether `sendMail`
    resolved. */
module UserController {
  import opened JsValues
  import opened UserModel
  import opened OtpCode
  import opened HttpReply

  /** Ten minutes, in milliseconds. */
  const OtpLifetime: int := 10 * 60 * 1000

  /** The collection after a handler ran, and the handler's response. */
  datatype Outcome = Outcome(users: map<string, User>, reply: Reply)

  /** The signed token's payload: the user (by its unique email) and the role name. */
  datatype Token = Token(subject: string, role: string)

  datatype LoginReply = Denied(reply: Reply) | Granted(user: User, token: Token)

  /** A document as `select("-password")` returns it. */
  datatype PublicUser = PublicUser(
    email: string,
    role: Role,
    skills: seq<string>,
    isVerified: bool,
    otp: Field<string>,
    otpExpiry: Field<int>,
    resetOtp: Field<string>,
    resetOtpExpiry: Field<int>,
    createdAt: int)

  function Public(u: User): PublicUser
  {
    PublicUser(u.email, u.role, u.skills, u.isVerified, u.otp, u.otpExpiry, u.resetOtp,
               u.resetOtpExpiry, u.createdAt)
  }

  datatype UsersReply = UsersDenied(reply: Reply) | UserList(users: map<string, PublicUser>)

  // ---------------------------------------------------------------- store invariant

  /** A code field and its expiry field move together: both never set, both cleared, or
      a six-digit code with an expiry. */
  predicate CodePair(code: Field<string>, expiry: Field<int>)
  {
    (code.Undefined? && expiry.Undefined?)
    || (code.Null? && expiry.Null?)
    || (code.Value? && IsCode(code.value) && expiry.Value?)
  }

  /** A verified user has no pending signup code; an unverified one has one. */
  predicate CodesConsistent(u: User)
  {
    (if u.isVerified then u.otp == Null && u.otpExpiry == Null
     else u.otp.Value? && IsCode(u.otp.value) && u.otpExpiry.Value?)
    && CodePair(u.resetOtp, u.resetOtpExpiry)
  }

  ghost predicate StoreInvariant(users: map<string, User>)
  {
    WellKeyed(users) && forall e :: e in users ==> CodesConsistent(users[e])
  }

  // ---------------------------------------------------------------- step functions

  /** `signup`. A request without `skills` gets `[]`; a password that is not a string
      makes bcrypt throw; a document failing the `required` validators makes
      `User.create` throw. The document is stored before the mail is sent. */
  function SignupStep(users: map<string, User>, email: string, password: Field<string>,
                      skills: Option<seq<string>>, hash: string -> string, draw: nat, now: int,
                      mailSent: bool): Outcome
    requires draw < DrawSpan
  {
    if email in users then Outcome(users, Reply(400, "Email already registered"))
    else if !password.Value? then Outcome(users, Reply(500, "Signup failed"))
    else
      var user := CreateDocument(email, hash(password.value), skills.GetOr([]), false,
                                 Value(Code(draw)), Value(now + OtpLifetime), now);
      if !HasRequiredFields(user) then Outcome(users, Reply(500, "Signup failed"))
      else if mailSent then Outcome(users[email := user], Reply(201, "OTP sent to email"))
      else Outcome(users[email := user], Reply(500, "Signup failed"))
  }

  /** `verifyOtp`. The welcome mail's failure is caught and ignored, so it is no input. */
  function VerifyOtpStep(users: map<string, User>, email: string, otp: Field<string>, now: int): Outcome
  {
    if email !in users then Outcome(users, Reply(400, "User not found"))
    else
      var u := users[email];
      if u.isVerified then Outcome(users, Reply(400, "User already verified"))
      else if u.otp != otp then Outcome(users, Reply(400, "Invalid OTP"))
      else if DateBefore(u.otpExpiry, now) then Outcome(users, Reply(400, "OTP expired"))
      else Outcome(users[email := u.(isVerified := true, otp := Null, otpExpiry := Null)],
                   Reply(200, "Email verified successfully! You can now login."))
  }

  /** `login`. bcrypt's `compare` throws on a password that is not a string. */
  function LoginStep(users: map<string, User>, email: string, password: Field<string>,
                     compare: (string, string) -> bool): LoginReply
  {
    if email !in users then Denied(Reply(401, "User not found"))
    else
      var u := users[email];
      if !password.Value? then Denied(Reply(500, "Login failed"))
      else if !compare(password.value, u.password) then Denied(Reply(401, "Invalid credentials"))
      else if !u.isVerified then Denied(Reply(403, "Please verify your email first."))
      else Granted(u, Token(u.email, RoleName(u.role)))
  }

  /** `updateUser`. `role` is None when the request has none: the update then leaves the
      stored role alone. */
  function UpdateUserStep(users: map<string, User>, callerRole: string, email: string,
                          skills: Option<seq<string>>, role: Option<Role>): Outcome
  {
    if callerRole != "admin" then Outcome(users, Reply(403, "Forbidden"))
    else if email !in users then Outcome(users, Reply(401, "User not found"))
    else
      var u := users[email];
      var given := skills.GetOr([]);
      Outcome(users[email := u.(skills := if |given| > 0 then given else u.skills,
                                role := role.GetOr(u.role))],
              Reply(200, "User updated successfully"))
  }

  /** `getUsers`. */
  function GetUsersStep(users: map<string, User>, callerRole: string): UsersReply
  {
    if callerRole != "admin" then UsersDenied(Reply(403, "Forbidden"))
    else UserList(map e | e in users :: Public(users[e]))
  }

  /** `forgotPassword`. The code is saved before the mail is sent. */
  function ForgotPasswordStep(users: map<string, User>, email: string, draw: nat, now: int,
                              mailSent: bool): Outcome
    requires draw < DrawSpan
  {
    if email !in users then Outcome(users, Reply(400, "User not found"))
    else
      var u := users[email].(resetOtp := Value(Code(draw)), resetOtpExpiry := Value(now + OtpLifetime));
      if mailSent then Outcome(users[email := u], Reply(200, "OTP sent to email"))
      else Outcome(users[email := u], Reply(500, "Failed to send OTP"))
  }

  /** `resetPassword` as written: the code check is `user.resetOtp !== otp`, which a
      request without `otp` passes for a user who never asked for a code (both
      undefined), and the expiry check `undefined < now` is false. */
  function ResetPasswordAsWritten(users: map<string, User>, email: string, otp: Field<string>,
                                  newPassword: Field<string>, hash: string -> string, now: int): Outcome
  {
    if email !in users then Outcome(users, Reply(400, "User not found"))
    else
      var u := users[email];
      if u.resetOtp != otp then Outcome(users, Reply(400, "Invalid OTP"))
      else if DateBefore(u.resetOtpExpiry, now) then Outcome(users, Reply(400, "OTP expired"))
      else if !newPassword.Value? || hash(newPassword.value) == "" then
        Outcome(users, Reply(500, "Failed to reset password"))
      else Outcome(users[email := u.(password := hash(newPassword.value), resetOtp := Null,
                                     resetOtpExpiry := Null)],
                   Reply(200, "Password reset successfully! You can now login."))
  }

  /** `resetPassword` as intended: a code must have been issued and not yet used. */
  function ResetPasswordStep(users: map<string, User>, email: string, otp: Field<string>,
                             newPassword: Field<string>, hash: string -> string, now: int): Outcome
  {
    if email in users && !users[email].resetOtp.Value? then Outcome(users, Reply(400, "Invalid OTP"))
    else ResetPasswordAsWritten(users, email, otp, newPassword, hash, now)
  }

  // ---------------------------------------------------------------- signup

  /** An email that is taken is refused and nothing changes. */
  lemma SignupRejectsTakenEmail(users: map<string, User>, email: string, password: Field<string>,
                                skills: Option<seq<string>>, hash: string -> string, draw: nat,
                                now: int, mailSent: bool)
    requires draw < DrawSpan && email in users
    ensures SignupStep(users, email, password, skills, hash, draw, now, mailSent)
            == Outcome(users, Reply(400, "Email already registered"))
  {
  }

  /** A new email with a password adds exactly one document: unverified, holding the
      hashed password, the given skills (none if absent), a fresh six-digit code denoting
      100000 + draw that expires ten minutes from now, the default role and no reset code.
      The document stays even when the mail fails and the reply is an error. */
  lemma SignupCreatesUnverifiedUser(users: map<string, User>, email: string, password: Field<string>,
                                    skills: Option<seq<string>>, hash: string -> string, draw: nat,
                                    now: int, mailSent: bool)
    requires draw < DrawSpan && email !in users && email != ""
    requires password.Value? && hash(password.value) != ""
    ensures var o := SignupStep(users, email, password, skills, hash, draw, now, mailSent);
      && o.users.Keys == users.Keys + {email}
      && (forall e :: e in users ==> o.users[e] == users[e])
      && var u := o.users[email];
      && u.email == email && u.password == hash(password.value)
      && u.skills == (if skills.Some? then skills.value else [])
      && !u.isVerified && u.role == PlainUser
      && u.otp.Value? && IsCode(u.otp.value) && DecimalValue(u.otp.value) == 100000 + draw
      && u.otpExpiry == Value(now + 600000)
      && u.resetOtp == Undefined && u.resetOtpExpiry == Undefined && u.createdAt == now
      && o.reply == (if mailSent then Reply(201, "OTP sent to email") else Reply(500, "Signup failed"))
  {
  }

  /** A password that is not a string, an empty email or a failing hash is an error that
      stores nothing. */
  lemma SignupInvalidStoresNothing(users: map<string, User>, email: string, password: Field<string>,
                                   skills: Option<seq<string>>, hash: string -> string, draw: nat,
                                   now: int, mailSent: bool)
    requires draw < DrawSpan && email !in users
    requires !password.Value? || email == "" || hash(password.value) == ""
    ensures SignupStep(users, email, password, skills, hash, draw, now, mailSent)
            == Outcome(users, Reply(500, "Signup failed"))
  {
  }

  // ---------------------------------------------------------------- verifyOtp

  /** The checks come in a fixed order, each refusal changes nothing, and the code is
      accepted exactly when the user exists, is not verified, the code is the stored one
      and its expiry is not before now; acceptance marks the user verified and clears
      the code and its expiry. */
  lemma VerifyOtpChecksInOrder(users: map<string, User>, email: string, otp: Field<string>, now: int)
    ensures var o := VerifyOtpStep(users, email, otp, now);
      && (o.reply.status == 200 <==>
            email in users && !users[email].isVerified && users[email].otp == otp
            && !DateBefore(users[email].otpExpiry, now))
      && (o.reply.status != 200 ==> o.users == users && o.reply.status == 400)
      && (email !in users ==> o.reply.text == "User not found")
      && (email in users && users[email].isVerified ==> o.reply.text == "User already verified")
      && ((email in users && !users[email].isVerified && users[email].otp != otp)
          ==> o.reply.text == "Invalid OTP")
      && ((email in users && !users[email].isVerified && users[email].otp == otp
           && DateBefore(users[email].otpExpiry, now))
          ==> o.reply.text == "OTP expired")
      && (o.reply.status == 200 ==>
            o.users == users[email := users[email].(isVerified := true, otp := Null, otpExpiry := Null)])
  {
  }

  /** A code delivered at signup and entered within ten minutes is accepted. */
  lemma VerifyOtpAcceptsIssuedCode(users: map<string, User>, email: string, now: int, at: int)
    requires email in users && !users[email].isVerified
    requires users[email].otp.Value? && users[email].otpExpiry == Value(at) && now <= at
    ensures VerifyOtpStep(users, email, users[email].otp, now).reply.status == 200
  {
  }

  /** In a store that keeps the invariant, a request is verified only with a six-digit code
      that signup issued: a request without `otp` never matches, because an unverified
      user always has a code pending (unlike the reset fields, which may be undefined). */
  lemma VerifyOtpNeedsIssuedCode(users: map<string, User>, email: string, otp: Field<string>, now: int)
    requires StoreInvariant(users)
    ensures VerifyOtpStep(users, email, otp, now).reply.status == 200 ==>
              && email in users && !users[email].isVerified
              && otp.Value? && IsCode(otp.value) && users[email].otp == otp
              && users[email].otpExpiry.Value? && now <= users[email].otpExpiry.value
  {
    if email in users && VerifyOtpStep(users, email, otp, now).reply.status == 200 {
      assert CodesConsistent(users[email]);
    }
  }

  // ---------------------------------------------------------------- login

  /** Unknown email, then wrong password, then the unverified account are refused, in that
      order; only a verified user with a matching password gets a token, which names that
      user and its role. */
  lemma LoginChecksInOrder(users: map<string, User>, email: string, password: Field<string>,
                           compare: (string, string) -> bool)
    ensures var r := LoginStep(users, email, password, compare);
      && (r.Granted? <==>
            email in users && password.Value? && compare(password.value, users[email].password)
            && users[email].isVerified)
      && (r.Granted? ==>
            r.user == users[email] && r.token == Token(users[email].email, RoleName(users[email].role)))
      && (email !in users ==> r == Denied(Reply(401, "User not found")))
      && ((email in users && password.Value? && !compare(password.value, users[email].password))
          ==> r == Denied(Reply(401, "Invalid credentials")))
      && ((email in users && password.Value? && compare(password.value, users[email].password)
           && !users[email].isVerified)
          ==> r == Denied(Reply(403, "Please verify your email first.")))
  {
  }

  // ---------------------------------------------------------------- updateUser

  /** Only an admin may update, only an existing user; an empty skills list keeps the
      stored skills and a non-empty one replaces them; the role becomes the given one;
      nothing else of that user and no other user changes. */
  lemma UpdateUserChangesSkillsAndRole(users: map<string, User>, callerRole: string, email: string,
                                       skills: Option<seq<string>>, role: Option<Role>)
    ensures var o := UpdateUserStep(users, callerRole, email, skills, role);
      && (callerRole != "admin" ==> o == Outcome(users, Reply(403, "Forbidden")))
      && (callerRole == "admin" && email !in users ==> o == Outcome(users, Reply(401, "User not found")))
      && (callerRole == "admin" && email in users ==>
            && o.reply == Reply(200, "User updated successfully")
            && o.users.Keys == users.Keys
            && (forall e :: e in users && e != email ==> o.users[e] == users[e])
            && var u, v := users[email], o.users[email];
            && v.skills == (if skills.Some? && |skills.value| > 0 then skills.value else u.skills)
            && (role.Some? ==> v.role == role.value)
            && (role.None? ==> v.role == u.role)
            && v == u.(skills := v.skills, role := v.role))
  {
  }

  // ---------------------------------------------------------------- getUsers

  /** Only an admin gets the list: every user, without the password. */
  lemma GetUsersHidesPasswords(users: map<string, User>, callerRole: string)
    ensures var r := GetUsersStep(users, callerRole);
      && (r.UserList? <==> callerRole == "admin")
      && (r.UsersDenied? ==> r.reply == Reply(403, "Forbidden"))
      && (r.UserList? ==> r.users.Keys == users.Keys)
      && (r.UserList? ==> forall e :: e in users ==>
            (r.users[e].email, r.users[e].role, r.users[e].skills, r.users[e].isVerified)
            == (users[e].email, users[e].role, users[e].skills, users[e].isVerified))
  {
  }

  // ---------------------------------------------------------------- password reset

  /** A reset code changes only the two reset fields of that user: a fresh six-digit code
      and an expiry ten minutes from now, kept even when the mail fails. */
  lemma ForgotPasswordSetsOnlyResetCode(users: map<string, User>, email: string, draw: nat, now: int,
                                        mailSent: bool)
    requires draw < DrawSpan
    ensures var o := ForgotPasswordStep(users, email, draw, now, mailSent);
      && (email !in users ==> o == Outcome(users, Reply(400, "User not found")))
      && (email in users ==>
            && o.users.Keys == users.Keys
            && (forall e :: e in users && e != email ==> o.users[e] == users[e])
            && var u, v := users[email], o.users[email];
            && v.resetOtp.Value? && IsCode(v.resetOtp.value)
            && DecimalValue(v.resetOtp.value) == 100000 + draw
            && v.resetOtpExpiry == Value(now + 600000)
            && v == u.(resetOtp := v.resetOtp, resetOtpExpiry := v.resetOtpExpiry)
            && o.reply == (if mailSent then Reply(200, "OTP sent to email")
                           else Reply(500, "Failed to send OTP")))
  {
  }

  /** As written, a user who never asked for a reset code can have its password replaced
      by a request that carries no `otp` at all. */
  lemma ResetWithoutCodeAsWritten(users: map<string, User>, email: string, newPassword: string,
                                  hash: string -> string, now: int)
    requires email in users && users[email].resetOtp == Undefined
    requires users[email].resetOtpExpiry == Undefined && hash(newPassword) != ""
    ensures var o := ResetPasswordAsWritten(users, email, Undefined, Value(newPassword), hash, now);
      && o.reply.status == 200 && o.users[email].password == hash(newPassword)
  {
  }

  /** One concrete store that shows it: a user just signed up, never asked for a code. */
  lemma ResetWithoutCodeExample()
    ensures var u := CreateDocument("a@b.c", "h1", [], false, Value("123456"), Value(600000), 0);
      var o := ResetPasswordAsWritten(map["a@b.c" := u], "a@b.c", Undefined, Value("mine"),
                                      p => p + "#", 1);
      o.reply == Reply(200, "Password reset successfully! You can now login.")
      && o.users["a@b.c"].password == "mine#"
  {
  }

  /** With the intended check, a password changes only for the issued code, entered before
      it expires, and the code is then used up. */
  lemma ResetNeedsIssuedCode(users: map<string, User>, email: string, otp: Field<string>,
                             newPassword: Field<string>, hash: string -> string, now: int)
    ensures var o := ResetPasswordStep(users, email, otp, newPassword, hash, now);
      && (o.reply.status == 200 <==>
            email in users && users[email].resetOtp.Value? && users[email].resetOtp == otp
            && !DateBefore(users[email].resetOtpExpiry, now)
            && newPassword.Value? && hash(newPassword.value) != "")
      && (o.reply.status != 200 ==> o.users == users)
      && (o.reply.status == 200 ==>
            o.users == users[email := users[email].(password := hash(newPassword.value),
                                                   resetOtp := Null, resetOtpExpiry := Null)])
  {
  }

  /** The intended check differs from the written one only for a user without a pending
      code. */
  lemma ResetStepAgreesWhenCodeIssued(users: map<string, User>, email: string, otp: Field<string>,
                                      newPassword: Field<string>, hash: string -> string, now: int)
    requires email !in users || users[email].resetOtp.Value?
    ensures ResetPasswordStep(users, email, otp, newPassword, hash, now)
            == ResetPasswordAsWritten(users, email, otp, newPassword, hash, now)
  {
  }

  // ---------------------------------------------------------------- the invariant is kept

  lemma SignupKeepsInvariant(users: map<string, User>, email: string, password: Field<string>,
                             skills: Option<seq<string>>, hash: string -> string, draw: nat,
                             now: int, mailSent: bool)
    requires draw < DrawSpan && StoreInvariant(users)
    ensures StoreInvariant(SignupStep(users, email, password, skills, hash, draw, now, mailSent).users)
  {
  }

  lemma VerifyOtpKeepsInvariant(users: map<string, User>, email: string, otp: Field<string>, now: int)
    requires StoreInvariant(users)
    ensures StoreInvariant(VerifyOtpStep(users, email, otp, now).users)
  {
  }

  lemma UpdateUserKeepsInvariant(users: map<string, User>, callerRole: string, email: string,
                                 skills: Option<seq<string>>, role: Option<Role>)
    requires StoreInvariant(users)
    ensures StoreInvariant(UpdateUserStep(users, callerRole, email, skills, role).users)
  {
  }

  lemma ForgotPasswordKeepsInvariant(users: map<string, User>, email: string, draw: nat, now: int,
                                     mailSent: bool)
    requires draw < DrawSpan && StoreInvariant(users)
    ensures StoreInvariant(ForgotPasswordStep(users, email, draw, now, mailSent).users)
  {
  }

  lemma ResetPasswordKeepsInvariant(users: map<string, User>, email: string, otp: Field<string>,
                                    newPassword: Field<string>, hash: string -> string, now: int)
    requires StoreInvariant(users)
    ensures StoreInvariant(ResetPasswordStep(users, email, otp, newPassword, hash, now).users)
  {
  }

  // ---------------------------------------------------------------- the running store

  /** The `User` collection. Each method is one handler: it looks the document up, checks,
      assigns fields, and saves the document back under its email. */
  class UserStore {
    var users: map<string, User>

    ghost predicate Valid()
      reads this
    {
      StoreInvariant(users)
    }

    constructor ()
      ensures Valid() && users == map[]
    {
      users := map[];
    }

    method Signup(email: string, password: Field<string>, skills: Option<seq<string>>,
                  hash: string -> string, draw: nat, now: int, mailSent: bool) returns (reply: Reply)
      requires Valid() && draw < DrawSpan
      modifies this
      ensures Valid()
      ensures Outcome(users, reply) == SignupStep(old(users), email, password, skills, hash, draw, now, mailSent)
    {
      if email in users {
        return Reply(400, "Email already registered");
      }
      if !password.Value? {
        return Reply(500, "Signup failed");
      }
      var hashed := hash(password.value);
      var otp := Code(draw);
      var otpExpiry := now + OtpLifetime;
      var user := CreateDocument(email, hashed, skills.GetOr([]), false, Value(otp), Value(otpExpiry), now);
      if !HasRequiredFields(user) {
        return Reply(500, "Signup failed");
      }
      users := users[email := user];
      if !mailSent {
        return Reply(500, "Signup failed");
      }
      reply := Reply(201, "OTP sent to email");
    }

    method VerifyOtp(email: string, otp: Field<string>, now: int) returns (reply: Reply)
      requires Valid()
      modifies this
      ensures Valid()
      ensures Outcome(users, reply) == VerifyOtpStep(old(users), email, otp, now)
    {
      if email !in users {
        return Reply(400, "User not found");
      }
      var user := users[email];
      if user.isVerified {
        return Reply(400, "User already verified");
      }
      if user.otp != otp {
        return Reply(400, "Invalid OTP");
      }
      if DateBefore(user.otpExpiry, now) {
        return Reply(400, "OTP expired");
      }
      user := user.(isVerified := true);
      user := user.(otp := Null);
      user := user.(otpExpiry := Null);
      users := users[email := user];
      reply := Reply(200, "Email verified successfully! You can now login.");
    }

    method Login(email: string, password: Field<string>, compare: (string, string) -> bool)
      returns (r: LoginReply)
      ensures r == LoginStep(users, email, password, compare)
    {
      r := LoginStep(users, email, password, compare);
    }

    method UpdateUser(callerRole: string, email: string, skills: Option<seq<string>>, role: Option<Role>)
      returns (reply: Reply)
      requires Valid()
      modifies this
      ensures Valid()
      ensures Outcome(users, reply) == UpdateUserStep(old(users), callerRole, email, skills, role)
    {
      if callerRole != "admin" {
        return Reply(403, "Forbidden");
      }
      if email !in users {
        return Reply(401, "User not found");
      }
      var user := users[email];
      var given := skills.GetOr([]);
      var newSkills := if |given| > 0 then given else user.skills;
      users := users[email := user.(skills := newSkills, role := role.GetOr(user.role))];
      reply := Reply(200, "User updated successfully");
    }

    method GetUsers(callerRole: string) returns (r: UsersReply)
      ensures r == GetUsersStep(users, callerRole)
    {
      r := GetUsersStep(users, callerRole);
    }

    method ForgotPassword(email: string, draw: nat, now: int, mailSent: bool) returns (reply: Reply)
      requires Valid() && draw < DrawSpan
      modifies this
      ensures Valid()
      ensures Outcome(users, reply) == ForgotPasswordStep(old(users), email, draw, now, mailSent)
    {
      if email !in users {
        return Reply(400, "User not found");
      }
      var user := users[email];
      var otp := Code(draw);
      user := user.(resetOtp := Value(otp));
      user := user.(resetOtpExpiry := Value(now + OtpLifetime));
      users := users[email := user];
      if !mailSent {
        return Reply(500, "Failed to send OTP");
      }
      reply := Reply(200, "OTP sent to email");
    }

    /** Runs the intended check: a code must be pending before it is compared. */
    method ResetPassword(email: string, otp: Field<string>, newPassword: Field<string>,
                         hash: string -> string, now: int) returns (reply: Reply)
      requires Valid()
      modifies this
      ensures Valid()
      ensures Outcome(users, reply) == ResetPasswordStep(old(users), email, otp, newPassword, hash, now)
    {
      if email !in users {
        return Reply(400, "User not found");
      }
      var user := users[email];
      if !user.resetOtp.Value? || user.resetOtp != otp {
        return Reply(400, "Invalid OTP");
      }
      if DateBefore(user.resetOtpExpiry, now) {
        return Reply(400, "OTP expired");
      }
      if !newPassword.Value? {
        return Reply(500, "Failed to reset password");
      }
      var hashed := hash(newPassword.value);
      if hashed == "" {
        return Reply(500, "Failed to reset password");
      }
      user := user.(password := hashed);
      user := user.(resetOtp := Null);
      user := user.(resetOtpExpiry := Null);
      users := users[email := user];
      reply := Reply(200, "Password reset successfully! You can now login.");
    }
  }
}
