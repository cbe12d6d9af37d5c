/** The account lifecycle across several requests to Backend/controllers/user.js:
    signup, then the code, then login; the reset-code cycle; and what a failed signup
    mail leaves behind. bcrypt is only assumed to accept the password it hashed. */
module UserProtocol {
  import opened JsValues
  import opened UserModel
  import opened OtpCode
  import opened HttpReply
  import opened UserController

  /** Signing up, then entering the mailed code within ten minutes, then logging in with
      the same password gives a token for that user with the default role. Logging in
      before the code is entered is refused with 403, and entering the code a second time
      is refused because the account is already verified. */
  lemma SignupThenVerifyThenLogin(users: map<string, User>, email: string, password: string,
                                  hash: string -> string, compare: (string, string) -> bool,
                                  draw: nat, now: int, at: int, later: int)
    requires email !in users && email != ""
    requires hash(password) != "" && compare(password, hash(password))
    requires draw < DrawSpan && at <= now + OtpLifetime
    ensures var signedUp := SignupStep(users, email, Value(password), None, hash, draw, now, true);
      var verified := VerifyOtpStep(signedUp.users, email, Value(Code(draw)), at);
      && signedUp.reply == Reply(201, "OTP sent to email")
      && LoginStep(signedUp.users, email, Value(password), compare)
         == Denied(Reply(403, "Please verify your email first."))
      && verified.reply.status == 200
      && LoginStep(verified.users, email, Value(password), compare).Granted?
      && LoginStep(verified.users, email, Value(password), compare).token == Token(email, "user")
      && VerifyOtpStep(verified.users, email, Value(Code(draw)), later).reply
         == Reply(400, "User already verified")
  {
  }

  /** The mailed code entered after its ten minutes is refused and nothing changes. */
  lemma LateCodeIsRefused(users: map<string, User>, email: string, password: string,
                          hash: string -> string, draw: nat, now: int, at: int, mailSent: bool)
    requires email !in users && email != "" && hash(password) != ""
    requires draw < DrawSpan && at > now + OtpLifetime
    ensures var signedUp := SignupStep(users, email, Value(password), None, hash, draw, now, mailSent);
      VerifyOtpStep(signedUp.users, email, Value(Code(draw)), at)
      == Outcome(signedUp.users, Reply(400, "OTP expired"))
  {
  }

  /** Any code but the mailed one is refused. */
  lemma WrongCodeIsRefused(users: map<string, User>, email: string, password: string,
                           hash: string -> string, draw: nat, guess: nat, now: int, at: int,
                           mailSent: bool)
    requires email !in users && email != "" && hash(password) != ""
    requires draw < DrawSpan && guess < DrawSpan && guess != draw
    ensures var signedUp := SignupStep(users, email, Value(password), None, hash, draw, now, mailSent);
      VerifyOtpStep(signedUp.users, email, Value(Code(guess)), at)
      == Outcome(signedUp.users, Reply(400, "Invalid OTP"))
  {
    CodeInjective(draw, guess);
  }

  /** When the signup mail fails the reply is an error but the unverified account is
      kept: signing up again with that email is refused, and so is logging in. */
  lemma FailedMailLocksEmail(users: map<string, User>, email: string, password: string,
                             hash: string -> string, compare: (string, string) -> bool, draw: nat,
                             now: int, password2: Field<string>, skills2: Option<seq<string>>,
                             draw2: nat, now2: int, mailSent2: bool)
    requires email !in users && email != "" && hash(password) != "" && compare(password, hash(password))
    requires draw < DrawSpan && draw2 < DrawSpan
    ensures var first := SignupStep(users, email, Value(password), None, hash, draw, now, false);
      && first.reply == Reply(500, "Signup failed")
      && email in first.users && !first.users[email].isVerified
      && SignupStep(first.users, email, password2, skills2, hash, draw2, now2, mailSent2)
         == Outcome(first.users, Reply(400, "Email already registered"))
      && LoginStep(first.users, email, Value(password), compare)
         == Denied(Reply(403, "Please verify your email first."))
  {
  }

  /** Asking for a reset code and entering it within ten minutes sets the new password,
      which login then accepts for a verified user; the used code cannot be replayed. */
  lemma ForgotThenReset(users: map<string, User>, email: string, newPassword: string,
                        hash: string -> string, compare: (string, string) -> bool, draw: nat,
                        now: int, at: int, later: int, mailSent: bool)
    requires email in users && users[email].isVerified
    requires hash(newPassword) != "" && compare(newPassword, hash(newPassword))
    requires draw < DrawSpan && at <= now + OtpLifetime
    ensures var asked := ForgotPasswordStep(users, email, draw, now, mailSent);
      var reset := ResetPasswordStep(asked.users, email, Value(Code(draw)), Value(newPassword), hash, at);
      && reset.reply == Reply(200, "Password reset successfully! You can now login.")
      && reset.users[email].password == hash(newPassword)
      && LoginStep(reset.users, email, Value(newPassword), compare).Granted?
      && ResetPasswordStep(reset.users, email, Value(Code(draw)), Value(newPassword), hash, later).reply
         == Reply(400, "Invalid OTP")
  {
  }

  /** A reset code entered after its ten minutes changes nothing. */
  lemma LateResetCodeIsRefused(users: map<string, User>, email: string, newPassword: Field<string>,
                               hash: string -> string, draw: nat, now: int, at: int, mailSent: bool)
    requires email in users && draw < DrawSpan && at > now + OtpLifetime
    ensures var asked := ForgotPasswordStep(users, email, draw, now, mailSent);
      ResetPasswordStep(asked.users, email, Value(Code(draw)), newPassword, hash, at)
      == Outcome(asked.users, Reply(400, "OTP expired"))
  {
  }
}
