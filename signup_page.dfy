/** The form logic of Frontend/src/pages/signup.jsx: the confirm-password check, the
    warning and the submit button it drives, and the request body it sends. */
module SignupPage {
  import opened JsValues
  import opened UserModel
  import OtpCode
  import opened UserController

  datatype Form = Form(email: string, password: string, confirmPassword: string)

  /** A JavaScript value produced by `&&` on this form: a string or a boolean. */
  datatype JsValue = Str(s: string) | Bool(b: bool)

  predicate Truthy(v: JsValue)
  {
    match v
    case Str(s) => s != ""
    case Bool(b) => b
  }

  /** `form.password && form.password === form.confirmPassword`: the password itself when
      it is empty, the comparison otherwise. */
  function PasswordsMatchValue(f: Form): JsValue
  {
    if f.password == "" then Str(f.password) else Bool(f.password == f.confirmPassword)
  }

  predicate PasswordsMatch(f: Form)
  {
    Truthy(PasswordsMatchValue(f))
  }

  /** The "Passwords do not match" line: `!passwordsMatch && form.confirmPassword`. */
  predicate ShowsMismatchWarning(f: Form)
  {
    !PasswordsMatch(f) && f.confirmPassword != ""
  }

  /** `disabled={loading || !passwordsMatch}`. */
  predicate SubmitDisabled(f: Form, loading: bool)
  {
    loading || !PasswordsMatch(f)
  }

  /** The passwords match exactly when the password is non-empty and the confirmation
      equals it; so two empty fields do not match. */
  lemma PasswordsMatchMeans(f: Form)
    ensures PasswordsMatch(f) <==> f.password != "" && f.password == f.confirmPassword
    ensures f.password == "" ==> !PasswordsMatch(f)
  {
  }

  /** The form can be sent only when it is not already being sent and the passwords
      match; whenever the warning shows, the button is disabled; the warning shows
      exactly for a non-empty confirmation that differs from the password, or any
      confirmation under an empty password. */
  lemma SubmitAndWarning(f: Form, loading: bool)
    ensures !SubmitDisabled(f, loading) <==>
              !loading && f.password != "" && f.password == f.confirmPassword
    ensures ShowsMismatchWarning(f) ==> SubmitDisabled(f, loading)
    ensures ShowsMismatchWarning(f) <==>
              f.confirmPassword != "" && (f.password == "" || f.password != f.confirmPassword)
  {
  }

  /** `JSON.stringify({ email: form.email, password: form.password })`, as the signup
      handler reads it: an email, a string password and no skills. */
  datatype SignupBody = SignupBody(email: string, password: Field<string>, skills: Option<seq<string>>)

  function RequestBody(f: Form): SignupBody
  {
    SignupBody(f.email, Value(f.password), None)
  }

  /** A form sent for a new email creates that user with the password typed, hashed, and
      no skills: the handler's default fills in for the missing field. */
  lemma FormSignupHasNoSkills(f: Form, users: map<string, User>, hash: string -> string, draw: nat,
                              now: int, mailSent: bool)
    requires draw < OtpCode.DrawSpan && f.email !in users && f.email != "" && hash(f.password) != ""
    ensures var body := RequestBody(f);
      var o := SignupStep(users, body.email, body.password, body.skills, hash, draw, now, mailSent);
      f.email in o.users && o.users[f.email].skills == []
      && o.users[f.email].password == hash(f.password)
  {
  }

  /** Two forms that differ only in the confirmation send the same request. */
  lemma ConfirmationIsNotSent(f: Form, confirm: string)
    ensures RequestBody(f) == RequestBody(f.(confirmPassword := confirm))
  {
  }
}
