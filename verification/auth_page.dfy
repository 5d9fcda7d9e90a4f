/**
 The sign-in / sign-up page of the dashboard: the submit button's enabling
 rule, the dispatch of a submit to login or sign-up, the password
 confirmation check, the messages each outcome leaves, the mode toggle and
 the Enter-key focus moves.
 */
module AuthPage {
  import opened Wrappers
  import opened Json
  import Text

  datatype AuthState = AuthState(isSignUp: bool, email: string, password: string, passwordConfirm: string,
                                 error: Option<string>, isLoading: bool)

  /**
   `!email.trim() || !password.trim() || (isSignUp && !passwordConfirm.trim())`:
   the button is disabled exactly when a required field holds only whitespace.
   */
  predicate IsButtonDisabled(st: AuthState): (b: bool)
    ensures b <==>
      || Text.AllSatisfy(st.email, Text.IsJsSpace) || Text.AllSatisfy(st.password, Text.IsJsSpace)
      || (st.isSignUp && Text.AllSatisfy(st.passwordConfirm, Text.IsJsSpace))
  {
    Text.TrimEmptyIff(st.email, Text.IsJsSpace);
    Text.TrimEmptyIff(st.password, Text.IsJsSpace);
    Text.TrimEmptyIff(st.passwordConfirm, Text.IsJsSpace);
    || Text.JsTrim(st.email) == "" || Text.JsTrim(st.password) == ""
    || (st.isSignUp && Text.JsTrim(st.passwordConfirm) == "")
  }

  /** How `POST /api/login` ended. */
  datatype LoginAnswer =
    | LoggedIn
    | LoginRefused(error: Option<Json>)   // `!response.ok`, with `data.error`
    | LoginThrew(message: string)         // fetch or `response.json()` threw

  /** How the account `create` call ended; `message` is `String(err.message)` when the error has one. */
  datatype RegisterAnswer = Registered | RegisterFailed(message: Option<string>)

  /** Everything a handler run leaves behind. */
  datatype Outcome = Outcome(state: AuthState, accountRequested: bool, loginRequested: bool,
                             navigateTo: Option<string>, alert: Option<string>)

  const DashboardPath := "/dashboard"
  const MismatchMessage := "Passwords do not match."
  const SignUpAlert := "Sign up successful and logged in!"

  /**
   `handleLogin`: posts the credentials; success navigates to the dashboard,
   failure leaves the API's error or "Failed to log in.". Loading always ends.
   */
  function Login(st: AuthState, answer: LoginAnswer, str: Json -> string): (o: Outcome)
    ensures o.loginRequested && !o.accountRequested && o.alert.None? && !o.state.isLoading
    ensures o.navigateTo.Some? <==> answer.LoggedIn?
    ensures o.navigateTo.Some? ==> o.navigateTo == Some(DashboardPath) && o.state.error.None?
    ensures answer.LoginRefused? ==> o.state.error == Some(ErrorMessage(answer.error, "Failed to log in.", str))
    ensures !answer.LoggedIn? ==> o.state.error.Some?
    ensures answer.LoginThrew? ==> o.state.error == Some(answer.message)
    ensures o.state.(error := st.error, isLoading := st.isLoading) == st
  {
    var started := st.(isLoading := true, error := None);
    var settled := match answer
      case LoggedIn => Outcome(started, false, true, Some(DashboardPath), None)
      case LoginRefused(e) =>
        Outcome(started.(error := Some(ErrorMessage(e, "Failed to log in.", str))), false, true, None, None)
      case LoginThrew(m) => Outcome(started.(error := Some(m)), false, true, None, None);
    settled.(state := settled.state.(isLoading := false))
  }

  /** The part of `handleSignUp` before the login: the confirmation check and the account creation. */
  function Register(st: AuthState, register: RegisterAnswer): (o: Option<Outcome>)
    ensures st.password != st.passwordConfirm ==>
      o == Some(Outcome(st.(error := Some(MismatchMessage)), false, false, None, None))
    ensures o.None? <==> st.password == st.passwordConfirm && register.Registered?
    ensures st.password == st.passwordConfirm && register.RegisterFailed? ==>
      o == Some(Outcome(st.(error := Some(register.message.GetOr("Failed to sign up."))), true, false, None, None))
  {
    if st.password != st.passwordConfirm then Some(Outcome(st.(error := Some(MismatchMessage)), false, false, None, None))
    else match register
      case RegisterFailed(m) => Some(Outcome(st.(error := Some(m.GetOr("Failed to sign up."))), true, false, None, None))
      case Registered => None
  }

  /**
   `handleSignUp` as written: after the account is created it awaits
   `handleLogin`, which catches its own errors, and then alerts success
   whatever the login did.
   */
  function SignUpAsWritten(st: AuthState, register: RegisterAnswer, login: LoginAnswer, str: Json -> string): (o: Outcome)
    ensures st.password != st.passwordConfirm ==> !o.accountRequested && !o.loginRequested
    ensures o.loginRequested <==> st.password == st.passwordConfirm && register.Registered?
    ensures o.loginRequested ==> o.alert == Some(SignUpAlert)
  {
    match Register(st, register)
    case Some(o) => o
    case None =>
      var o := Login(st.(error := None), login, str);
      o.(accountRequested := true, alert := Some(SignUpAlert))
  }

  /** The discrepancy: a refused login after a successful sign-up still alerts "logged in". */
  lemma SignUpAlertsDespiteFailedLogin(st: AuthState, str: Json -> string)
    requires st.password == st.passwordConfirm
    ensures var o := SignUpAsWritten(st, Registered, LoginRefused(None), str);
      o.alert == Some(SignUpAlert) && o.navigateTo.None? && o.state.error == Some("Failed to log in.")
  {
  }

  /** `handleSignUp` with the success alert given only when the login succeeded. */
  function SignUp(st: AuthState, register: RegisterAnswer, login: LoginAnswer, str: Json -> string): (o: Outcome)
    ensures st.password != st.passwordConfirm ==>
      !o.accountRequested && !o.loginRequested && o.state.error == Some(MismatchMessage)
    ensures o.loginRequested <==> st.password == st.passwordConfirm && register.Registered?
    ensures o.alert.Some? <==> o.navigateTo == Some(DashboardPath)
    ensures o.alert.Some? ==> o.alert == Some(SignUpAlert) && o.accountRequested && o.loginRequested
  {
    match Register(st, register)
    case Some(o) => o
    case None =>
      var o := Login(st.(error := None), login, str);
      o.(accountRequested := true, alert := if login.LoggedIn? then Some(SignUpAlert) else None)
  }

  /** Both versions agree whenever the login after sign-up succeeds. */
  lemma SignUpAgreesOnSuccess(st: AuthState, register: RegisterAnswer, str: Json -> string)
    ensures SignUp(st, register, LoggedIn, str) == SignUpAsWritten(st, register, LoggedIn, str)
  {
  }

  /**
   `handleSubmit` with the corrected sign-up: clears the error, then signs up
   in sign-up mode and logs in otherwise.
   */
  function Submit(st: AuthState, register: RegisterAnswer, login: LoginAnswer, str: Json -> string): (o: Outcome)
    ensures !st.isSignUp ==> !o.accountRequested && o.loginRequested && o.alert.None?
    ensures st.isSignUp ==> (o.accountRequested <==> st.password == st.passwordConfirm)
    ensures st.isSignUp && o.loginRequested ==> (o.alert == Some(SignUpAlert) <==> login.LoggedIn?)
    ensures o.alert.Some? ==> o.navigateTo == Some(DashboardPath)
    ensures o.state.isSignUp == st.isSignUp && o.state.email == st.email && o.state.password == st.password
  {
    var cleared := st.(error := None);
    if st.isSignUp then SignUp(cleared, register, login, str) else Login(cleared, login, str)
  }

  /** `handleSubmit` as written, dispatching to `handleSignUp` as written. */
  function SubmitAsWritten(st: AuthState, register: RegisterAnswer, login: LoginAnswer, str: Json -> string): (o: Outcome)
    ensures !st.isSignUp ==> !o.accountRequested && o.loginRequested && o.alert.None?
    ensures st.isSignUp ==> (o.accountRequested <==> st.password == st.passwordConfirm)
    ensures st.isSignUp && o.loginRequested ==> o.alert == Some(SignUpAlert)
    ensures o.state.isSignUp == st.isSignUp && o.state.email == st.email && o.state.password == st.password
  {
    var cleared := st.(error := None);
    if st.isSignUp then SignUpAsWritten(cleared, register, login, str) else Login(cleared, login, str)
  }

  /**
   The corrected submit differs from the one as written in the alert alone,
   and only when a login after sign-up fails.
   */
  lemma SubmitDiffersOnlyInAlert(st: AuthState, register: RegisterAnswer, login: LoginAnswer, str: Json -> string)
    ensures Submit(st, register, login, str).(alert := None) == SubmitAsWritten(st, register, login, str).(alert := None)
    ensures Submit(st, register, login, str) != SubmitAsWritten(st, register, login, str) <==>
      st.isSignUp && st.password == st.passwordConfirm && register.Registered? && !login.LoggedIn?
  {
  }

  /** In login mode nothing but the login request is made, and the error shown is the login's own. */
  lemma SubmitLoginMode(st: AuthState, register: RegisterAnswer, login: LoginAnswer, str: Json -> string)
    requires !st.isSignUp
    ensures Submit(st, register, login, str) == Login(st, login, str)
  {
  }

  /** The mode link: switches between sign-in and sign-up and clears the error. */
  function ToggleMode(st: AuthState): (r: AuthState)
    ensures r.isSignUp != st.isSignUp && r.error.None?
    ensures r.(isSignUp := st.isSignUp, error := st.error) == st
  {
    st.(isSignUp := !st.isSignUp, error := None)
  }

  /** Toggling twice returns to the same mode with the error cleared. */
  lemma ToggleTwice(st: AuthState)
    ensures ToggleMode(ToggleMode(st)) == st.(error := None)
  {
  }

  /** What a key press in a field does. */
  datatype KeyEffect = FocusPassword | FocusConfirm | Default

  /** Enter in the email field moves to the password field instead of submitting. */
  function EmailKeyDown(key: string): (e: KeyEffect)
    ensures e == FocusPassword <==> key == "Enter"
    ensures e != FocusConfirm
  {
    if key == "Enter" then FocusPassword else Default
  }

  /** Enter in the password field moves to the confirmation in sign-up mode; in login mode it submits. */
  function PasswordKeyDown(isSignUp: bool, key: string): (e: KeyEffect)
    ensures e == FocusConfirm <==> isSignUp && key == "Enter"
    ensures e != FocusPassword
  {
    if isSignUp && key == "Enter" then FocusConfirm else Default
  }
}
