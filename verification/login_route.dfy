/** The action of app/routes/login.tsx. `session` is the userId the
    request's session holds; `compare` is the password check. */
module LoginRoute {
  import opened Wrappers
  import opened Text
  import opened Js
  import opened Schema
  import opened Http
  import opened Auth
  import opened Validation
  import FormEncoding
  import RegisterRoute

  datatype LoginForm = LoginForm(email: Option<string>, password: Option<string>, redirectTo: Option<string>)

  const InvalidCredentials: string := "Invalid email or password"

  /** The checks that answer 400, in the order they are made. */
  function LoginChecks(form: LoginForm): seq<Check> {
    [ Check(RegisterRoute.PlausibleEmail(form.email), RegisterRoute.BadEmail),
      Check(RegisterRoute.LongEnoughPassword(form.password), RegisterRoute.PasswordTooShort) ]
  }

  lemma LoginChecksInOrder(form: LoginForm)
    ensures var checks := LoginChecks(form);
            FirstFailure(checks)
            == if !checks[0].passes then Some(checks[0].message)
               else if !checks[1].passes then Some(checks[1].message)
               else None
  {
    var checks := LoginChecks(form);
    FirstFailureOfTwo(checks[0], checks[1]);
    assert checks == [checks[0], checks[1]];
  }

  function Action(s: Store, session: Option<string>, form: LoginForm,
                  compare: (string, string) -> bool): (r: Response)
    ensures session.Some? ==> r == Redirect(DashboardPath)
    ensures session.None? && FirstFailure(LoginChecks(form)).Some?
            ==> r == Failure(400, FirstFailure(LoginChecks(form)).value)
    ensures session.None? && FirstFailure(LoginChecks(form)).None? ==>
              && (r.SignIn? <==> Login(s, form.email.GetOr(""), form.password.GetOr(""), compare).Some?)
              && (!r.SignIn? ==> r == Failure(401, InvalidCredentials))
    ensures r.SignIn? ==>
              && r.location == RegisterRoute.Destination(form.redirectTo)
              && exists u | u in s.users ::
                   && u.id == r.userId
                   && u.email == form.email.GetOr("")
                   && compare(form.password.GetOr(""), u.password)
  {
    LoginChecksInOrder(form);
    if session.Some? then Redirect(DashboardPath)
    else if !Truthy(form.email) || !Contains(form.email.value, "@") then
      Failure(400, RegisterRoute.BadEmail)
    else if !Truthy(form.password) || Utf16Length(form.password.value) < RegisterRoute.MinPasswordLength then
      Failure(400, RegisterRoute.PasswordTooShort)
    else
      match Login(s, form.email.value, form.password.value, compare)
      case None => Failure(401, InvalidCredentials)
      case Some(user) => SignIn(user.id, RegisterRoute.Destination(form.redirectTo))
  }

  /** An unknown email and a wrong password get the same answer. */
  lemma FailedLoginsLookAlike(s: Store, form: LoginForm, compare: (string, string) -> bool, u: User)
    requires Valid(s)
    requires FirstFailure(LoginChecks(form)).None?
    requires !HasEmail(s.users, form.email.GetOr(""))
             || (u in s.users && u.email == form.email.GetOr("") && !compare(form.password.GetOr(""), u.password))
    ensures Action(s, None, form, compare) == Failure(401, InvalidCredentials)
  {
    if u in s.users && u.email == form.email.GetOr("") {
      LoginFindsTheAccount(s, u, form.password.GetOr(""), compare);
    }
  }

  /** A visitor sent to the login page by requireUser, who signs in there,
      is sent back to the page first asked for: the login page reads the
      path back from the query into the form's redirectTo field. */
  lemma SignInReturnsToRequestedPage(s: Store, path: string, u: User, password: string,
                                     compare: (string, string) -> bool)
    requires Valid(s) && u in s.users && compare(password, u.password)
    requires RegisterRoute.PlausibleEmail(Some(u.email))
    requires RegisterRoute.LongEnoughPassword(Some(password))
    requires path != ""
    ensures var bounce := RequireUser(s, None, path);
            && bounce.Halted?
            && var carried := FormEncoding.Decode(bounce.response.location[|LoginPrefix|..]);
            && carried == Some(path)
            && Action(s, None, LoginForm(Some(u.email), Some(password), carried), compare)
               == SignIn(u.id, path)
  {
    LoginRedirectCarriesPath(s, None, path);
    LoginFindsTheAccount(s, u, password, compare);
    LoginChecksInOrder(LoginForm(Some(u.email), Some(password), Some(path)));
  }

  /** Whoever registers through the register page can then sign in through
      the login page with the same email and password. */
  lemma RegisteredUserCanSignIn(s: Store, form: RegisterRoute.RegisterForm, id: string,
                                hashed: string, now: int, compare: (string, string) -> bool,
                                redirectTo: Option<string>)
    requires RegisterRoute.Action(s, None, form, id, hashed, now).1.SignIn?
    requires compare(form.password.GetOr(""), hashed)
    ensures Action(RegisterRoute.Action(s, None, form, id, hashed, now).0, None,
                   LoginForm(form.email, form.password, redirectTo), compare)
            == SignIn(id, RegisterRoute.Destination(redirectTo))
  {
    var email := form.email.GetOr("");
    var name := form.name.GetOr("");
    RegisterRoute.RegisterChecksInOrder(form);
    RegisterThenLogin(s, email, form.password.GetOr(""), name, id, hashed, now, compare);
    LoginChecksInOrder(LoginForm(form.email, form.password, redirectTo));
  }
}
