/** The action of app/routes/register.tsx. `session` is the userId the
    request's session holds; `id`, `hashed` and `now` are the new account's
    id, its password hash and the clock reading. */
module RegisterRoute {
  import opened Wrappers
  import opened Text
  import opened Js
  import opened Schema
  import opened Http
  import opened Auth
  import opened Validation

  datatype RegisterForm = RegisterForm(
    name: Option<string>,
    email: Option<string>,
    password: Option<string>,
    redirectTo: Option<string>)

  const NameTooShort: string := "Name must be at least 2 characters"
  const BadEmail: string := "Please enter a valid email address"
  const PasswordTooShort: string := "Password must be at least 6 characters"
  const AccountFailed: string := "Error creating account. Please try again."
  const EmailTaken: string := "A user with this email already exists"

  const MinNameLength: nat := 2
  const MinPasswordLength: nat := 6

  /** An email is accepted when it is non-empty and holds an `@`. */
  predicate PlausibleEmail(email: Option<string>) {
    Truthy(email) && Contains(email.GetOr(""), "@")
  }

  /** A password is accepted when it is at least six UTF-16 units long. */
  predicate LongEnoughPassword(password: Option<string>) {
    Truthy(password) && Utf16Length(password.GetOr("")) >= MinPasswordLength
  }

  /** The checks that answer 400, in the order they are made. */
  function RegisterChecks(form: RegisterForm): seq<Check> {
    [ Check(Truthy(form.name) && Utf16Length(form.name.GetOr("")) >= MinNameLength, NameTooShort),
      Check(PlausibleEmail(form.email), BadEmail),
      Check(LongEnoughPassword(form.password), PasswordTooShort) ]
  }

  lemma RegisterChecksInOrder(form: RegisterForm)
    ensures var checks := RegisterChecks(form);
            FirstFailure(checks)
            == if !checks[0].passes then Some(checks[0].message)
               else if !checks[1].passes then Some(checks[1].message)
               else if !checks[2].passes then Some(checks[2].message)
               else None
  {
    var checks := RegisterChecks(form);
    FirstFailureOfThree(checks[0], checks[1], checks[2]);
    assert checks == [checks[0], checks[1], checks[2]];
  }

  /** Where a new session goes: the form's redirectTo, verbatim, or the
      dashboard. */
  function Destination(redirectTo: Option<string>): (d: string)
    ensures Truthy(redirectTo) ==> d == redirectTo.value
    ensures !Truthy(redirectTo) ==> d == DashboardPath
    ensures d != ""
  {
    OrElse(redirectTo, DashboardPath)
  }

  /** The action as written. Its 400 answer for a taken email sits in a
      catch block that register never lets an error reach. */
  function Action(s: Store, session: Option<string>, form: RegisterForm, id: string,
                  hashed: string, now: int): (r: (Store, Response))
    ensures session.Some? ==> r == (s, Redirect(DashboardPath))
    ensures session.None? && FirstFailure(RegisterChecks(form)).Some?
            ==> r == (s, Failure(400, FirstFailure(RegisterChecks(form)).value))
    ensures session.None? && FirstFailure(RegisterChecks(form)).None? ==>
              && (r.1.SignIn? <==> !HasUserId(s.users, id) && !HasEmail(s.users, form.email.GetOr("")))
              && (!r.1.SignIn? ==> r == (s, Failure(500, AccountFailed)))
    ensures r.1.SignIn? ==>
              && r.1 == SignIn(id, Destination(form.redirectTo))
              && r.0 == Register(s, form.email.GetOr(""), form.name.GetOr(""), id, hashed, now).0
    ensures r.1 != Failure(400, EmailTaken)
  {
    RegisterChecksInOrder(form);
    if session.Some? then (s, Redirect(DashboardPath))
    else if !Truthy(form.name) || Utf16Length(form.name.value) < MinNameLength then
      (s, Failure(400, NameTooShort))
    else if !Truthy(form.email) || !Contains(form.email.value, "@") then
      (s, Failure(400, BadEmail))
    else if !Truthy(form.password) || Utf16Length(form.password.value) < MinPasswordLength then
      (s, Failure(400, PasswordTooShort))
    else
      match Register(s, form.email.value, form.name.value, id, hashed, now)
      case (t, None) => (s, Failure(500, AccountFailed))
      case (t, Some(user)) => (t, SignIn(user.id, Destination(form.redirectTo)))
  }

  /** The defect: registering an email that is already taken answers 500
      "try again", never the 400 that explains the problem. */
  lemma TakenEmailGets500(s: Store, form: RegisterForm, id: string, hashed: string, now: int)
    requires FirstFailure(RegisterChecks(form)).None?
    requires HasEmail(s.users, form.email.GetOr(""))
    ensures Action(s, None, form, id, hashed, now) == (s, Failure(500, AccountFailed))
  {
  }

  /** The action as evidently intended, built on RegisterReporting: a taken
      email answers 400 with its own message. */
  function ActionReportingTakenEmail(s: Store, session: Option<string>, form: RegisterForm,
                                     id: string, hashed: string, now: int): (r: (Store, Response))
    ensures session.None? && FirstFailure(RegisterChecks(form)).None?
            && HasEmail(s.users, form.email.GetOr(""))
            ==> r == (s, Failure(400, EmailTaken))
    ensures !(session.None? && FirstFailure(RegisterChecks(form)).None?
              && HasEmail(s.users, form.email.GetOr("")))
            ==> r == Action(s, session, form, id, hashed, now)
  {
    RegisterChecksInOrder(form);
    if session.Some? then (s, Redirect(DashboardPath))
    else if !Truthy(form.name) || Utf16Length(form.name.value) < MinNameLength then
      (s, Failure(400, NameTooShort))
    else if !Truthy(form.email) || !Contains(form.email.value, "@") then
      (s, Failure(400, BadEmail))
    else if !Truthy(form.password) || Utf16Length(form.password.value) < MinPasswordLength then
      (s, Failure(400, PasswordTooShort))
    else
      match RegisterReporting(s, form.email.value, form.name.value, id, hashed, now)
      case (t, EmailInUse) => (s, Failure(400, EmailTaken))
      case (t, Failed) => (s, Failure(500, AccountFailed))
      case (t, Registered(user)) => (t, SignIn(user.id, Destination(form.redirectTo)))
  }

  /** Both versions keep the store consistent. */
  lemma ActionKeepsValid(s: Store, session: Option<string>, form: RegisterForm, id: string,
                         hashed: string, now: int)
    requires Valid(s)
    ensures Valid(Action(s, session, form, id, hashed, now).0)
    ensures Valid(ActionReportingTakenEmail(s, session, form, id, hashed, now).0)
  {
    RegisterKeepsValid(s, form.email.GetOr(""), form.name.GetOr(""), id, hashed, now);
  }
}
