/** Sign-in and account creation of app/lib/auth.server.ts. The session
    cookie is reduced to the `userId` it holds (None when it holds none);
    bcrypt is an oracle: `hashed` stands for the hash of the password being
    registered and `compare` for the password check. */
module Auth {
  import opened Wrappers
  import opened Js
  import opened Schema
  import opened Http
  import opened Seqs
  import FormEncoding

  /** A user as the application hands it around: never the password hash. */
  datatype UserInfo = UserInfo(id: string, email: string, name: Option<string>, role: string)

  const LoginPath: string := "/login"
  const DashboardPath: string := "/dashboard"
  const AdminRole: string := "admin"
  const RedirectParam: string := "redirectTo"

  /** Everything of the login redirect before the encoded path. */
  const LoginPrefix: string := LoginPath + "?" + RedirectParam + "="

  function InfoOf(u: User): UserInfo {
    UserInfo(u.id, u.email, u.name, u.role)
  }

  /** getUser: nobody for a falsy session id or an id with no row. */
  function GetUser(s: Store, session: Option<string>): (r: Option<UserInfo>)
    ensures !Truthy(session) ==> r.None?
    ensures Truthy(session) ==> (r.Some? <==> HasUserId(s.users, session.value))
    ensures r.Some? ==> exists u | u in s.users :: u.id == session.value && r.value == InfoOf(u)
  {
    if !Truthy(session) then None
    else
      match FindUser(s.users, session.value)
      case None => None
      case Some(u) => Some(InfoOf(u))
  }

  /** login: the first account with the email, if the password matches its
      hash; the same null for an unknown email and a wrong password. */
  function Login(s: Store, email: string, password: string,
                 compare: (string, string) -> bool): (r: Option<UserInfo>)
    ensures !HasEmail(s.users, email) ==> r.None?
    ensures r.Some? ==> exists u | u in s.users ::
              u.email == email && compare(password, u.password) && r.value == InfoOf(u)
  {
    match FindByEmail(s.users, email)
    case None => None
    case Some(u) => if compare(password, u.password) then Some(InfoOf(u)) else None
  }

  /** With unique emails, login succeeds exactly for the account holding the
      email whose hash the password matches. */
  lemma LoginFindsTheAccount(s: Store, u: User, password: string, compare: (string, string) -> bool)
    requires Valid(s) && u in s.users
    ensures Login(s, u.email, password, compare).Some? <==> compare(password, u.password)
    ensures compare(password, u.password) ==> Login(s, u.email, password, compare) == Some(InfoOf(u))
  {
    FindByEmailIsUnique(s.users, u);
  }

  /** The account row register writes. */
  predicate Registers(row: User, id: string, email: string, name: string, hashed: string, now: int) {
    && row.id == id
    && row.email == email
    && row.password == hashed
    && row.name == Some(name)
    && row.role == DefaultRole
    && row.createdAt == now
  }

  /** register: a new account with role "user". Any failed insert, a taken
      email included, is caught and reported as null. */
  function Register(s: Store, email: string, name: string, id: string, hashed: string,
                    now: int): (r: (Store, Option<UserInfo>))
    ensures r.1.Some? <==> !HasUserId(s.users, id) && !HasEmail(s.users, email)
    ensures r.1.None? ==> r.0 == s
    ensures r.1.Some? ==>
      && r.1.value == UserInfo(id, email, Some(name), DefaultRole)
      && r.0.urls == s.urls && r.0.analytics == s.analytics
      && |r.0.users| == |s.users| + 1
      && r.0.users[..|s.users|] == s.users
      && Registers(r.0.users[|s.users|], id, email, name, hashed, now)
  {
    var row := User(id, email, hashed, Some(name), DefaultRole, now);
    match InsertUser(s, row)
    case Some(t) => (t, Some(InfoOf(row)))
    case None => (s, None)
  }

  lemma RegisterKeepsValid(s: Store, email: string, name: string, id: string, hashed: string, now: int)
    requires Valid(s)
    ensures Valid(Register(s, email, name, id, hashed, now).0)
  {
    var row := User(id, email, hashed, Some(name), DefaultRole, now);
    if InsertUser(s, row).Some? {
      InsertUserKeepsValid(s, row);
    }
  }

  /** Whoever registered can log in with the same email and password. */
  lemma RegisterThenLogin(s: Store, email: string, password: string, name: string, id: string,
                          hashed: string, now: int, compare: (string, string) -> bool)
    requires Register(s, email, name, id, hashed, now).1.Some?
    requires compare(password, hashed)
    ensures Login(Register(s, email, name, id, hashed, now).0, email, password, compare)
         == Register(s, email, name, id, hashed, now).1
  {
    var t := Register(s, email, name, id, hashed, now).0;
    var row := t.users[|s.users|];
    assert t.users == s.users + [row];
    FindByEmailAppend(s.users, row);
  }

  /** What registering can come to when a taken email is told apart. */
  datatype Registration = Registered(user: UserInfo) | EmailInUse | Failed

  /** register as its caller evidently expects it: a taken email is
      reported as such instead of as a bare failure. */
  function RegisterReporting(s: Store, email: string, name: string, id: string, hashed: string,
                             now: int): (r: (Store, Registration))
    ensures r.1 == EmailInUse <==> HasEmail(s.users, email)
    ensures !r.1.Registered? ==> r.0 == s
    ensures r.1.Registered? <==> Register(s, email, name, id, hashed, now).1.Some?
    ensures r.1.Registered? ==>
              r == (Register(s, email, name, id, hashed, now).0,
                    Registered(Register(s, email, name, id, hashed, now).1.value))
  {
    if HasEmail(s.users, email) then (s, EmailInUse)
    else
      match Register(s, email, name, id, hashed, now)
      case (t, Some(u)) => (t, Registered(u))
      case (t, None) => (s, Failed)
  }

  /** `/login?` followed by the query string of `redirectTo=<path>`. */
  function LoginLocation(redirectTo: string): (loc: string)
    ensures loc == LoginPrefix + FormEncoding.Encode(redirectTo)
  {
    var value := FormEncoding.Encode(redirectTo);
    FormEncoding.SerializeOnePair(RedirectParam, redirectTo);
    ParamNameIsUnreserved();
    AppendAssoc(RedirectParam, "=", value);
    AppendAssoc(LoginPath + "?", RedirectParam + "=", value);
    LoginPath + "?" + FormEncoding.Serialize([(RedirectParam, redirectTo)])
  }

  lemma ParamNameIsUnreserved()
    ensures FormEncoding.Encode(RedirectParam) == RedirectParam
  {
    forall i | 0 <= i < |RedirectParam| ensures FormEncoding.Unreserved(RedirectParam[i]) {
    }
    FormEncoding.EncodeUnreserved(RedirectParam);
  }

  /** requireUser: the signed-in user, or a redirect to the login page that
      carries the path to come back to. */
  function RequireUser(s: Store, session: Option<string>, redirectTo: string): (r: Guarded<UserInfo>)
    ensures r.Allowed? <==> GetUser(s, session).Some?
    ensures r.Allowed? ==> r.value == GetUser(s, session).value
    ensures r.Halted? ==> r.response == Redirect(LoginPrefix + FormEncoding.Encode(redirectTo))
  {
    match GetUser(s, session)
    case Some(u) => Allowed(u)
    case None =>
      Halted(Redirect(LoginLocation(redirectTo)))
  }

  /** The login redirect keeps the path intact: the query holds one
      parameter whose value reads back as the path. */
  lemma LoginRedirectCarriesPath(s: Store, session: Option<string>, redirectTo: string)
    requires RequireUser(s, session, redirectTo).Halted?
    ensures var loc := RequireUser(s, session, redirectTo).response.location;
            && |LoginPrefix| <= |loc| && loc[..|LoginPrefix|] == LoginPrefix
            && FormEncoding.Decode(loc[|LoginPrefix|..]) == Some(redirectTo)
            && forall i | |LoginPrefix| <= i < |loc| :: !FormEncoding.QuerySeparator(loc[i])
  {
    EncodedSuffix(LoginPrefix, redirectTo);
  }

  lemma EncodedSuffix(prefix: string, value: string)
    ensures var loc := prefix + FormEncoding.Encode(value);
            && loc[..|prefix|] == prefix
            && FormEncoding.Decode(loc[|prefix|..]) == Some(value)
            && forall i | |prefix| <= i < |loc| :: !FormEncoding.QuerySeparator(loc[i])
  {
    var encoded := FormEncoding.Encode(value);
    var loc := prefix + encoded;
    assert loc[..|prefix|] == prefix;
    assert loc[|prefix|..] == encoded;
    FormEncoding.DecodeEncode(value);
    SuffixAvoidsSeparators(prefix, value);
  }

  lemma SuffixAvoidsSeparators(prefix: string, value: string)
    ensures var loc := prefix + FormEncoding.Encode(value);
            forall i | |prefix| <= i < |loc| :: !FormEncoding.QuerySeparator(loc[i])
  {
    var encoded := FormEncoding.Encode(value);
    var loc := prefix + encoded;
    FormEncoding.EncodeAvoidsSeparators(value);
    forall i | |prefix| <= i < |loc| ensures !FormEncoding.QuerySeparator(loc[i]) {
      assert loc[i] == encoded[i - |prefix|];
    }
  }

  /** requireAdmin: the signed-in user when an admin; the login redirect
      when nobody is signed in; the dashboard otherwise. */
  function RequireAdmin(s: Store, session: Option<string>, redirectTo: string): (r: Guarded<UserInfo>)
    ensures r.Allowed? <==> GetUser(s, session).Some? && GetUser(s, session).value.role == AdminRole
    ensures r.Allowed? ==> r.value == GetUser(s, session).value
    ensures GetUser(s, session).None? ==> r == RequireUser(s, session, redirectTo)
    ensures GetUser(s, session).Some? && GetUser(s, session).value.role != AdminRole
            ==> r == Halted(Redirect(DashboardPath))
  {
    match RequireUser(s, session, redirectTo)
    case Halted(response) => Halted(response)
    case Allowed(u) => if u.role != AdminRole then Halted(Redirect(DashboardPath)) else Allowed(u)
  }
}
