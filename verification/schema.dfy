/** The three tables of app/lib/db.server.ts and the constraints their DDL
    declares. A table is a sequence of rows in insertion order; a nullable
    column is an Option. The primary keys and UNIQUE columns are enforced by
    the database on every INSERT, so the Insert functions below refuse a row
    that would break them. The two FOREIGN KEY clauses are declarations only:
    SQLite checks them only after `PRAGMA foreign_keys = ON`, which the
    application never issues, so they are kept here as invariants that the
    callers must preserve rather than as checks. */
module Schema {
  import opened Wrappers
  import opened Seqs

  /** A row of `users`; `password` holds the bcrypt hash. */
  datatype User = User(
    id: string,
    email: string,
    password: string,
    name: Option<string>,
    role: string,
    createdAt: int)

  /** A row of `urls`. */
  datatype Url = Url(
    id: string,
    userId: string,
    originalUrl: string,
    shortCode: string,
    title: Option<string>,
    createdAt: int,
    expiresAt: Option<int>)

  /** A row of `analytics`: one recorded visit of a short link. */
  datatype Visit = Visit(
    id: string,
    urlId: string,
    visitorIp: Option<string>,
    userAgent: Option<string>,
    referrer: Option<string>,
    browser: Option<string>,
    os: Option<string>,
    device: Option<string>,
    timestamp: int)

  datatype Store = Store(users: seq<User>, urls: seq<Url>, analytics: seq<Visit>)

  /** The default of `users.role`. */
  const DefaultRole: string := "user"

  function UserId(u: User): string { u.id }
  function UserEmail(u: User): string { u.email }
  function UrlId(u: Url): string { u.id }
  function ShortCode(u: Url): string { u.shortCode }
  function VisitId(v: Visit): string { v.id }

  predicate HasUserId(users: seq<User>, id: string) {
    exists u | u in users :: u.id == id
  }

  predicate HasEmail(users: seq<User>, email: string) {
    exists u | u in users :: u.email == email
  }

  predicate HasUrlId(urls: seq<Url>, id: string) {
    exists u | u in urls :: u.id == id
  }

  predicate HasShortCode(urls: seq<Url>, code: string) {
    exists u | u in urls :: u.shortCode == code
  }

  predicate HasVisitId(visits: seq<Visit>, id: string) {
    exists v | v in visits :: v.id == id
  }

  /** `url_id = urlId` as a row test. */
  function LinkedTo(urlId: string): Visit -> bool {
    (v: Visit) => v.urlId == urlId
  }

  /** `user_id = userId` as a row test. */
  function OwnedBy(userId: string): Url -> bool {
    (u: Url) => u.userId == userId
  }

  /** `SELECT ... FROM users WHERE id = ?`, first row. */
  function FindUser(users: seq<User>, id: string): (r: Option<User>)
    ensures r.None? <==> !HasUserId(users, id)
    ensures r.Some? ==> r.value in users && r.value.id == id
    decreases |users|
  {
    if users == [] then None
    else if users[0].id == id then Some(users[0])
    else FindUser(users[1..], id)
  }

  /** `SELECT ... FROM users WHERE email = ?`, first row. */
  function FindByEmail(users: seq<User>, email: string): (r: Option<User>)
    ensures r.None? <==> !HasEmail(users, email)
    ensures r.Some? ==> r.value in users && r.value.email == email
    decreases |users|
  {
    if users == [] then None
    else if users[0].email == email then Some(users[0])
    else FindByEmail(users[1..], email)
  }

  /** With unique emails the lookup finds the one row holding the email. */
  lemma FindByEmailIsUnique(users: seq<User>, u: User)
    requires UniqueBy(users, UserEmail) && u in users
    ensures FindByEmail(users, u.email) == Some(u)
  {
    var w := FindByEmail(users, u.email).value;
    var i :| 0 <= i < |users| && users[i] == u;
    var j :| 0 <= j < |users| && users[j] == w;
    assert UserEmail(users[i]) == UserEmail(users[j]);
  }

  /** A row appended with a new email is what the lookup then finds. */
  lemma {:induction false} FindByEmailAppend(users: seq<User>, row: User)
    requires !HasEmail(users, row.email)
    ensures FindByEmail(users + [row], row.email) == Some(row)
    decreases |users|
  {
    if users != [] {
      assert users[0] in users;
      assert (users + [row])[1..] == users[1..] + [row];
      assert !HasEmail(users[1..], row.email) by {
        forall u | u in users[1..] ensures u.email != row.email {
          assert u in users;
        }
      }
      FindByEmailAppend(users[1..], row);
    }
  }

  /** Every constraint the DDL declares. */
  ghost predicate Valid(s: Store) {
    && UniqueBy(s.users, UserId)
    && UniqueBy(s.users, UserEmail)
    && UniqueBy(s.urls, UrlId)
    && UniqueBy(s.urls, ShortCode)
    && UniqueBy(s.analytics, VisitId)
    && (forall u | u in s.urls :: HasUserId(s.users, u.userId))
    && (forall v | v in s.analytics :: HasUrlId(s.urls, v.urlId))
  }

  /** INSERT INTO users: refused when the id or the email is taken. */
  function InsertUser(s: Store, row: User): (r: Option<Store>)
    ensures r.Some? <==> !HasUserId(s.users, row.id) && !HasEmail(s.users, row.email)
    ensures r.Some? ==> r.value == s.(users := s.users + [row])
  {
    if HasUserId(s.users, row.id) || HasEmail(s.users, row.email) then None
    else Some(s.(users := s.users + [row]))
  }

  /** INSERT INTO urls: refused when the id or the short code is taken. */
  function InsertUrl(s: Store, row: Url): (r: Option<Store>)
    ensures r.Some? <==> !HasUrlId(s.urls, row.id) && !HasShortCode(s.urls, row.shortCode)
    ensures r.Some? ==> r.value == s.(urls := s.urls + [row])
  {
    if HasUrlId(s.urls, row.id) || HasShortCode(s.urls, row.shortCode) then None
    else Some(s.(urls := s.urls + [row]))
  }

  /** INSERT INTO analytics: refused when the id is taken. */
  function InsertVisit(s: Store, row: Visit): (r: Option<Store>)
    ensures r.Some? <==> !HasVisitId(s.analytics, row.id)
    ensures r.Some? ==> r.value == s.(analytics := s.analytics + [row])
  {
    if HasVisitId(s.analytics, row.id) then None
    else Some(s.(analytics := s.analytics + [row]))
  }

  /** A successful user insert keeps every constraint. */
  lemma InsertUserKeepsValid(s: Store, row: User)
    requires Valid(s) && InsertUser(s, row).Some?
    ensures Valid(InsertUser(s, row).value)
  {
    var t := InsertUser(s, row).value;
    UniqueSnoc(s.users, row, UserId);
    UniqueSnoc(s.users, row, UserEmail);
    forall u | u in t.urls ensures HasUserId(t.users, u.userId) {
      var w :| w in s.users && w.id == u.userId;
      assert w in t.users;
    }
  }

  /** A successful url insert keeps every constraint when its owner exists. */
  lemma InsertUrlKeepsValid(s: Store, row: Url)
    requires Valid(s) && InsertUrl(s, row).Some?
    requires HasUserId(s.users, row.userId)
    ensures Valid(InsertUrl(s, row).value)
  {
    var t := InsertUrl(s, row).value;
    UniqueSnoc(s.urls, row, UrlId);
    UniqueSnoc(s.urls, row, ShortCode);
    forall v | v in t.analytics ensures HasUrlId(t.urls, v.urlId) {
      var w :| w in s.urls && w.id == v.urlId;
      assert w in t.urls;
    }
  }

  /** A successful visit insert keeps every constraint when its link exists. */
  lemma InsertVisitKeepsValid(s: Store, row: Visit)
    requires Valid(s) && InsertVisit(s, row).Some?
    requires HasUrlId(s.urls, row.urlId)
    ensures Valid(InsertVisit(s, row).value)
  {
    UniqueSnoc(s.analytics, row, VisitId);
  }
}
