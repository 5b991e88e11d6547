/** The link operations of app/lib/url.server.ts over the store. The ids and
    codes nanoid draws and the clock readings are parameters. */
module Urls {
  import opened Wrappers
  import opened Seqs
  import opened Js
  import opened Schema

  function CreatedAt(u: Url): int { u.createdAt }

  /** The row createUrl writes: falsy title and expiry become NULL. */
  predicate Stores(row: Url, id: string, userId: string, originalUrl: string, code: string,
                   title: Option<string>, expiresAt: Option<int>, insertedAt: int)
  {
    && row.id == id
    && row.userId == userId
    && row.originalUrl == originalUrl
    && row.shortCode == code
    && row.title == OrNull(title)
    && row.createdAt == insertedAt
    && row.expiresAt == NumberOrNull(expiresAt)
  }

  /** createUrl. `id` and `code` are the values nanoid drew; `insertedAt`
      and `reportedAt` are the two clock readings (the one stored, the one
      echoed back). A taken id or code makes the insert fail: the store is
      left unchanged and the result is null, with no second attempt. */
  function CreateUrl(s: Store, originalUrl: string, userId: string, title: Option<string>,
                     expiresAt: Option<int>, id: string, code: string,
                     insertedAt: int, reportedAt: int): (r: (Store, Option<Url>))
    ensures r.1.Some? <==> !HasUrlId(s.urls, id) && !HasShortCode(s.urls, code)
    ensures r.1.None? ==> r.0 == s
    ensures r.1.Some? ==>
      && r.0.users == s.users
      && r.0.analytics == s.analytics
      && |r.0.urls| == |s.urls| + 1
      && r.0.urls[..|s.urls|] == s.urls
      && Stores(r.0.urls[|s.urls|], id, userId, originalUrl, code, title, expiresAt, insertedAt)
    ensures r.1.Some? ==> r.1.value == Url(id, userId, originalUrl, code, title, reportedAt, expiresAt)
  {
    var row := Url(id, userId, originalUrl, code, OrNull(title), insertedAt, NumberOrNull(expiresAt));
    match InsertUrl(s, row)
    case Some(t) => (t, Some(Url(id, userId, originalUrl, code, title, reportedAt, expiresAt)))
    case None => (s, None)
  }

  /** The first row with the code. */
  function FindByCode(urls: seq<Url>, code: string): (r: Option<Url>)
    ensures r.None? <==> !HasShortCode(urls, code)
    ensures r.Some? ==> r.value in urls && r.value.shortCode == code
    decreases |urls|
  {
    if urls == [] then None
    else if urls[0].shortCode == code then Some(urls[0])
    else FindByCode(urls[1..], code)
  }

  /** getUrlByShortCode: the row with the code, or null. Expiry is not
      consulted. */
  function GetUrlByShortCode(s: Store, code: string): (r: Option<Url>)
    ensures r.None? <==> !HasShortCode(s.urls, code)
    ensures r.Some? ==> r.value in s.urls && r.value.shortCode == code
  {
    FindByCode(s.urls, code)
  }

  /** With unique short codes a code resolves to the one row holding it. */
  lemma ResolveIsUnique(s: Store, u: Url)
    requires Valid(s) && u in s.urls
    ensures GetUrlByShortCode(s, u.shortCode) == Some(u)
  {
    var w := GetUrlByShortCode(s, u.shortCode).value;
    var i :| 0 <= i < |s.urls| && s.urls[i] == u;
    var j :| 0 <= j < |s.urls| && s.urls[j] == w;
    assert ShortCode(s.urls[i]) == ShortCode(s.urls[j]);
  }

  lemma {:induction false} FindByCodeAppend(urls: seq<Url>, row: Url)
    requires !HasShortCode(urls, row.shortCode)
    ensures FindByCode(urls + [row], row.shortCode) == Some(row)
    decreases |urls|
  {
    if urls == [] {
    } else {
      assert urls[0] in urls;
      assert (urls + [row])[1..] == urls[1..] + [row];
      assert !HasShortCode(urls[1..], row.shortCode) by {
        forall u | u in urls[1..] ensures u.shortCode != row.shortCode {
          assert u in urls;
        }
      }
      FindByCodeAppend(urls[1..], row);
    }
  }

  /** A link just created resolves, by its code, to the url it was given. */
  lemma CreateThenResolve(s: Store, originalUrl: string, userId: string, title: Option<string>,
                          expiresAt: Option<int>, id: string, code: string,
                          insertedAt: int, reportedAt: int)
    requires CreateUrl(s, originalUrl, userId, title, expiresAt, id, code, insertedAt, reportedAt).1.Some?
    ensures var t := CreateUrl(s, originalUrl, userId, title, expiresAt, id, code, insertedAt, reportedAt).0;
            GetUrlByShortCode(t, code).Some?
            && GetUrlByShortCode(t, code).value.originalUrl == originalUrl
            && GetUrlByShortCode(t, code).value.userId == userId
  {
    var t := CreateUrl(s, originalUrl, userId, title, expiresAt, id, code, insertedAt, reportedAt).0;
    var row := t.urls[|s.urls|];
    assert t.urls == s.urls + [row];
    FindByCodeAppend(s.urls, row);
  }

  /** A created link keeps the constraints when its owner exists. */
  lemma CreateUrlKeepsValid(s: Store, originalUrl: string, userId: string, title: Option<string>,
                            expiresAt: Option<int>, id: string, code: string,
                            insertedAt: int, reportedAt: int)
    requires Valid(s) && HasUserId(s.users, userId)
    ensures Valid(CreateUrl(s, originalUrl, userId, title, expiresAt, id, code, insertedAt, reportedAt).0)
  {
    var row := Url(id, userId, originalUrl, code, OrNull(title), insertedAt, NumberOrNull(expiresAt));
    if InsertUrl(s, row).Some? {
      InsertUrlKeepsValid(s, row);
    }
  }

  /** getUrlsByUser: the user's links, newest first. */
  function GetUrlsByUser(s: Store, userId: string): (r: seq<Url>)
    ensures forall u | u in r :: u in s.urls && u.userId == userId
    ensures forall u | u in s.urls && u.userId == userId :: u in r
    ensures multiset(r) == multiset(Filter(s.urls, OwnedBy(userId)))
    ensures NonIncreasing(r, CreatedAt)
  {
    var owned := Filter(s.urls, OwnedBy(userId));
    var r := SortDesc(owned, CreatedAt);
    assert forall u | u in r :: u in owned by {
      forall u | u in r ensures u in owned {
        assert u in multiset(r);
      }
    }
    assert forall u | u in owned :: u in r by {
      forall u | u in owned ensures u in r {
        assert u in multiset(owned);
      }
    }
    r
  }

  /** A user's links carry distinct ids. */
  lemma UserLinksAreDistinct(s: Store, userId: string)
    requires Valid(s)
    ensures UniqueBy(GetUrlsByUser(s, userId), UrlId)
  {
    FilterKeepsUnique(s.urls, OwnedBy(userId), UrlId);
    SortDescKeepsUnique(Filter(s.urls, OwnedBy(userId)), CreatedAt, UrlId);
  }

  /** `url_id != id` as a row test. */
  function NotLinkedTo(urlId: string): Visit -> bool {
    (v: Visit) => v.urlId != urlId
  }

  /** The row `id = ? AND user_id = ?` does not select. */
  function NotOwnedRow(id: string, userId: string): Url -> bool {
    (u: Url) => !(u.id == id && u.userId == userId)
  }

  predicate Owns(urls: seq<Url>, id: string, userId: string) {
    exists u | u in urls :: u.id == id && u.userId == userId
  }

  /** rowsAffected > 0 of the DELETE: some row was selected. */
  lemma RowsAffected(urls: seq<Url>, id: string, userId: string)
    ensures |Filter(urls, NotOwnedRow(id, userId))| < |urls| <==> Owns(urls, id, userId)
  {
    if Owns(urls, id, userId) {
      var u :| u in urls && u.id == id && u.userId == userId;
      var i :| 0 <= i < |urls| && urls[i] == u;
      FilterDropsSome(urls, NotOwnedRow(id, userId), i);
    } else {
      forall i | 0 <= i < |urls| ensures NotOwnedRow(id, userId)(urls[i]) {
        assert urls[i] in urls;
      }
      FilterAllKept(urls, NotOwnedRow(id, userId));
    }
  }

  /** deleteUrl as written: every visit of link `id` is deleted first,
      whoever asks; the link itself only when `userId` owns it. The result
      says whether the link was deleted. */
  function DeleteUrl(s: Store, id: string, userId: string): (r: (Store, bool))
    ensures r.0.users == s.users
    ensures forall v | v in r.0.analytics :: v in s.analytics && v.urlId != id
    ensures forall v | v in s.analytics && v.urlId != id :: v in r.0.analytics
    ensures forall u | u in r.0.urls :: u in s.urls && !(u.id == id && u.userId == userId)
    ensures forall u | u in s.urls && !(u.id == id && u.userId == userId) :: u in r.0.urls
    ensures r.1 <==> Owns(s.urls, id, userId)
  {
    var analytics := Filter(s.analytics, NotLinkedTo(id));
    var urls := Filter(s.urls, NotOwnedRow(id, userId));
    RowsAffected(s.urls, id, userId);
    (Store(s.users, urls, analytics), |urls| < |s.urls|)
  }

  /** Deleting keeps every constraint, the visit-to-link reference included. */
  lemma DeleteUrlKeepsValid(s: Store, id: string, userId: string)
    requires Valid(s)
    ensures Valid(DeleteUrl(s, id, userId).0)
  {
    var t := DeleteUrl(s, id, userId).0;
    FilterKeepsUnique(s.urls, NotOwnedRow(id, userId), UrlId);
    FilterKeepsUnique(s.urls, NotOwnedRow(id, userId), ShortCode);
    FilterKeepsUnique(s.analytics, NotLinkedTo(id), VisitId);
    forall v | v in t.analytics ensures HasUrlId(t.urls, v.urlId) {
      var w :| w in s.urls && w.id == v.urlId;
      assert w in t.urls;
    }
  }

  /** The defect: a caller who does not own link `id` is told nothing was
      deleted, yet the link's whole visit history is gone. */
  lemma NonOwnerDeleteWipesHistory(s: Store, id: string, userId: string, v: Visit)
    requires !Owns(s.urls, id, userId)
    requires v in s.analytics && v.urlId == id
    ensures var r := DeleteUrl(s, id, userId);
            !r.1 && r.0.urls == s.urls && v !in r.0.analytics && r.0.analytics != s.analytics
  {
    forall i | 0 <= i < |s.urls| ensures NotOwnedRow(id, userId)(s.urls[i]) {
      assert s.urls[i] in s.urls;
    }
    FilterAllKept(s.urls, NotOwnedRow(id, userId));
  }

  /** deleteUrl as evidently intended: the visits go only with the link. */
  function DeleteOwnedUrl(s: Store, id: string, userId: string): (r: (Store, bool))
    ensures r.1 <==> Owns(s.urls, id, userId)
    ensures !r.1 ==> r.0 == s
    ensures r.1 ==> r.0 == DeleteUrl(s, id, userId).0
  {
    if Owns(s.urls, id, userId) then DeleteUrl(s, id, userId) else (s, false)
  }

  lemma DeleteOwnedUrlKeepsValid(s: Store, id: string, userId: string)
    requires Valid(s)
    ensures Valid(DeleteOwnedUrl(s, id, userId).0)
  {
    DeleteUrlKeepsValid(s, id, userId);
  }

  /** updateUrl: on the row `id = ? AND user_id = ?`, title and expiry are
      replaced (a falsy value, an omitted expiry included, becomes NULL);
      every other row and column stays. The result says whether a row
      matched. */
  function UpdateUrl(s: Store, id: string, userId: string, title: Option<string>,
                     expiresAt: Option<int>): (r: (Store, bool))
    ensures r.0.users == s.users && r.0.analytics == s.analytics
    ensures |r.0.urls| == |s.urls|
    ensures forall i | 0 <= i < |s.urls| ::
      if s.urls[i].id == id && s.urls[i].userId == userId
      then r.0.urls[i] == s.urls[i].(title := OrNull(title), expiresAt := NumberOrNull(expiresAt))
      else r.0.urls[i] == s.urls[i]
    ensures r.1 <==> Owns(s.urls, id, userId)
  {
    var urls := Map(s.urls, (u: Url) =>
      if u.id == id && u.userId == userId
      then u.(title := OrNull(title), expiresAt := NumberOrNull(expiresAt))
      else u);
    (s.(urls := urls), Owns(s.urls, id, userId))
  }

  /** Updating touches no key, code or owner, so the constraints stay. */
  lemma UpdateUrlKeepsValid(s: Store, id: string, userId: string, title: Option<string>,
                            expiresAt: Option<int>)
    requires Valid(s)
    ensures Valid(UpdateUrl(s, id, userId, title, expiresAt).0)
  {
    var t := UpdateUrl(s, id, userId, title, expiresAt).0;
    assert forall i | 0 <= i < |s.urls| ::
      t.urls[i].id == s.urls[i].id && t.urls[i].shortCode == s.urls[i].shortCode
      && t.urls[i].userId == s.urls[i].userId;
    forall u | u in t.urls ensures HasUserId(t.users, u.userId) {
      var i :| 0 <= i < |t.urls| && t.urls[i] == u;
      assert s.urls[i] in s.urls;
    }
    forall v | v in t.analytics ensures HasUrlId(t.urls, v.urlId) {
      var w :| w in s.urls && w.id == v.urlId;
      var i :| 0 <= i < |s.urls| && s.urls[i] == w;
      assert t.urls[i] in t.urls;
    }
  }

  /** A row of getAllUrls: the link with its owner's email and name. */
  datatype OwnedUrl = OwnedUrl(url: Url, userEmail: string, userName: Option<string>)

  function RowCreatedAt(row: OwnedUrl): int { row.url.createdAt }

  /** `urls JOIN users ON urls.user_id = users.id`; users.id is a primary
      key, so each link meets at most one user. */
  function Join(urls: seq<Url>, users: seq<User>): (rows: seq<OwnedUrl>)
    ensures forall row | row in rows ::
              (row.url in urls
               && exists w | w in users :: w.id == row.url.userId && w.email == row.userEmail && w.name == row.userName)
    ensures forall u | u in urls && HasUserId(users, u.userId) :: exists row | row in rows :: row.url == u
    ensures (forall u | u in urls :: HasUserId(users, u.userId)) ==> |rows| == |urls|
    decreases |urls|
  {
    if urls == [] then []
    else
      var rest := Join(urls[1..], users);
      match FindUser(users, urls[0].userId)
      case None => rest
      case Some(w) => [OwnedUrl(urls[0], w.email, w.name)] + rest
  }

  /** getAllUrls: every link whose owner exists, with the owner's email and
      name, newest first. */
  function GetAllUrls(s: Store): (r: seq<OwnedUrl>)
    ensures forall row | row in r ::
              (row.url in s.urls
               && exists w | w in s.users :: w.id == row.url.userId && w.email == row.userEmail && w.name == row.userName)
    ensures forall u | u in s.urls && HasUserId(s.users, u.userId) :: exists row | row in r :: row.url == u
    ensures NonIncreasing(r, RowCreatedAt)
  {
    var rows := Join(s.urls, s.users);
    var r := SortDesc(rows, RowCreatedAt);
    assert forall row | row in r :: row in rows by {
      forall row | row in r ensures row in rows {
        assert row in multiset(r);
      }
    }
    assert forall row | row in rows :: row in r by {
      forall row | row in rows ensures row in r {
        assert row in multiset(rows);
      }
    }
    r
  }

  /** In a consistent store the admin list has one row per link. */
  lemma AllUrlsListsEveryLink(s: Store)
    requires Valid(s)
    ensures |GetAllUrls(s)| == |s.urls|
  {
    var rows := Join(s.urls, s.users);
    assert |multiset(GetAllUrls(s))| == |multiset(rows)|;
  }
}
