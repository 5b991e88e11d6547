/** The loaders of app/routes/dashboard._index.tsx (the overview) and
    app/routes/dashboard.links.tsx (the link table), and the title the link
    table shows. Both run behind requireUser. */
module Dashboard {
  import opened Wrappers
  import opened Seqs
  import opened Js
  import opened Schema
  import opened Http
  import opened Auth
  import Urls
  import Analytics

  /** The overview shows at most this many recent links. */
  const RecentLimit: nat := 5

  const Untitled: string := "Untitled"

  datatype Overview = Overview(totalLinks: nat, totalClicks: nat, recentLinks: seq<Url>)

  /** `url_id IN (SELECT id FROM urls ...)` as a row test. */
  function LinkedToAny(urls: seq<Url>): Visit -> bool {
    (v: Visit) => HasUrlId(urls, v.urlId)
  }

  /** A visit of a link that `userId` owns, read off the rows themselves. */
  function VisitOfUser(urls: seq<Url>, userId: string): Visit -> bool {
    (v: Visit) => exists u | u in urls :: u.userId == userId && u.id == v.urlId
  }

  /** The overview of one user's links. */
  function OverviewOf(s: Store, userId: string): (r: Overview)
    ensures r.totalLinks == |Urls.GetUrlsByUser(s, userId)|
    ensures r.totalClicks == |Filter(s.analytics, VisitOfUser(s.urls, userId))|
    ensures r.totalClicks <= |s.analytics|
    ensures forall v | v in s.analytics ::
              (exists u | u in s.urls :: u.userId == userId && u.id == v.urlId) ==> r.totalClicks > 0
    ensures |r.recentLinks| == if r.totalLinks < RecentLimit then r.totalLinks else RecentLimit
    ensures r.recentLinks <= Urls.GetUrlsByUser(s, userId)
    ensures forall u | u in r.recentLinks :: u in s.urls && u.userId == userId
    ensures NonIncreasing(r.recentLinks, Urls.CreatedAt)
    ensures forall u, w | u in s.urls && u.userId == userId && u !in r.recentLinks && w in r.recentLinks ::
              u.createdAt <= w.createdAt
  {
    var owned := Filter(s.urls, OwnedBy(userId));
    var links := Urls.GetUrlsByUser(s, userId);
    assert |links| == |owned| by {
      assert |multiset(links)| == |multiset(owned)|;
    }
    var clicks := Filter(s.analytics, LinkedToAny(owned));
    SubqueryPicksOwnedVisits(s, userId);
    var recent := Take(links, RecentLimit);
    NewestFirst(links, RecentLimit);
    assert forall v | v in s.analytics ::
             (exists u | u in s.urls :: u.userId == userId && u.id == v.urlId) ==> v in clicks;
    Overview(|owned|, |clicks|, recent)
  }

  /** `url_id IN (SELECT id FROM urls WHERE user_id = ?)` keeps exactly the
      visits of the user's links. */
  lemma SubqueryPicksOwnedVisits(s: Store, userId: string)
    ensures Filter(s.analytics, LinkedToAny(Filter(s.urls, OwnedBy(userId))))
         == Filter(s.analytics, VisitOfUser(s.urls, userId))
  {
    var owned := Filter(s.urls, OwnedBy(userId));
    forall v | v in s.analytics ensures LinkedToAny(owned)(v) == VisitOfUser(s.urls, userId)(v) {
      if LinkedToAny(owned)(v) {
        var w :| w in owned && w.id == v.urlId;
        assert w in s.urls && w.userId == userId;
      }
      if VisitOfUser(s.urls, userId)(v) {
        var w :| w in s.urls && w.userId == userId && w.id == v.urlId;
        assert w in owned;
      }
    }
    FilterCongruent(s.analytics, LinkedToAny(owned), VisitOfUser(s.urls, userId));
  }

  /** The first `n` of a list sorted newest first are the `n` newest. */
  lemma NewestFirst(links: seq<Url>, n: nat)
    requires NonIncreasing(links, Urls.CreatedAt)
    ensures NonIncreasing(Take(links, n), Urls.CreatedAt)
    ensures forall u, w | u in links && u !in Take(links, n) && w in Take(links, n) ::
              u.createdAt <= w.createdAt
  {
    var recent := Take(links, n);
    forall u, w | u in links && u !in recent && w in recent ensures u.createdAt <= w.createdAt {
      var i :| 0 <= i < |links| && links[i] == u;
      var j :| 0 <= j < |recent| && recent[j] == w;
      assert links[j] == w;
      assert Urls.CreatedAt(links[j]) >= Urls.CreatedAt(links[i]);
    }
  }

  /** The loader of the overview page. */
  function IndexLoader(s: Store, session: Option<string>, pathname: string): (r: Guarded<Overview>)
    ensures r.Allowed? <==> GetUser(s, session).Some?
    ensures r.Halted? ==> r == Halted(RequireUser(s, session, pathname).response)
    ensures r.Allowed? ==> r.value == OverviewOf(s, GetUser(s, session).value.id)
  {
    match RequireUser(s, session, pathname)
    case Halted(response) => Halted(response)
    case Allowed(user) => Allowed(OverviewOf(s, user.id))
  }

  /** One row of the link table: the link and how often it was visited. */
  datatype LinkRow = LinkRow(url: Url, clicks: nat)

  function RowClicks(row: LinkRow): int { row.clicks }

  /** The number of visits of a link, as a function of the link. */
  function ClicksIn(visits: seq<Visit>): Url -> int {
    (u: Url) => |Filter(visits, LinkedTo(u.id))|
  }

  /** The link table of one user: the user's links, newest first, each with
      its click count. */
  function LinkTable(s: Store, userId: string): (rows: seq<LinkRow>)
    ensures |rows| == |Urls.GetUrlsByUser(s, userId)|
    ensures forall i | 0 <= i < |rows| ::
              && rows[i].url == Urls.GetUrlsByUser(s, userId)[i]
              && rows[i].clicks == |Analytics.VisitsOf(s, rows[i].url.id)|
    ensures forall row | row in rows :: row.url in s.urls && row.url.userId == userId
  {
    Map(Urls.GetUrlsByUser(s, userId), (u: Url) => LinkRow(u, |Analytics.VisitsOf(s, u.id)|))
  }

  /** The loader of the link table. */
  function LinksLoader(s: Store, session: Option<string>, pathname: string): (r: Guarded<seq<LinkRow>>)
    ensures r.Allowed? <==> GetUser(s, session).Some?
    ensures r.Halted? ==> r == Halted(RequireUser(s, session, pathname).response)
    ensures r.Allowed? ==> r.value == LinkTable(s, GetUser(s, session).value.id)
  {
    match RequireUser(s, session, pathname)
    case Halted(response) => Halted(response)
    case Allowed(user) => Allowed(LinkTable(s, user.id))
  }

  /** Visits of links with distinct ids, counted link by link, are the
      visits of any of those links. */
  lemma {:induction false} ClicksOfDistinctLinks(us: seq<Url>, visits: seq<Visit>)
    requires UniqueBy(us, UrlId)
    ensures SumOf(us, ClicksIn(visits)) == |Filter(visits, LinkedToAny(us))|
    decreases |us|
  {
    if us == [] {
      FilterNoneKept(visits, LinkedToAny(us));
    } else {
      var rest := us[1..];
      UniqueTail(us, UrlId);
      ClicksOfDistinctLinks(rest, visits);
      forall v | v in visits
        ensures LinkedToAny(us)(v) == (LinkedTo(us[0].id)(v) || LinkedToAny(rest)(v))
        ensures !(LinkedTo(us[0].id)(v) && LinkedToAny(rest)(v))
      {
        if HasUrlId(us, v.urlId) {
          var w :| w in us && w.id == v.urlId;
          var k :| 0 <= k < |us| && us[k] == w;
          if k > 0 {
            assert rest[k - 1] == w;
          }
        }
        if HasUrlId(rest, v.urlId) {
          var w :| w in rest && w.id == v.urlId;
          assert w in us;
        }
      }
      FilterSplit(visits, LinkedToAny(us), LinkedTo(us[0].id), LinkedToAny(rest));
    }
  }

  /** The link table's clicks add up to the overview's total. */
  lemma ClicksAddUp(s: Store, userId: string)
    requires Valid(s)
    ensures SumOf(LinkTable(s, userId), RowClicks) == OverviewOf(s, userId).totalClicks
  {
    var owned := Filter(s.urls, OwnedBy(userId));
    var links := Urls.GetUrlsByUser(s, userId);
    var rows := LinkTable(s, userId);
    var f := ClicksIn(s.analytics);
    SumOfPointwise(rows, RowClicks, links, f);
    SumOfSortDesc(owned, Urls.CreatedAt, f);
    FilterKeepsUnique(s.urls, OwnedBy(userId), UrlId);
    ClicksOfDistinctLinks(owned, s.analytics);
  }

  /** The same, for the two pages a signed-in user sees. */
  lemma LoadersAgree(s: Store, session: Option<string>, pathname: string)
    requires Valid(s) && GetUser(s, session).Some?
    ensures SumOf(LinksLoader(s, session, pathname).value, RowClicks)
         == IndexLoader(s, session, pathname).value.totalClicks
  {
    ClicksAddUp(s, GetUser(s, session).value.id);
  }

  /** The title cell: a missing or empty title reads "Untitled". */
  function DisplayTitle(title: Option<string>): (shown: string)
    ensures Truthy(title) ==> shown == title.value
    ensures !Truthy(title) ==> shown == Untitled
    ensures shown != ""
  {
    OrElse(title, Untitled)
  }
}
