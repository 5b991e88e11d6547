/** Click recording and the per-link report of app/lib/analytics.server.ts.
    The visit id and the clock readings are parameters; a failed insert is
    caught and logged by the source, so the store is then left as it was. */
module Analytics {
  import opened Wrappers
  import opened Seqs
  import opened Tally
  import opened Js
  import UserAgent
  import opened Schema

  /** The address written for every visit in place of the client's. */
  const PlaceholderIp: string := "127.0.0.1"

  const MillisPerSecond: int := 1000
  const SecondsPerDay: int := 24 * 60 * 60
  const MillisPerDay: int := SecondsPerDay * MillisPerSecond

  /** The report's time window: thirty days of milliseconds. */
  const WindowMillis: int := 30 * MillisPerDay

  /** At most this many referrers are reported. */
  const ReferrerLimit: nat := 10

  /** SQLite's integer division, which truncates toward zero. */
  function SqlDiv(a: int, b: int): (q: int)
    requires b > 0
    ensures a >= 0 ==> q * b <= a < (q + 1) * b
    ensures a < 0 ==> (q - 1) * b < a <= q * b
  {
    if a >= 0 then a / b else -((-a) / b)
  }

  /** The day number `DATE(timestamp/1000, 'unixepoch')` names: whole seconds
      first, then the UTC day that holds them. */
  function Day(timestamp: int): (d: int)
    ensures timestamp >= 0 ==> d * MillisPerDay <= timestamp < (d + 1) * MillisPerDay
    ensures timestamp < 0 ==> d * MillisPerDay - MillisPerSecond < timestamp < (d + 1) * MillisPerDay
  {
    SqlDiv(timestamp, MillisPerSecond) / SecondsPerDay
  }

  /** The row trackAnalytics writes, given both headers as received. */
  predicate Records(v: Visit, id: string, urlId: string,
                    userAgentHeader: Option<string>, refererHeader: Option<string>, now: int)
  {
    var ua := OrElse(userAgentHeader, "");
    var agent := UserAgent.Parse(ua);
    && v.id == id
    && v.urlId == urlId
    && v.visitorIp == Some(PlaceholderIp)
    && v.userAgent == Some(ua)
    && v.referrer == Some(OrElse(refererHeader, ""))
    && v.browser == Some(agent.browser)
    && v.os == Some(agent.os)
    && v.device == Some(agent.device)
    && v.timestamp == now
  }

  /** trackAnalytics: appends one visit row; on an insert error nothing changes. */
  function TrackAnalytics(s: Store, urlId: string, userAgentHeader: Option<string>,
                          refererHeader: Option<string>, id: string, now: int): (r: Store)
    ensures r.users == s.users && r.urls == s.urls
    ensures HasVisitId(s.analytics, id) ==> r == s
    ensures !HasVisitId(s.analytics, id) ==>
      && |r.analytics| == |s.analytics| + 1
      && r.analytics[..|s.analytics|] == s.analytics
      && Records(r.analytics[|s.analytics|], id, urlId, userAgentHeader, refererHeader, now)
  {
    var ua := OrElse(userAgentHeader, "");
    var agent := UserAgent.Parse(ua);
    var row := Visit(id, urlId, Some(PlaceholderIp), Some(ua), Some(OrElse(refererHeader, "")),
                     Some(agent.browser), Some(agent.os), Some(agent.device), now);
    match InsertVisit(s, row)
    case Some(t) => t
    case None => s
  }

  /** The visits of one link, in insertion order. */
  function VisitsOf(s: Store, urlId: string): (vs: seq<Visit>)
    ensures forall v | v in vs :: v in s.analytics && v.urlId == urlId
    ensures forall v | v in s.analytics && v.urlId == urlId :: v in vs
  {
    Filter(s.analytics, LinkedTo(urlId))
  }

  function BrowserOf(v: Visit): Option<string> { v.browser }
  function OsOf(v: Visit): Option<string> { v.os }
  function DeviceOf(v: Visit): Option<string> { v.device }

  /** `referrer != ''`, which NULL does not satisfy either. */
  predicate HasReferrer(v: Visit) {
    v.referrer.Some? && v.referrer.value != ""
  }

  function ReferrerOf(v: Visit): string { v.referrer.GetOr("") }

  /** The row test `referrer = k`. */
  function ReferredBy(k: string): Visit -> bool {
    (v: Visit) => v.referrer == Some(k)
  }

  /** The referrer column of the visits that have one. */
  function Referrers(vs: seq<Visit>): (ks: seq<string>)
    ensures forall k | k in ks :: k != ""
    ensures |ks| == |Filter(vs, HasReferrer)|
    ensures forall v | v in vs && HasReferrer(v) :: v.referrer.value in ks
    ensures forall k | k in ks :: exists v | v in vs :: v.referrer == Some(k)
    ensures forall k | k != "" :: Occurrences(ks, k) == |Filter(vs, ReferredBy(k))|
  {
    var kept := Filter(vs, HasReferrer);
    var ks := Map(kept, ReferrerOf);
    assert forall i | 0 <= i < |ks| :: ks[i] != "" by {
      forall i | 0 <= i < |ks| ensures ks[i] != "" {
        assert HasReferrer(kept[i]);
      }
    }
    forall v | v in vs && HasReferrer(v) ensures v.referrer.value in ks {
      var i :| 0 <= i < |kept| && kept[i] == v;
      assert ks[i] == v.referrer.value;
    }
    forall k | k in ks ensures exists v | v in vs :: v.referrer == Some(k) {
      var i :| 0 <= i < |ks| && ks[i] == k;
      assert HasReferrer(kept[i]) && kept[i] in vs;
    }
    forall k | k != "" ensures Occurrences(ks, k) == |Filter(vs, ReferredBy(k))| {
      ReferrerTally(vs, k);
    }
    ks
  }

  /** Each non-empty referrer occurs among the projected keys once per
      visit that carries it. */
  lemma {:induction false} ReferrerTally(vs: seq<Visit>, k: string)
    requires k != ""
    ensures Occurrences(Map(Filter(vs, HasReferrer), ReferrerOf), k) == |Filter(vs, ReferredBy(k))|
    decreases |vs|
  {
    if vs != [] {
      var prefix := vs[..|vs| - 1];
      var last := vs[|vs| - 1];
      assert vs == prefix + [last];
      ReferrerTally(prefix, k);
      FilterAppend(prefix, [last], HasReferrer);
      FilterAppend(prefix, [last], ReferredBy(k));
      var before := Map(Filter(prefix, HasReferrer), ReferrerOf);
      if HasReferrer(last) {
        assert Map(Filter(vs, HasReferrer), ReferrerOf) == before + [ReferrerOf(last)];
        OccurrencesSnoc(before, ReferrerOf(last), k);
      } else {
        assert Filter(vs, HasReferrer) == Filter(prefix, HasReferrer);
      }
    }
  }

  function VisitDay(v: Visit): int { Day(v.timestamp) }

  /** The days of the visits later than thirty days before `now`. */
  function RecentDays(vs: seq<Visit>, now: int): seq<int> {
    Map(Filter(vs, (v: Visit) => v.timestamp > now - WindowMillis), VisitDay)
  }

  datatype UrlAnalytics = UrlAnalytics(
    totalClicks: nat,
    browserStats: seq<Group<Option<string>>>,
    osStats: seq<Group<Option<string>>>,
    deviceStats: seq<Group<Option<string>>>,
    referrerStats: seq<Group<string>>,
    clicksOverTime: seq<Group<int>>)

  /** getUrlAnalytics, with `now` the clock reading the window starts from. */
  function GetUrlAnalytics(s: Store, urlId: string, now: int): (r: UrlAnalytics)
    ensures r.totalClicks == |VisitsOf(s, urlId)|
    ensures IsTallyOf(r.browserStats, Map(VisitsOf(s, urlId), BrowserOf))
    ensures IsTallyOf(r.osStats, Map(VisitsOf(s, urlId), OsOf))
    ensures IsTallyOf(r.deviceStats, Map(VisitsOf(s, urlId), DeviceOf))
    ensures NonIncreasing(r.browserStats, CountOf)
    ensures NonIncreasing(r.osStats, CountOf)
    ensures NonIncreasing(r.deviceStats, CountOf)
    ensures SumOf(r.browserStats, CountOf) == r.totalClicks
    ensures SumOf(r.osStats, CountOf) == r.totalClicks
    ensures SumOf(r.deviceStats, CountOf) == r.totalClicks
    ensures IsTopTallyOf(r.referrerStats, Referrers(VisitsOf(s, urlId)), ReferrerLimit)
    ensures forall g | g in r.referrerStats :: g.key != ""
    ensures IsTallyOf(r.clicksOverTime, RecentDays(VisitsOf(s, urlId), now))
    ensures forall i, j | 0 <= i < j < |r.clicksOverTime| ::
              r.clicksOverTime[i].key < r.clicksOverTime[j].key
    ensures SumOf(r.clicksOverTime, CountOf) <= r.totalClicks
  {
    var vs := VisitsOf(s, urlId);
    UrlAnalytics(
      |vs|,
      GroupCount(Map(vs, BrowserOf)),
      GroupCount(Map(vs, OsOf)),
      GroupCount(Map(vs, DeviceOf)),
      TopGroupCount(Referrers(vs), ReferrerLimit),
      GroupByAscending(RecentDays(vs, now)))
  }

  /** For a link nobody visited every statistic is empty. */
  lemma UnvisitedLinkReportsNothing(s: Store, urlId: string, now: int)
    requires forall v | v in s.analytics :: v.urlId != urlId
    ensures GetUrlAnalytics(s, urlId, now)
         == UrlAnalytics(0, [], [], [], [], [])
  {
    FilterNoneKept(s.analytics, LinkedTo(urlId));
  }

  /** Recording a visit keeps the constraints when the link exists. */
  lemma TrackKeepsValid(s: Store, urlId: string, userAgentHeader: Option<string>,
                        refererHeader: Option<string>, id: string, now: int)
    requires Valid(s) && HasUrlId(s.urls, urlId)
    ensures Valid(TrackAnalytics(s, urlId, userAgentHeader, refererHeader, id, now))
  {
    var ua := OrElse(userAgentHeader, "");
    var agent := UserAgent.Parse(ua);
    var row := Visit(id, urlId, Some(PlaceholderIp), Some(ua), Some(OrElse(refererHeader, "")),
                     Some(agent.browser), Some(agent.os), Some(agent.device), now);
    if InsertVisit(s, row).Some? {
      InsertVisitKeepsValid(s, row);
    }
  }

  /** A recorded visit adds exactly one click to its own link's report and
      none to any other link's. */
  lemma TrackCountsOneClick(s: Store, urlId: string, userAgentHeader: Option<string>,
                            refererHeader: Option<string>, id: string, now: int,
                            other: string, later: int)
    requires !HasVisitId(s.analytics, id)
    ensures GetUrlAnalytics(TrackAnalytics(s, urlId, userAgentHeader, refererHeader, id, now), other, later).totalClicks
         == GetUrlAnalytics(s, other, later).totalClicks + (if other == urlId then 1 else 0)
  {
    var t := TrackAnalytics(s, urlId, userAgentHeader, refererHeader, id, now);
    var row := t.analytics[|s.analytics|];
    assert t.analytics == s.analytics + [row];
    FilterAppend(s.analytics, [row], LinkedTo(other));
  }
}
