# md-shortner core in Dafny

A model of the logic behind the md-shortner link shortener, a Remix web
application. Users register and sign in, create short codes for long urls,
and see how often each link was visited. The model covers:

- the three-table store (`users`, `urls`, `analytics`) and its declared
  constraints;
- every SQL statement of the url and analytics libraries, written as a
  state transition or a pure query over immutable sequences of rows;
- the user-agent classifier that labels each visit;
- the request-level decision logic: the create-link, register and login
  actions, the `requireUser`/`requireAdmin` guards, the two dashboard
  loaders, and `getBaseUrl`.

Random ids and codes (nanoid), the clock, bcrypt, and the URL parser are
parameters. The URL parser is the basic URL parser of the WHATWG URL
Standard, section 4.4. The session cookie is reduced to the `userId` it
holds.

Layout, one file per part of the application (`text.dfy` holds the modules
`Text` and `Js`, `http.dfy` holds `Http` and `Validation`; every other file
holds one module):

- `wrappers.dfy`, `seqs.dfy`, `tally.dfy`, `text.dfy`: shared definitions.
  These are Option; filter, sum, take and a stable descending sort;
  GROUP BY tallies; substring search, UTF-16 length and JavaScript
  truthiness.
- `schema.dfy`: rows, the store, the constraint invariant `Valid`, and the
  inserts that honour PRIMARY KEY and UNIQUE.
- `user_agent.dfy`: `parseUserAgent` and its rule table.
- `analytics.dfy`: `trackAnalytics` and `getUrlAnalytics`.
- `urls.dfy`: the url library.
- `form_encoding.dfy`: the application/x-www-form-urlencoded serializer
  (section 5.2 of the WHATWG URL Standard), with a decoder as its
  inverse. `requireUser` uses it to build its redirect.
- `http.dfy`: responses, guards and ordered form checks.
- `auth.dfy`: the auth library.
- `create_link.dfy`, `register_route.dfy`, `login_route.dfy`,
  `dashboard.dfy`: the routes.
- `base_url.dfy`: `getBaseUrl`.

A colliding generated short code is not retried: the UNIQUE constraint
refuses the row and the user sees a 500 (`CreateLink.GeneratedCollisionFails`).

## Model

| member | source | states |
|---|---|---|
| UserAgent.Parse | app/lib/analytics.server.ts:50-83 | Every field is one of its fixed labels. A device other than Desktop implies the os is Android or iOS. Mobile holds exactly when the os is Android, or iOS without "iPad". Tablet holds exactly when the os is iOS and "iPad" occurs. |
| UserAgent.FirstMatchPicksEarliest | app/lib/analytics.server.ts:56-80 | In an ordered rule table, the first rule that fires decides, whatever later rules say. |
| UserAgent.FirstMatchFallsBack | app/lib/analytics.server.ts:56-80 | When no rule fires, the fallback label "Unknown" is returned. |
| UserAgent.ParseBrowserFollowsRuleTable | app/lib/analytics.server.ts:56-66 | The browser equals the first match over Firefox, Chrome, Safari, Edge, MSIE/Trident/, in that order. |
| UserAgent.ParseOsFollowsRuleTable | app/lib/analytics.server.ts:68-80 | The os equals the first match over Windows, Mac OS, Linux, Android, iPhone/iPad, in that order. |
| UserAgent.ChromeShadowsSafariAndEdge | app/lib/analytics.server.ts:56-62 | A user agent containing "Chrome" but not "Firefox" is labelled Chrome, even when "Safari" or "Edge" also occurs. |
| UserAgent.EdgeNeedsNoEarlierToken | app/lib/analytics.server.ts:56-63 | Edge is reported iff "Edge" occurs and none of Firefox, Chrome or Safari does. |
| UserAgent.LinuxIsDesktop | app/lib/analytics.server.ts:68-76 | A user agent containing "Linux" is always a Desktop and never Android. |
| UserAgent.MacOsShadowsIos | app/lib/analytics.server.ts:68-74 | "Mac OS" without "Windows" gives macOS/Desktop, even when "iPhone" or "iPad" occurs. |
| UserAgent.AndroidPhoneIsLinuxDesktop | app/lib/analytics.server.ts:50-83 | A stock Android Chrome user agent contains "Android" yet is classified Chrome/Linux/Desktop. |
| UserAgent.IPhoneIsMacDesktop | app/lib/analytics.server.ts:50-83 | A stock iPhone Safari user agent contains "iPhone" yet is classified Safari/macOS/Desktop. |
| Schema.Valid | app/lib/db.server.ts:14-51 | The declared constraints as one invariant: unique ids in each table, unique emails, unique short codes, every url's owner exists, every visit's link exists. |
| Schema.FindByEmail | app/lib/auth.server.ts:46-53 | The lookup by email finds nothing iff no user has the email; a found row is in the table and has the email. |
| Schema.FindByEmailIsUnique | app/lib/db.server.ts:16 | Under the UNIQUE email constraint, the lookup by email returns exactly that user's row. |
| Schema.InsertUser | app/lib/db.server.ts:14-21 | An insert succeeds iff neither the id nor the email is taken; on success exactly that row is appended. |
| Schema.InsertUrl | app/lib/db.server.ts:25-34 | An insert succeeds iff neither the id nor the short code is taken; the foreign key is not enforced. |
| Schema.InsertVisit | app/lib/db.server.ts:38-51 | An insert succeeds iff the id is fresh; the foreign key is not enforced. |
| Schema.InsertUserKeepsValid | app/lib/db.server.ts:14-21 | A successful user insert preserves every key, uniqueness and reference constraint. |
| Schema.InsertUrlKeepsValid | app/lib/db.server.ts:25-34 | A successful url insert whose owner exists preserves every constraint. |
| Schema.InsertVisitKeepsValid | app/lib/db.server.ts:38-51 | A successful visit insert whose link exists preserves every constraint. |
| Analytics.SqlDiv | app/lib/analytics.server.ts:141 | Integer division truncates toward zero, for either sign of the dividend. |
| Analytics.Day | app/lib/analytics.server.ts:141 | For a non-negative timestamp, the UTC day whose milliseconds hold it. For a negative one, the seconds are first truncated toward zero, so the day may be the one after the instant's own. |
| Analytics.TrackAnalytics | app/lib/analytics.server.ts:9-44 | Only analytics changes, by exactly one appended row. Existing rows are untouched. The row holds the placeholder ip, "" for a missing header, and the classifier's labels. A failed insert leaves the store as it was. |
| Analytics.TrackKeepsValid | app/lib/analytics.server.ts:9-44 | Tracking a visit of an existing link preserves the store constraints. |
| Analytics.TrackCountsOneClick | app/lib/analytics.server.ts:9-44 | Tracking raises the tracked link's click total by one and leaves every other link's total as it was. |
| Analytics.VisitsOf | app/lib/analytics.server.ts:91-95 | Exactly the analytics rows of the link. |
| Analytics.Referrers | app/lib/analytics.server.ts:128-136 | The keys the referrer GROUP BY counts: each non-empty referrer occurs exactly as often as visits carry it, so the key list is as long as the number of visits with a non-NULL, non-empty referrer, and no key is empty. Every such visit's referrer is among the keys, and every key is such a visit's referrer. |
| Analytics.ReferrerTally | app/lib/analytics.server.ts:128-136 | For every non-empty referrer, the number of times it occurs among the projected keys equals the number of visits whose referrer column holds it. |
| Analytics.GetUrlAnalytics | app/lib/analytics.server.ts:88-156 | totalClicks counts the link's visits. Each stats list is a tally of its column with distinct keys, in non-increasing order, summing to totalClicks. Referrer stats are the top 10 non-empty referrers, and any omitted referrer is no more frequent than each listed one. clicksOverTime tallies the last 30 days per day, with days ascending. |
| Analytics.UnvisitedLinkReportsNothing | app/lib/analytics.server.ts:88-156 | A link without visits reports zero clicks and empty lists. |
| Urls.CreateUrl | app/lib/url.server.ts:11-39 | Succeeds iff the id and code are fresh. Success appends exactly one row, with a falsy title or expiry stored as null; failure leaves the store unchanged. The returned object echoes the inputs. |
| Urls.GetUrlByShortCode | app/lib/url.server.ts:42-58 | Finds nothing iff no row has the code; a found row has the code; the expiry is not consulted. |
| Urls.ResolveIsUnique | app/lib/db.server.ts:29 | Under the UNIQUE short-code constraint, each row's code resolves to that row. |
| Urls.CreateThenResolve | app/lib/url.server.ts:21-24 | After a successful create, the code resolves to a row with the submitted url. |
| Urls.CreateUrlKeepsValid | app/lib/url.server.ts:11-39 | Creating a link for an existing user preserves the store constraints. |
| Urls.GetUrlsByUser | app/lib/url.server.ts:61-73 | Exactly the user's rows, as a permutation of them, in non-increasing created_at order. |
| Urls.UserLinksAreDistinct | app/lib/db.server.ts:26 | The user's link list holds no id twice. |
| Urls.RowsAffected | app/lib/url.server.ts:86-90 | The filtered delete removes a row iff a row with that id and owner exists. |
| Urls.DeleteUrl | app/lib/url.server.ts:76-95 | Removes every visit of the id whoever asks. Removes the url row only when owned, and keeps all other rows. Returns true iff the caller owned it. |
| Urls.DeleteUrlKeepsValid | app/lib/db.server.ts:50 | Deleting keeps every visit pointing at an existing link. |
| Urls.NonOwnerDeleteWipesHistory | app/lib/url.server.ts:79-90 | For a non-owner, deleteUrl returns false and keeps the links, yet the link's visits are gone. |
| Urls.DeleteOwnedUrl | app/lib/url.server.ts:76-95 | Corrected delete: for a non-owner, nothing changes. For the owner, it deletes the same rows as deleteUrl. |
| Urls.DeleteOwnedUrlKeepsValid | app/lib/db.server.ts:50 | The corrected delete preserves the store constraints. |
| Urls.UpdateUrl | app/lib/url.server.ts:98-114 | Only the row with that id and owner changes, and only its title and expiry, with falsy values becoming null. Returns true iff such a row exists. |
| Urls.UpdateUrlKeepsValid | app/lib/url.server.ts:98-114 | Updating preserves the store constraints. |
| Urls.Join | app/lib/url.server.ts:120-126 | Every joined row is a url together with its owner's email and name, and every url whose owner exists appears. |
| Urls.GetAllUrls | app/lib/url.server.ts:117-133 | Only urls whose owner exists, each with that owner's email and name, every such url present, in non-increasing created_at order. |
| Urls.AllUrlsListsEveryLink | app/lib/db.server.ts:33 | When every url's owner exists, the admin list has one entry per url. |
| FormEncoding.Encode | app/lib/auth.server.ts:126-129 | The serializer of one value: no character is dropped and none becomes more than four escaped bytes (at most 12 characters each). |
| FormEncoding.DecodeEncode | app/lib/auth.server.ts:126-129 | Decoding the form-urlencoded text of any string gives that string back. |
| FormEncoding.EncodeInjective | app/lib/auth.server.ts:126-129 | Distinct strings have distinct encodings. |
| FormEncoding.EncodeAlphabet | app/lib/auth.server.ts:126-129 | The encoding uses only unreserved characters, '+' and '%'. |
| FormEncoding.EncodeAvoidsSeparators | app/lib/auth.server.ts:126-129 | The encoding never contains '&', '=' or '#'. |
| FormEncoding.EncodeUnreserved | app/lib/auth.server.ts:127 | A string of unreserved characters encodes to itself. |
| FormEncoding.SerializeOnePair | app/lib/auth.server.ts:126-129 | A single pair serializes as the encoded name, '=', then the encoded value. |
| Validation.FirstFailure | app/routes/register.tsx:28-47 | None iff every check passes. Otherwise it is the message of the earliest failing check, all earlier checks passing. |
| Auth.GetUser | app/lib/auth.server.ts:24-42 | Nobody for a falsy session id. Otherwise someone iff a row has that id, and the answer is that row without its hash. |
| Auth.Login | app/lib/auth.server.ts:45-70 | Null for an unknown email. A success is an account with that email whose hash the password matches, returned without its hash. |
| Auth.LoginFindsTheAccount | app/lib/auth.server.ts:45-70 | Under unique emails, login with an account's email succeeds iff the password matches that account's hash, and returns that account. |
| Auth.Register | app/lib/auth.server.ts:73-93 | Succeeds iff the id and email are fresh. Success appends one row with role "user" and returns id, email, name, role; failure returns null and leaves the store unchanged. |
| Auth.RegisterKeepsValid | app/lib/auth.server.ts:73-93 | Registering preserves the store constraints. |
| Auth.RegisterThenLogin | app/lib/auth.server.ts:45-93 | After a successful register, login with the same email and a matching password returns the new account. |
| Auth.RegisterReporting | app/lib/auth.server.ts:73-93 | Corrected register: it reports a taken email iff the email is taken, and otherwise agrees with register. |
| Auth.LoginLocation | app/lib/auth.server.ts:126-129 | The login redirect is "/login?redirectTo=" followed by the form-urlencoded path. |
| Auth.RequireUser | app/lib/auth.server.ts:119-133 | Lets through iff getUser finds someone and then yields that user. Otherwise it redirects to the login page carrying the encoded path. |
| Auth.LoginRedirectCarriesPath | app/lib/auth.server.ts:126-129 | The redirect's query value decodes back to the exact path and holds no query separator. |
| Auth.RequireAdmin | app/lib/auth.server.ts:136-144 | Lets through iff the user is an admin. It gives the login redirect when nobody is signed in and the dashboard redirect for a non-admin. |
| CreateLink.Action | app/routes/dashboard.create.tsx:12-63 | Runs requireUser, then the url, parse and custom-code checks in that order; the first failure gives 400 and changes nothing. A refused insert gives 500. Success appends one row owned by the user with title defaulting to "" and no expiry, then redirects to "/dashboard/links". |
| CreateLink.ChosenCode | app/routes/dashboard.create.tsx:18-33 | The short code follows JavaScript's "or" twice: a missing custom code reads as "", and an empty one gives way to the generated code. It is empty only if the generated one is. |
| CreateLink.GeneratedCollisionFails | app/routes/dashboard.create.tsx:33-62 | A generated code that is already taken is not caught by the checks; the insert fails and the answer is 500. |
| CreateLink.ActionKeepsValid | app/routes/dashboard.create.tsx:50-55 | Creating a link preserves the store constraints. |
| CreateLink.CreatedLinkResolves | app/routes/dashboard.create.tsx:33-55 | After a successful submission, the chosen code resolves to the submitted url. |
| RegisterRoute.Action | app/routes/register.tsx:16-70 | A session redirects to "/dashboard" first. Then the name, email and password checks run in order, each failure giving 400. A taken id or email gives 500; otherwise a session starts for the new id at redirectTo or "/dashboard". The "already exists" 400 is never returned. |
| RegisterRoute.Destination | app/routes/register.tsx:26 | The new session goes to the form's redirectTo, verbatim with no check that it is a local path, or to "/dashboard" when it is missing or empty; never to "". |
| RegisterRoute.TakenEmailGets500 | app/routes/register.tsx:49-69 | With valid fields and a taken email, the action answers 500 "Error creating account. Please try again." and changes nothing. |
| RegisterRoute.ActionReportingTakenEmail | app/routes/register.tsx:49-69 | Corrected action: a taken email gets the 400 "already exists" answer. In every other case it answers as the action does. |
| RegisterRoute.ActionKeepsValid | app/routes/register.tsx:49-57 | Both versions of the action preserve the store constraints. |
| LoginRoute.Action | app/routes/login.tsx:16-50 | A session redirects to "/dashboard" first. Then the email check and the password check run in order, each failure giving 400. A failed login gives 401. Success signs in an account with that email whose hash matches, at redirectTo or "/dashboard". |
| LoginRoute.FailedLoginsLookAlike | app/routes/login.tsx:41-47 | An unknown email and a wrong password get the same 401 answer. |
| LoginRoute.SignInReturnsToRequestedPage | app/routes/login.tsx:16-54 | A visitor bounced by requireUser who signs in with the path carried in the query is sent back to that path. |
| LoginRoute.RegisteredUserCanSignIn | app/routes/login.tsx:41-49 | Whoever registered through the register page signs in through the login page with the same email and password. |
| Dashboard.OverviewOf | app/routes/dashboard._index.tsx:7-40 | totalLinks counts the user's links. totalClicks is the number of visits whose link is a url row owned by the user. recentLinks holds min(5, totalLinks) of the user's links, a prefix of the newest-first list, and no omitted link is newer than a shown one. |
| Dashboard.SubqueryPicksOwnedVisits | app/routes/dashboard._index.tsx:18-23 | `url_id IN (SELECT id FROM urls WHERE user_id = ?)` keeps exactly the visits of a link the user owns. |
| Dashboard.NewestFirst | app/routes/dashboard._index.tsx:26-33 | The first n links of a newest-first list stay ordered, and none left out is newer than one kept. |
| Dashboard.IndexLoader | app/routes/dashboard._index.tsx:7-40 | Halts with requireUser's redirect iff nobody is signed in; otherwise returns the signed-in user's overview. |
| Dashboard.LinkTable | app/routes/dashboard.links.tsx:10-26 | The user's links, newest first, each with its number of visits. |
| Dashboard.LinksLoader | app/routes/dashboard.links.tsx:10-26 | Halts with requireUser's redirect iff nobody is signed in; otherwise returns the signed-in user's link table. |
| Dashboard.ClicksOfDistinctLinks | app/routes/dashboard.links.tsx:14-21 | Per-link visit counts of links with distinct ids add up to the visits of any of them. |
| Dashboard.ClicksAddUp | app/routes/dashboard.links.tsx:14-21 | The link table's clicks add up to the overview's totalClicks. |
| Dashboard.LoadersAgree | app/routes/dashboard.links.tsx:10-26 | For a signed-in user, the two pages report the same number of clicks. |
| Dashboard.DisplayTitle | app/routes/dashboard.links.tsx:93 | A null or empty title reads "Untitled"; any other title is shown as it is; the cell is never empty. |
| Utils.ChosenHost | app/lib/utils.ts:24 | A non-empty X-Forwarded-Host wins; otherwise Host is used. |
| Utils.GetBaseUrl | app/lib/utils.ts:23-27 | Gives "http://" plus the host when the chosen host contains "localhost", else "https://" plus the host. A missing host is written "null". |
| Utils.PlainOnlyForLocalhost | app/lib/utils.ts:25 | The url starts with "http://" iff the chosen host contains "localhost" anywhere. |
| Utils.NoHostHeaders | app/lib/utils.ts:24-26 | With neither header the result is "https://null". |

## Left out

- Database transport faults are not modelled: lost connections, libsql errors and the like. The only failures modelled are constraint violations. In the source, `getUser`, `register`, `trackAnalytics`, `getUrlAnalytics`, every function of the url library and the create-link action catch such faults (null, [], false, nothing recorded, or a 500). `login`, the login action and the two dashboard loaders have no catch, so a fault there propagates as an error response.
- The SQLite foreign keys are declared but not enforced, since no pragma turns them on. The inserts therefore check only PRIMARY KEY and UNIQUE, and the references are part of the invariant `Valid`. Lemmas show which operations keep them.
- The analytics `country` and `city` columns are never written or read by the core.
- Only the selected columns matter: the model returns whole rows where the source selects some columns, and the auth results drop the hash.
- The day of `DATE(timestamp/1000, 'unixepoch')` is a day number, not the "YYYY-MM-DD" text. Both order days the same way.
- Analytics.GetUrlAnalytics: the null answer on a database error is not modelled. Neither is the tie order among equal counts, which SQL leaves unspecified.
- SQL tie order among equal `created_at` values is unspecified. The model uses one stable order, and the contracts state only non-increasing order and a permutation.
- Text is a sequence of Unicode scalar values. Lone UTF-16 surrogates cannot be represented. JavaScript `.length` is modelled as the UTF-16 length.
- FormEncoding.Decode returns None for a malformed escape, whereas the browser decoder keeps it as text. It serves only as the inverse of the encoder.
- Session cookies (create, commit, destroy) are reduced to the optional userId the session holds. `createUserSession` is the SignIn response, and `logout` is outside the modelled core.
- bcrypt hashing and comparison are oracles: the hash value is a parameter, and compare is an arbitrary predicate. A throw from `bcrypt.hash` is not modelled.
- nanoid ids and `generateShortCode`, `Date.now()` and `new URL` parsing are parameters. `generateShortCode` is the `generated` parameter of the create-link action.
- A colliding generated short code is not retried by the source, and no retry is modelled.
- `generateShortCode`'s default length of 6 is not modelled, since the code it returns is a parameter.
- The race between the custom-code check and the insert in the create-link action is concurrency. Requests are modelled one at a time, and the UNIQUE constraint refuses the second insert.
- The click-rate figure on the overview page is left out because it uses floating-point division and rounding.
- `formatDate`, `formatNumber` and `cn` are left out: they rely on Intl locale formatting and class-name merging libraries.
- All JSX rendering is left out, apart from the title fallback of the link table.
- The login page's reading of `redirectTo` from the query is modelled only as the decoder's round trip.

## Findings

| source | as written | input that shows it | evidently intended | confidence | as-written member | corrected member |
|---|---|---|---|---|---|---|
| app/lib/url.server.ts:76-95 | Deletes the link's analytics before checking ownership, then deletes the link only if owned | A signed-in user who does not own link `id` calls deleteUrl(id): it returns false, yet every visit of `id` is gone | Nothing changes unless the caller owns the link | not executed | Urls.NonOwnerDeleteWipesHistory | Urls.DeleteOwnedUrl |
| app/lib/auth.server.ts:89-92 | register catches the UNIQUE failure and returns null, so the route's catch block for "UNIQUE constraint failed" never sees it | Registering with an email that already has an account: the answer is 500 "Error creating account. Please try again." | 400 "A user with this email already exists" (app/routes/register.tsx:59-63) | not executed | RegisterRoute.Action | RegisterRoute.ActionReportingTakenEmail |
