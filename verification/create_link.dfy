/** The action of app/routes/dashboard.create.tsx: a signed-in user submits
    a url, an optional title and an optional custom code. `parses` is the
    verdict of the URL parser (the basic URL parser of the WHATWG URL
    Standard, section 4.4); `id` and `generated` are the values nanoid
    draws and `now` the clock reading. */
module CreateLink {
  import opened Wrappers
  import opened Js
  import opened Schema
  import opened Http
  import opened Auth
  import opened Validation
  import Urls

  datatype CreateForm = CreateForm(url: Option<string>, title: Option<string>, customCode: Option<string>)

  const LinksPath: string := "/dashboard/links"
  const UrlRequired: string := "URL is required"
  const InvalidUrl: string := "Please enter a valid URL"
  const CodeTaken: string := "This custom URL is already taken. Please try another."
  const CreateFailed: string := "Failed to create short URL. Please try again."

  /** The custom code when one is given, otherwise the generated one. */
  function ChosenCode(form: CreateForm, generated: string): (code: string)
    ensures code == OrElse(Some(OrElse(form.customCode, "")), generated)
    ensures code == "" ==> generated == ""
  {
    if Truthy(form.customCode) then form.customCode.value else generated
  }

  /** The checks that answer 400, in the order they are made. */
  function CreateChecks(s: Store, form: CreateForm, parses: string -> bool): seq<Check> {
    [ Check(Truthy(form.url), UrlRequired),
      Check(parses(form.url.GetOr("")), InvalidUrl),
      Check(!Truthy(form.customCode) || !HasShortCode(s.urls, form.customCode.GetOr("")), CodeTaken) ]
  }

  lemma CreateChecksInOrder(s: Store, form: CreateForm, parses: string -> bool)
    ensures var checks := CreateChecks(s, form, parses);
            FirstFailure(checks)
            == if !checks[0].passes then Some(checks[0].message)
               else if !checks[1].passes then Some(checks[1].message)
               else if !checks[2].passes then Some(checks[2].message)
               else None
  {
    var checks := CreateChecks(s, form, parses);
    FirstFailureOfThree(checks[0], checks[1], checks[2]);
    assert checks == [checks[0], checks[1], checks[2]];
  }

  /** The row a successful submission stores: the title defaults to the
      empty text and no expiry is set. */
  predicate StoresLink(row: Url, id: string, userId: string, form: CreateForm, generated: string, now: int) {
    && row.id == id
    && row.userId == userId
    && row.originalUrl == form.url.GetOr("")
    && row.shortCode == ChosenCode(form, generated)
    && row.title == Some(OrElse(form.title, ""))
    && row.createdAt == now
    && row.expiresAt == None
  }

  function Action(s: Store, session: Option<string>, pathname: string, form: CreateForm,
                  parses: string -> bool, id: string, generated: string, now: int): (r: (Store, Response))
    ensures RequireUser(s, session, pathname).Halted? ==> r == (s, RequireUser(s, session, pathname).response)
    ensures r.1.Failure? ==> r.0 == s
    ensures GetUser(s, session).Some? && FirstFailure(CreateChecks(s, form, parses)).Some?
            ==> r == (s, Failure(400, FirstFailure(CreateChecks(s, form, parses)).value))
    ensures GetUser(s, session).Some? && FirstFailure(CreateChecks(s, form, parses)).None? ==>
              && (r.1 == Redirect(LinksPath)
                  <==> !HasUrlId(s.urls, id) && !HasShortCode(s.urls, ChosenCode(form, generated)))
              && (r.1 != Redirect(LinksPath) ==> r == (s, Failure(500, CreateFailed)))
    ensures r.1 == Redirect(LinksPath) ==>
              && GetUser(s, session).Some?
              && r.0.users == s.users && r.0.analytics == s.analytics
              && |r.0.urls| == |s.urls| + 1
              && r.0.urls[..|s.urls|] == s.urls
              && StoresLink(r.0.urls[|s.urls|], id, GetUser(s, session).value.id, form, generated, now)
  {
    CreateChecksInOrder(s, form, parses);
    match RequireUser(s, session, pathname)
    case Halted(response) => (s, response)
    case Allowed(user) =>
      var title := OrElse(form.title, "");
      var customCode := OrElse(form.customCode, "");
      if !Truthy(form.url) then (s, Failure(400, UrlRequired))
      else if !parses(form.url.value) then (s, Failure(400, InvalidUrl))
      else
        var shortCode := if customCode != "" then customCode else generated;
        if customCode != "" && HasShortCode(s.urls, customCode) then (s, Failure(400, CodeTaken))
        else
          match InsertUrl(s, Url(id, user.id, form.url.value, shortCode, Some(title), now, None))
          case None => (s, Failure(500, CreateFailed))
          case Some(t) => (t, Redirect(LinksPath))
  }

  /** A generated code is not checked in advance: when it is taken, the
      UNIQUE constraint refuses the row and the user sees a 500. */
  lemma GeneratedCollisionFails(s: Store, session: Option<string>, pathname: string, form: CreateForm,
                                parses: string -> bool, id: string, generated: string, now: int)
    requires GetUser(s, session).Some?
    requires Truthy(form.url) && parses(form.url.value) && !Truthy(form.customCode)
    requires HasShortCode(s.urls, generated)
    ensures Action(s, session, pathname, form, parses, id, generated, now) == (s, Failure(500, CreateFailed))
  {
    CreateChecksInOrder(s, form, parses);
  }

  /** A stored link belongs to the signed-in user, so the store stays
      consistent. */
  lemma ActionKeepsValid(s: Store, session: Option<string>, pathname: string, form: CreateForm,
                         parses: string -> bool, id: string, generated: string, now: int)
    requires Valid(s)
    ensures Valid(Action(s, session, pathname, form, parses, id, generated, now).0)
  {
    var r := Action(s, session, pathname, form, parses, id, generated, now);
    if r.1 == Redirect(LinksPath) {
      var row := r.0.urls[|s.urls|];
      assert r.0 == s.(urls := s.urls + [row]);
      assert InsertUrl(s, row).Some?;
      InsertUrlKeepsValid(s, row);
    }
  }

  /** After a successful submission the chosen code leads to the submitted
      url. */
  lemma CreatedLinkResolves(s: Store, session: Option<string>, pathname: string, form: CreateForm,
                            parses: string -> bool, id: string, generated: string, now: int)
    requires Action(s, session, pathname, form, parses, id, generated, now).1 == Redirect(LinksPath)
    ensures var t := Action(s, session, pathname, form, parses, id, generated, now).0;
            var found := Urls.GetUrlByShortCode(t, ChosenCode(form, generated));
            found.Some? && found.value.originalUrl == form.url.GetOr("")
  {
    var t := Action(s, session, pathname, form, parses, id, generated, now).0;
    var row := t.urls[|s.urls|];
    assert t.urls == s.urls + [row];
    CreateChecksInOrder(s, form, parses);
    Urls.FindByCodeAppend(s.urls, row);
  }
}
