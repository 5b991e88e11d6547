/** getBaseUrl of app/lib/utils.ts: scheme and host of the site as the
    request saw it, from the X-Forwarded-Host header or else the Host
    header (each None when absent). */
module Utils {
  import opened Wrappers
  import opened Text
  import opened Js
  import Seqs

  const Localhost: string := "localhost"
  const Secure: string := "https://"
  const Plain: string := "http://"

  /** `forwardedHost || host`: a non-empty forwarded host wins. */
  function ChosenHost(forwardedHost: Option<string>, host: Option<string>): (h: Option<string>)
    ensures Truthy(forwardedHost) ==> h == forwardedHost
    ensures !Truthy(forwardedHost) ==> h == host
  {
    if Truthy(forwardedHost) then forwardedHost else host
  }

  /** The host as template interpolation writes it: a missing one is the
      text "null". */
  function HostText(h: Option<string>): string {
    match h
    case Some(text) => text
    case None => "null"
  }

  function GetBaseUrl(forwardedHost: Option<string>, host: Option<string>): (url: string)
    ensures var h := ChosenHost(forwardedHost, host);
            var local := h.Some? && Contains(h.value, Localhost);
            && (local ==> url == Plain + HostText(h))
            && (!local ==> url == Secure + HostText(h))
  {
    var h := ChosenHost(forwardedHost, host);
    var protocol := if h.Some? && Contains(h.value, Localhost) then "http" else "https";
    Seqs.AppendAssoc(protocol, "://", HostText(h));
    protocol + "://" + HostText(h)
  }

  /** The scheme is plain http exactly when the chosen host mentions
      localhost anywhere. */
  lemma PlainOnlyForLocalhost(forwardedHost: Option<string>, host: Option<string>)
    ensures var h := ChosenHost(forwardedHost, host);
            IsPrefix(Plain, GetBaseUrl(forwardedHost, host))
            <==> h.Some? && Contains(h.value, Localhost)
  {
    var h := ChosenHost(forwardedHost, host);
    var url := GetBaseUrl(forwardedHost, host);
    if !(h.Some? && Contains(h.value, Localhost)) {
      assert url[4] == 's';
      assert Plain[4] == ':';
    }
  }

  /** With neither header the result is the secure scheme and the text
      "null". */
  lemma NoHostHeaders()
    ensures GetBaseUrl(None, None) == "https://null"
  {
  }
}
