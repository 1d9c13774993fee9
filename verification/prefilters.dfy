/** The prefilter chain every outgoing request passes through: the CSRF
    prefilter, registered when the models load, then the session's
    `_setupAuth`, registered when the session is constructed. */
module Prefilters {
  import opened JsValues
  import opened Http
  import opened Csrf
  import opened Sessions

  /** The headers both prefilters set on `req`, in registration order, or the
      exception the CSRF prefilter raises on a malformed cookie value, which
      stops the chain. */
  function SendHeaders(req: Request, s: Session, cookie: string, decode: string -> Option<string>): (r: Prefiltered)
    ensures r.Throws? <==> NeedsCsrfToken(req) && GetCookie(cookie, CsrfCookieName, decode).Malformed?
    ensures r.Proceed? ==> (HasHeader(r.headers, CsrfHeaderName) <==> NeedsCsrfToken(req))
    ensures r.Proceed? ==> (HasHeader(r.headers, "Authorization") <==> Authenticated(s))
    ensures r.Proceed? && Authenticated(s) ==>
      r.headers[|r.headers| - 1] == Header("Authorization", Some("Token " + s.token.value))
    ensures r.Proceed? ==> |r.headers| == (if NeedsCsrfToken(req) then 1 else 0) + (if Authenticated(s) then 1 else 0)
    ensures r.Proceed? && NeedsCsrfToken(req) ==>
      r.headers[0] == Header(CsrfHeaderName, HeaderValue(GetCookie(cookie, CsrfCookieName, decode)))
  {
    var first := CsrfPrefilter(req, cookie, decode);
    if first.Throws? then
      first
    else
      var csrf, auth := first.headers, AuthHeaders(s);
      ChainHeaders(csrf, auth, NeedsCsrfToken(req), Authenticated(s));
      Proceed(csrf + auth)
  }

  /** The CSRF prefilter's headers followed by the session's: each prefilter
      contributes its own header and nothing else. */
  lemma ChainHeaders(csrf: seq<Header>, auth: seq<Header>, needsCsrf: bool, authenticated: bool)
    requires needsCsrf ==> |csrf| == 1 && csrf[0].name == CsrfHeaderName
    requires !needsCsrf ==> csrf == []
    requires |auth| <= 1 && (HasHeader(auth, "Authorization") <==> authenticated)
    requires forall i :: 0 <= i < |auth| ==> auth[i].name == "Authorization"
    ensures HasHeader(csrf + auth, CsrfHeaderName) <==> needsCsrf
    ensures HasHeader(csrf + auth, "Authorization") <==> authenticated
  {
    HasHeaderConcat(csrf, auth, CsrfHeaderName);
    HasHeaderConcat(csrf, auth, "Authorization");
    if needsCsrf {
      assert HasHeader(csrf, CsrfHeaderName) by { assert csrf[0].name == CsrfHeaderName; }
    }
  }

  /** A request with a safe method never touches the cookie: it proceeds
      whatever the cookie string holds, carrying at most the auth header. */
  lemma SafeRequestsIgnoreCookie(req: Request, s: Session, cookie: string, decode: string -> Option<string>)
    requires CsrfSafeMethod(req.verb)
    ensures SendHeaders(req, s, cookie, decode) == Proceed(AuthHeaders(s))
  {
  }
}
