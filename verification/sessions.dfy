/** The session: an API token held in memory and mirrored in the browser's
    local storage, and the prefilter that sends it as an `Authorization`
    header. Local storage is a map from keys to strings. */
module Sessions {
  import opened JsValues
  import opened Http

  /** The local-storage key holding the token. */
  const TokenKey: string := "apiToken"

  /** The session's `token` attribute (default `null`) together with the
      local storage that keeps it across page loads. */
  datatype Session = Session(token: Option<string>, storage: map<string, string>)

  /** `authenticated()`: the token is not `null`. Loading from storage never
      logs a session out, and it logs one in exactly when storage holds a
      truthy token. */
  predicate Authenticated(s: Session)
    ensures Authenticated(s) ==> Load(s).token.Some?
    ensures Load(s).token.Some? <==> Authenticated(s) || StoresToken(s.storage)
  {
    s.token.Some?
  }

  /** The two stores agree on every key other than the token's. */
  ghost predicate OthersUnchanged(before: map<string, string>, after: map<string, string>) {
    forall k :: k != TokenKey ==> (k in before <==> k in after) && (k in before && k in after ==> before[k] == after[k])
  }

  /** Whether local storage holds a truthy (non-empty) token. */
  predicate StoresToken(storage: map<string, string>) {
    TokenKey in storage && storage[TokenKey] != ""
  }

  /** `load()`: adopt the stored token when it is truthy; otherwise keep the
      current one. Storage is only read. */
  function Load(s: Session): (r: Session)
    ensures r.storage == s.storage
    ensures StoresToken(s.storage) ==> r.token == Some(s.storage[TokenKey])
    ensures !StoresToken(s.storage) ==> r == s
  {
    if TokenKey in s.storage && s.storage[TokenKey] != "" then s.(token := Some(s.storage[TokenKey])) else s
  }

  /** Construction: the default `null` token, then `load()`. */
  function Start(storage: map<string, string>): (r: Session)
    ensures r.storage == storage
    ensures Authenticated(r) <==> StoresToken(storage)
  {
    Load(Session(None, storage))
  }

  /** `save(token)`: set the token; `null` removes the stored copy, anything
      else is stored under the token key. Other keys are untouched. */
  function Save(s: Session, token: Option<string>): (r: Session)
    ensures r.token == token
    ensures Authenticated(r) <==> token.Some?
    ensures token.None? ==> TokenKey !in r.storage
    ensures token.Some? ==> TokenKey in r.storage && r.storage[TokenKey] == token.value
    ensures OthersUnchanged(s.storage, r.storage)
  {
    match token
    case None => Session(None, s.storage - {TokenKey})
    case Some(t) => Session(token, s.storage[TokenKey := t])
  }

  /** `delete()`: `save(null)`, which logs out and forgets the stored token. */
  function Delete(s: Session): (r: Session)
    ensures r == Save(s, None)
    ensures !Authenticated(r) && TokenKey !in r.storage
    ensures OthersUnchanged(s.storage, r.storage)
  {
    Save(s, None)
  }

  /** The `Authorization` header `_setupAuth` adds: present exactly when the
      session is authenticated, with the value `Token <token>`. */
  function AuthHeaders(s: Session): (r: seq<Header>)
    ensures |r| <= 1
    ensures forall i :: 0 <= i < |r| ==> r[i].name == "Authorization"
    ensures HasHeader(r, "Authorization") <==> Authenticated(s)
    ensures Authenticated(s) ==> r == [Header("Authorization", Some("Token " + s.token.value))]
  {
    if s.token.Some? then
      var h := [Header("Authorization", Some("Token " + s.token.value))];
      assert h[0].name == "Authorization";
      h
    else
      []
  }

  /** What a page reload makes of a saved token: a later page starts with the
      token just saved, except that an empty token is stored but not loaded. */
  lemma SaveThenReload(s: Session, token: Option<string>)
    ensures Start(Save(s, token).storage).token == if token.Some? && token.value != "" then token else None
  {
  }

  /** After `delete()` no later page load is authenticated. */
  lemma DeleteThenReload(s: Session)
    ensures !Authenticated(Start(Delete(s).storage))
  {
  }

  /** Loading twice is loading once. */
  lemma LoadIdempotent(s: Session)
    ensures Load(Load(s)) == Load(s)
  {
  }
}
