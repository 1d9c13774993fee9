# Scrum board client: session, CSRF, models and router

A Dafny model of the browser side of the scrum board. This is the single-page
client that talks to the board's REST API. The model covers its two core scripts:

- `models.js`: the CSRF helpers, which read the `csrftoken` cookie and send it as
  `X-CSRFToken` on every request with an unsafe method. It also holds the `Session`, which keeps
  the API token in local storage and sends it as `Authorization: Token …`. Next come the
  API models, which take their address from the `self` link. A sprint fetches
  its tasks from its `tasks` link. A task is sorted into a status column, the
  backlog or a sprint. Finally there is the paginated collection with `parse` and
  `getOrFetch`, and `Tasks.getBacklog`.
- `router.js`: the route table (`''` is home, `sprint/:id` is a sprint). It also has the
  authentication gate wrapped around every route handler, which shows a login
  form and defers the handler until the login is done, and `render`, which
  replaces the current view.

Modules, one per component:

| module | file | what it holds |
|---|---|---|
| `JsValues` | js_values.dfy | `Option`, ids as `Key` (null, number, text), truthiness, loose `==`, the property-key text of an id |
| `Strings` | strings.dfy | `$.trim` over JavaScript's `\s`, `split`/join on one character, `substring` clamping, ASCII case folding |
| `Http` | http.dfy | a request's method and origin, request headers, the fetch options a model or collection passes |
| `Csrf` | csrf.dfy | `csrfSafeMethod`, `getCookie`, the CSRF prefilter |
| `Sessions` | sessions.dfy | the session over a local-storage map, `_setupAuth` |
| `Prefilters` | prefilters.dfy | both prefilters run in registration order on one request |
| `Entities` | entities.dfy | sprints and tasks, `url`, `fetchTasks`, `statusClass`, `inBacklog`, `inSprint` |
| `Collections` | collections.dfy | `parse`, `get` by id, `getOrFetch`, `getBacklog` |
| `Routing` | routing.dfy | the route table, the gate, `render`, and the router state as a log of page events |

Environment inputs are parameters:

- `document.cookie` is a string.
- `localStorage` is a `map<string, string>`.
- `decodeURIComponent` is a function `string -> Option<string>`, where `None` means it throws `URIError`.
- JavaScript's ToNumber on text is a function `string -> Option<int>`.
- A model fetch's outcome is a `FetchOutcome`.
- Whether the session is authenticated is read from the `Sessions.Session` value.

The page itself is reduced to an event log: views rendered, unbound and removed,
the content region hidden and shown, and the header rendered. `Routing.Live` reads
off that log the set of views that are on the page.

The user model sets only a property `idAttributemodel: 'username'`
(models.js:129). The toolkit does not read that name, so a user is an ordinary
model keyed by `id`, and the model gives users no type of their own.

The CSRF prefilter's origin test reads `this.crossDomain`. jQuery calls a
prefilter as a plain function, so `this` is the global object there, and the
test never excludes a request. `Csrf.CsrfPrefilter` models the code as written:
the token goes to other origins too. `Csrf.SameOriginCsrfPrefilter` is the rule
the prefilter's comment states. See "## Findings".

## Model

| member | source | states |
|---|---|---|
| Csrf.CsrfSafeMethod | board/static/board/js/models.js:5-8 | a method is CSRF-safe exactly when, with ASCII case ignored, it is the whole of GET, HEAD, OPTIONS or TRACE |
| Csrf.SafeMethodSpellings | board/static/board/js/models.js:7 | lower- and mixed-case spellings of the safe methods are safe |
| Csrf.UnsafeMethodSpellings | board/static/board/js/models.js:7 | POST and PUT are not safe, and neither is `GET ` with a trailing space, because the pattern is anchored |
| Strings.Trim | board/static/board/js/models.js:15 | the trimmed entry is the infix of the entry with only whitespace around it and no whitespace at its ends |
| Strings.JoinSplit | board/static/board/js/models.js:13 | joining the `;`-pieces of the cookie string with `;` gives the cookie string back |
| Strings.SplitJoin | board/static/board/js/models.js:13 | splitting a `;`-join of separator-free entries gives back exactly those entries |
| Strings.Split | board/static/board/js/models.js:13 | a split yields at least one piece and no piece contains the separator |
| Strings.EqualsIgnoringCase | board/static/board/js/models.js:7 | case-insensitive comparison holds exactly when both texts agree after ASCII upper-casing |
| Csrf.NamesCookie | board/static/board/js/models.js:17 | the `substring(0, name.length + 1) == name + '='` test holds exactly when the entry starts with `name=`, including for entries shorter than that |
| Csrf.FindCookie | board/static/board/js/models.js:13-23 | the search over the entries finds nothing exactly when no trimmed entry starts with `name=` |
| Csrf.FindCookieFirstMatch | board/static/board/js/models.js:13-23 | when some trimmed entry starts with `name=`, the search yields the decoded value of the first such entry |
| Csrf.SkipFirstNaming | board/static/board/js/models.js:14-22 | skipping an entry that does not name the cookie moves the first naming entry one place forward |
| Csrf.SkipNoNaming | board/static/board/js/models.js:14-22 | skipping an entry that does not name the cookie keeps "no entry names it" unchanged, in both directions |
| Csrf.GetCookie | board/static/board/js/models.js:10-26 | `getCookie` gives `null` exactly when the cookie string is empty or no entry names the cookie |
| Csrf.GetCookieFirstMatch | board/static/board/js/models.js:10-26 | for a non-empty cookie string, `getCookie` gives the decoded value of the first entry that names the cookie, whatever later entries say |
| Csrf.GetCookieOfEntries | board/static/board/js/models.js:10-26 | a cookie string written as `;`-separated entries is read back entry by entry: the first entry naming the cookie wins |
| Csrf.SecondEntryWins | board/static/board/js/models.js:13-21 | in `a; b` where only `b` names the cookie, the text after `name=` in `b` is decoded, and the space after `;` is trimmed |
| Csrf.GetCookieExample | board/static/board/js/models.js:10-26 | `sessionid=abc; csrftoken=xyz` yields the decoding of `xyz` for `csrftoken` |
| Csrf.GetCookieLongerName | board/static/board/js/models.js:17 | an entry `csrftokenx=1` does not name `csrftoken`; the later `csrftoken=2` does |
| Csrf.Decoded | board/static/board/js/models.js:18-20 | once an entry matches, the result is never `null`: it is a decoded value or a decode failure |
| Strings.TrimUnchanged | board/static/board/js/models.js:15 | an entry without surrounding whitespace is left as it is by the trim |
| Strings.TrimLeadingSpace | board/static/board/js/models.js:15 | the single space after a `;` separator is removed by the trim |
| Csrf.CsrfEntry | board/static/board/js/models.js:15-19 | an entry `csrftoken=<value>` is one untrimmed entry that names the cookie and holds `value` |
| Csrf.SingleCsrfCookie | board/static/board/js/models.js:10-26 | a cookie string `csrftoken=<value>` yields the decoding of `value` |
| Csrf.HeaderValue | board/static/board/js/models.js:37-38 | the header value is the decoded cookie when one was found, and `null` exactly when none was |
| Csrf.NeedsCsrfToken | board/static/board/js/models.js:31 | as written, the prefilter applies exactly when the upper-cased method is none of GET, HEAD, OPTIONS, TRACE; the origin plays no part |
| Csrf.SameOriginNeedsCsrfToken | board/static/board/js/models.js:31-35 | the intended rule applies exactly to unsafe methods on same-origin requests |
| Csrf.SetCsrfHeader | board/static/board/js/models.js:31-39 | when the prefilter does not apply there is no header and the cookie is unread; when it applies, the one header is `X-CSRFToken` with the cookie's value or `null`, and it throws exactly when decoding fails |
| Csrf.CsrfPrefilter | board/static/board/js/models.js:29-40 | safe requests get no header; every unsafe request, of any origin, gets `X-CSRFToken` set to the cookie's decoded value or `null`; the prefilter throws exactly when decoding the cookie fails |
| Csrf.SameOriginCsrfPrefilter | board/static/board/js/models.js:29-40 | with the origin test the comment intends, cross-origin requests get no header and the cookie is unread, same-origin ones are treated as the code treats them, and the header is set exactly for unsafe same-origin requests |
| Csrf.CrossOriginPostCarriesToken | board/static/board/js/models.js:31 | as written, a cross-origin POST from a page with cookie `csrftoken=abc` carries `X-CSRFToken: abc` |
| Csrf.CrossOriginPostCarriesNoToken | board/static/board/js/models.js:32-35 | with the intended origin test, the same request carries no header |
| Sessions.Authenticated | board/static/board/js/models.js:68-70 | an authenticated session stays authenticated when storage is loaded again; loading yields a token exactly when the session had one or storage holds a non-empty one |
| Sessions.Load | board/static/board/js/models.js:51-56 | a non-empty stored token becomes the session's token; an absent or empty one leaves the session unchanged; storage is only read |
| Sessions.Start | board/static/board/js/models.js:42-50 | a new session is authenticated exactly when storage holds a non-empty token |
| Sessions.Save | board/static/board/js/models.js:57-64 | the token is set; `null` removes the stored key, a text is stored under `apiToken`; no other storage key changes |
| Sessions.Delete | board/static/board/js/models.js:65-67 | deleting is saving `null`: the session is unauthenticated, the key is gone, and other keys are kept |
| Sessions.AuthHeaders | board/static/board/js/models.js:68-78 | `_setupAuth` sets at most one header, `Authorization`; it sets it exactly when the token is not null, with value `Token ` followed by the token |
| Sessions.SaveThenReload | board/static/board/js/models.js:51-64 | a session started from storage after `save(t)` has token `t` when `t` is non-empty text, and no token otherwise |
| Sessions.DeleteThenReload | board/static/board/js/models.js:51-67 | after `delete`, a reloaded session is not authenticated |
| Sessions.LoadIdempotent | board/static/board/js/models.js:51-56 | loading twice is loading once |
| Prefilters.SendHeaders | board/static/board/js/models.js:29-78 | the request carries `X-CSRFToken` exactly when its method is unsafe, whatever its origin, and first, with the cookie's value or `null`; it carries `Authorization` exactly when the session holds a token, and last, as `Token <token>`; there is one header per prefilter that applied; the chain stops exactly when the cookie fails to decode |
| Prefilters.ChainHeaders | board/static/board/js/models.js:38 | the two prefilters' header lists, concatenated, carry each header exactly when its own prefilter set it |
| Prefilters.SafeRequestsIgnoreCookie | board/static/board/js/models.js:31 | for a request with a safe method the cookie is never read: only the session's header is sent |
| Http.HasHeaderConcat | board/static/board/js/models.js:38 | a header set by either of two prefilters is on the request |
| Entities.Url | board/static/board/js/models.js:86-95 | a model's address is its truthy `self` link when it has one, and the toolkit's default address otherwise |
| Entities.UrlIgnoresFallbackGivenSelf | board/static/board/js/models.js:86-95 | with a `self` link, the default address never matters; without one, it is the answer |
| Entities.FetchTasks | board/static/board/js/models.js:99-104 | a fetch is issued exactly when the sprint has a truthy `tasks` link; it goes to that link and keeps resident tasks |
| Entities.StatusClass | board/static/board/js/models.js:109-118 | `unassigned` exactly when the sprint is falsy; otherwise a column exactly for status 1 to 4, and that column maps back to the status |
| Entities.InBacklog | board/static/board/js/models.js:109-122 | a task is on the backlog exactly when its status class is `unassigned` |
| Entities.ColumnsSeparateStatuses | board/static/board/js/models.js:115 | two sprint tasks with valid statuses share a column exactly when their statuses are equal |
| Entities.InSprint | board/static/board/js/models.js:124-126 | loose `==` case by case, each as an if-and-only-if: text against a number matches exactly when ToNumber of the text is that number, in either order; two texts or two numbers match exactly when equal; `null` matches only `null`; so a backlog task with a null sprint belongs only to a sprint with a null id |
| Entities.BacklogInNoSprint | board/static/board/js/models.js:120-126 | a backlog task is in no sprint with a non-zero numeric id, given that ToNumber reads the empty text as 0 |
| Collections.Parse | board/static/board/js/models.js:141-146 | the page metadata is recorded from the response and the models are the response's results, or none when absent |
| Collections.ParseLastPageWins | board/static/board/js/models.js:141-146 | parsing a second page overwrites everything the first page recorded |
| Collections.ParseExample | board/static/board/js/models.js:141-146 | a page of three results records its `next` link and count; an envelope without results gives no models |
| Collections.Lookup | board/static/board/js/models.js:156 | `get(id)` finds a model whose id has the same property-key text as `id`, and finds nothing exactly when no model has |
| JsValues.SameNumericId | board/static/board/js/models.js:156 | two numeric ids select the same model exactly when they are equal |
| JsValues.RouteTextFindsNumericId | board/static/board/js/models.js:156 | the id text `42` from a URL selects the model with numeric id 42 |
| JsValues.IntTextInjective | board/static/board/js/models.js:156 | distinct numeric ids have distinct property keys |
| Collections.GetOrFetch | board/static/board/js/models.js:147-171 | a resident model resolves at once with no request and no change; otherwise the placeholder `{id}` is appended, one fetch is issued, and the deferred resolves with the fetched model or rejects with the placeholder; ids stay unique |
| Collections.GetOrFetchTwice | board/static/board/js/models.js:147-171 | after one call, a second call for the same non-null id (or any id naming the same model) issues no request and changes nothing |
| Collections.NullIdFetchesAgain | board/static/board/js/models.js:147-171 | a `null` id is never found by `get`, so each call with it appends another placeholder and issues another request |
| Collections.SprintGetOrFetchTwice | board/static/board/js/models.js:156-170 | once the sprint page has looked a sprint up, looking it up again by URL text or numeric id issues no request, changes nothing, and resolves at once with a sprint under that id |
| Collections.PlaceholderSprintFetchesNoTasks | board/static/board/js/models.js:156-166 | the placeholder `{id}` that `getOrFetch` appends has no links, so its `fetchTasks` (lines 99-104) sends no request; the deferred's sprint fetches the server copy's tasks, or nothing on failure |
| Collections.GetBacklog | board/static/board/js/models.js:184-186 | the backlog fetch goes to the collection's own address with the single filter `backlog=True`, and it keeps the resident tasks |
| Routing.RoutePath | board/static/board/js/router.js:22-25 | the part of a fragment the route patterns match is its longest prefix without `?`, ending the fragment or stopping at a `?` |
| Routing.RoutePathUnique | board/static/board/js/router.js:22-25 | any query-free prefix that ends the fragment or stops at a `?` is that part |
| Routing.SprintRoutePath | board/static/board/js/router.js:24 | the route path of `sprint/` plus some text is `sprint/` plus the route path of that text, so the prefix never hides a `?` |
| Routing.SprintPath | board/static/board/js/router.js:24 | a fragment matches `sprint/:id` with a given id exactly when its part before the first `?` is `sprint/` and that id |
| Routing.Recognize | board/static/board/js/router.js:22-25 | a fragment is home exactly when it is empty or a query string alone, and it is the sprint with `id` exactly when it is `sprint/<id>` with an optional `?` query after it, where `id` is non-empty and holds no `/` or `?`; any other fragment matches nothing |
| Routing.QueryIgnored | board/static/board/js/router.js:22-25 | appending `?` and a query string to a query-free fragment does not change the route it reaches |
| Routing.QueryFragments | board/static/board/js/router.js:22-25 | `?x` reaches home and `sprint/42?x` reaches sprint `42` |
| Routing.RecognizeFragment | board/static/board/js/router.js:22-25 | the route table and the fragments built for routes are inverse: each route is reached from its own fragment, and each recognised fragment is, up to its query string, its route's fragment |
| Routing.SlashEndsId | board/static/board/js/router.js:24 | a `sprint/` fragment whose remainder holds a `/` before any `?` matches no route, with or without a query string |
| Routing.EmptyIdUnknown | board/static/board/js/router.js:24 | `sprint/` with no id matches no route |
| Routing.ShortFragmentUnknown | board/static/board/js/router.js:22-25 | a fragment that is neither empty nor a bare query string and is too short to hold `sprint/` and an id matches no route |
| Routing.NestedIdUnknown | board/static/board/js/router.js:24 | `sprint/4/2` matches no route |
| Routing.QueriedNestedIdUnknown | board/static/board/js/router.js:24 | `sprint/4/2?x` matches no route |
| Routing.UnknownFragments | board/static/board/js/router.js:22-25 | `sprint/`, `sprint/4/2`, `sprint/4/2?x` and `login` match no route |
| Routing.IntTextIsParam | board/static/board/js/router.js:24 | the decimal text of an integer is a valid `:id` parameter |
| Routing.NewSprintFragment | board/static/board/js/views.js:91-94 | the `#sprint/<id>` address a new sprint is sent to reaches the sprint route, and its id text selects that sprint |
| Routing.Without | board/static/board/js/router.js:53 | `_.without` drops every occurrence of the value and keeps every other element as often as before |
| Routing.WithoutConcat | board/static/board/js/router.js:53 | `_.without` on a concatenation is the concatenation of its results on the parts, so order is kept |
| Routing.WithoutSingle | board/static/board/js/router.js:53 | one element is dropped when it is the value and kept otherwise |
| Routing.WithoutAbsent | board/static/board/js/router.js:53 | dropping a value that does not occur changes nothing |
| Routing.WrapperArgs | board/static/board/js/router.js:52-56 | the wrapper hands the original handler exactly the route's parameters |
| Routing.Gate | board/static/board/js/router.js:52-72 | authenticated, the original handler runs with the arguments minus the handler itself; otherwise the current view stays, the content is hidden, a login form is added to the page and the call is held with those arguments under the form's serial |
| Routing.Init | board/static/board/js/router.js:26-34 | a new router has no current view, the content shown and empty, and no waiting login; its only event is the header rendered for the session's state |
| Routing.InitValid | board/static/board/js/router.js:26-34 | a new router has no live views and no waiting logins |
| Routing.Render | board/static/board/js/router.js:76-84 | the previous view is unbound and removed before the new one is rendered; the new view becomes current and is the only view added to the page |
| Routing.Invoke | board/static/board/js/router.js:35-45 | a handler renders a fresh view of its page as its last event; the earlier events are kept |
| Routing.Navigate | board/static/board/js/router.js:46-75 | an unknown fragment does nothing; authenticated, the route's page becomes current; otherwise the content is hidden, a login view is added, and the call is held with the route's parameters |
| Routing.LoginShownLive | board/static/board/js/router.js:59-62 | hiding the content and rendering a login form adds just that form to the page |
| Routing.LoginDone | board/static/board/js/router.js:63-68 | the login's `done` renders the header again, then shows the content, then runs the held handler, whose page view is rendered next, and last the login form removes itself (views.js lines 58-59) |
| Routing.NavigatePreservesValid | board/static/board/js/router.js:46-84 | navigation keeps the page consistent: the live views are the current view and the waiting login forms |
| Routing.ShowPreservesValid | board/static/board/js/router.js:76-84 | replacing the current view by a fresh content view keeps the invariant |
| Routing.GatePreservesValid | board/static/board/js/router.js:58-70 | adding a waiting login form with a fresh serial keeps the invariant |
| Routing.LoginDonePreservesValid | board/static/board/js/router.js:63-84 | a completed login keeps the same invariant |
| Routing.DoneKeepsValid | board/static/board/js/router.js:63-68 | replacing the current view by the held call's page and dropping the finished login view keeps the live views equal to the current view plus the waiting logins |
| Routing.AtMostOneCurrentView | board/static/board/js/router.js:76-84 | after any navigation at most one content view is live; authenticated, it is the route's page |
| Routing.AppNavigate | board/static/board/js/router.js:54-71 | following a fragment leaves the session alone; an unknown fragment changes nothing; logged in, the route's page becomes current; logged out, the content is hidden behind a new login form and the current view stays |
| Routing.LoginSucceeded | board/static/board/js/views.js:167-170 | after a successful login the session holds the token and storage keeps it; if the form was waiting, the header was rendered as logged in, the content is shown and the form is gone; an unknown form serial leaves the router alone |
| Routing.GatedSprintFragment | board/static/board/js/router.js:52-71 | logged out, `#sprint/42` hides the content, adds a login form, renders no sprint page, and holds the sprint handler with argument `42` |
| Routing.LoginAfterGate | board/static/board/js/router.js:63-68 | logging in through the form that holds the sprint handler with `42` stores the token, renders the header as logged in, shows the content, renders sprint 42 and removes the form |
| Routing.LoginGateScenario | board/static/board/js/router.js:52-71 | logged out, `#sprint/42` shows a login form and no new sprint page; logging in stores the token, renders the header as logged in, shows the content and renders sprint 42, and the form is gone |

## Left out

- The views (`views.js`), templates and the DOM are not modelled. A view is its page kind and serial, and the page is the router's event log. This leaves out form handling, the home page's date filter, and status columns.
- `Backbone.history.start()` and hash-change events are not modelled. Handlers are called from `Routing.Navigate` on a fragment. URI-decoding of route parameters is not modelled either.
- Routing.RouteArgs: a fragment with a `?` query string reaches its route, but the query text, which the toolkit passes to the handler as one more argument, is dropped. Neither handler reads it.
- Routing.RecognizeFragment: a recognised fragment equals its route's fragment only up to its query string, since `sprint/42?x` and `sprint/42` reach the same route.
- Network I/O is not modelled: `$.getJSON(apiRoot)`, model and collection `fetch`, `create`, and the login `$.post`. A fetch is the `FetchRequest` it issues. A model fetch's success or failure is the `FetchOutcome` parameter.
- Asynchrony is not modelled: promise callbacks and `app.collections.ready` wiring. `Collections.GetOrFetch` returns the collection right after the call together with the way its deferred eventually settles.
- Collections.GetOrFetch: does not merge the fetched attributes into the placeholder model. That merge is done by the toolkit's `set`, which is not part of this model.
- Lookup by client id (`cid`) and by model object in `Collection.get` is not modelled. Only lookup by id is.
- The toolkit's default model address is the `fallback` parameter of `Entities.Url`. Its construction from the collection address is not modelled.
- Numbers are unbounded integers. Exponent notation (from 1e21 up) and precision loss above 2^53 are not modelled. Neither are non-integer ids.
- `null` and `undefined` are one value (`JsValues.Key.Nullish` and `Option.None`). The code mostly tests them for truthiness and with `==`, where they agree. The exceptions are the strict tests `token === null` in `save` (models.js:59) and `token !== null` in `authenticated` (models.js:69). There `undefined` is not `null`: `save(undefined)` stores it and leaves the session authenticated. The Sessions.Save line below covers this.
- Sessions.Save: `save(undefined)` is not modelled, for example a login reply without a token. Tokens are text or `null`.
- Collections.Lookup: ids that name properties inherited from `Object.prototype` (`constructor`, `toString`, `__proto__` and the like) are found by the toolkit's plain-object index even when no model has them. The model finds nothing for such an id.
- An `X-CSRFToken` header whose value is `null` is not turned into text. The XHR layer serialises it to the text `null`.
- The user model's `idAttributemodel` property has no effect, so it is not modelled. Users are keyed by `id`, like the other models.

## Findings

| source | as written | input that shows it | evidently intended | confidence | as-written member | corrected member |
|---|---|---|---|---|---|---|
| board/static/board/js/models.js:31 | `!this.crossDomain` reads `crossDomain` off the global object, because jQuery calls a prefilter as a plain function; it is undefined, so the test is always true | a cross-origin POST from a page whose cookie is `csrftoken=abc` carries `X-CSRFToken: abc` | the token goes only to same-origin requests, as the comment at lines 32-35 says | not executed | Csrf.CrossOriginPostCarriesToken | Csrf.SameOriginCsrfPrefilter |

`Csrf.CsrfPrefilter` and `Prefilters.SendHeaders` model the page as written.
`Csrf.CrossOriginPostCarriesNoToken` shows the corrected prefilter on the same
request.
