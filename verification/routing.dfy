/** The router: the route table, the authentication gate wrapped around every
    route handler, and the replacement of the current view. The page is
    abstracted to a log of the events the router causes (views rendered,
    unbound and removed, the content region hidden and shown, the header
    rendered), and the set of live views is read off that log. */
module Routing {
  import opened JsValues
  import opened Strings
  import Sessions

  /** The routes of the route table. */
  datatype Route = Home | SprintDetail(id: string)

  /** The handlers the table names: `''` maps to `home`, `sprint/:id` to `sprint`. */
  datatype Handler = HomeHandler | SprintHandler

  const SprintPrefix: string := "sprint/"

  /** Text a `:id` parameter captures: non-empty, with no `/` and no `?`. */
  predicate IsParam(s: string) {
    |s| > 0 && !Contains(s, '/') && !Contains(s, '?')
  }

  /** The part of a fragment the route patterns match: the text before the
      first `?`. What follows that `?` is the query string, which every
      pattern the router compiles accepts and hands over as a last argument. */
  function RoutePath(fragment: string): (path: string)
    ensures |path| <= |fragment| && path == fragment[..|path|]
    ensures !Contains(path, '?')
    ensures |path| < |fragment| ==> fragment[|path|] == '?'
    decreases |fragment|
  {
    if |fragment| == 0 || fragment[0] == '?' then
      []
    else
      var rest := RoutePath(fragment[1..]);
      assert !Contains([fragment[0]] + rest, '?') by {
        forall k | 0 <= k < |rest| + 1 ensures ([fragment[0]] + rest)[k] != '?' {
          if k > 0 {
            assert ([fragment[0]] + rest)[k] == rest[k - 1];
          }
        }
      }
      [fragment[0]] + rest
  }

  /** The three facts of `RoutePath`'s contract fix it: a query-free prefix
      that ends the fragment or stops at a `?` is the route path. */
  lemma {:induction false} RoutePathUnique(fragment: string, k: nat)
    requires k <= |fragment| && !Contains(fragment[..k], '?')
    requires k == |fragment| || fragment[k] == '?'
    ensures RoutePath(fragment) == fragment[..k]
    decreases k
  {
    if k > 0 {
      var tail, head := fragment[1..], fragment[..k];
      var rest := tail[..k - 1];
      assert head[0] == fragment[0];
      assert !Contains(rest, '?') by {
        forall j | 0 <= j < |rest| ensures rest[j] != '?' {
          assert rest[j] == head[j + 1];
        }
      }
      RoutePathUnique(tail, k - 1);
      assert head == [fragment[0]] + rest;
    }
  }

  /** The pattern compiled for `''`, `^(?:\?([\s\S]*))?$`: the empty fragment,
      or a query string alone. */
  predicate MatchesHome(fragment: string) {
    fragment == "" || fragment[0] == '?'
  }

  /** The pattern compiled for `sprint/:id`, `^sprint\/([^/?]+)(?:\?([\s\S]*))?$`,
      with `id` as the text its group captures. */
  predicate MatchesSprint(fragment: string, id: string) {
    IsParam(id) && (fragment == SprintPrefix + id || StartsWith(fragment, SprintPrefix + id + "?"))
  }

  /** A fragment matches the sprint pattern with `id` exactly when its route
      path is `sprint/` followed by `id`. */
  lemma SprintPath(fragment: string, id: string)
    requires IsParam(id)
    ensures MatchesSprint(fragment, id) <==> RoutePath(fragment) == SprintPrefix + id
  {
    var target := SprintPrefix + id;
    assert !Contains(target, '?') by {
      forall k | 0 <= k < |target| ensures target[k] != '?' {
        if k >= |SprintPrefix| {
          assert target[k] == id[k - |SprintPrefix|];
        }
      }
    }
    if fragment == target {
      assert fragment[..|target|] == target;
      RoutePathUnique(fragment, |target|);
    } else if StartsWith(fragment, target + "?") {
      assert fragment[..|target|] == (target + "?")[..|target|] == target;
      assert fragment[|target|] == (target + "?")[|target|] == '?';
      RoutePathUnique(fragment, |target|);
    }
  }

  /** Matching a URL fragment against the route table: a fragment whose route
      path is empty is home, and one whose route path is `sprint/` followed by
      a parameter is that sprint; no other fragment matches. */
  function Recognize(fragment: string): (r: Option<Route>)
    ensures r == Some(Home) <==> MatchesHome(fragment)
    ensures forall id :: r == Some(SprintDetail(id)) <==> MatchesSprint(fragment, id)
    ensures r.None? ==> !MatchesHome(fragment) && forall id :: !MatchesSprint(fragment, id)
  {
    var path := RoutePath(fragment);
    assert path == "" <==> MatchesHome(fragment);
    forall id | IsParam(id)
      ensures MatchesSprint(fragment, id) <==> path == SprintPrefix + id
    {
      SprintPath(fragment, id);
    }
    if path == "" then
      Some(Home)
    else if StartsWith(path, SprintPrefix) && IsParam(path[|SprintPrefix|..]) then
      assert path == SprintPrefix + path[|SprintPrefix|..];
      Some(SprintDetail(path[|SprintPrefix|..]))
    else
      assert forall id :: IsParam(id) ==> path != SprintPrefix + id;
      None
  }

  /** The fragment that leads to a route, as `#sprint/<id>` links are built. */
  function Fragment(route: Route): string {
    match route
    case Home => ""
    case SprintDetail(id) => SprintPrefix + id
  }

  /** Every route with a well-formed id is reached from its own fragment, and
      every recognised fragment is, up to its query string, the fragment of
      the route it yields. */
  lemma RecognizeFragment(route: Route, fragment: string)
    requires route.SprintDetail? ==> IsParam(route.id)
    ensures Recognize(Fragment(route)) == Some(route)
    ensures Recognize(fragment).Some? ==> Fragment(Recognize(fragment).value) == RoutePath(fragment)
  {
    if route.SprintDetail? {
      assert MatchesSprint(Fragment(route), route.id);
    }
    match Recognize(fragment)
    case Some(Home) =>
    case Some(SprintDetail(id)) =>
      SprintPath(fragment, id);
    case None =>
  }

  /** A query string changes nothing about the route a fragment reaches. */
  lemma QueryIgnored(path: string, query: string)
    requires !Contains(path, '?')
    ensures Recognize(path + "?" + query) == Recognize(path)
  {
    var fragment := path + "?" + query;
    assert fragment[..|path|] == path;
    RoutePathUnique(fragment, |path|);
    assert path[..|path|] == path;
    RoutePathUnique(path, |path|);
  }

  /** `#?x` opens home and `#sprint/42?x` opens sprint `42`. */
  lemma QueryFragments()
    ensures Recognize("?x") == Some(Home)
    ensures Recognize("sprint/42?x") == Some(SprintDetail("42"))
  {
    assert MatchesSprint("sprint/42?x", "42") by {
      assert "42"[0] != '/' && "42"[1] != '/' && "42"[0] != '?' && "42"[1] != '?';
      assert "sprint/42?x"[..10] == SprintPrefix + "42" + "?";
    }
  }

  /** The route path of a `sprint/` fragment is `sprint/` followed by the
      route path of the rest. */
  lemma SprintRoutePath(id: string)
    ensures RoutePath(SprintPrefix + id) == SprintPrefix + RoutePath(id)
  {
    var fragment := SprintPrefix + id;
    var path := RoutePath(id);
    var k := |SprintPrefix| + |path|;
    var head := fragment[..k];
    assert head == SprintPrefix + path;
    assert !Contains(head, '?') by {
      forall j | 0 <= j < k ensures head[j] != '?' {
        if j >= |SprintPrefix| {
          assert head[j] == path[j - |SprintPrefix|];
        }
      }
    }
    if k < |fragment| {
      assert fragment[k] == id[|path|];
    }
    RoutePathUnique(fragment, k);
  }

  /** An id stops at the next `/`: a `sprint/` fragment whose remainder holds
      a `/` before any `?` reaches no route, whatever query follows. */
  lemma SlashEndsId(id: string)
    requires Contains(RoutePath(id), '/')
    ensures Recognize(SprintPrefix + id).None?
  {
    SprintRoutePath(id);
    var routed := RoutePath(SprintPrefix + id);
    assert routed[|SprintPrefix|..] == RoutePath(id);
    assert routed != [] && StartsWith(routed, SprintPrefix);
  }

  /** `sprint/` alone reaches no route: the parameter must not be empty. */
  lemma EmptyIdUnknown()
    ensures Recognize(SprintPrefix).None?
  {
    assert !Contains(SprintPrefix, '?');
    assert SprintPrefix[..|SprintPrefix|] == SprintPrefix;
    RoutePathUnique(SprintPrefix, |SprintPrefix|);
  }

  /** A fragment that is neither empty, nor a bare query string, nor long
      enough to hold `sprint/` and an id reaches no route. */
  lemma ShortFragmentUnknown(fragment: string)
    requires fragment != "" && fragment[0] != '?' && |fragment| <= |SprintPrefix|
    ensures Recognize(fragment).None?
  {
    assert forall id :: !MatchesSprint(fragment, id);
  }

  /** `sprint/4/2` reaches no route: the id stops at the second `/`. */
  lemma NestedIdUnknown()
    ensures Recognize("sprint/4/2").None?
  {
    var id := "4/2";
    assert id[0] != '?' && id[1] != '?' && id[2] != '?';
    assert id[..3] == id;
    RoutePathUnique(id, 3);
    assert RoutePath(id)[1] == '/';
    SlashEndsId(id);
    assert SprintPrefix + id == "sprint/4/2";
  }

  /** `sprint/4/2?x` reaches no route either: the query does not help. */
  lemma QueriedNestedIdUnknown()
    ensures Recognize("sprint/4/2?x").None?
  {
    var id := "4/2?x";
    var path := id[..3];
    assert path[0] != '?' && path[1] != '?' && path[2] != '?';
    RoutePathUnique(id, 3);
    assert RoutePath(id)[1] == '/';
    SlashEndsId(id);
    assert SprintPrefix + id == "sprint/4/2?x";
  }

  /** Fragments outside the table lead nowhere: `sprint/` needs an id, an id
      stops at the next `/`, and `login` is no route of this router. */
  lemma UnknownFragments()
    ensures Recognize("sprint/").None?
    ensures Recognize("sprint/4/2").None?
    ensures Recognize("sprint/4/2?x").None?
    ensures Recognize("login").None?
  {
    EmptyIdUnknown();
    NestedIdUnknown();
    QueriedNestedIdUnknown();
    ShortFragmentUnknown("login");
  }

  /** The decimal text of an integer is a route parameter. */
  lemma IntTextIsParam(n: int)
    ensures IsParam(IntText(n))
  {
    var text := IntText(n);
    var digits := NatText(if n < 0 then -n else n);
    assert forall k :: 0 <= k < |digits| ==> digits[k] != '/' && digits[k] != '?';
    forall k | 0 <= k < |text|
      ensures text[k] != '/' && text[k] != '?'
    {
      if n < 0 && k > 0 {
        assert text[k] == digits[k - 1];
      }
    }
  }

  /** After a sprint is created the browser goes to `#sprint/` followed by its
      numeric id; that fragment always reaches the sprint route, and the page
      it opens looks the sprint up under the same id. */
  lemma NewSprintFragment(n: int)
    ensures Recognize(SprintPrefix + IntText(n)) == Some(SprintDetail(IntText(n)))
    ensures SameId(Str(IntText(n)), Num(n))
  {
    IntTextIsParam(n);
    assert MatchesSprint(SprintPrefix + IntText(n), IntText(n));
  }

  function HandlerOf(route: Route): Handler {
    match route
    case Home => HomeHandler
    case SprintDetail(_) => SprintHandler
  }

  /** An argument of the wrapped handler: the original handler itself, which
      the wrapper receives first, or a captured route parameter. */
  datatype Arg = Original | Param(text: string)

  /** The parameters the table captures for a route. */
  function RouteArgs(route: Route): seq<Arg> {
    match route
    case Home => []
    case SprintDetail(id) => [Param(id)]
  }

  /** `_.without(xs, x)`: `xs` with every occurrence of `x` dropped, the
      others kept in order and number. */
  function Without<A(==)>(xs: seq<A>, x: A): (r: seq<A>)
    ensures multiset(r) == multiset(xs)[x := 0]
    decreases |xs|
  {
    if |xs| == 0 then
      []
    else
      var rest := Without(xs[1..], x);
      assert xs == [xs[0]] + xs[1..];
      if xs[0] == x then rest else [xs[0]] + rest
  }

  /** `_.without` works element by element: the kept elements of a
      concatenation are the kept elements of each part, in their order. */
  lemma {:induction false} WithoutConcat<A>(a: seq<A>, b: seq<A>, x: A)
    ensures Without(a + b, x) == Without(a, x) + Without(b, x)
    decreases |a|
  {
    if |a| > 0 {
      assert (a + b)[1..] == a[1..] + b;
      WithoutConcat(a[1..], b, x);
    } else {
      assert a + b == b;
    }
  }

  /** A single element is dropped when it is `x` and kept otherwise; with
      `WithoutConcat`, this fixes the result element by element, in order. */
  lemma WithoutSingle<A>(y: A, x: A)
    ensures Without([y], x) == if y == x then [] else [y]
  {
  }

  /** Dropping an element that does not occur changes nothing. */
  lemma {:induction false} WithoutAbsent<A>(xs: seq<A>, x: A)
    requires x !in xs
    ensures Without(xs, x) == xs
    decreases |xs|
  {
    if |xs| > 0 {
      WithoutAbsent(xs[1..], x);
    }
  }

  /** The wrapper is called with the original handler in front of the route
      parameters; dropping it leaves exactly the parameters. */
  lemma WrapperArgs(route: Route)
    ensures Without([Original] + RouteArgs(route), Original) == RouteArgs(route)
  {
    WithoutAbsent(RouteArgs(route), Original);
    assert ([Original] + RouteArgs(route))[1..] == RouteArgs(route);
  }

  /** What a view shows: the home page, a sprint page for an id (`None` is an
      `undefined` id), or a login form. */
  datatype Page = Homepage | SprintPage(sprintId: Option<string>) | LoginForm

  /** A view instance; `serial` tells apart views showing the same page. */
  datatype View = View(serial: nat, page: Page)

  datatype Event =
    | HeaderRendered(authenticated: bool)
    | ContentHidden
    | ContentShown
    | Rendered(view: View)
    | Undelegated(view: View)
    | Removed(view: View)

  /** A handler call held back until a login completes, with its arguments. */
  datatype Deferred = Deferred(handler: Handler, args: seq<Arg>)

  /** The router: its current view, whether the content region is shown, the
      login views waiting for `done` (by serial) with the call each holds, the
      next view serial, and the events so far. */
  datatype Router = Router(current: Option<View>, contentShown: bool, logins: map<nat, Deferred>, nextSerial: nat, log: seq<Event>)

  /** `initialize`: no current view; the header is rendered once. The content
      region is shown, nothing is on it, and no login is waiting. */
  function Init(authenticated: bool): (r: Router)
    ensures r.current.None? && r.contentShown && r.logins == map[]
    ensures Live(r.log) == {} && HeaderRendered(authenticated) in r.log
    ensures r.log == [HeaderRendered(authenticated)]
  {
    Router(None, true, map[], 0, [HeaderRendered(authenticated)])
  }

  function Step(live: set<View>, e: Event): set<View> {
    match e
    case Rendered(v) => live + {v}
    case Removed(v) => live - {v}
    case _ => live
  }

  /** The views rendered and not removed since the log began. */
  function Live(log: seq<Event>): set<View>
    decreases |log|
  {
    if |log| == 0 then {} else Step(Live(log[..|log| - 1]), log[|log| - 1])
  }

  lemma LiveSnoc(log: seq<Event>, e: Event)
    ensures Live(log + [e]) == Step(Live(log), e)
  {
  }

  function CurrentViews(current: Option<View>): set<View> {
    match current
    case Some(v) => {v}
    case None => {}
  }

  function LoginViews(logins: map<nat, Deferred>): set<View> {
    set s | s in logins :: View(s, LoginForm)
  }

  /** The router invariant: the live views are exactly the current view and
      the waiting login views, every live view has an older serial than the
      next one, and the current view is never a login form. */
  ghost predicate Valid(r: Router) {
    && Live(r.log) == CurrentViews(r.current) + LoginViews(r.logins)
    && (forall v :: v in Live(r.log) ==> v.serial < r.nextSerial)
    && (r.current.Some? ==> r.current.value.page != LoginForm)
  }

  lemma InitValid(authenticated: bool)
    ensures Valid(Init(authenticated))
  {
  }

  /** `render(view)`: unbind and remove the current view, if any, then make
      `view` current and render it. The content element itself stays. */
  function Render(r: Router, view: View): (r': Router)
    ensures r'.current == Some(view)
    ensures Live(r'.log) == Live(r.log) - CurrentViews(r.current) + {view}
    ensures r.current.Some? ==> r'.log == r.log + [Undelegated(r.current.value), Removed(r.current.value), Rendered(view)]
    ensures r.current.None? ==> r'.log == r.log + [Rendered(view)]
    ensures r'.logins == r.logins && r'.contentShown == r.contentShown && r'.nextSerial == r.nextSerial
  {
    var torn :=
      if r.current.Some? then
        var prior := r.current.value;
        LiveSnoc(r.log, Undelegated(prior));
        LiveSnoc(r.log + [Undelegated(prior)], Removed(prior));
        assert r.log + [Undelegated(prior)] + [Removed(prior)] == r.log + [Undelegated(prior), Removed(prior)];
        r.log + [Undelegated(prior), Removed(prior)]
      else
        r.log;
    LiveSnoc(torn, Rendered(view));
    r.(current := Some(view), log := torn + [Rendered(view)])
  }

  /** The page an original handler builds from its arguments: `home` ignores
      them, `sprint(id)` takes the first as the sprint id. */
  function PageFor(handler: Handler, args: seq<Arg>): Page {
    match handler
    case HomeHandler => Homepage
    case SprintHandler => SprintPage(if |args| > 0 && args[0].Param? then Some(args[0].text) else None)
  }

  /** The page a route ends on: the captured id is the sprint page's id. */
  function PageOf(route: Route): Page {
    match route
    case Home => Homepage
    case SprintDetail(id) => SprintPage(Some(id))
  }

  /** Calling an original handler: build its view under the next serial and
      render it. */
  function Invoke(r: Router, handler: Handler, args: seq<Arg>): (r': Router)
    ensures r'.current == Some(View(r.nextSerial, PageFor(handler, args)))
    ensures r'.nextSerial == r.nextSerial + 1
    ensures Live(r'.log) == Live(r.log) - CurrentViews(r.current) + {View(r.nextSerial, PageFor(handler, args))}
    ensures r'.logins == r.logins && r'.contentShown == r.contentShown
    ensures |r'.log| > |r.log| && r'.log[..|r.log|] == r.log
    ensures r'.log[|r'.log| - 1] == Rendered(View(r.nextSerial, PageFor(handler, args)))
  {
    var view := View(r.nextSerial, PageFor(handler, args));
    var rendered := Render(r, view);
    rendered.(nextSerial := r.nextSerial + 1)
  }

  /** The wrapped route handler. Authenticated: the original handler runs at
      once on the arguments minus itself. Otherwise the content is hidden, a
      login view is rendered after it, and the call waits for its `done`. */
  function Gate(r: Router, authenticated: bool, handler: Handler, callArgs: seq<Arg>): (r': Router)
    ensures authenticated ==> r' == Invoke(r, handler, Without(callArgs, Original))
    ensures !authenticated ==>
      && r'.current == r.current
      && !r'.contentShown
      && r'.logins == r.logins[r.nextSerial := Deferred(handler, Without(callArgs, Original))]
      && r'.nextSerial == r.nextSerial + 1
      && Live(r'.log) == Live(r.log) + {View(r.nextSerial, LoginForm)}
  {
    var args := Without(callArgs, Original);
    if authenticated then
      Invoke(r, handler, args)
    else
      var login := View(r.nextSerial, LoginForm);
      LoginShownLive(r.log, login);
      r.(contentShown := false,
         logins := r.logins[r.nextSerial := Deferred(handler, args)],
         nextSerial := r.nextSerial + 1,
         log := r.log + [ContentHidden] + [Rendered(login)])
  }

  /** Following a URL fragment: an unknown fragment does nothing; a known one
      runs its handler through the gate. */
  function Navigate(r: Router, authenticated: bool, fragment: string): (r': Router)
    ensures Recognize(fragment).None? ==> r' == r
    ensures Recognize(fragment).Some? && authenticated ==>
      && r'.current == Some(View(r.nextSerial, PageOf(Recognize(fragment).value)))
      && r'.logins == r.logins && r'.contentShown == r.contentShown
      && Live(r'.log) == Live(r.log) - CurrentViews(r.current) + {View(r.nextSerial, PageOf(Recognize(fragment).value))}
    ensures Recognize(fragment).Some? ==> r'.nextSerial == r.nextSerial + 1
    ensures Recognize(fragment).Some? && !authenticated ==>
      && r'.current == r.current
      && !r'.contentShown
      && r'.logins == r.logins[r.nextSerial := Deferred(HandlerOf(Recognize(fragment).value), RouteArgs(Recognize(fragment).value))]
      && Live(r'.log) == Live(r.log) + {View(r.nextSerial, LoginForm)}
  {
    match Recognize(fragment)
    case None => r
    case Some(route) =>
      WrapperArgs(route);
      Gate(r, authenticated, HandlerOf(route), [Original] + RouteArgs(route))
  }

  /** Hiding the content and rendering a login view adds just that view. */
  lemma LoginShownLive(log: seq<Event>, login: View)
    ensures Live(log + [ContentHidden] + [Rendered(login)]) == Live(log) + {login}
  {
  }

  /** The order of the events `done` adds after `before`: the header is
      rendered, the content shown, the held handler's page view rendered, and
      the login view removed last. */
  predicate DoneInOrder(before: seq<Event>, after: seq<Event>, authenticated: bool, page: View, serial: nat) {
    && |after| >= |before| + 4
    && after[|before|..|before| + 2] == [HeaderRendered(authenticated), ContentShown]
    && after[|after| - 2] == Rendered(page)
    && after[|after| - 1] == Removed(View(serial, LoginForm))
  }

  /** A log that extends `before` by the header and content events and ends
      with a rendered page, followed by the login view's removal, has the
      order of `done`. */
  lemma DoneLogInOrder(before: seq<Event>, ran: seq<Event>, authenticated: bool, page: View, serial: nat)
    requires |ran| > |before| + 2 && ran[..|before| + 2] == before + [HeaderRendered(authenticated), ContentShown]
    requires ran[|ran| - 1] == Rendered(page)
    ensures DoneInOrder(before, ran + [Removed(View(serial, LoginForm))], authenticated, page, serial)
    ensures HeaderRendered(authenticated) in (ran + [Removed(View(serial, LoginForm))])[|before|..]
  {
    var after := ran + [Removed(View(serial, LoginForm))];
    assert after[|before|] == ran[..|before| + 2][|before|];
    assert after[|before| + 1] == ran[..|before| + 2][|before| + 1];
  }

  /** What `done` leaves behind, given what the held handler did to the
      router once the header was rendered and the content shown. */
  lemma DoneSteps(r: Router, serial: nat, authenticated: bool, ran: Router)
    requires serial in r.logins
    requires ran.current == Some(View(r.nextSerial, PageFor(r.logins[serial].handler, r.logins[serial].args)))
    requires ran.nextSerial == r.nextSerial + 1 && ran.logins == r.logins && ran.contentShown
    requires Live(ran.log) == Live(r.log + [HeaderRendered(authenticated), ContentShown]) - CurrentViews(r.current) + {ran.current.value}
    requires |ran.log| > |r.log| + 2 && ran.log[..|r.log| + 2] == r.log + [HeaderRendered(authenticated), ContentShown]
    requires ran.log[|ran.log| - 1] == Rendered(ran.current.value)
    ensures var done := ran.(logins := ran.logins - {serial}, log := ran.log + [Removed(View(serial, LoginForm))]);
      && |done.log| > |r.log|
      && HeaderRendered(authenticated) in done.log[|r.log|..]
      && Live(done.log) == Live(r.log) - CurrentViews(r.current) + {done.current.value} - {View(serial, LoginForm)}
      && DoneInOrder(r.log, done.log, authenticated, done.current.value, serial)
  {
    LiveSnoc(r.log, HeaderRendered(authenticated));
    LiveSnoc(r.log + [HeaderRendered(authenticated)], ContentShown);
    assert r.log + [HeaderRendered(authenticated)] + [ContentShown] == r.log + [HeaderRendered(authenticated), ContentShown];
    LiveSnoc(ran.log, Removed(View(serial, LoginForm)));
    DoneLogInOrder(r.log, ran.log, authenticated, ran.current.value, serial);
  }

  /** The `done` signal of the login view with serial `serial`: the header is
      rendered again, the content is shown, the held call runs with its saved
      arguments, and the login view removes itself. A serial with no waiting
      login view signals nothing. */
  function LoginDone(r: Router, serial: nat, authenticated: bool): (r': Router)
    ensures serial !in r.logins ==> r' == r
    ensures serial in r.logins ==>
      && r'.current == Some(View(r.nextSerial, PageFor(r.logins[serial].handler, r.logins[serial].args)))
      && r'.contentShown
      && r'.logins == r.logins - {serial}
      && r'.nextSerial == r.nextSerial + 1
      && |r'.log| > |r.log|
      && HeaderRendered(authenticated) in r'.log[|r.log|..]
      && Live(r'.log) == Live(r.log) - CurrentViews(r.current) + {r'.current.value} - {View(serial, LoginForm)}
    ensures serial in r.logins ==> DoneInOrder(r.log, r'.log, authenticated, r'.current.value, serial)
  {
    if serial !in r.logins then
      r
    else
      var held := r.logins[serial];
      var shown := r.(contentShown := true, log := r.log + [HeaderRendered(authenticated), ContentShown]);
      var ran := Invoke(shown, held.handler, held.args);
      DoneSteps(r, serial, authenticated, ran);
      ran.(logins := ran.logins - {serial}, log := ran.log + [Removed(View(serial, LoginForm))])
  }

  /** Navigation keeps the router invariant: whatever happens, the live views
      are the one current view plus the waiting login views. */
  lemma NavigatePreservesValid(r: Router, authenticated: bool, fragment: string)
    requires Valid(r)
    ensures Valid(Navigate(r, authenticated, fragment))
  {
    if Recognize(fragment).Some? {
      var page := PageOf(Recognize(fragment).value);
      if authenticated {
        ShowPreservesValid(r, Navigate(r, authenticated, fragment), page);
      } else {
        GatePreservesValid(r, Navigate(r, authenticated, fragment), Deferred(HandlerOf(Recognize(fragment).value), RouteArgs(Recognize(fragment).value)));
      }
    }
  }

  /** Replacing the current view by a fresh content view keeps the invariant. */
  lemma ShowPreservesValid(r: Router, r': Router, page: Page)
    requires Valid(r) && page != LoginForm
    requires r'.current == Some(View(r.nextSerial, page)) && r'.nextSerial == r.nextSerial + 1
    requires r'.logins == r.logins
    requires Live(r'.log) == Live(r.log) - CurrentViews(r.current) + {View(r.nextSerial, page)}
    ensures Valid(r')
  {
    assert CurrentViews(r.current) !! LoginViews(r.logins) by {
      if r.current.Some? {
        assert r.current.value.page != LoginForm;
      }
    }
    assert Live(r'.log) == CurrentViews(r'.current) + LoginViews(r'.logins);
  }

  /** Holding a call behind a fresh login view keeps the invariant. */
  lemma GatePreservesValid(r: Router, r': Router, held: Deferred)
    requires Valid(r)
    requires r'.current == r.current && r'.nextSerial == r.nextSerial + 1
    requires r'.logins == r.logins[r.nextSerial := held]
    requires Live(r'.log) == Live(r.log) + {View(r.nextSerial, LoginForm)}
    ensures Valid(r')
  {
    assert LoginViews(r'.logins) == LoginViews(r.logins) + {View(r.nextSerial, LoginForm)};
  }

  /** A login view's `done` keeps the router invariant. */
  lemma LoginDonePreservesValid(r: Router, serial: nat, authenticated: bool)
    requires Valid(r)
    ensures Valid(LoginDone(r, serial, authenticated))
  {
    if serial in r.logins {
      DoneKeepsValid(r, LoginDone(r, serial, authenticated), serial);
    }
  }

  /** Running a held call in a fresh content view and dropping its login
      view keeps the invariant. */
  lemma DoneKeepsValid(r: Router, r': Router, serial: nat)
    requires Valid(r) && serial in r.logins
    requires r'.current == Some(View(r.nextSerial, PageFor(r.logins[serial].handler, r.logins[serial].args)))
    requires r'.nextSerial == r.nextSerial + 1 && r'.logins == r.logins - {serial}
    requires Live(r'.log) == Live(r.log) - CurrentViews(r.current) + {r'.current.value} - {View(serial, LoginForm)}
    ensures Valid(r')
  {
    var login := View(serial, LoginForm);
    assert login in Live(r.log);
    assert LoginViews(r'.logins) == LoginViews(r.logins) - {login};
    assert CurrentViews(r.current) !! LoginViews(r.logins) by {
      if r.current.Some? {
        assert r.current.value.page != LoginForm;
      }
    }
    assert Live(r'.log) == CurrentViews(r'.current) + LoginViews(r'.logins);
  }

  /** Every navigation ends with one current view: authenticated, the route's
      own page; otherwise the previous one, behind the login form. */
  lemma AtMostOneCurrentView(r: Router, authenticated: bool, fragment: string)
    requires Valid(r) && Recognize(fragment).Some?
    ensures var r' := Navigate(r, authenticated, fragment);
      |Live(r'.log) - LoginViews(r'.logins)| == |CurrentViews(r'.current)| <= 1
    ensures authenticated ==>
      (Live(Navigate(r, authenticated, fragment).log) - LoginViews(r.logins)
        == {View(r.nextSerial, PageOf(Recognize(fragment).value))})
  {
    NavigatePreservesValid(r, authenticated, fragment);
    var r' := Navigate(r, authenticated, fragment);
    assert CurrentViews(r'.current) !! LoginViews(r'.logins) by {
      if r'.current.Some? {
        assert r'.current.value.page != LoginForm;
      }
    }
    assert Live(r'.log) - LoginViews(r'.logins) == CurrentViews(r'.current);
  }

  /** The page with its session: the gate asks the session whether it is
      authenticated. */
  datatype App = App(session: Sessions.Session, router: Router)

  /** A successful login through login view `serial`: the session saves the
      returned token, then the view signals `done`. Afterwards the session is
      authenticated with `token` stored; if that view was waiting, the header
      was rendered as logged in and the content is shown again, and a serial
      with no waiting view leaves the router as it was. */
  function LoginSucceeded(app: App, serial: nat, token: string): (app': App)
    ensures Sessions.Authenticated(app'.session) && app'.session.token == Some(token)
    ensures Sessions.TokenKey in app'.session.storage && app'.session.storage[Sessions.TokenKey] == token
    ensures serial !in app.router.logins ==> app'.router == app.router
    ensures serial in app.router.logins ==>
      && app'.router.contentShown
      && |app.router.log| < |app'.router.log|
      && HeaderRendered(true) in app'.router.log[|app.router.log|..]
      && View(serial, LoginForm) !in Live(app'.router.log)
  {
    var session := Sessions.Save(app.session, Some(token));
    App(session, LoginDone(app.router, serial, Sessions.Authenticated(session)))
  }

  /** `gated` is `r` after a logged-out navigation: the content is hidden,
      the current view stays, a login form is live under the next serial and
      holds the call `held`, and no sprint page has appeared. */
  ghost predicate HeldBehindLogin(r: Router, gated: Router, held: Deferred) {
    && !gated.contentShown
    && gated.current == r.current
    && gated.nextSerial == r.nextSerial + 1
    && View(r.nextSerial, LoginForm) in Live(gated.log)
    && (forall v :: v in Live(gated.log) && v.page.SprintPage? ==> v in Live(r.log))
    && r.nextSerial in gated.logins
    && gated.logins[r.nextSerial] == held
  }

  /** `done` is `gated` after the login through form `serial` succeeded with
      `token`: the token is stored, the header was rendered as logged in, the
      content is shown with a fresh view of `page`, and the form is gone. */
  ghost predicate LoggedInTo(gated: App, done: App, serial: nat, token: string, page: Page) {
    && Sessions.Authenticated(done.session)
    && Sessions.TokenKey in done.session.storage
    && done.session.storage[Sessions.TokenKey] == token
    && |gated.router.log| <= |done.router.log|
    && HeaderRendered(true) in done.router.log[|gated.router.log|..]
    && done.router.contentShown
    && done.router.current == Some(View(serial + 1, page))
    && View(serial, LoginForm) !in Live(done.router.log)
  }

  /** Logged out, following `#sprint/42` hides the content behind a new login
      form that holds the sprint handler with argument `42`, and renders no
      sprint page. */
  lemma GatedSprintFragment(r: Router)
    requires Valid(r)
    ensures HeldBehindLogin(r, Navigate(r, false, "sprint/42"), Deferred(SprintHandler, [Param("42")]))
  {
    var fragment, route := "sprint/42", SprintDetail("42");
    RouteTextFindsNumericId();
    NewSprintFragment(42);
    assert Recognize(fragment) == Some(route);
    assert View(r.nextSerial, LoginForm) !in Live(r.log);
  }

  /** A hash change on the page: the router follows `fragment`, with the gate
      asking the session whether it is authenticated. The session is left
      alone; a logged-in session reaches the route's page at once, and a
      logged-out one gets a login form in front of unchanged content. */
  function AppNavigate(app: App, fragment: string): (app': App)
    ensures app'.session == app.session
    ensures Recognize(fragment).None? ==> app' == app
    ensures Recognize(fragment).Some? && Sessions.Authenticated(app.session) ==>
      app'.router.current == Some(View(app.router.nextSerial, PageOf(Recognize(fragment).value)))
    ensures Recognize(fragment).Some? && !Sessions.Authenticated(app.session) ==>
      && app'.router.current == app.router.current
      && !app'.router.contentShown
      && View(app.router.nextSerial, LoginForm) in Live(app'.router.log)
  {
    app.(router := Navigate(app.router, Sessions.Authenticated(app.session), fragment))
  }

  /** Logging in through the login form that holds the sprint handler with
      argument `42` stores the token, renders the header as logged in, shows
      the content again, renders the sprint page for id 42, and removes the
      form. */
  lemma LoginAfterGate(gated: App, before: nat, token: string)
    requires Valid(gated.router) && gated.router.nextSerial == before + 1
    requires before in gated.router.logins
    requires gated.router.logins[before] == Deferred(SprintHandler, [Param("42")])
    ensures LoggedInTo(gated, LoginSucceeded(gated, before, token), before, token, SprintPage(Some("42")))
  {
    assert PageFor(SprintHandler, [Param("42")]) == SprintPage(Some("42"));
    var done := LoginSucceeded(gated, before, token);
    assert done.router == LoginDone(gated.router, before, true);
  }

  /** Logged out, following `#sprint/42` hides the content behind a login
      form and renders no sprint page; logging in through that form stores the
      token, renders the header as logged in, shows the content again and
      renders the sprint page for id 42, and the form is gone. */
  lemma LoginGateScenario(app: App, token: string)
    requires !Sessions.Authenticated(app.session) && Valid(app.router)
    ensures var gated := AppNavigate(app, "sprint/42");
      && HeldBehindLogin(app.router, gated.router, Deferred(SprintHandler, [Param("42")]))
      && LoggedInTo(gated, LoginSucceeded(gated, app.router.nextSerial, token), app.router.nextSerial, token, SprintPage(Some("42")))
  {
    var gated := AppNavigate(app, "sprint/42");
    GatedSprintFragment(app.router);
    NavigatePreservesValid(app.router, false, "sprint/42");
    LoginAfterGate(gated, app.router.nextSerial, token);
  }
}
