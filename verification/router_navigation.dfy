/**
  The router's navigation: `__redirectToView` and its public wrappers, the
  reload guard (`__preventReloadPage`) consumed by the hash-change and
  history-change handlers, the route-change events, `setPathParams`,
  `setURLParams`, `createLink`, `location` and `__registerRouter`.

  The browser is abstract. Assigning the hash or pushing a history entry
  updates the state's hash or path name and is recorded as an effect; the
  query parameters the browser will report for the new address are passed in
  by the caller (`address`).
 */
module RouterNavigation {
  import opened Wrappers
  import opened JsString
  import opened JsValue
  import opened Errors
  import opened Util
  import opened AppSystem
  import opened RouterPattern
  import opened RouterRegistry
  import opened RouterView

  // ---------------------------------------------------------------------------
  // route-change events

  /** `__fireRouteEvents`: one call per registered, truthy function, in registration order. */
  function EventsFired(events: Obj<Option<string>>, route: string): (r: seq<Effect<View>>)
    ensures |r| <= |events|
    ensures forall i :: 0 <= i < |r| ==> r[i].FireRouteEvent? && r[i].route == route
    ensures forall i :: 0 <= i < |r| ==> exists j :: 0 <= j < |events| && events[j].1.Some? && events[j].0 == r[i].event
    ensures forall j :: 0 <= j < |events| && events[j].1.Some? ==> FireRouteEvent(events[j].0, route) in r
  {
    if |events| == 0 then []
    else
      var rest := EventsFired(events[1..], route);
      assert forall j :: 1 <= j < |events| ==> events[j] == events[1..][j - 1];
      if events[0].1.Some? then [FireRouteEvent(events[0].0, route)] + rest else rest
  }

  /** The events fired on the current route. */
  function FireRouteEvents(s: RouterState): (r: Trace<View>)
    ensures r.Ok()
    ensures forall i :: 0 <= i < |r.effects| ==> r.effects[i].FireRouteEvent? && r.effects[i].route == GetCurrentRoute(s)
    ensures forall j :: 0 <= j < |s.events| && s.events[j].1.Some? ==>
      FireRouteEvent(s.events[j].0, GetCurrentRoute(s)) in r.effects
  {
    Done(EventsFired(s.events, GetCurrentRoute(s)))
  }

  /** A name is registered with a truthy function. */
  predicate Registered(events: Obj<Option<string>>, name: string) {
    var f := Get(events, name);
    f.Some? && f.value.Some?
  }

  /**
    `onRouteChange`: stores the function under the name, replacing any
    earlier one; replacing a truthy one warns first.
   */
  function OnRouteChange(s: RouterState, name: string, fn: Option<string>): (r: Run)
    ensures Get(r.state.events, name) == Some(fn)
    ensures forall n :: n != name ==> Get(r.state.events, n) == Get(s.events, n)
    ensures DistinctKeys(s.events) ==> DistinctKeys(r.state.events)
    ensures r.state.(events := s.events) == s
    ensures r.trace.Ok()
    ensures Registered(s.events, name) ==> r.trace.effects == [Warn(RouteEventAlreadyRegistered(name))]
    ensures !Registered(s.events, name) ==> r.trace.effects == []
  {
    var warn := if Registered(s.events, name) then [Warn(RouteEventAlreadyRegistered(name))] else [];
    Run(s.(events := Set(s.events, name, fn)), Done(warn))
  }

  /** `offRouteChange`: a truthy function under the name becomes null; anything else stays. */
  function OffRouteChange(s: RouterState, name: string): (r: RouterState)
    ensures !Registered(r.events, name)
    ensures forall n :: n != name ==> Get(r.events, n) == Get(s.events, n)
    ensures !Registered(s.events, name) ==> r == s
    ensures DistinctKeys(s.events) ==> DistinctKeys(r.events)
    ensures r.(events := s.events) == s
  {
    if Registered(s.events, name) then s.(events := Set(s.events, name, None)) else s
  }

  /** A registered function fires on every later route change, whatever was there before. */
  lemma RegisteredEventFires(s: RouterState, name: string, fn: string, route: string)
    ensures FireRouteEvent(name, route) in EventsFired(OnRouteChange(s, name, Some(fn)).state.events, route)
  {
    var events := OnRouteChange(s, name, Some(fn)).state.events;
    assert (name, Some(fn)) in events;
    var j :| 0 <= j < |events| && events[j] == (name, Some(fn));
    assert events[j].1.Some?;
  }

  /** After `offRouteChange` the name fires no more. */
  lemma UnregisteredEventIsSilent(s: RouterState, name: string, route: string)
    requires DistinctKeys(s.events)
    ensures FireRouteEvent(name, route) !in EventsFired(OffRouteChange(s, name).events, route)
  {
    var events := OffRouteChange(s, name).events;
    var fired := EventsFired(events, route);
    if FireRouteEvent(name, route) in fired {
      var i :| 0 <= i < |fired| && fired[i] == FireRouteEvent(name, route);
      var j :| 0 <= j < |events| && events[j].1.Some? && events[j].0 == fired[i].event;
      GetAt(events, j);
      assert Registered(events, name);
    }
  }

  // ---------------------------------------------------------------------------
  // __redirectToView

  /** A path with a `/` in front of it, unless it has one already (the empty path becomes `/`). */
  function Rooted(p: string): (r: string)
    ensures |r| > 0 && r[0] == '/'
    ensures |p| > 0 && p[0] == '/' ==> r == p
    ensures !(|p| > 0 && p[0] == '/') ==> r == "/" + p
  {
    if |p| > 0 && p[0] == '/' then p else "/" + p
  }

  /**
    The address `__redirectToView` navigates to: the first `#/` becomes `/`,
    a leading `/` is ensured, then the path parameters and the query are
    applied.
   */
  function PreparePath(path: string, pathParams: Option<Obj<Value>>, urlParams: Option<Obj<Value>>): (r: string)
    ensures |r| > 0 && r[0] == '/'
    ensures StartsWith(r, PreparePathDottedParams(Rooted(ReplaceFirst(path, "#/", "/")), pathParams))
    ensures r == PreparePathDottedParams(Rooted(ReplaceFirst(path, "#/", "/")), pathParams)
                 + PrepareUrlParams("", urlParams)
  {
    var p2 := Rooted(ReplaceFirst(path, "#/", "/"));
    var p3 := PreparePathDottedParams(p2, pathParams);
    PreparePathDottedParamsKeepsHead(p2, pathParams);
    var p4 := PrepareUrlParams(p3, urlParams);
    PrepareUrlParamsAppends(p3, urlParams);
    assert p4[..|p3|] == p3;
    assert p4[0] == p3[0];
    p4
  }

  /** A hash-style path `#/x` redirects to `/x`; so does `/x` itself. */
  lemma HashPathRedirectsToPath(x: string)
    requires !Contains(x, ":")
    ensures PreparePath("#/" + x, None, None) == "/" + x
    ensures !Contains("/" + x, "#/") ==> PreparePath("/" + x, None, None) == "/" + x
  {
    var h := "#/" + x;
    assert OccursAt(h, "#/", 0);
    assert IndexOf(h, "#/") == 0;
    assert ReplaceFirst(h, "#/", "/") == "/" + x;
    ColonFree(x);
  }

  /** A path without `:` gets a leading `/` and stays free of `:`. */
  lemma ColonFree(x: string)
    requires !Contains(x, ":")
    ensures !Contains("/" + x, ":")
  {
    var y := "/" + x;
    forall i | 0 <= i <= |y| ensures !OccursAt(y, ":", i) {
      if OccursAt(y, ":", i) {
        assert i > 0;
        assert y[i..i + 1] == x[i - 1..i];
        assert OccursAt(x, ":", i - 1);
      }
    }
  }

  /** The reload guard `__redirectToView` stores for a prepared address. */
  function Guard(p: string): string {
    Rooted(p)
  }

  /**
    `__redirectToView`: clears both caches; a null path throws
    `REDIRECT_NO_PATH`. Otherwise the address is prepared, the reload guard
    set when asked for, and the browser moved: in HTML5 mode a history entry
    is pushed (its path name is the address up to `?`) and the history
    handler runs at once; in hash mode the hash is assigned, and the
    hash-change handler runs later, as the browser's event.
   */
  function Redirect(s: RouterState, path: Option<string>, pathParams: Option<Obj<Value>>,
                    urlParams: Option<Obj<Value>>, prevent: bool, address: Obj<Value>): (r: Run)
    ensures path.None? ==> r == Run(ClearCaches(s), Trace([], Some(RedirectNoPath)))
    ensures path.Some? && !s.html5 ==>
      var p := PreparePath(path.value, pathParams, urlParams);
      r.state == ClearCaches(s).(hash := "#" + p, urlParams := address,
                                  lastPath := Some(ReplaceFirst(s.hash, "#/", "/")),
                                  preventReload := if prevent then Some(p) else s.preventReload)
      && r.trace == Done([SetHash(p)])
    ensures path.Some? && s.html5 ==>
      var p := PreparePath(path.value, pathParams, urlParams);
      |r.trace.effects| > 0 && r.trace.effects[0] == PushState(p)
      && r.state.pathName == BeforeQuery(p) && r.state.lastPath == Some(s.pathName) && r.state.urlParams == address
    ensures path.Some? && s.html5 ==>
      var p := PreparePath(path.value, pathParams, urlParams);
      var pushed := ClearCaches(s).(preventReload := if prevent then Some(p) else s.preventReload,
                                    lastPath := Some(s.pathName), pathName := BeforeQuery(p), urlParams := address);
      r.state == OnHistoryChange(pushed).state
      && r.trace == Then(Done([PushState(p)]), OnHistoryChange(pushed).trace)
  {
    var s0 := ClearCaches(s);
    match path
    case None => Run(s0, Trace([], Some(RedirectNoPath)))
    case Some(p0) =>
      var p := PreparePath(p0, pathParams, urlParams);
      var guard := if prevent then Some(Guard(p)) else s0.preventReload;
      if s.html5 then
        var s1 := s0.(preventReload := guard, lastPath := Some(s0.pathName), pathName := BeforeQuery(p), urlParams := address);
        var h := OnHistoryChange(s1);
        assert h.state.pathName == s1.pathName && h.state.lastPath == s1.lastPath && h.state.urlParams == s1.urlParams;
        Run(h.state, Then(Done([PushState(p)]), h.trace))
      else
        var s1 := s0.(preventReload := guard, lastPath := Some(ReplaceFirst(s0.hash, "#/", "/")), hash := "#" + p, urlParams := address);
        Run(s1, Done([SetHash(p)]))
  }

  /**
    `__onHashChanges`: when the hash, without its first `#`, is the reload
    guard, the guard is cleared and only the route events fire; otherwise
    the caches are cleared, the events fire and the current view renders.
   */
  function OnHashChange(s: RouterState): (r: Run)
    ensures r.state.(endpoints := s.endpoints, dataCache := s.dataCache, viewCache := s.viewCache,
                     previousController := s.previousController, preventReload := s.preventReload) == s
    ensures s.preventReload == Some(ReplaceFirst(s.hash, "#", "")) ==>
      r.state == s.(preventReload := None) && r.trace == FireRouteEvents(s)
    ensures s.preventReload != Some(ReplaceFirst(s.hash, "#", "")) ==>
      r.state.preventReload == s.preventReload
      && r.trace == Then(FireRouteEvents(s), RenderCurrentView(ClearCaches(s)).trace)
  {
    if s.preventReload == Some(ReplaceFirst(s.hash, "#", "")) then
      Run(s.(preventReload := None), FireRouteEvents(s))
    else
      var s1 := ClearCaches(s);
      var v := RenderCurrentView(s1);
      assert v.state.(endpoints := s1.endpoints, dataCache := s1.dataCache, viewCache := s1.viewCache,
                      previousController := s1.previousController) == s1 by { RenderFrame(s1); }
      Run(v.state, Then(FireRouteEvents(s1), v.trace))
  }

  /** Rendering never touches the reload guard. */
  lemma RenderKeepsGuard(s: RouterState)
    ensures RenderCurrentView(s).state.preventReload == s.preventReload
  {
    RenderFrame(s);
  }

  /**
    `__onHistoryChanges`: does nothing outside HTML5 mode; otherwise as the
    hash handler, comparing the path name with the reload guard.
   */
  function OnHistoryChange(s: RouterState): (r: Run)
    ensures r.state.(endpoints := s.endpoints, dataCache := s.dataCache, viewCache := s.viewCache,
                     previousController := s.previousController, preventReload := s.preventReload) == s
    ensures !s.html5 ==> r == Run(s, Done([]))
    ensures s.html5 && s.preventReload == Some(s.pathName) ==>
      r.state == s.(preventReload := None) && r.trace == FireRouteEvents(s)
    ensures s.html5 && s.preventReload != Some(s.pathName) ==>
      r.state.preventReload == s.preventReload
      && r.trace == Then(FireRouteEvents(s), RenderCurrentView(ClearCaches(s)).trace)
  {
    if !s.html5 then Run(s, Done([]))
    else if s.preventReload == Some(s.pathName) then
      Run(s.(preventReload := None), FireRouteEvents(s))
    else
      var s1 := ClearCaches(s);
      var v := RenderCurrentView(s1);
      assert v.state.(endpoints := s1.endpoints, dataCache := s1.dataCache, viewCache := s1.viewCache,
                      previousController := s1.previousController) == s1 by { RenderFrame(s1); }
      Run(v.state, Then(FireRouteEvents(s1), v.trace))
  }

  /** Every effect is a route event: nothing was rendered. */
  predicate OnlyRouteEvents(t: Trace<View>) {
    forall i :: 0 <= i < |t.effects| ==> t.effects[i].FireRouteEvent?
  }

  /**
    In hash mode a redirect that prevents the reload is not rendered: the
    hash change it causes finds the guard, clears it and only fires the
    route events.
   */
  lemma GuardedHashRedirectSkipsRender(s: RouterState, path: string, pathParams: Option<Obj<Value>>,
                                       urlParams: Option<Obj<Value>>, address: Obj<Value>)
    requires !s.html5
    ensures var s1 := Redirect(s, Some(path), pathParams, urlParams, true, address).state;
      OnHashChange(s1).state.preventReload.None? && OnlyRouteEvents(OnHashChange(s1).trace)
      && OnHashChange(s1).state == s1.(preventReload := None)
  {
    var p := PreparePath(path, pathParams, urlParams);
    var s1 := Redirect(s, Some(path), pathParams, urlParams, true, address).state;
    assert s1.hash == "#" + p && s1.preventReload == Some(p);
    assert OccursAt(s1.hash, "#", 0);
    assert IndexOf(s1.hash, "#") == 0;
    assert ReplaceFirst(s1.hash, "#", "") == p;
  }

  /**
    In HTML5 mode a reload-preventing redirect to an address without a query
    is not rendered: the pushed path name equals the guard, which the
    history handler clears.
   */
  lemma GuardedHistoryRedirectSkipsRender(s: RouterState, path: string, pathParams: Option<Obj<Value>>,
                                          urlParams: Option<Obj<Value>>, address: Obj<Value>)
    requires s.html5
    requires !Contains(PreparePath(path, pathParams, urlParams), "?")
    ensures var r := Redirect(s, Some(path), pathParams, urlParams, true, address);
      r.state.preventReload.None? && r.trace.Ok()
      && forall i :: 1 <= i < |r.trace.effects| ==> r.trace.effects[i].FireRouteEvent?
  {
  }

  /**
    In HTML5 mode a reload-preventing redirect to an address WITH a query is
    rendered all the same, and the guard stays set: the pushed path name
    lacks the query, so it never equals the guard.
   */
  lemma GuardedHistoryRedirectWithQueryRenders(s: RouterState, path: string, pathParams: Option<Obj<Value>>,
                                               urlParams: Option<Obj<Value>>, address: Obj<Value>)
    requires s.html5
    requires Contains(PreparePath(path, pathParams, urlParams), "?")
    ensures var p := PreparePath(path, pathParams, urlParams);
      var r := Redirect(s, Some(path), pathParams, urlParams, true, address);
      var pushed := ClearCaches(s).(preventReload := Some(p), lastPath := Some(s.pathName),
                                    pathName := BeforeQuery(p), urlParams := address);
      r.state.preventReload == Some(p)
      && r.trace == Then(Done([PushState(p)]), Then(FireRouteEvents(pushed), RenderCurrentView(pushed).trace))
  {
    var p := PreparePath(path, pathParams, urlParams);
    assert BeforeQuery(p) != p;
  }

  // ---------------------------------------------------------------------------
  // the public redirects

  /** `redirectByName`: the first path registered under the name; an unknown name throws before anything changes. */
  function RedirectByName(s: RouterState, name: string, pathParams: Option<Obj<Value>>,
                          urlParams: Option<Obj<Value>>, prevent: bool, address: Obj<Value>): (r: Run)
    ensures ByName(s.endpoints, name).Failure? ==> r == Run(s, Trace([], Some(RouteNameNotExist(name))))
    ensures ByName(s.endpoints, name).Success? ==>
      r == Redirect(s, Some(ByName(s.endpoints, name).value), pathParams, urlParams, prevent, address)
  {
    match ByName(s.endpoints, name)
    case Failure(e) => Run(s, Trace([], Some(e)))
    case Success(p) => Redirect(s, Some(p), pathParams, urlParams, prevent, address)
  }

  /**
    `redirectController`: redirects, without parameters and reloading, to
    the shortest path of the controller; a controller with no path does
    nothing.
   */
  function RedirectController(s: RouterState, controller: string, address: Obj<Value>): (r: Run)
    ensures (forall i :: 0 <= i < |s.endpoints| ==> s.endpoints[i].1.controller != Some(controller)) ==>
      r == Run(s, Done([]))
    ensures FindClosest(s.endpoints, controller).Some? ==>
      r == Redirect(s, Some(FindClosest(s.endpoints, controller).value.pathValue), Some([]), Some([]), false, address)
  {
    match FindClosest(s.endpoints, controller)
    case None => Run(s, Done([]))
    case Some(e) => Redirect(s, Some(e.pathValue), Some([]), Some([]), false, address)
  }

  /** In hash mode, redirecting to a controller's parameterless path lands on that path. */
  lemma RedirectControllerLands(s: RouterState, controller: string, address: Obj<Value>)
    requires !s.html5 && Valid(s.endpoints)
    requires FindClosest(s.endpoints, controller).Some?
    ensures var e := FindClosest(s.endpoints, controller).value;
      RedirectController(s, controller, address).state.hash
        == "#" + PreparePath(e.pathValue, Some([]), Some([]))
      && RedirectController(s, controller, address).state.preventReload == s.preventReload
  {
  }

  // ---------------------------------------------------------------------------
  // setPathParams / setURLParams

  /** One step of `setPathParams`: a truthy current value is replaced by a non-null new one. */
  function OverwriteOne(cur: Obj<Value>, k: string, v: Value): (r: Obj<Value>)
    ensures Keys(r) == Keys(cur)
    ensures DistinctKeys(cur) ==> DistinctKeys(r)
    ensures forall n :: n != k ==> Get(r, n) == Get(cur, n)
  {
    if Truthy(Lookup(cur, k)) && !IsNull(v) then Set(cur, k, v) else cur
  }

  /** The loop of `setPathParams` over the given parameters, in order. */
  function Overwrite(cur: Obj<Value>, upd: Obj<Value>): (r: Obj<Value>)
    ensures Keys(r) == Keys(cur)
    ensures DistinctKeys(cur) ==> DistinctKeys(r)
    decreases |upd|
  {
    if |upd| == 0 then cur else Overwrite(OverwriteOne(cur, upd[0].0, upd[0].1), upd[1..])
  }

  /**
    The value each parameter ends with: the given one exactly when the
    current value is truthy and the given one is neither null nor undefined.
   */
  lemma {:induction false} OverwriteValue(cur: Obj<Value>, upd: Obj<Value>, k: string)
    requires DistinctKeys(upd)
    ensures Lookup(Overwrite(cur, upd), k)
      == if HasKey(upd, k) && Truthy(Lookup(cur, k)) && !IsNull(Lookup(upd, k)) then Lookup(upd, k) else Lookup(cur, k)
    decreases |upd|
  {
    if |upd| > 0 {
      var k0 := upd[0].0;
      var rest := upd[1..];
      assert upd == [upd[0]] + rest;
      GetCons(k0, upd[0].1, rest, k);
      assert DistinctKeys(rest);
      var cur1 := OverwriteOne(cur, k0, upd[0].1);
      OverwriteValue(cur1, rest, k);
      if k == k0 {
        forall j | 0 <= j < |rest| ensures Keys(rest)[j] != k {
          assert rest[j] == upd[j + 1];
        }
        assert !HasKey(rest, k);
      } else {
        assert HasKey(upd, k) <==> HasKey(rest, k);
      }
    }
  }

  /**
    `setPathParams`: the current path parameters are overwritten as above
    and the router redirects to the current path with them and the current
    query, preventing the reload. Without a matched route, reading the data
    of null throws.
   */
  function SetPathParams(s: RouterState, pathParams: Obj<Value>, address: Obj<Value>): (r: Run)
    ensures GetCurrentViewData(s).value.NoMatch? ==>
      !r.trace.Ok() && r.trace.error.value.TypeError? && r.state == GetCurrentViewData(s).state
    ensures GetCurrentViewData(s).value.Match? ==>
      var rd := GetCurrentViewData(s);
      r == Redirect(rd.state, Some(rd.value.endpoint.pathValue),
                    Some(Overwrite(rd.value.data.pathParams, pathParams)), Some(rd.value.data.urlParams), true, address)
  {
    var rd := GetCurrentViewData(s);
    match rd.value
    case NoMatch => Run(rd.state, Trace([], Some(TypeError("reading pathParams of null data"))))
    case Match(e, d) =>
      Redirect(rd.state, Some(e.pathValue), Some(Overwrite(d.pathParams, pathParams)), Some(d.urlParams), true, address)
  }

  /** `setURLParams`'s filter: every parameter except the null ones (undefined ones stay). */
  function KeepNonNull(urlParams: Obj<Value>): (r: Obj<Value>)
    ensures forall i :: 0 <= i < |r| ==> r[i] in urlParams && !r[i].1.Null?
    ensures forall x :: x in urlParams && !x.1.Null? ==> x in r
  {
    Filter(urlParams, (v: Value) => !v.Null?)
  }

  /**
    `setURLParams`: the router redirects to the current path with the
    current path parameters and the given query minus its null values,
    preventing the reload. Without a matched route, writing to the data of
    null throws.
   */
  function SetURLParams(s: RouterState, urlParams: Obj<Value>, address: Obj<Value>): (r: Run)
    ensures GetCurrentViewData(s).value.NoMatch? ==>
      !r.trace.Ok() && r.trace.error.value.TypeError? && r.state == GetCurrentViewData(s).state
    ensures GetCurrentViewData(s).value.Match? ==>
      var rd := GetCurrentViewData(s);
      r == Redirect(rd.state, Some(rd.value.endpoint.pathValue), Some(rd.value.data.pathParams),
                    Some(KeepNonNull(urlParams)), true, address)
  {
    var rd := GetCurrentViewData(s);
    match rd.value
    case NoMatch => Run(rd.state, Trace([], Some(TypeError("setting urlParams of null data"))))
    case Match(e, d) =>
      Redirect(rd.state, Some(e.pathValue), Some(d.pathParams), Some(KeepNonNull(urlParams)), true, address)
  }

  /** In hash mode, changing the path parameters of a matched route does not re-render it. */
  lemma SetPathParamsSkipsRender(s: RouterState, pathParams: Obj<Value>, address: Obj<Value>)
    requires !s.html5 && GetCurrentViewData(s).value.Match?
    ensures var s1 := SetPathParams(s, pathParams, address).state;
      OnlyRouteEvents(OnHashChange(s1).trace) && OnHashChange(s1).state.preventReload.None?
  {
    var rd := GetCurrentViewData(s);
    assert !rd.state.html5;
    GuardedHashRedirectSkipsRender(rd.state, rd.value.endpoint.pathValue,
      Some(Overwrite(rd.value.data.pathParams, pathParams)), Some(rd.value.data.urlParams), address);
  }

  // ---------------------------------------------------------------------------
  // createLink / location

  /**
    `createLink`: in hash mode a path starting `/` gets a `#` in front and
    any other path not starting `#` gets `#/`; then the path parameters and
    the query are applied.
   */
  function CreateLink(html5: bool, path: string, pathParams: Option<Obj<Value>>, urlParams: Option<Obj<Value>>)
    : (r: string)
    ensures !html5 ==> StartsWith(r, "#")
    ensures html5 && (pathParams.None? || !Contains(path, ":")) ==> StartsWith(r, path)
    ensures html5 || StartsWith(path, "#") ==>
      r == PreparePathDottedParams(path, pathParams) + PrepareUrlParams("", urlParams)
    ensures !html5 && StartsWith(path, "/") ==>
      r == PreparePathDottedParams("#" + path, pathParams) + PrepareUrlParams("", urlParams)
    ensures !html5 && !StartsWith(path, "/") && !StartsWith(path, "#") ==>
      r == PreparePathDottedParams("#/" + path, pathParams) + PrepareUrlParams("", urlParams)
  {
    var p1 :=
      if html5 then path
      else if StartsWith(path, "/") then "#" + path
      else if !StartsWith(path, "#") then "#/" + path
      else path;
    var p2 := PreparePathDottedParams(p1, pathParams);
    var r := PrepareUrlParams(p2, urlParams);
    PrepareUrlParamsAppends(p2, urlParams);
    assert !html5 ==> r[0] == '#' by {
      if !html5 {
        PreparePathDottedParamsKeepsHead(p1, pathParams);
        assert r[..|p2|] == p2;
      }
    }
    r
  }

  /**
    In HTML5 mode a link to a rooted path without `#/` is exactly the
    address a redirect to that path navigates to.
   */
  lemma Html5LinkIsRedirectAddress(path: string, pathParams: Option<Obj<Value>>, urlParams: Option<Obj<Value>>)
    requires StartsWith(path, "/") && !Contains(path, "#/")
    ensures CreateLink(true, path, pathParams, urlParams) == PreparePath(path, pathParams, urlParams)
  {
  }

  /**
    In hash mode a link to a plain path, with or without its leading `/`,
    is `#/` followed by the path, and following it makes that path the
    current route.
   */
  lemma CreateLinkRoundTrip(s: RouterState, x: string)
    requires !s.html5 && !Contains(x, ":") && (|x| == 0 || (x[0] != '/' && x[0] != '#'))
    ensures CreateLink(false, "/" + x, None, None) == "#/" + x
    ensures CreateLink(false, x, None, None) == "#/" + x
    ensures GetCurrentRoute(s.(hash := CreateLink(false, x, None, None))) == x
  {
    ColonFree(x);
    assert StartsWith("/" + x, "/");
    assert !StartsWith(x, "/") && !StartsWith(x, "#");
    ColonFree2(x);
    RouteOfHash(s.(hash := "#/" + x), x);
  }

  /** `#` and `#/` in front of a path without `:` keep it free of `:`. */
  lemma ColonFree2(x: string)
    requires !Contains(x, ":")
    ensures !Contains("#" + ("/" + x), ":") && !Contains("#/" + x, ":")
  {
    ColonFree(x);
    var y := "/" + x;
    var z := "#" + y;
    assert z == "#/" + x;
    forall i | 0 <= i <= |z| ensures !OccursAt(z, ":", i) {
      if OccursAt(z, ":", i) {
        assert i > 0;
        assert z[i..i + 1] == y[i - 1..i];
        assert OccursAt(y, ":", i - 1);
      }
    }
  }

  /**
    `location`'s window target: a lower-cased type naming blank, self, parent
    or top becomes that target, tried in that order, so the earliest keyword
    in the list wins whatever its position in the type.
   */
  function WindowTarget(t: string): (r: string)
    ensures r in {"_blank", "_self", "_parent", "_top"} || r == ToLowerAscii(t)
    ensures Contains(ToLowerAscii(t), "blank") ==> r == "_blank"
    ensures !Contains(ToLowerAscii(t), "blank") && Contains(ToLowerAscii(t), "self") ==> r == "_self"
    ensures (!Contains(ToLowerAscii(t), "blank") && !Contains(ToLowerAscii(t), "self")
             && Contains(ToLowerAscii(t), "parent")) ==> r == "_parent"
    ensures (!Contains(ToLowerAscii(t), "blank") && !Contains(ToLowerAscii(t), "self")
             && !Contains(ToLowerAscii(t), "parent") && Contains(ToLowerAscii(t), "top")) ==> r == "_top"
    ensures (!Contains(ToLowerAscii(t), "blank") && !Contains(ToLowerAscii(t), "self")
             && !Contains(ToLowerAscii(t), "parent") && !Contains(ToLowerAscii(t), "top")) ==> r == ToLowerAscii(t)
  {
    var l := ToLowerAscii(t);
    if Contains(l, "blank") then "_blank"
    else if Contains(l, "self") then "_self"
    else if Contains(l, "parent") then "_parent"
    else if Contains(l, "top") then "_top"
    else l
  }

  /** The target does not depend on the case of ASCII letters in the type. */
  lemma WindowTargetIgnoresCase(t: string)
    ensures WindowTarget(t) == WindowTarget(ToLowerAscii(t))
  {
    ToLowerAsciiIdempotent(t);
  }

  /** `"parent self"` names two targets; `self` comes first in the order, so it wins. */
  lemma WindowTargetPrecedence(t: string)
    requires t == "parent self"
    ensures WindowTarget(t) == "_self"
  {
    var l := ToLowerAscii(t);
    LowerFixed(t);
    NoFirstChar(t, "blank");
    assert OccursAt(l, "self", 7);
  }

  /** The target is already normal: normalising it again changes nothing. */
  lemma WindowTargetIdempotent(t: string)
    ensures WindowTarget(WindowTarget(t)) == WindowTarget(t)
  {
    var l := ToLowerAscii(t);
    ToLowerAsciiIdempotent(t);
    if Contains(l, "blank") {
      TargetFixed("_blank");
    } else if Contains(l, "self") {
      TargetFixed("_self");
    } else if Contains(l, "parent") {
      TargetFixed("_parent");
    } else if Contains(l, "top") {
      TargetFixed("_top");
    }
  }

  /** Each of the four targets normalises to itself. */
  lemma TargetFixed(name: string)
    requires name in {"_blank", "_self", "_parent", "_top"}
    ensures WindowTarget(name) == name
  {
    if name == "_blank" {
      BlankFixed();
    } else if name == "_self" {
      SelfFixed();
    } else if name == "_parent" {
      ParentFixed();
    } else {
      TopFixed();
    }
  }

  lemma BlankFixed()
    ensures WindowTarget("_blank") == "_blank"
  {
    LowerFixed("_blank");
    assert OccursAt("_blank", "blank", 1);
  }

  lemma SelfFixed()
    ensures WindowTarget("_self") == "_self"
  {
    LowerFixed("_self");
    NoFirstChar("_self", "blank");
    assert OccursAt("_self", "self", 1);
  }

  lemma ParentFixed()
    ensures WindowTarget("_parent") == "_parent"
  {
    LowerFixed("_parent");
    NoFirstChar("_parent", "blank");
    NoFirstChar("_parent", "self");
    assert OccursAt("_parent", "parent", 1);
  }

  lemma TopFixed()
    ensures WindowTarget("_top") == "_top"
  {
    LowerFixed("_top");
    NoFirstChar("_top", "blank");
    NoFirstChar("_top", "self");
    NoWord("_top", "parent");
    assert OccursAt("_top", "top", 1);
  }

  /** A string without upper-case ASCII letters is its own lower case. */
  lemma {:induction false} LowerFixed(s: string)
    requires forall i :: 0 <= i < |s| ==> !('A' <= s[i] <= 'Z')
    ensures ToLowerAscii(s) == s
  {
    if |s| > 0 {
      LowerFixed(s[1..]);
    }
  }

  /** A string without the word's first character does not contain the word. */
  lemma NoFirstChar(s: string, w: string)
    requires |w| > 0 && forall i :: 0 <= i < |s| ==> s[i] != w[0]
    ensures !Contains(s, w)
  {
    forall i | 0 <= i <= |s| ensures !OccursAt(s, w, i) {
      if i + |w| <= |s| {
        assert s[i..i + |w|][0] == s[i];
      }
    }
  }

  /** A shorter string does not contain a longer word. */
  lemma NoWord(s: string, w: string)
    requires |s| < |w|
    ensures !Contains(s, w)
  {
  }

  /**
    `location`: clears both caches; a truthy type opens the URL in a window
    with the normalised target, otherwise the page navigates to the URL.
   */
  function Location(s: RouterState, url: string, redirectType: Option<string>): (r: Run)
    ensures r.state == ClearCaches(s)
    ensures redirectType.Some? && redirectType.value != "" ==>
      r.trace == Done([OpenWindow(url, WindowTarget(redirectType.value))])
    ensures redirectType.None? || redirectType.value == "" ==> r.trace == Done([SetLocation(url)])
  {
    var s0 := ClearCaches(s);
    match redirectType
    case Some(t) => if t != "" then Run(s0, Done([OpenWindow(url, WindowTarget(t))])) else Run(s0, Done([SetLocation(url)]))
    case None => Run(s0, Done([SetLocation(url)]))
  }

  // ---------------------------------------------------------------------------
  // __registerRouter

  /**
    `__registerRouter`: nothing without `routingEnabled`; an empty routing
    configuration throws `ROUTING_ENABLED_NOT_DEFINED`; in hash mode a hash
    not starting `#/` is reset to `#/`; then the current view renders.
   */
  function RegisterRouter(s: RouterState, routingEnabled: bool, routingDefined: bool): (r: Run)
    ensures !routingEnabled ==> r == Run(s, Done([]))
    ensures routingEnabled && !routingDefined ==> r == Run(s, Trace([], Some(RoutingEnabledNotDefined)))
    ensures routingEnabled && routingDefined && !s.html5 && !StartsWith(s.hash, "#/") ==>
      |r.trace.effects| > 0 && r.trace.effects[0] == SetHash("#/")
      && r.trace == Then(Done([SetHash("#/")]), RenderCurrentView(s.(hash := "#/")).trace)
    ensures routingEnabled && routingDefined && (s.html5 || StartsWith(s.hash, "#/")) ==> r == RenderCurrentView(s)
  {
    if !routingEnabled then Run(s, Done([]))
    else if !routingDefined then Run(s, Trace([], Some(RoutingEnabledNotDefined)))
    else if !s.html5 && !StartsWith(s.hash, "#/") then
      var v := RenderCurrentView(s.(hash := "#/"));
      Run(v.state, Then(Done([SetHash("#/")]), v.trace))
    else RenderCurrentView(s)
  }

  /**
    In hash mode, registering with a hash that lacks `#/` is setting the hash
    to `#/` and then registering with it: the reset is not repeated.
   */
  lemma RegisterRouterResetsOnce(s: RouterState)
    requires !s.html5 && !StartsWith(s.hash, "#/")
    ensures var again := RegisterRouter(s.(hash := "#/"), true, true);
      again == RenderCurrentView(s.(hash := "#/"))
      && RegisterRouter(s, true, true) == Run(again.state, Then(Done([SetHash("#/")]), again.trace))
  {
    assert StartsWith("#/", "#/") by { assert "#/"[..2] == "#/"; }
  }

  /**
    In hash mode, registration with a stale hash lands on the root: the
    rendered state keeps the hash `#/`, whose route is empty, and which stale
    hash it was makes no difference.
   */
  lemma RegisterRouterLandsOnRoot(s: RouterState, h: string)
    requires !s.html5 && !StartsWith(s.hash, "#/") && !StartsWith(h, "#/")
    ensures RegisterRouter(s, true, true).state.hash == "#/"
    ensures GetCurrentRoute(RegisterRouter(s, true, true).state) == ""
    ensures RegisterRouter(s.(hash := h), true, true) == RegisterRouter(s, true, true)
  {
    var s0 := s.(hash := "#/");
    RenderFrame(s0);
    var st := RegisterRouter(s, true, true).state;
    assert st == RenderCurrentView(s0).state;
    assert st.hash == "#/" + "" && !st.html5;
    RouteOfHash(st, "");
    assert s.(hash := h).(hash := "#/") == s0;
  }

  /** In hash mode, after registration the route is the root: the reset hash reads back as the empty route. */
  lemma RegisteredHashIsRoot(s: RouterState)
    requires !s.html5 && !StartsWith(s.hash, "#/")
    ensures GetCurrentRoute(s.(hash := "#/")) == ""
  {
    RouteOfHash(s.(hash := "#/"), "");
  }
}
