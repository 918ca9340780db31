/**
  The router's view resolution: the current route, the matcher
  (`__getCurrentViewData`), the two single-slot caches, the view object
  (`__getCurrentView`) and the render dispatch (`__renderCurrentView`).

  The browser location is abstract: the router state holds the path name,
  the hash and the query parameters as the environment supplies them.
 */
module RouterView {
  import opened Wrappers
  import opened JsString
  import opened JsValue
  import opened Errors
  import opened RouterPattern
  import opened RouterRegistry
  import opened AppSystem

  /**
    The fields `__getCurrentView` writes onto the view object.
    `rendersModal` tells what `__onRouteEventWithModal` is: a function that
    renders the modal (matched route) or the plain route callback (the
    otherwise route).
   */
  datatype ViewFields = ViewFields(
    controller: Option<string>,
    defaultController: Option<string>,
    modal: Option<string>,
    isModal: bool,
    onRouteEvent: Option<string>,
    rendersModal: bool)

  /** `__getPathData`'s object; `view` holds the fields a later `__getCurrentView` wrote onto it. */
  datatype PathData = PathData(urlParams: Obj<Value>, pathParams: Obj<Value>, view: Option<ViewFields>)

  /** `{endpoint, data}`: both null when nothing matched. */
  datatype ViewData = NoMatch | Match(endpoint: Endpoint, data: PathData)

  /** What `__getCurrentView` returns: the fields, on the path data when a route matched. */
  datatype View = View(fields: ViewFields, data: Option<PathData>)

  /** A cache slot's value with the route that was current when it was stored. */
  datatype Cached<T> = Cached(value: T, route: string)

  datatype RouterState = RouterState(
    endpoints: Endpoints,
    html5: bool,                       // `__routerHTML5Mode`
    pathName: string,                  // `getPathName()`
    hash: string,                      // `window.location.hash`
    urlParams: Obj<Value>,             // `__getURLParams()`
    preventReload: Option<string>,     // `__preventReloadPage`
    lastPath: Option<string>,          // `__lastPath`
    events: Obj<Option<string>>,       // `__events`
    viewCache: Option<Cached<View>>,
    dataCache: Option<Cached<ViewData>>,
    previousController: Option<string>,
    controllers: Obj<Module>,          // `app.controller`
    modals: Obj<Module>,               // `app.modal`
    env: RenderEnv)

  /** A transition's new state and its result. */
  datatype Read<T> = Read(state: RouterState, value: T)

  /** A transition that may throw: the state reached before the throw, and the result. */
  datatype Step<T> = Step(state: RouterState, result: Result<T, Error>)

  /** A transition that renders: the state reached and the effects performed. */
  datatype Run = Run(state: RouterState, trace: Trace<View>)

  // ---------------------------------------------------------------------------
  // getCurrentRoute and the probe path

  /**
    `getCurrentRoute`: in HTML5 mode the path name, minus its first character
    when its first `/` is at index 1; otherwise the hash with its first `#/`
    removed.
   */
  function GetCurrentRoute(s: RouterState): (r: string)
    ensures s.html5 ==> |r| <= |s.pathName| && r == s.pathName[|s.pathName| - |r|..]
    ensures !s.html5 && !Contains(s.hash, "#/") ==> r == s.hash
    ensures s.html5 ==>
      (if |s.pathName| > 1 && s.pathName[0] != '/' && s.pathName[1] == '/' then r == s.pathName[1..]
       else r == s.pathName)
  {
    if s.html5 then
      assert IndexOf(s.pathName, "/") == 1 <==> |s.pathName| > 1 && s.pathName[0] != '/' && s.pathName[1] == '/' by {
        SlashAtOne(s.pathName);
      }
      if IndexOf(s.pathName, "/") == 1 then s.pathName[1..] else s.pathName
    else ReplaceFirst(s.hash, "#/", "")
  }

  /** The first `/` is at index 1 exactly when the second character is `/` and the first is not. */
  lemma SlashAtOne(p: string)
    ensures IndexOf(p, "/") == 1 <==> |p| > 1 && p[0] != '/' && p[1] == '/'
  {
    if |p| > 0 {
      assert OccursAt(p, "/", 0) <==> p[0] == '/' by { assert p[0..1] == [p[0]]; }
    }
    if |p| > 1 {
      assert OccursAt(p, "/", 1) <==> p[1] == '/' by { assert p[1..2] == [p[1]]; }
    }
  }

  /** The first `/` lies past index 0 exactly when there is a `/` and the first character is not one. */
  lemma SlashAfterStart(p: string)
    ensures IndexOf(p, "/") > 0 <==> |p| > 0 && p[0] != '/' && '/' in p
  {
    if |p| > 0 {
      assert OccursAt(p, "/", 0) <==> p[0] == '/' by { assert p[0..1] == [p[0]]; }
    }
    if '/' in p {
      var k :| 0 <= k < |p| && p[k] == '/';
      assert p[k..k + 1] == [p[k]];
      assert OccursAt(p, "/", k);
    }
    var r := IndexOf(p, "/");
    if r > 0 {
      assert p[r..r + 1] == "/";
      assert p[r] == '/';
    }
  }

  /** In HTML5 mode a path name that starts with `/` is its own route. */
  lemma RouteOfPathName(s: RouterState)
    requires s.html5 && |s.pathName| > 0 && s.pathName[0] == '/'
    ensures GetCurrentRoute(s) == s.pathName
  {
  }

  /** The hash `#/` followed by a route reads back as that route. */
  lemma RouteOfHash(s: RouterState, route: string)
    requires !s.html5 && s.hash == "#/" + route
    ensures GetCurrentRoute(s) == route
  {
    assert OccursAt(s.hash, "#/", 0);
    assert IndexOf(s.hash, "#/") == 0;
    assert s.hash[2..] == route;
  }

  /**
    The path `__getCurrentViewData` compiles: the hash without a leading
    `#/`, or the path name, given a leading `/` when its first `/` comes later.
   */
  function ProbePath(s: RouterState): (r: string)
    ensures !s.html5 ==> s.hash == r || s.hash == "#/" + r
    ensures s.html5 ==> r == s.pathName || r == "/" + s.pathName
    ensures s.html5 && |s.pathName| > 0 && s.pathName[0] == '/' ==> r == s.pathName
    ensures s.html5 && '/' !in s.pathName ==> r == s.pathName
    ensures s.html5 && |s.pathName| > 0 && s.pathName[0] != '/' && '/' in s.pathName ==> r == "/" + s.pathName
  {
    if !s.html5 then (if StartsWith(s.hash, "#/") then s.hash[2..] else s.hash)
    else
      assert IndexOf(s.pathName, "/") > 0 <==> |s.pathName| > 0 && s.pathName[0] != '/' && '/' in s.pathName by {
        SlashAfterStart(s.pathName);
      }
      if IndexOf(s.pathName, "/") > 0 then "/" + s.pathName
      else s.pathName
  }

  /** The compiled current route. */
  function Probe(s: RouterState): seq<string> {
    CreatePathPattern(ProbePath(s)).pattern
  }

  /** In HTML5 mode the extra `/` makes no difference: the probe is the path name's pattern. */
  lemma ProbeOfPathName(s: RouterState)
    requires s.html5
    ensures Probe(s) == CreatePathPattern(s.pathName).pattern
  {
    LeadingSlashIgnored(s.pathName);
  }

  /** In hash mode, with a hash starting `#/`, the probe path is the current route. */
  lemma ProbeIsRoute(s: RouterState)
    requires !s.html5 && StartsWith(s.hash, "#/")
    ensures ProbePath(s) == GetCurrentRoute(s)
  {
    RouteOfHash(s, s.hash[2..]);
    assert s.hash == "#/" + s.hash[2..];
  }

  // ---------------------------------------------------------------------------
  // caches

  /** The hit rule of both caches: a value is stored and the route DIFFERS from the stored one. */
  predicate CacheHit<T>(c: Option<Cached<T>>, route: string) {
    c.Some? && route != c.value.route
  }

  /** `__clearCacheViewData`: both slots emptied; nothing else changes. */
  function ClearCaches(s: RouterState): (r: RouterState)
    ensures r.viewCache.None? && r.dataCache.None?
    ensures r.(viewCache := s.viewCache, dataCache := s.dataCache) == s
  {
    s.(viewCache := None, dataCache := None)
  }

  /** With the caches cleared, no lookup hits, whatever the route. */
  lemma ClearedCachesMiss(s: RouterState, route: string)
    ensures !CacheHit(ClearCaches(s).viewCache, route) && !CacheHit(ClearCaches(s).dataCache, route)
  {
  }

  /** Reading on the route a value was stored under recomputes it: the hit rule is inverted. */
  lemma SameRouteMisses<T>(v: T, route: string)
    ensures !CacheHit(Some(Cached(v, route)), route)
    ensures forall other :: other != route ==> CacheHit(Some(Cached(v, route)), other)
  {
  }

  // ---------------------------------------------------------------------------
  // __getCurrentViewData

  /** The first endpoint, in insertion order, whose pattern matches the probe. */
  function FirstMatch(t: Endpoints, probe: seq<string>): (r: Option<nat>)
    ensures r.Some? ==> r.value < |t| && Matches(probe, t[r.value].1.pattern)
    ensures r.Some? ==> forall j :: 0 <= j < r.value ==> !Matches(probe, t[j].1.pattern)
    ensures r.None? ==> forall j :: 0 <= j < |t| ==> !Matches(probe, t[j].1.pattern)
  {
    if |t| == 0 then None
    else if Matches(probe, t[0].1.pattern) then Some(0)
    else
      var rest := FirstMatch(t[1..], probe);
      assert forall j :: 1 <= j < |t| ==> t[j] == t[1..][j - 1];
      if rest.Some? then Some(rest.value + 1) else None
  }

  /** A modal endpoint's controller becomes the previous controller, or its default one when there is none. */
  function ResolveModal(e: Endpoint, previous: Option<string>): (r: Endpoint)
    ensures r.(controller := e.controller) == e
    ensures e.isModal && IsEmptyText(previous) ==> r.controller == e.defaultController
    ensures e.isModal && !IsEmptyText(previous) ==> r.controller == previous
    ensures !e.isModal ==> r == e
  {
    if !e.isModal then e
    else if IsEmptyText(previous) then e.(controller := e.defaultController)
    else e.(controller := previous)
  }

  /**
    `__getCurrentViewData`: a cache hit returns the stored value untouched.
    Otherwise the first matching endpoint (a modal one has its stored
    controller overwritten) with its path data, or nothing, is stored in the
    data cache under the current route and returned.
   */
  function GetCurrentViewData(s: RouterState): (r: Read<ViewData>)
    ensures CacheHit(s.dataCache, GetCurrentRoute(s)) ==> r == Read(s, s.dataCache.value.value)
    ensures r.state.dataCache.Some? && r.state.dataCache.value.value == r.value
    ensures !CacheHit(s.dataCache, GetCurrentRoute(s)) ==> r.state.dataCache.value.route == GetCurrentRoute(s)
    ensures r.state.(endpoints := s.endpoints, dataCache := s.dataCache) == s
    ensures |r.state.endpoints| == |s.endpoints|
    ensures forall i :: 0 <= i < |s.endpoints| ==>
      r.state.endpoints[i].0 == s.endpoints[i].0
      && r.state.endpoints[i].1.(controller := s.endpoints[i].1.controller) == s.endpoints[i].1
    ensures !CacheHit(s.dataCache, GetCurrentRoute(s)) ==>
      (r.value.NoMatch? <==> forall j :: 0 <= j < |s.endpoints| ==> !Matches(Probe(s), s.endpoints[j].1.pattern))
  {
    var route := GetCurrentRoute(s);
    if CacheHit(s.dataCache, route) then Read(s, s.dataCache.value.value)
    else
      var probe := Probe(s);
      match FirstMatch(s.endpoints, probe)
      case None =>
        Read(s.(dataCache := Some(Cached(NoMatch, route))), NoMatch)
      case Some(i) =>
        var e := ResolveModal(s.endpoints[i].1, s.previousController);
        var d := PathData(s.urlParams, PathParams(e.pattern, probe), None);
        var vd := Match(e, d);
        Read(s.(endpoints := s.endpoints[i := (s.endpoints[i].0, e)], dataCache := Some(Cached(vd, route))), vd)
  }

  /**
    On a miss, the match is the first endpoint whose pattern fits the probe;
    it comes back, and is stored, with its controller resolved; its path
    parameters are read off the probe.
   */
  lemma GetCurrentViewDataMatch(s: RouterState)
    requires !CacheHit(s.dataCache, GetCurrentRoute(s))
    requires GetCurrentViewData(s).value.Match?
    ensures FirstMatch(s.endpoints, Probe(s)).Some?
    ensures var i := FirstMatch(s.endpoints, Probe(s)).value;
      var e := ResolveModal(s.endpoints[i].1, s.previousController);
      GetCurrentViewData(s).value == Match(e, PathData(s.urlParams, PathParams(e.pattern, Probe(s)), None))
      && GetCurrentViewData(s).state.endpoints[i] == (s.endpoints[i].0, e)
  {
  }

  /** Two tables that differ at most in their endpoints' controllers. */
  predicate SameButControllers(t: Endpoints, u: Endpoints) {
    |t| == |u|
    && forall i :: 0 <= i < |u| ==> t[i].0 == u[i].0 && t[i].1.(controller := u[i].1.controller) == u[i].1
  }

  /** Validity does not depend on the controllers. */
  lemma SameButControllersKeepsValid(t: Endpoints, u: Endpoints)
    requires Valid(u) && SameButControllers(t, u)
    ensures Valid(t)
  {
    forall i | 0 <= i < |t|
      ensures t[i].0 == u[i].0 && t[i].1.pathValue == u[i].1.pathValue && t[i].1.pattern == u[i].1.pattern
      ensures t[i].1.isModal == u[i].1.isModal && t[i].1.modal == u[i].1.modal
    {
      var x := t[i].1.(controller := u[i].1.controller);
      assert x == u[i].1;
    }
  }

  /** Overwriting controllers keeps the table valid. */
  lemma ControllerOverwriteKeepsValid(s: RouterState)
    requires Valid(s.endpoints)
    ensures Valid(GetCurrentViewData(s).state.endpoints)
  {
    SameButControllersKeepsValid(GetCurrentViewData(s).state.endpoints, s.endpoints);
  }

  // ---------------------------------------------------------------------------
  // __getCurrentView

  /** The module registered under a name; a missing name reads the key `undefined`. */
  function ModuleOf(reg: Obj<Module>, name: Option<string>): Option<Module> {
    Get(reg, name.GetOr("undefined"))
  }

  /**
    `__getCurrentView`: a view-cache hit returns the stored view. Otherwise
    the matched route's data gets the endpoint's fields (the controller is
    the previous one only if that data already carried a modal flag);
    without a match the `!` endpoint supplies the fields; without either,
    reading `__isModal` of null throws a TypeError.
   */
  function GetCurrentView(s: RouterState): (r: Step<View>)
    ensures CacheHit(s.viewCache, GetCurrentRoute(s)) ==> r == Step(s, Success(s.viewCache.value.value))
    ensures r.result.Success? && !CacheHit(s.viewCache, GetCurrentRoute(s)) ==>
      r.state.viewCache == Some(Cached(r.result.value, GetCurrentRoute(s)))
    ensures !CacheHit(s.viewCache, GetCurrentRoute(s)) ==>
      var rd := GetCurrentViewData(s);
      (r.result.Failure? <==> rd.value.NoMatch? && !HasKey(rd.state.endpoints, OtherwisePath))
      && (r.result.Failure? ==> r.result.error.TypeError? && r.state == rd.state)
      && (rd.value.NoMatch? && HasKey(rd.state.endpoints, OtherwisePath) ==>
            r.result.Success? && r.result.value.data.None? && !r.result.value.fields.rendersModal
            && r.result.value.fields.controller == Get(rd.state.endpoints, OtherwisePath).value.controller)
      && (rd.value.Match? ==>
            r.result.Success? && r.result.value.fields.rendersModal
            && r.result.value.fields.isModal == rd.value.endpoint.isModal
            && r.result.value.fields.modal == rd.value.endpoint.modal
            && r.result.value.fields.defaultController == rd.value.endpoint.defaultController
            && r.result.value.data == Some(rd.value.data.(view := Some(r.result.value.fields))))
    ensures r.state.endpoints == GetCurrentViewData(s).state.endpoints || CacheHit(s.viewCache, GetCurrentRoute(s))
    ensures r.state.(endpoints := s.endpoints, dataCache := s.dataCache, viewCache := s.viewCache) == s
  {
    var route := GetCurrentRoute(s);
    if CacheHit(s.viewCache, route) then Step(s, Success(s.viewCache.value.value))
    else
      var rd := GetCurrentViewData(s);
      var s1 := rd.state;
      match rd.value
      case NoMatch =>
        (match Get(s1.endpoints, OtherwisePath)
         case None => Step(s1, Failure(TypeError("reading __isModal of null view data")))
         case Some(o) =>
           var v := View(ViewFields(o.controller, o.defaultController, o.modal, o.isModal, o.onRouteEvent, false), None);
           Step(s1.(viewCache := Some(Cached(v, route))), Success(v)))
      case Match(e, d) =>
        var flagged := d.view.Some? && d.view.value.isModal;
        var controller := if flagged && !IsEmptyText(s1.previousController) then s1.previousController else e.controller;
        var f := ViewFields(controller, e.defaultController, e.modal, e.isModal, e.onRouteEvent, true);
        var d1 := d.(view := Some(f));
        var v := View(f, Some(d1));
        // the data cache holds this very object, so it now carries the fields too
        var s2 := s1.(dataCache := Some(Cached(Match(e, d1), s1.dataCache.value.route)),
                      viewCache := Some(Cached(v, route)));
        Step(s2, Success(v))
  }

  /**
    With both caches empty, a matched route's controller is the endpoint's
    resolved one: the default controller for a modal route when there is no
    previous controller.
   */
  lemma FreshViewController(s: RouterState)
    requires s.viewCache.None? && s.dataCache.None?
    requires GetCurrentViewData(s).value.Match?
    ensures GetCurrentView(s).result.Success?
    ensures GetCurrentView(s).result.value.fields.controller == GetCurrentViewData(s).value.endpoint.controller
    ensures GetCurrentViewData(s).value.endpoint.isModal && IsEmptyText(s.previousController) ==>
      GetCurrentView(s).result.value.fields.controller == GetCurrentViewData(s).value.endpoint.defaultController
  {
    GetCurrentViewDataMatch(s);
  }

  // ---------------------------------------------------------------------------
  // __renderCurrentView

  /** Running an optional route callback. */
  function Callback(cb: Option<string>): (r: Trace<View>)
    ensures r.Ok() && |r.effects| <= 1
    ensures cb.Some? ==> r.effects == [UserCallback(cb.value)]
    ensures cb.None? ==> r.effects == []
  {
    if cb.Some? then Done([UserCallback(cb.value)]) else Done([])
  }

  /** `__onRouteEventWithModal` as the controller's after-render callback. */
  function WithModal(s: RouterState, v: View): (r: Trace<View>)
    ensures !v.fields.rendersModal ==>
      r.Ok() && r.effects == (if v.fields.onRouteEvent.Some? then [UserCallback(v.fields.onRouteEvent.value)] else [])
    ensures v.fields.rendersModal && ModuleOf(s.modals, v.fields.modal).None? ==>
      r.effects == [] && r.error == Some(ModuleNotExist)
    ensures v.fields.rendersModal && ModuleOf(s.modals, v.fields.modal).Some?
            && ModuleOf(s.modals, v.fields.modal).value.kind.Modal? ==>
      r.Ok() && r.effects == ModalSteps(ModuleOf(s.modals, v.fields.modal).value, Some(v), s.env)
                             + Callback(v.fields.onRouteEvent).effects
  {
    if v.fields.rendersModal then Render(ModuleOf(s.modals, v.fields.modal), Some(v), Callback(v.fields.onRouteEvent), s.env)
    else Callback(v.fields.onRouteEvent)
  }

  /** `__getPathValueWithoutParams`: the path up to its first `:`. */
  function GetPathValueWithoutParams(p: string): (r: string)
    ensures !Contains(r, ":")
    ensures StartsWith(p, r)
    ensures r == p || p[|r|] == ':'
  {
    var i := IndexOf(p, ":");
    if i >= 0 then
      assert !Contains(p[..i], ":") by { PrefixBeforeFirstFree(p, ":"); }
      assert p[i..i + 1] == ":";
      p[..i]
    else p
  }

  /**
    `__refreshCurrentHyperlinkCache`: re-reads the view data and touches the
    links to the current endpoint's path without parameters; with no
    matched endpoint, reading its path throws a TypeError.
   */
  function RefreshHyperlinkCache(s: RouterState): (r: Run)
    ensures GetCurrentViewData(s).value.NoMatch? <==> !r.trace.Ok()
    ensures r.state == GetCurrentViewData(s).state
    ensures r.trace.Ok() ==>
      r.trace.effects == [RefreshLinks(GetPathValueWithoutParams(GetCurrentViewData(s).value.endpoint.pathValue))]
  {
    var rd := GetCurrentViewData(s);
    match rd.value
    case NoMatch => Run(rd.state, Trace([], Some(TypeError("reading __pathValue of null endpoint"))))
    case Match(e, _) => Run(rd.state, Done([RefreshLinks(GetPathValueWithoutParams(e.pathValue))]))
  }

  /** After a render that did not throw, the previous controller becomes the view's controller. */
  function Finish(s: RouterState, t: Trace<View>, v: View): (r: Run)
    ensures r.trace == t
    ensures t.Ok() ==> r.state == s.(previousController := v.fields.controller)
    ensures !t.Ok() ==> r.state == s
  {
    if t.Ok() then Run(s.(previousController := v.fields.controller), t) else Run(s, t)
  }

  /**
    `__renderCurrentView`: a modal route with no previous controller renders
    the default controller and then, as its callback, the modal; a modal
    route with a previous controller renders only the modal and refreshes
    the hyperlinks; any other route renders its controller. A render that
    throws leaves the previous controller as it was.
   */
  function RenderCurrentView(s: RouterState): (r: Run)
    ensures GetCurrentView(s).result.Failure? ==>
      r == Run(GetCurrentView(s).state, Trace([], Some(GetCurrentView(s).result.error)))
    ensures GetCurrentView(s).result.Success? ==>
      var s1 := GetCurrentView(s).state;
      var v := GetCurrentView(s).result.value;
      (v.fields.isModal && s1.previousController.None? ==>
         r.trace == Render(ModuleOf(s1.controllers, v.fields.defaultController), Some(v), WithModal(s1, v), s1.env))
      && (v.fields.isModal && s1.previousController.Some? ==>
         r.trace == Then(Render(ModuleOf(s1.modals, v.fields.modal), Some(v), Callback(v.fields.onRouteEvent), s1.env),
                         RefreshHyperlinkCache(s1).trace))
      && (!v.fields.isModal ==>
         r.trace == Render(ModuleOf(s1.controllers, v.fields.controller), Some(v), Callback(v.fields.onRouteEvent), s1.env))
      && (r.trace.Ok() ==> r.state.previousController == v.fields.controller)
      && (!r.trace.Ok() ==> r.state.previousController == s.previousController)
  {
    var st := GetCurrentView(s);
    match st.result
    case Failure(e) => Run(st.state, Trace([], Some(e)))
    case Success(v) =>
      var s1 := st.state;
      var f := v.fields;
      if f.isModal then
        if s1.previousController.None? then
          Finish(s1, Render(ModuleOf(s1.controllers, f.defaultController), Some(v), WithModal(s1, v), s1.env), v)
        else
          var t := Render(ModuleOf(s1.modals, f.modal), Some(v), Callback(f.onRouteEvent), s1.env);
          if !t.Ok() then Run(s1, t)
          else
            var refresh := RefreshHyperlinkCache(s1);
            Finish(refresh.state, Then(t, refresh.trace), v)
      else
        Finish(s1, Render(ModuleOf(s1.controllers, f.controller), Some(v), Callback(f.onRouteEvent), s1.env), v)
  }

  /** A controller whose callback renders a modal: the controller is rendered first. */
  lemma ControllerThenModal(c: Module, m: Module, v: View, after: Trace<View>, env: RenderEnv)
    requires c.kind.Controller? && m.kind.Modal? && |env.strayComponents| == 0
    ensures var t := Render(Some(c), Some(v), Render(Some(m), Some(v), after, env), env);
      t.error == after.error && Precedes(t.effects, RenderModule(c.name, Some(v)), RenderModule(m.name, Some(v)))
  {
    var own := ControllerSteps(c, Some(v), env);
    var k := (if c.scrollTop then 1 else 0) + 2 + (if c.checkNetwork then 1 else 0);
    assert own[k] == RenderModule(c.name, Some(v));
    var mine := ModalSteps(m, Some(v), env);
    var j := if m.checkNetwork then 1 else 0;
    assert mine[j] == RenderModule(m.name, Some(v));
    var t := Render(Some(c), Some(v), Render(Some(m), Some(v), after, env), env);
    assert t.effects == own + (mine + after.effects);
    assert t.effects[k] == RenderModule(c.name, Some(v));
    assert t.effects[|own| + j] == RenderModule(m.name, Some(v));
  }

  /**
    A first-ever modal route (no previous controller, caches empty) renders
    the default controller before the modal, and afterwards the default
    controller is the previous controller.
   */
  lemma FirstModalRendersDefaultThenModal(s: RouterState, c: Module, m: Module)
    requires s.viewCache.None? && s.dataCache.None? && s.previousController.None?
    requires GetCurrentViewData(s).value.Match? && GetCurrentViewData(s).value.endpoint.isModal
    requires ModuleOf(s.controllers, GetCurrentViewData(s).value.endpoint.defaultController) == Some(c)
    requires ModuleOf(s.modals, GetCurrentViewData(s).value.endpoint.modal) == Some(m)
    requires c.kind.Controller? && m.kind.Modal? && |s.env.strayComponents| == 0
    ensures var v := GetCurrentView(s).result.value;
      RenderCurrentView(s).trace.Ok()
      && Precedes(RenderCurrentView(s).trace.effects, RenderModule(c.name, Some(v)), RenderModule(m.name, Some(v)))
      && RenderCurrentView(s).state.previousController == GetCurrentViewData(s).value.endpoint.defaultController
  {
    FreshViewController(s);
    var st := GetCurrentView(s);
    var v := st.result.value;
    var s1 := st.state;
    assert s1.controllers == s.controllers && s1.modals == s.modals && s1.env == s.env;
    assert s1.previousController.None?;
    assert v.fields.isModal && v.fields.rendersModal;
    var after := Callback(v.fields.onRouteEvent);
    assert WithModal(s1, v) == Render(Some(m), Some(v), after, s.env);
    ControllerThenModal(c, m, v, after, s.env);
  }

  /** Rendering changes only the endpoints' controllers, the caches and the previous controller. */
  lemma RenderFrame(s: RouterState)
    ensures RenderCurrentView(s).state.(endpoints := s.endpoints, dataCache := s.dataCache,
                                        viewCache := s.viewCache, previousController := s.previousController) == s
  {
    var st := GetCurrentView(s);
    var s1 := st.state;
    assert s1.(endpoints := s.endpoints, dataCache := s.dataCache, viewCache := s.viewCache) == s;
    var r := RenderCurrentView(s);
    if st.result.Failure? {
      assert r.state == s1;
    } else {
      var v := st.result.value;
      if !v.fields.isModal || s1.previousController.None? {
        assert r.state == s1 || r.state == s1.(previousController := v.fields.controller);
      } else {
        var t := Render(ModuleOf(s1.modals, v.fields.modal), Some(v), Callback(v.fields.onRouteEvent), s1.env);
        if !t.Ok() {
          assert r.state == s1;
        } else {
          var s2 := RefreshHyperlinkCache(s1).state;
          assert s2.(endpoints := s1.endpoints, dataCache := s1.dataCache) == s1;
          assert r.state == s2 || r.state == s2.(previousController := v.fields.controller);
        }
      }
    }
  }
}
