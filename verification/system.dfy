/**
  `app.system`: restricted-name filtering, the render dispatcher with the
  fixed order of a controller or modal render, and static template names.

  A render does no DOM work here: it emits a trace of effects. The
  after-render callback is given as the trace it produces when run, so a
  callback that renders a modal is just another render's trace.
 */
module AppSystem {
  import opened Wrappers
  import opened JsString
  import opened Errors

  // ---------------------------------------------------------------------------
  // __filterRestrictedNames

  /** The names that would shadow a registry's own functions. */
  const RestrictedNames: set<string> := {"list", "add", "register", "get", "extend", "inherits"}

  /** `__filterRestrictedNames`: throws `RESTRICTED_NAME` exactly for the restricted names. */
  function FilterRestrictedNames(name: string): (r: Outcome<Error>)
    ensures r.Fail? <==> name in RestrictedNames
    ensures r.Fail? ==> r.error == RestrictedName(name)
  {
    var invalid :=
      match name
      case "list" => true
      case "add" => true
      case "register" => true
      case "get" => true
      case "extend" => true
      case "inherits" => true
      case _ => false;
    if invalid then Fail(RestrictedName(name)) else Pass
  }

  // ---------------------------------------------------------------------------
  // render

  /** The `__type` of a module object. */
  datatype ModuleType = Controller | Modal | OtherType(tag: string)

  /** A controller or modal object as far as rendering is concerned. */
  datatype Module = Module(name: string, kind: ModuleType, scrollTop: bool, checkNetwork: bool)

  /** What a render does, in order. `D` is the type of the initial data. */
  datatype Effect<D> =
    | ScrollTop
    | InvalidateModals
    | CheckNetwork
    | ClearSelectorsCache
    | RenderModule(name: string, data: Option<D>)
    | RenderEvent
    | UserCallback(id: string)
    | RefreshLinks(prefix: string)
    | FireRouteEvent(event: string, route: string)
    | SetHash(hash: string)
    | PushState(path: string)
    | OpenWindow(url: string, target: string)
    | SetLocation(url: string)
    | Warn(message: Error)

  /** The effects performed, and the error that stopped the run, if any. */
  datatype Trace<D> = Trace(effects: seq<Effect<D>>, error: Option<Error>) {
    predicate Ok() { error.None? }
  }

  function Done<D(==)>(effects: seq<Effect<D>>): Trace<D> {
    Trace(effects, None)
  }

  /** Runs `a`, then `b` unless `a` threw. */
  function Then<D(==)>(a: Trace<D>, b: Trace<D>): (r: Trace<D>)
    ensures a.Ok() ==> r == Trace(a.effects + b.effects, b.error)
    ensures !a.Ok() ==> r == a
  {
    if a.error.Some? then a else Trace(a.effects + b.effects, b.error)
  }

  /** The DOM and event state a render consults. */
  datatype RenderEnv = RenderEnv(
    onRenderHandler: bool,          // `app.events.onRender` is set
    strayComponents: seq<string>)   // `component` elements left unrendered, in document order

  /** `e` occurs in `t` before `f`. */
  predicate Precedes<D(==)>(t: seq<Effect<D>>, e: Effect<D>, f: Effect<D>) {
    exists i, j :: 0 <= i < j < |t| && t[i] == e && t[j] == f
  }

  function Opt<D(==)>(c: bool, e: Effect<D>): seq<Effect<D>> {
    if c then [e] else []
  }

  /** The modal's own steps: no modal invalidation and no selector-cache clearing. */
  function ModalSteps<D(==)>(m: Module, data: Option<D>, env: RenderEnv): seq<Effect<D>> {
    Opt(m.checkNetwork, CheckNetwork) + [RenderModule(m.name, data)] + Opt(env.onRenderHandler, RenderEvent)
  }

  /** `__renderModal`: render, fire `onRender`, then run the callback; modals are never invalidated. */
  function RenderModal<D(==)>(m: Module, data: Option<D>, after: Trace<D>, env: RenderEnv): (r: Trace<D>)
    ensures InvalidateModals !in ModalSteps(m, data, env) && ClearSelectorsCache !in ModalSteps(m, data, env)
    ensures RenderModule(m.name, data) in ModalSteps(m, data, env)
    ensures env.onRenderHandler ==> Precedes(r.effects, RenderModule(m.name, data), RenderEvent)
    ensures r == Trace(ModalSteps(m, data, env) + after.effects, after.error)
  {
    var own := ModalSteps(m, data, env);
    var c := if m.checkNetwork then 1 else 0;
    assert own[c] == RenderModule(m.name, data);
    assert env.onRenderHandler ==> own[c + 1] == RenderEvent;
    var r := Trace(own + after.effects, after.error);
    assert r.effects[..|own|] == own;
    r
  }

  /** The controller's own steps, up to and including the component check. */
  function ControllerSteps<D(==)>(m: Module, data: Option<D>, env: RenderEnv): seq<Effect<D>> {
    Opt(m.scrollTop, ScrollTop) + [InvalidateModals] + Opt(m.checkNetwork, CheckNetwork)
    + [ClearSelectorsCache, RenderModule(m.name, data)] + Opt(env.onRenderHandler, RenderEvent)
  }

  /**
    `__renderController`: invalidate modals, clear the selector cache, render,
    fire `onRender`, check that no component is left, then run the callback.
    A stray component throws before the callback runs.
   */
  function RenderController<D(==)>(m: Module, data: Option<D>, after: Trace<D>, env: RenderEnv): (r: Trace<D>)
    ensures Precedes(r.effects, InvalidateModals, ClearSelectorsCache)
    ensures Precedes(r.effects, ClearSelectorsCache, RenderModule(m.name, data))
    ensures env.onRenderHandler ==> Precedes(r.effects, RenderModule(m.name, data), RenderEvent)
    ensures |env.strayComponents| > 0 ==>
      r.error == Some(ComponentNotDeclaredInComponents(env.strayComponents[0])) && r.effects == ControllerSteps(m, data, env)
    ensures |env.strayComponents| == 0 ==>
      r.error == after.error && r.effects == ControllerSteps(m, data, env) + after.effects
  {
    var own := ControllerSteps(m, data, env);
    var k := if m.scrollTop then 1 else 0;
    var c := if m.checkNetwork then 1 else 0;
    assert own[k] == InvalidateModals;
    assert own[k + 1 + c] == ClearSelectorsCache;
    assert own[k + 2 + c] == RenderModule(m.name, data);
    assert env.onRenderHandler ==> own[k + 3 + c] == RenderEvent;
    var r :=
      if |env.strayComponents| > 0 then Trace(own, Some(ComponentNotDeclaredInComponents(env.strayComponents[0])))
      else Trace(own + after.effects, after.error);
    assert r.effects[..|own|] == own;
    r
  }

  /**
    `render`: a missing module throws `MODULE_NOT_EXIST`; a controller or a
    modal is rendered by its own routine; any other type does nothing.
   */
  function Render<D(==)>(m: Option<Module>, data: Option<D>, after: Trace<D>, env: RenderEnv): (r: Trace<D>)
    ensures m.None? ==> r == Trace([], Some(ModuleNotExist))
    ensures m.Some? && m.value.kind.Controller? ==> r == RenderController(m.value, data, after, env)
    ensures m.Some? && m.value.kind.Modal? ==> r == RenderModal(m.value, data, after, env)
    ensures m.Some? && m.value.kind.OtherType? ==> r == Done([])
  {
    match m
    case None => Trace([], Some(ModuleNotExist))
    case Some(mod) =>
      match mod.kind
      case Controller => RenderController(mod, data, after, env)
      case Modal => RenderModal(mod, data, after, env)
      case OtherType(_) => Done([])
  }

  // ---------------------------------------------------------------------------
  // __getStaticTemplateName

  const TemplatePrefix := "@template/"

  /** `__getStaticTemplateName`. */
  function GetStaticTemplateName(name: string): (r: string)
    ensures StartsWith(r, TemplatePrefix) && |r| == |TemplatePrefix| + |name|
  {
    TemplatePrefix + name
  }

  /** The template name a static template key was made from, if it is one. */
  function TemplateNameOf(key: string): Option<string> {
    if StartsWith(key, TemplatePrefix) then Some(key[|TemplatePrefix|..]) else None
  }

  /** Static template keys decode back to their names, so distinct names never share a key. */
  lemma StaticTemplateRoundTrip(name: string)
    ensures TemplateNameOf(GetStaticTemplateName(name)) == Some(name)
  {
    assert GetStaticTemplateName(name)[|TemplatePrefix|..] == name;
  }

  lemma StaticTemplateInjective(a: string, b: string)
    requires GetStaticTemplateName(a) == GetStaticTemplateName(b)
    ensures a == b
  {
    StaticTemplateRoundTrip(a);
    StaticTemplateRoundTrip(b);
  }

  // ---------------------------------------------------------------------------
  // __throwErrorAndWarn

  /** `__throwErrorAndWarn`: the error is thrown first, so the warning is never issued. */
  function ThrowErrorAndWarn<D(==)>(e: Error): (r: Trace<D>)
    ensures !r.Ok() && r.error == Some(e)
    ensures forall i :: 0 <= i < |r.effects| ==> !r.effects[i].Warn?
  {
    Then(Trace([], Some(e)), Done([Warn(e)]))
  }
}
