/**
  The router's endpoint table: registration (`__pathFunction`,
  `__registerPath`), route names (`__routeNameExist`, `__initRouteFunctions`,
  `byName`) and the controller lookup used by `redirectController`.

  The table is a JavaScript object iterated with `for..in`, so it is kept as
  an insertion-ordered association list.
 */
module RouterRegistry {
  import opened Wrappers
  import opened JsString
  import opened JsValue
  import opened Errors
  import opened RouterPattern

  /** `__routeName`: absent, a name, or a function whose result `__initRouteFunctions` stores. */
  datatype RouteName = NoName | Named(name: string) | Deferred(result: string)

  /** One routing endpoint. `routingParams` is carried through untouched and is not modelled. */
  datatype Endpoint = Endpoint(
    pathValue: string,
    controller: Option<string>,
    defaultController: Option<string>,
    modal: Option<string>,
    onRouteEvent: Option<string>,
    pattern: PathPattern,
    routeName: RouteName,
    isModal: bool)

  /** `__endpoints`, in insertion order. */
  type Endpoints = Obj<Endpoint>

  /** The object passed to `path(value, object)` or `other(object)`. */
  datatype PathObject = PathObject(
    controller: Option<string>,
    onRoute: Option<string>,
    name: RouteName,
    modal: Option<string>,
    defaultController: Option<string>)

  /** `isEmpty` on an optional string: absent, or only white space. */
  predicate IsEmptyText(o: Option<string>) {
    o.None? || IsBlank(o.value)
  }

  /** The text of a plain route name. */
  function NameText(n: RouteName): string {
    if n.Named? then n.name else ""
  }

  /** The endpoint `__registerPath` stores for a path. */
  function NewEndpoint(pathValue: string, obj: PathObject): Endpoint {
    Endpoint(pathValue, obj.controller, obj.defaultController, obj.modal, obj.onRoute,
             CreatePathPattern(pathValue), obj.name, !IsEmptyText(obj.modal))
  }

  /**
    What registration maintains: one entry per path, each entry's pattern
    compiled from its own key and its modal flag derived from its modal, and
    no two patterns colliding.
   */
  predicate Valid(t: Endpoints) {
    DistinctKeys(t)
    && (forall i :: 0 <= i < |t| ==>
          t[i].1.pathValue == t[i].0 && t[i].1.pattern == CreatePathPattern(t[i].0)
          && t[i].1.isModal == !IsEmptyText(t[i].1.modal))
    && (forall i, j :: 0 <= i < j < |t| ==> !Collide(t[i].1.pattern, t[j].1.pattern))
  }

  // ---------------------------------------------------------------------------
  // __routeNameExist / __pathPatternExist

  /** `__routeNameExist`: only an entry stored under the same path, with that name, counts. */
  function RouteNameExist(t: Endpoints, current: string, name: string): (r: bool)
    ensures r <==> exists i :: 0 <= i < |t| && t[i].0 == current && t[i].1.routeName == Named(name)
    ensures r ==> HasKey(t, current)
  {
    if |t| == 0 then false
    else if t[0].0 == current && t[0].1.routeName == Named(name) then true
    else
      var rest := RouteNameExist(t[1..], current, name);
      assert rest ==> exists i :: 0 <= i < |t| && t[i].0 == current && t[i].1.routeName == Named(name) by {
        if rest {
          var i :| 0 <= i < |t[1..]| && t[1..][i].0 == current && t[1..][i].1.routeName == Named(name);
          assert t[i + 1] == t[1..][i];
        }
      }
      assert HasKey(t, current) <== rest by {
        if rest { assert Keys(t[1..]) == Keys(t)[1..]; }
      }
      rest
  }

  /** `__pathPatternExist`: some stored pattern collides with the new one. */
  function PatternExist(t: Endpoints, p: PathPattern): (r: bool)
    ensures r <==> exists i :: 0 <= i < |t| && Collide(t[i].1.pattern, p)
  {
    if |t| == 0 then false
    else if Collide(t[0].1.pattern, p) then true
    else
      var rest := PatternExist(t[1..], p);
      assert rest <==> exists i :: 0 <= i < |t| && Collide(t[i].1.pattern, p) by {
        if rest {
          var i :| 0 <= i < |t[1..]| && Collide(t[1..][i].1.pattern, p);
          assert t[i + 1] == t[1..][i];
        } else {
          forall i | 0 <= i < |t| ensures !Collide(t[i].1.pattern, p) {
            if i > 0 { assert t[i] == t[1..][i - 1]; }
          }
        }
      }
      rest
  }

  // ---------------------------------------------------------------------------
  // __registerPath / __pathFunction / __otherFunction

  /**
    The error a colliding pattern actually raises: the arguments for
    `PATH_PATTERN_ALREADY_EXIST` are built with `pathPattern.join("")`, but
    `pathPattern` is the `{pattern, pathParams}` object, not an array.
   */
  const JoinNotAFunction := TypeError("pathPattern.join is not a function")

  /**
    `__registerPath`: a path already present throws `PATH_ALREADY_EXIST`;
    the route-name check (when enabled) only looks at the entry under the
    same path; a colliding pattern throws a `TypeError` while building the
    error's arguments; otherwise the endpoint is appended.
   */
  function RegisterPath(t: Endpoints, pathValue: string, obj: PathObject, checkNames: bool): (r: Result<Endpoints, Error>)
    ensures HasKey(t, pathValue) ==> r == Failure(PathAlreadyExist(pathValue))
    ensures !HasKey(t, pathValue) && PatternExist(t, CreatePathPattern(pathValue)) ==>
      r == Failure(JoinNotAFunction)
    ensures r.Success? <==> !HasKey(t, pathValue) && !PatternExist(t, CreatePathPattern(pathValue))
    ensures r.Success? ==> r.value == t + [(pathValue, NewEndpoint(pathValue, obj))]
    ensures r.Success? && Valid(t) ==> Valid(r.value)
  {
    if HasKey(t, pathValue) then Failure(PathAlreadyExist(pathValue))
    else if checkNames && obj.name.Named? && obj.name.name != "" && RouteNameExist(t, pathValue, obj.name.name) then
      Failure(Error.RouteNameExist(NameText(obj.name)))
    else
      var pattern := CreatePathPattern(pathValue);
      if PatternExist(t, pattern) then Failure(JoinNotAFunction)
      else
        var r := t + [(pathValue, NewEndpoint(pathValue, obj))];
        assert Valid(t) ==> Valid(r) by {
          if Valid(t) { AppendKeepsValid(t, pathValue, obj); }
        }
        Success(r)
  }

  /**
    What registration evidently means to do with a colliding pattern: throw
    `PATH_PATTERN_ALREADY_EXIST` for the path. Everything else is as
    `RegisterPath` does it.
   */
  function RegisterPathIntended(t: Endpoints, pathValue: string, obj: PathObject, checkNames: bool)
    : (r: Result<Endpoints, Error>)
    ensures HasKey(t, pathValue) ==> r == Failure(PathAlreadyExist(pathValue))
    ensures !HasKey(t, pathValue) && PatternExist(t, CreatePathPattern(pathValue)) ==>
      r == Failure(PathPatternAlreadyExist(pathValue))
    ensures r.Success? <==> RegisterPath(t, pathValue, obj, checkNames).Success?
    ensures r.Success? ==> r == RegisterPath(t, pathValue, obj, checkNames)
    ensures r != RegisterPath(t, pathValue, obj, checkNames) <==>
      !HasKey(t, pathValue) && PatternExist(t, CreatePathPattern(pathValue))
  {
    if !HasKey(t, pathValue) && PatternExist(t, CreatePathPattern(pathValue)) then
      Failure(PathPatternAlreadyExist(pathValue))
    else RegisterPath(t, pathValue, obj, checkNames)
  }

  /**
    `/a/:x` and then `/a/:y`: the second registration collides, and it
    throws the `TypeError`, not `PATH_PATTERN_ALREADY_EXIST`, which only the
    intended definition raises.
   */
  lemma PatternCollisionThrowsTypeError(a: string, x: string, y: string, p: PathObject, q: PathObject, checkNames: bool)
    requires PlainSegment(a) && x != y
    requires forall i :: 0 <= i < |x| ==> x[i] != '/' && x[i] != '?'
    requires forall i :: 0 <= i < |y| ==> y[i] != '/' && y[i] != '?'
    ensures RegisterPath([], "/" + a + "/:" + x, p, checkNames).Success?
    ensures var t1 := RegisterPath([], "/" + a + "/:" + x, p, checkNames).value;
      RegisterPath(t1, "/" + a + "/:" + y, q, checkNames) == Failure(JoinNotAFunction)
      && RegisterPathIntended(t1, "/" + a + "/:" + y, q, checkNames) == Failure(PathPatternAlreadyExist("/" + a + "/:" + y))
  {
    PlaceholderNamesCollide(a, x, y);
    DistinctPlaceholders(a, x, y);
    SecondCollides("/" + a + "/:" + x, "/" + a + "/:" + y, p, q, checkNames);
  }

  /** Into an empty table, the first of two distinct paths whose patterns collide registers, and the second collides. */
  lemma SecondCollides(px: string, py: string, p: PathObject, q: PathObject, checkNames: bool)
    requires px != py && Collide(CreatePathPattern(px), CreatePathPattern(py))
    ensures RegisterPath([], px, p, checkNames) == Success([(px, NewEndpoint(px, p))])
    ensures var t1 := [(px, NewEndpoint(px, p))];
      RegisterPath(t1, py, q, checkNames) == Failure(JoinNotAFunction)
      && RegisterPathIntended(t1, py, q, checkNames) == Failure(PathPatternAlreadyExist(py))
  {
    FirstRegisters(px, p, checkNames);
    var t1 := [(px, NewEndpoint(px, p))];
    assert !HasKey(t1, py) by { assert Keys(t1) == [px]; }
    assert PatternExist(t1, CreatePathPattern(py)) by { assert Collide(t1[0].1.pattern, CreatePathPattern(py)); }
  }

  /** Any path registers into an empty table. */
  lemma FirstRegisters(px: string, p: PathObject, checkNames: bool)
    ensures RegisterPath([], px, p, checkNames) == Success([(px, NewEndpoint(px, p))])
  {
    var t: Endpoints := [];
    assert Keys(t) == [];
    assert t + [(px, NewEndpoint(px, p))] == [(px, NewEndpoint(px, p))];
  }

  /** Different placeholder names give different paths. */
  lemma DistinctPlaceholders(a: string, x: string, y: string)
    requires x != y
    ensures "/" + a + "/:" + x != "/" + a + "/:" + y
  {
    var px := "/" + a + "/:" + x;
    var py := "/" + a + "/:" + y;
    assert px[|a| + 3..] == x && py[|a| + 3..] == y;
  }

  lemma AppendKeys(t: Endpoints, k: string, e: Endpoint)
    ensures Keys(t + [(k, e)]) == Keys(t) + [k]
  {
  }

  lemma AppendKeepsValid(t: Endpoints, pathValue: string, obj: PathObject)
    requires Valid(t) && !HasKey(t, pathValue) && !PatternExist(t, CreatePathPattern(pathValue))
    ensures Valid(t + [(pathValue, NewEndpoint(pathValue, obj))])
  {
    var e := NewEndpoint(pathValue, obj);
    AppendDistinct(t, pathValue, e);
    AppendFields(t, pathValue, obj);
    AppendNoCollide(t, pathValue, e);
  }

  lemma AppendDistinct(t: Endpoints, k: string, e: Endpoint)
    requires DistinctKeys(t) && !HasKey(t, k)
    ensures DistinctKeys(t + [(k, e)])
  {
    AppendKeys(t, k, e);
  }

  lemma AppendFields(t: Endpoints, pathValue: string, obj: PathObject)
    requires forall i :: 0 <= i < |t| ==>
      t[i].1.pathValue == t[i].0 && t[i].1.pattern == CreatePathPattern(t[i].0)
      && t[i].1.isModal == !IsEmptyText(t[i].1.modal)
    ensures var r := t + [(pathValue, NewEndpoint(pathValue, obj))];
      forall i :: 0 <= i < |r| ==>
        r[i].1.pathValue == r[i].0 && r[i].1.pattern == CreatePathPattern(r[i].0)
        && r[i].1.isModal == !IsEmptyText(r[i].1.modal)
  {
    var r := t + [(pathValue, NewEndpoint(pathValue, obj))];
    forall i | 0 <= i < |r|
      ensures r[i].1.pathValue == r[i].0 && r[i].1.pattern == CreatePathPattern(r[i].0)
      ensures r[i].1.isModal == !IsEmptyText(r[i].1.modal)
    {
      if i < |t| { assert r[i] == t[i]; }
    }
  }

  lemma AppendNoCollide(t: Endpoints, k: string, e: Endpoint)
    requires forall i, j :: 0 <= i < j < |t| ==> !Collide(t[i].1.pattern, t[j].1.pattern)
    requires forall i :: 0 <= i < |t| ==> !Collide(t[i].1.pattern, e.pattern)
    ensures var r := t + [(k, e)];
      forall i, j :: 0 <= i < j < |r| ==> !Collide(r[i].1.pattern, r[j].1.pattern)
  {
    var r := t + [(k, e)];
    forall i, j | 0 <= i < j < |r| ensures !Collide(r[i].1.pattern, r[j].1.pattern) {
      assert r[i] == t[i];
      if j < |t| { assert r[j] == t[j]; }
    }
  }

  /** The route-name check can never fire: the path it looks for was rejected just before. */
  lemma RouteNameCheckUnreachable(t: Endpoints, pathValue: string, obj: PathObject, checkNames: bool)
    ensures forall n :: RegisterPath(t, pathValue, obj, checkNames) != Failure(Error.RouteNameExist(n))
  {
  }

  /** Enabling the route-name check changes nothing. */
  lemma RouteNameCheckIsInert(t: Endpoints, pathValue: string, obj: PathObject)
    ensures RegisterPath(t, pathValue, obj, true) == RegisterPath(t, pathValue, obj, false)
  {
  }

  /**
    `__pathFunction`: an empty path or a missing object throws
    `PATH_DEFINITION`; otherwise the path is registered. The optional
    `pathFunctionHandler` hook is not part of the model.
   */
  function PathFunction(t: Endpoints, pathValue: Option<string>, obj: Option<PathObject>, checkNames: bool)
    : (r: Result<Endpoints, Error>)
    ensures IsEmptyText(pathValue) || obj.None? ==> r == Failure(PathDefinition)
    ensures !IsEmptyText(pathValue) && obj.Some? ==> r == RegisterPath(t, pathValue.value, obj.value, checkNames)
  {
    if IsEmptyText(pathValue) || obj.None? then Failure(PathDefinition)
    else RegisterPath(t, pathValue.value, obj.value, checkNames)
  }

  /** `__otherFunction`: the `other` endpoint is the path `!`. */
  function OtherFunction(t: Endpoints, obj: Option<PathObject>, checkNames: bool): (r: Result<Endpoints, Error>)
    ensures obj.None? ==> r == Failure(PathDefinition)
    ensures r.Success? ==> Get(r.value, OtherwisePath) == Some(NewEndpoint(OtherwisePath, obj.value))
  {
    assert !IsBlank(OtherwisePath) by { assert !IsJsWhitespace(OtherwisePath[0]); }
    var r := PathFunction(t, Some(OtherwisePath), obj, checkNames);
    assert r.Success? ==> Get(r.value, OtherwisePath) == Some(NewEndpoint(OtherwisePath, obj.value)) by {
      if r.Success? {
        var i := |t|;
        assert r.value[i] == (OtherwisePath, NewEndpoint(OtherwisePath, obj.value));
        assert Keys(r.value) == Keys(t) + [OtherwisePath];
        KeyIndexUnique(Keys(r.value), OtherwisePath, i);
      }
    }
    r
  }

  /** Registering a path twice always fails the second time, whatever the objects. */
  lemma RegisterTwiceFails(t: Endpoints, pathValue: string, a: PathObject, b: PathObject, checkNames: bool)
    requires RegisterPath(t, pathValue, a, checkNames).Success?
    ensures RegisterPath(RegisterPath(t, pathValue, a, checkNames).value, pathValue, b, checkNames)
         == Failure(PathAlreadyExist(pathValue))
  {
    var t1 := RegisterPath(t, pathValue, a, checkNames).value;
    assert Keys(t1)[|t|] == pathValue;
  }

  // ---------------------------------------------------------------------------
  // __initRouteFunctions / byName

  /** A route name after `__initRouteFunctions`: a function is replaced by its result. */
  function Resolved(n: RouteName): RouteName {
    if n.Deferred? then Named(n.result) else n
  }

  /** `__initRouteFunctions`: every function-valued route name is replaced by its result. */
  function InitRouteFunctions(t: Endpoints): (r: Endpoints)
    ensures |r| == |t| && Keys(r) == Keys(t)
    ensures forall i :: 0 <= i < |r| ==> !r[i].1.routeName.Deferred?
    ensures forall i :: 0 <= i < |r| ==> r[i].1.routeName == Resolved(t[i].1.routeName)
    ensures forall i :: 0 <= i < |r| ==> r[i].1.(routeName := NoName) == t[i].1.(routeName := NoName)
  {
    if |t| == 0 then []
    else
      var rest := InitRouteFunctions(t[1..]);
      var r := [(t[0].0, t[0].1.(routeName := Resolved(t[0].1.routeName)))] + rest;
      assert forall i :: 1 <= i < |r| ==> r[i] == rest[i - 1];
      assert Keys(r) == Keys(t) by {
        assert Keys(r)[1..] == Keys(rest);
        assert Keys(t)[1..] == Keys(t[1..]);
      }
      r
  }

  /** Resolving route names keeps the table invariant: route names play no part in it. */
  lemma InitRouteFunctionsKeepsValid(t: Endpoints)
    requires Valid(t)
    ensures Valid(InitRouteFunctions(t))
  {
    RouteNamesPlayNoPart(t, InitRouteFunctions(t));
  }

  /** A table that differs from a valid one only in its route names is valid. */
  lemma RouteNamesPlayNoPart(t: Endpoints, r: Endpoints)
    requires Valid(t) && |r| == |t| && Keys(r) == Keys(t)
    requires forall i :: 0 <= i < |r| ==> r[i].1.(routeName := NoName) == t[i].1.(routeName := NoName)
    ensures Valid(r)
  {
    forall i | 0 <= i < |r|
      ensures r[i].0 == t[i].0 && r[i].1.pathValue == t[i].1.pathValue && r[i].1.pattern == t[i].1.pattern
      ensures r[i].1.isModal == t[i].1.isModal && r[i].1.modal == t[i].1.modal
    {
      assert Keys(r)[i] == Keys(t)[i];
      assert r[i].1.(routeName := NoName) == t[i].1.(routeName := NoName);
    }
    assert DistinctKeys(r);
    forall i, j | 0 <= i < j < |r| ensures !Collide(r[i].1.pattern, r[j].1.pattern) {
      assert !Collide(t[i].1.pattern, t[j].1.pattern);
    }
  }

  /** Resolving route names twice is resolving them once. */
  lemma InitRouteFunctionsIdempotent(t: Endpoints)
    ensures InitRouteFunctions(InitRouteFunctions(t)) == InitRouteFunctions(t)
  {
    var r := InitRouteFunctions(t);
    var r2 := InitRouteFunctions(r);
    forall i | 0 <= i < |r| ensures r2[i] == r[i] {
      assert r2[i].0 == r[i].0 by { assert Keys(r2)[i] == Keys(r)[i]; }
      assert r2[i].1.(routeName := NoName) == r[i].1.(routeName := NoName);
    }
  }

  /** Entry `i` is the first, in insertion order, named `name`. */
  predicate FirstNamed(t: Endpoints, name: string, i: int) {
    0 <= i < |t| && t[i].1.routeName == Named(name) && forall j :: 0 <= j < i ==> t[j].1.routeName != Named(name)
  }

  /**
    `byName`: the first path, in insertion order, whose route name equals the
    given one; none throws `ROUTE_NAME_NOT_EXIST`.
   */
  function ByName(t: Endpoints, name: string): (r: Result<string, Error>)
    ensures r.Failure? <==> forall i :: 0 <= i < |t| ==> t[i].1.routeName != Named(name)
    ensures r.Failure? ==> r.error == RouteNameNotExist(name)
    ensures r.Success? ==> exists i :: FirstNamed(t, name, i) && t[i].0 == r.value
  {
    if |t| == 0 then Failure(RouteNameNotExist(name))
    else if t[0].1.routeName == Named(name) then Success(t[0].0)
    else
      var rest := ByName(t[1..], name);
      assert forall i :: 1 <= i < |t| ==> t[i] == t[1..][i - 1];
      assert rest.Success? ==> exists i :: FirstNamed(t, name, i) && t[i].0 == rest.value by {
        if rest.Success? {
          var i :| FirstNamed(t[1..], name, i) && t[1..][i].0 == rest.value;
          assert t[i + 1] == t[1..][i];
          forall j | 0 <= j < i + 1 ensures t[j].1.routeName != Named(name) {
            if j > 0 { assert t[j] == t[1..][j - 1]; }
          }
        }
      }
      rest
  }

  /**
    Two different paths may carry the same route name: both register, and
    `byName` answers with the first.
   */
  lemma SameNameBothRegister(t: Endpoints, p1: string, p2: string, a: PathObject, b: PathObject, n: string)
    requires forall i :: 0 <= i < |t| ==> t[i].1.routeName != Named(n)
    requires a.name == Named(n) && b.name == Named(n)
    requires RegisterPath(t, p1, a, true).Success?
    requires !HasKey(t, p2) && p2 != p1
    requires !PatternExist(t, CreatePathPattern(p2)) && !Collide(CreatePathPattern(p1), CreatePathPattern(p2))
    ensures RegisterPath(RegisterPath(t, p1, a, true).value, p2, b, true).Success?
    ensures ByName(RegisterPath(RegisterPath(t, p1, a, true).value, p2, b, true).value, n) == Success(p1)
  {
    var t1 := RegisterPath(t, p1, a, true).value;
    assert t1 == t + [(p1, NewEndpoint(p1, a))];
    AppendKeys(t, p1, NewEndpoint(p1, a));
    assert !HasKey(t1, p2);
    assert !PatternExist(t1, CreatePathPattern(p2)) by {
      forall i | 0 <= i < |t1| ensures !Collide(t1[i].1.pattern, CreatePathPattern(p2)) {
        if i < |t| { assert t1[i] == t[i]; }
      }
    }
    var t2 := RegisterPath(t1, p2, b, true).value;
    assert t2 == t1 + [(p2, NewEndpoint(p2, b))];
    assert FirstNamed(t2, n, |t|) by {
      assert t2[|t|] == (p1, NewEndpoint(p1, a));
      forall j | 0 <= j < |t| ensures t2[j].1.routeName != Named(n) {
        assert t2[j] == t[j];
      }
    }
    var r := ByName(t2, n);
    if r.Success? {
      var i :| FirstNamed(t2, n, i) && t2[i].0 == r.value;
      assert i == |t|;
    }
  }

  // ---------------------------------------------------------------------------
  // findClosestControllerEndpointForController

  /** The number of tokens in an endpoint's pattern. */
  function Length(e: Endpoint): nat {
    |e.pattern.pattern|
  }

  /**
    `findClosestControllerEndpointForController`: among the endpoints whose
    controller is the given one, one with the fewest tokens; none gives null.
   */
  function FindClosest(t: Endpoints, controller: string): (r: Option<Endpoint>)
    ensures r.None? <==> forall i :: 0 <= i < |t| ==> t[i].1.controller != Some(controller)
    ensures r.Some? ==> exists i :: 0 <= i < |t| && t[i].1 == r.value && r.value.controller == Some(controller)
    ensures r.Some? ==> forall i :: 0 <= i < |t| && t[i].1.controller == Some(controller) ==> Length(r.value) <= Length(t[i].1)
  {
    if |t| == 0 then None
    else
      var rest := FindClosest(t[1..], controller);
      assert forall i :: 1 <= i < |t| ==> t[i] == t[1..][i - 1];
      if t[0].1.controller == Some(controller) && (rest.None? || Length(t[0].1) <= Length(rest.value)) then
        Some(t[0].1)
      else
        assert rest.Some? ==> exists i :: 0 <= i < |t| && t[i].1 == rest.value && rest.value.controller == Some(controller) by {
          if rest.Some? {
            var i :| 0 <= i < |t[1..]| && t[1..][i].1 == rest.value && rest.value.controller == Some(controller);
            assert t[i + 1] == t[1..][i];
          }
        }
        rest
  }
}
