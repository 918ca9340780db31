/**
  `app.rest`: interceptor registries, the spinner exclusion list, request
  URL and header preparation, and the string versus cached-data dispatch
  of `get`, `delete`, `update`/`put` and `post`. The request itself is
  handed to the network and is not modelled; this module produces the
  settings object that would be sent.
 */
module Rest {
  import opened Wrappers
  import opened JsString
  import opened JsValue
  import opened Errors
  import opened Util

  // ---------------------------------------------------------------------------
  // interceptor / __invokeInterceptors

  /** An interceptor function, known by an identifier; `None` is a registered `null`/`undefined`. */
  type Fn = Option<string>

  /** `__interceptors` (invoked by name) and `__globalInterceptors` (invoked on every response). */
  datatype Interceptors = Interceptors(named: Obj<Fn>, global: Obj<Fn>)

  /** The slot holds a truthy value. */
  predicate Registered(o: Obj<Fn>, name: string) {
    Get(o, name).Some? && Get(o, name).value.Some?
  }

  /**
    `interceptor`: a name already holding a function in the chosen scope
    throws; otherwise the function is stored there. The other scope is untouched.
   */
  function Interceptor(ic: Interceptors, name: string, f: Fn, isGlobal: bool): (r: Result<Interceptors, Error>)
    ensures r.Failure? <==> Registered(if isGlobal then ic.global else ic.named, name)
    ensures r.Failure? ==> r.error == InterceptorAlreadyRegistered(name)
    ensures r.Success? && isGlobal ==> r.value.named == ic.named && Get(r.value.global, name) == Some(f)
    ensures r.Success? && !isGlobal ==> r.value.global == ic.global && Get(r.value.named, name) == Some(f)
  {
    if isGlobal then
      if Registered(ic.global, name) then Failure(InterceptorAlreadyRegistered(name))
      else Success(ic.(global := Set(ic.global, name, f)))
    else
      if Registered(ic.named, name) then Failure(InterceptorAlreadyRegistered(name))
      else Success(ic.(named := Set(ic.named, name, f)))
  }

  /** A name registered in one scope can still be registered in the other. */
  lemma ScopesIndependent(ic: Interceptors, name: string, f: Fn, g: Fn, isGlobal: bool)
    requires !Registered(ic.named, name) && !Registered(ic.global, name)
    ensures Interceptor(ic, name, f, isGlobal).Success?
    ensures Interceptor(Interceptor(ic, name, f, isGlobal).value, name, g, !isGlobal).Success?
  {
  }

  /** What invoking the interceptors does: call a function, or warn about an unknown name. */
  datatype Step = Invoke(fn: string) | WarnMissing(name: string)

  /** The named interceptors in list order; unknown or empty names only warn. */
  function InvokeNamed(ic: Interceptors, names: seq<string>): (r: seq<Step>)
    ensures |r| == |names|
    ensures forall i :: 0 <= i < |names| ==>
      (if Registered(ic.named, names[i]) then r[i] == Invoke(Get(ic.named, names[i]).value.value)
       else r[i] == WarnMissing(names[i]))
  {
    if |names| == 0 then []
    else
      var s := if Registered(ic.named, names[0]) then Invoke(Get(ic.named, names[0]).value.value)
               else WarnMissing(names[0]);
      [s] + InvokeNamed(ic, names[1..])
  }

  /** Every global interceptor in registration order; calling a `null` one throws. */
  function InvokeGlobal(g: Obj<Fn>): (r: (seq<Step>, Option<Error>))
    ensures r.1.None? <==> forall i :: 0 <= i < |g| ==> g[i].1.Some?
    ensures r.1.None? ==> |r.0| == |g| && forall i :: 0 <= i < |g| ==> r.0[i] == Invoke(g[i].1.value)
    ensures |r.0| <= |g|
  {
    if |g| == 0 then ([], None)
    else match g[0].1
      case None => ([], Some(TypeError("global interceptor " + g[0].0)))
      case Some(f) =>
        var rest := InvokeGlobal(g[1..]);
        assert forall i :: 1 <= i < |g| ==> g[i] == g[1..][i - 1];
        ([Invoke(f)] + rest.0, rest.1)
  }

  /** `__invokeInterceptors`: the named ones in list order (when a list is given), then all global ones. */
  function InvokeInterceptors(ic: Interceptors, names: Option<seq<string>>): (r: (seq<Step>, Option<Error>))
    ensures var named := InvokeNamed(ic, names.GetOr([]));
      |r.0| >= |named| && r.0[..|named|] == named && r.1 == InvokeGlobal(ic.global).1
      && r.0[|named|..] == InvokeGlobal(ic.global).0
  {
    var named := InvokeNamed(ic, names.GetOr([]));
    var global := InvokeGlobal(ic.global);
    assert (named + global.0)[..|named|] == named;
    assert (named + global.0)[|named|..] == global.0;
    (named + global.0, global.1)
  }

  // ---------------------------------------------------------------------------
  // isSpinnerExcluded

  /** `isSpinnerExcluded`: the URL is one of the `spinnerExclude` entries. */
  method IsSpinnerExcluded(excluded: seq<string>, url: string) returns (r: bool)
    ensures r <==> url in excluded
  {
    var i := 0;
    while i < |excluded|
      invariant 0 <= i <= |excluded|
      invariant url !in excluded[..i]
    {
      if url == excluded[i] {
        return true;
      }
      assert excluded[..i + 1] == excluded[..i] + [excluded[i]];
      i := i + 1;
    }
    assert excluded[..i] == excluded;
    return false;
  }

  // ---------------------------------------------------------------------------
  // __getDelete / __postPut: URL and headers

  /** The URL a request goes to, and whether a warning about empty path params was issued. */
  datatype PreparedUrl = PreparedUrl(url: string, warned: bool)

  /**
    Path params are applied only when present; a URL that then holds
    `/undefined` or `/null` is reported and stripped of them; query params
    are appended only when present.
   */
  function PrepareRequestUrl(url: string, pathParams: Option<Obj<Value>>, urlParams: Option<Obj<Value>>): (r: PreparedUrl)
    ensures pathParams.None? ==> !r.warned
    ensures pathParams.None? && urlParams.None? ==> r.url == url
    ensures !Contains(url, ":") && !Contains(url, "/undefined") && !Contains(url, "/null")
      ==> r.url == PrepareUrlParams(url, urlParams) && !r.warned
    ensures pathParams.None? ==> r.url == PrepareUrlParams(url, urlParams)
    ensures pathParams.Some? ==>
      var bound := PreparePathDottedParams(url, pathParams);
      (r.warned <==> Contains(bound, "/undefined") || Contains(bound, "/null"))
      && r.url == PrepareUrlParams(RemoveUndefinedPathParams(bound), urlParams)
  {
    var withPath := if pathParams.Some? then PreparePathDottedParams(url, pathParams) else url;
    var bad := pathParams.Some? && (Contains(withPath, "/undefined") || Contains(withPath, "/null"));
    var cleaned := if bad then RemoveUndefinedPathParams(withPath) else withPath;
    PreparedUrl(if urlParams.Some? then PrepareUrlParams(cleaned, urlParams) else cleaned, bad)
  }

  /**
    A path parameter that is undefined leaves `/undefined` in the URL, which
    is reported and cut out together with its slash.
   */
  lemma UndefinedPathParamIsStripped(a: string, k: string, b: string)
    requires !Contains(a, ":")
    requires !Contains(a, "/undefined") && !Contains(b, "/undefined") && !Contains(a + b, "/null")
    ensures PrepareRequestUrl(a + "/:" + k + b, Some([(k, Undefined)]), None) == PreparedUrl(a + b, true)
  {
    var bound := a + "/undefined" + b;
    UndefinedBindsAsText(a, k, b);
    assert Contains(bound, "/undefined") by {
      assert bound[|a|..|a| + |"/undefined"|] == "/undefined";
      assert OccursAt(bound, "/undefined", |a|);
    }
    RemoveOneUndefined(a, b);
  }

  /** Binding an undefined value writes the text `undefined` in place of `:k`. */
  lemma UndefinedBindsAsText(a: string, k: string, b: string)
    requires !Contains(a, ":")
    ensures PreparePathDottedParams(a + "/:" + k + b, Some([(k, Undefined)])) == a + "/undefined" + b
  {
    var head := a + "/";
    SlashKeepsColonFree(a);
    PrepareOneParam(head, k, b, Undefined);
    SameText(a, k, b);
  }

  /** The URL regrouped around its `:`, and the bound text regrouped around the value. */
  lemma SameText(a: string, k: string, b: string)
    ensures a + "/:" + k + b == (a + "/") + ":" + k + b
    ensures (a + "/") + ToStr(Undefined) + b == a + "/undefined" + b
  {
  }

  /** Appending `/` adds no `:`. */
  lemma SlashKeepsColonFree(a: string)
    requires !Contains(a, ":")
    ensures !Contains(a + "/", ":")
  {
    assert "/"[0..1] == "/";
    assert !OccursAt("/", ":", 0) && !OccursAt("/", ":", 1);
    NoCharConcat(a, "/", ':');
  }

  /** The header names the request treats specially. */
  const ContentType := "Content-Type"
  const DataType := "Data-Type"
  const JsonContentType := "application/json; charset=utf-8"
  const JsonDataType := "json"

  /** The parts of the settings object built for `$.ajax`; `None` leaves a setting unset. */
  datatype Settings = Settings(
    url: string,
    verb: string,
    body: Option<string>,
    contentType: Option<Value>,
    dataType: Option<Value>,
    headers: Obj<Value>)

  /** `contentType`: unset for an explicit `null`, the default for a missing or undefined header, else the header (when truthy). */
  function ContentTypeSetting(headers: Obj<Value>): (r: Option<Value>)
    ensures Lookup(headers, ContentType) == Null <==> r.None?
    ensures Lookup(headers, ContentType) == Undefined ==> r == Some(Str(JsonContentType))
    ensures Truthy(Lookup(headers, ContentType)) ==> r == Some(Lookup(headers, ContentType))
  {
    var ct := Lookup(headers, ContentType);
    var contentType := if !IsNullish(ct) then ct else Str(JsonContentType);
    if ct == Null then None
    else Some(if Truthy(ct) then ct else contentType)
  }

  /** `dataType`: unset for an explicit `null`, else the header when given, else `json`. */
  function DataTypeSetting(headers: Obj<Value>): (r: Option<Value>)
    ensures Lookup(headers, DataType) == Null <==> r.None?
    ensures !IsNullish(Lookup(headers, DataType)) ==> r == Some(Lookup(headers, DataType))
    ensures Lookup(headers, DataType) == Undefined ==> r == Some(Str(JsonDataType))
  {
    var dt := Lookup(headers, DataType);
    var dataType := if !IsNullish(dt) then dt else Str(JsonDataType);
    // A given `Data-Type` is blanked before the second test, so `||` falls back to `dataType`.
    var current := if !IsNullish(dt) then Undefined else dt;
    if current == Null then None
    else Some(if Truthy(current) then current else dataType)
  }

  /** The headers sent: `Data-Type` blanked, then every null or undefined entry dropped. */
  function OutgoingHeaders(headers: Obj<Value>): (r: Obj<Value>)
    requires DistinctKeys(headers)
    ensures forall i :: 0 <= i < |r| ==> r[i].0 != DataType && !IsNullish(r[i].1)
    ensures forall i :: 0 <= i < |headers| && headers[i].0 != DataType && !IsNullish(headers[i].1) ==> headers[i] in r
    ensures forall i :: 0 <= i < |r| ==> r[i] in headers
  {
    var blanked := Set(headers, DataType, Undefined);
    var r := Filter(blanked, (v: Value) => !IsNullish(v));
    forall i | 0 <= i < |r| ensures r[i].0 != DataType && r[i] in headers {
      SetEntries(headers, DataType, Undefined, r[i]);
    }
    forall i | 0 <= i < |headers| && headers[i].0 != DataType && !IsNullish(headers[i].1)
      ensures headers[i] in r
    {
      SetKeepsOthers(headers, DataType, Undefined, i);
    }
    r
  }

  /** An entry of `Set(o, k, v)` is `(k, v)` or an entry of `o`. */
  lemma SetEntries(o: Obj<Value>, k: string, v: Value, e: (string, Value))
    requires DistinctKeys(o)
    requires e in Set(o, k, v)
    ensures e.0 == k ==> e.1 == v
    ensures e.0 != k ==> e in o
  {
    var s := Set(o, k, v);
    var j :| 0 <= j < |s| && s[j] == e;
    var i := KeyIndex(Keys(o), k);
    if i < 0 {
      assert s == o + [(k, v)];
      if j < |o| {
        assert Keys(o)[j] == o[j].0;
      }
    } else {
      assert s == o[i := (k, v)];
      assert Keys(o)[i] == k;
      if j != i {
        assert s[j] == o[j];
      }
    }
  }

  lemma SetKeepsOthers(o: Obj<Value>, k: string, v: Value, i: int)
    requires 0 <= i < |o| && o[i].0 != k
    ensures o[i] in Set(o, k, v)
  {
    var j := KeyIndex(Keys(o), k);
    if j < 0 {
      assert Set(o, k, v) == o + [(k, v)];
      assert Set(o, k, v)[i] == o[i];
    } else {
      assert Set(o, k, v) == o[j := (k, v)];
      assert Keys(o)[j] == k;
      assert Set(o, k, v)[i] == o[i];
    }
  }

  /** The request options a caller passes; every field may be absent. */
  datatype Options = Options(
    pathParams: Option<Obj<Value>>,
    headers: Option<Obj<Value>>,
    urlParams: Option<Obj<Value>>,
    interceptors: Option<seq<string>>)

  const NoOptions := Options(None, None, None, None)

  /** `__getDelete` / `__postPut`: the settings of one request. */
  function RequestSettings(url: string, verb: string, body: Option<string>, opts: Options): (r: Settings)
    requires opts.headers.Some? ==> DistinctKeys(opts.headers.value)
    ensures r.url == PrepareRequestUrl(url, opts.pathParams, opts.urlParams).url
    ensures forall i :: 0 <= i < |r.headers| ==> r.headers[i].0 != DataType && !IsNullish(r.headers[i].1)
    ensures opts.headers.None? ==>
      (r.headers == [] && r.contentType == Some(Str(JsonContentType)) && r.dataType == Some(Str(JsonDataType)))
  {
    var h := opts.headers.GetOr([]);
    Settings(PrepareRequestUrl(url, opts.pathParams, opts.urlParams).url, verb, body,
             ContentTypeSetting(h), DataTypeSetting(h), OutgoingHeaders(h))
  }

  // ---------------------------------------------------------------------------
  // get / delete / update / post

  /**
    The first argument: a URL string, or anything else (cached data). A
    string is always a URL, so `CachedData` never holds a `Str`; `Call`
    requires as much.
   */
  datatype Target = Url(url: string) | CachedData(data: Value)

  /** What a call does: send a request, or resolve a cached-data promise at once. */
  datatype Dispatch =
    | Send(settings: Settings)
    | Cached(data: Value, steps: seq<Step>, error: Option<Error>)

  /** The HTTP method of each public entry point. */
  datatype Verb = GET | DELETE | PUT | POST

  function MethodName(v: Verb): string {
    match v
    case GET => "GET"
    case DELETE => "DELETE"
    case PUT => "PUT"
    case POST => "POST"
  }

  /**
    `get`, `delete`, `update`/`put` and `post`: a string target sends a
    request (with a JSON body for `PUT` and `POST`, unless the body is
    undefined); anything else skips the
    request and returns a cached-data promise, which runs the interceptors
    immediately.
   */
  function Call(ic: Interceptors, verb: Verb, target: Target, body: Value, opts: Option<Options>): (r: Dispatch)
    requires opts.Some? && opts.value.headers.Some? ==> DistinctKeys(opts.value.headers.value)
    requires target.CachedData? ==> !target.data.Str?
    ensures target.CachedData? <==> r.Cached?
    ensures r.Cached? ==>
      (r.data == target.data
      && (r.steps, r.error) == InvokeInterceptors(ic, Some(opts.GetOr(NoOptions).interceptors.GetOr([]))))
    ensures r.Send? ==>
      (r.settings.verb == MethodName(verb)
      && (r.settings.body.Some? <==> (verb == PUT || verb == POST) && !body.Undefined?)
      && (r.settings.body.Some? ==> r.settings.body.value == JsonText(body)))
  {
    var o := opts.GetOr(NoOptions);
    match target
    case Url(u) =>
      // `JSON.stringify(undefined)` is undefined, and `$.ajax` then sends no body.
      var b := if (verb == PUT || verb == POST) && !body.Undefined? then Some(JsonText(body)) else None;
      Send(RequestSettings(u, MethodName(verb), b, o))
    case CachedData(d) =>
      var (steps, err) := InvokeInterceptors(ic, Some(o.interceptors.GetOr([])));
      Cached(d, steps, err)
  }
}
