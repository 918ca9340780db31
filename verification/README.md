# spike-framework core in Dafny

This project models the client-side core of the spike framework, a
single-page application framework written in JavaScript. The model covers:

- the **router** (`app.router`). This includes registering endpoints under
  path patterns, compiling paths to patterns, and matching the current hash
  or pathname against them. It also covers the view/data caches, rendering
  the matched controller and modal, redirects and their reload guard, route
  events, path/URL parameter edits, links, `location`, and `redirectController`.
- the utilities it relies on (`app.util.System`): `isNull`, `isEmpty`,
  `tryParseNumber`, `preparePathDottedParams`, `removeUndefinedPathParams`,
  `prepareUrlParams`, `bindStringParams`.
- application events (`app.events`), the system's restricted names and
  render steps (`app.system`), translations (`app.message`), the REST layer's
  interceptors and request settings (`app.rest`), and the abstract, service
  and enumerator registries.

JavaScript values are a small `Value` datatype (`JsValue`). Objects are
association lists that keep insertion order. Strings are `seq<char>`, and
`String.prototype.replace` with a string pattern is modelled as replacing the
first occurrence only (`JsString.ReplaceFirst`). Throws become `Failure`
results of an `Error` datatype. Side effects are recorded in order as
`Effect`s in a `Trace`: rendering a module, firing a route event, a warning,
pushing history, setting the hash or location, opening a window. Browser state
is part of `RouterState`: the hash, pathname, and whether HTML5 history is
used. The browser's `hashchange` and the source's patched `pushState` become
explicit transitions (`OnHashChange`, `OnHistoryChange`).

Several behaviours of the code are kept as written, because the model follows
the code:

- **Cache hit rule.** `__getCurrentView` and `__getCurrentViewData` reuse a
  cache entry only when its stored route *differs* from the current route
  (router.js lines 641 and 718). A repeated visit to the same route
  therefore always recomputes.
- **Unreachable route-name check.** The route-name uniqueness check in
  `__registerPath` can never fire, because it looks for the very path that
  was rejected just before.
- **Pattern collisions.** Patterns are compared by their tokens joined
  without a separator, so `/ab/c` collides with `/a/bc`. A collision throws
  a `TypeError`, not `PATH_PATTERN_ALREADY_EXIST`: the error's arguments are
  built with `pathPattern.join("")` on the pattern object (see Findings).
- **`setPathParams` overwrites only truthy values.** A parameter whose
  current value is `0` or `""` is never replaced.
- **`register(name, object)` stores `undefined`.** The service registry stores
  its third argument; a second argument that is not an array of abstracts is
  dropped, so the documented two-argument call stores `undefined`
  (see Findings).
- **The reload guard in HTML5 mode.** The guard that `redirect` sets is
  compared with the pathname without its query. A redirect to a path with a
  query therefore renders anyway and leaves the guard in place.

Module layout: `Wrappers`, `Errors`, `JsValue`, `JsString`, `Util`,
`AppSystem`, `AppEvents`, `Message`, `Rest`, `Abstracts`, `Services`,
`Enumerators`, `RouterPattern`, `RouterRegistry`, `RouterView`,
`RouterNavigation`. The `add` wrappers of the service and enumerator
registries are `Services.Add` and `Enumerators.Add`. They delegate to `Register`, just as the
source does, and carry no property of their own.

## Model

| member | source | states |
|---|---|---|
| Util.IsNull | src/singletons/util.js:299-307 | holds exactly for `undefined` and `null`, and a null value is never truthy |
| Util.IsEmpty | src/singletons/util.js:220-234 | holds for `undefined` and `null`, for a string exactly when all its characters are white space, and for no other value |
| Util.EmptyExtendsNull | src/singletons/util.js:220-234 | everything `isNull` accepts is empty, and beyond that exactly the strings made only of white space are |
| Util.TryParseNumber | src/singletons/util.js:244-266 | blank, non-numeric and exponent-bearing text comes back unchanged; otherwise the result is a float exactly when the text is not integral; integral text longer than one character that starts with `0` stays text, and any other integral text gives `parseInt`'s result |
| Util.TryParseNumberCanonicalInt | src/singletons/util.js:244-266 | the decimal text of any integer parses back to that integer |
| Util.TryParseNumberLeadingZero | src/singletons/util.js:252-256 | `"042"` is kept as text because of its leading zero |
| Util.TryParseNumberZeroFraction | src/singletons/util.js:252-256 | `"0.0"` is integral but starts with `0`, so it stays text |
| Util.TryParseNumberDropsFraction | src/singletons/util.js:252-258 | `"12.0"` is integral, so `parseInt` turns it into 12 and the fraction is lost |
| Util.TryParseNumberOddities | src/singletons/util.js:244-258 | `"1e5"` stays text; `".0"` is integral, so `parseInt` yields NaN |
| Util.SortDesc | src/singletons/util.js:329 | the parameter keys are a permutation of the input in descending code-point order |
| Util.InsertDescSorted | src/singletons/util.js:329 | inserting one key into a descending list keeps it descending |
| Util.LongerKeyFirst | src/singletons/util.js:329-333 | a key that extends another key is replaced before it, so `:idx` is bound before `:id` |
| Util.SortDescPair | src/singletons/util.js:329 | two distinct keys are ordered with the larger one first |
| Util.PreparePathDottedParams | src/singletons/util.js:323-337 | null params or a URL with no `:` come back unchanged |
| Util.PreparePathDottedParamsKeepsHead | src/singletons/util.js:323-337 | binding parameters never changes a URL's first character unless that character is `:` |
| Util.ReplaceDotted | src/singletons/util.js:329-333 | with no `:` in the URL, no key can match and the URL is unchanged |
| Util.PrepareOneParam | src/singletons/util.js:323-337 | with one parameter, the first `:key` in the URL is replaced by the value's string form and the text around it is kept |
| Util.PrepareOneParamExample | src/singletons/util.js:323-337 | `/person/:id` with `{id: v}` becomes `/person/` followed by the string form of `v` |
| Util.PrepareTwoParams | src/singletons/util.js:323-337 | with two parameters whose `:key`s both occur in the URL, each is replaced by its own value, whichever key is sorted first |
| Util.PrepareUrlParams | src/singletons/util.js:365-382 | absent or empty params leave the URL alone, and the result always extends the URL |
| Util.PrepareUrlParamsSnoc | src/singletons/util.js:365-382 | one more parameter appends exactly `?k=v` (first) or `&k=v` (later) to the previous result |
| Util.PrepareUrlParamsAppends | src/singletons/util.js:365-382 | the appended query text is the same whatever URL it is appended to |
| Util.RemoveUndefinedPathParams | src/singletons/util.js:347-349 | a URL without `/undefined` and `/null` is returned unchanged |
| Util.RemoveUndefinedSinglePass | src/singletons/util.js:347-349 | removal is a single pass: `/n/nullull` becomes `/null` |
| Util.RemoveOneUndefined | src/singletons/util.js:347-349 | a URL with one `/undefined` segment and no `/null` loses exactly that segment |
| Util.RemoveOneNull | src/singletons/util.js:347-349 | a URL with one `/null` segment and no `/undefined` loses exactly that segment |
| Util.BindStringParams | src/singletons/util.js:120-151 | a missing or empty string binds to `""`; a string with no `{`, or no params, is returned unchanged |
| Util.BindShortcutIsSound | src/singletons/util.js:120-151 | the early return for strings without `{` agrees with running the replacements |
| Util.BindFirstOccurrenceOnly | src/singletons/util.js:120-151 | only the first `{0}` is bound; the value is JSON-quoted unless stringifying is switched off |
| Util.ReplaceEachWoven | src/singletons/util.js:133-145 | replacing tag after tag in a text of brace-free pieces around those tags puts each replacement in its tag's place |
| Util.BindWoven | src/singletons/util.js:120-151 | for array and map params of any number, a string of brace-free pieces around the params' tags binds to the same pieces around the values' texts |
| AppSystem.FilterRestrictedNames | src/core/system.js:357-386 | throws exactly for the restricted names, with that name in the error |
| AppSystem.ThrowErrorAndWarn | src/core/system.js:550-553 | the error is thrown first, so the trace stops with it and the warning after it is never issued |
| AppSystem.RenderModal | src/core/system.js:580-602 | a modal renders without invalidating modals or clearing the selector cache, and its render precedes the render event |
| AppSystem.RenderController | src/core/system.js:616-652 | a controller invalidates modals, then clears the selector cache, then renders, and the render event follows |
| AppSystem.Render | src/core/system.js:681-693 | a missing module throws; controllers and modals are dispatched to their renderers; other kinds render nothing |
| AppSystem.GetStaticTemplateName | src/core/system.js:999-1001 | the template key is the fixed prefix followed by the name |
| AppSystem.StaticTemplateRoundTrip | src/core/system.js:999-1001 | the name can be read back from its template key |
| AppSystem.StaticTemplateInjective | src/core/system.js:999-1001 | two names never share a template key |
| AppEvents.Register | src/core/events.js:204-212 | fails exactly when the event exists; otherwise it adds the event with no listeners and keeps the bus free of duplicate listeners |
| AppEvents.Listen | src/core/events.js:251-275 | an unknown event or a null callback throws; otherwise the callback is appended unless one with the same text is listening, and other events are untouched |
| AppEvents.ListenIdempotent | src/core/events.js:251-275 | listening twice with the same callback is listening once |
| AppEvents.Broadcast | src/core/events.js:225-233 | an unknown event throws; otherwise every listener is called with the data, in order |
| AppEvents.Destroy | src/core/events.js:286-294 | an unknown event throws; otherwise the event keeps existing with no listeners |
| AppEvents.DestroyKeepsRegistration | src/core/events.js:286-294 | after `destroy` the event cannot be registered again, but can be listened to afresh |
| AppEvents.FunctionName | src/core/events.js:139-166 | a name maps to itself or to its alias's slot, and the result is never itself an alias |
| AppEvents.FunctionNameMatchesAliases | src/core/events.js:139-166 | the six aliases map to their handler slots, and every other name maps to itself |
| AppEvents.FunctionNameIdempotent | src/core/events.js:139-166 | mapping a name twice is mapping it once |
| AppEvents.ExtendOne | src/core/events.js:168-172 | the handler slot of the mapped name gets the callback, and every other handler slot keeps its handler |
| AppEvents.Extend | src/core/events.js:124-130 | handler slots that no entry maps to keep their handlers |
| AppEvents.ExtendLastWins | src/core/events.js:124-130 | the last entry for a slot decides its handler |
| AppEvents.AliasAndSlotCollide | src/core/events.js:124-172 | `render` and `onRender` write the same slot, so the later one wins |
| Message.BindParams | src/core/message.js:146-168 | an empty string binds to `""`; a string without `{`, or with no params, is unchanged |
| Message.BindParamsIsUnstringifiedBind | src/core/message.js:146-168 | message binding is the utility binding with values inserted as plain strings |
| Message.BindParamsSingleValue | src/core/message.js:146-168 | one array value replaces the first `{0}` with its string form |
| Message.Get | src/core/message.js:105-118 | fails exactly when the language has no table; a missing or empty translation falls back to the name with a warning; with params, the text is the translation (or the name) with the params bound as plain strings, or the name when that binding is empty |
| Message.GetFillsTags | src/core/message.js:105-118 | a translation made of brace-free pieces around the params' tags comes back with each value in its tag's place, without a warning |
| Rest.Interceptor | src/rest/rest.js:74-98 | a name already in the chosen scope throws; otherwise only that scope gains the function |
| Rest.ScopesIndependent | src/rest/rest.js:74-98 | the same name can be registered once as named and once as global |
| Rest.InvokeNamed | src/rest/rest.js:116-126 | each listed name calls its interceptor, in list order, or only warns when it is missing |
| Rest.InvokeGlobal | src/rest/rest.js:128-130 | every global interceptor is called in registration order; a null one throws |
| Rest.InvokeInterceptors | src/rest/rest.js:112-132 | the named interceptors run first, then exactly the global ones, which decide the error |
| Rest.IsSpinnerExcluded | src/rest/rest.js:168-178 | true exactly when the URL is on the excluded list |
| Rest.PrepareRequestUrl | src/rest/rest.js:338-355 | without path params only the query is appended and nothing warns; with them, it warns exactly when the bound URL holds `/undefined` or `/null`, and those segments are removed before the query is appended |
| Rest.UndefinedPathParamIsStripped | src/rest/rest.js:338-355 | an undefined path parameter makes the request warn, and its segment is removed together with its slash |
| Rest.ContentTypeSetting | src/rest/rest.js:386-397 | a null content type is omitted, a missing one defaults to JSON, and a truthy one is sent as given |
| Rest.DataTypeSetting | src/rest/rest.js:390-402 | a null data type is omitted, a missing one defaults to JSON, and any other value is used as given |
| Rest.OutgoingHeaders | src/rest/rest.js:404-412 | the sent headers are exactly the non-nullish input headers other than `Data-Type` |
| Rest.RequestSettings | src/rest/rest.js:338-415 | the request URL is the prepared URL; no header is nullish or `Data-Type`; without headers both types default to JSON |
| Rest.Call | src/rest/rest.js:230-476 | a string target sends a request with the verb's method, and a JSON body exactly for PUT and POST with a defined request; anything else runs the interceptors on the cached data, which is never a string, since a string target is always a URL |
| Abstracts.Register | src/singletons/abstract.js:45-57 | restricted and taken names throw; otherwise only the new name gains the abstract |
| Abstracts.Extend | src/singletons/abstract.js:137-139 | succeeds exactly for registered names and applies that name's function |
| Abstracts.ExtendAll | src/singletons/abstract.js:78-100 | succeeds exactly when every non-null entry is registered; it warns once per null entry and applies the functions in list order |
| Abstracts.TryExtend | src/singletons/abstract.js:78-100 | a non-array leaves the object unchanged; with an array, an undefined or null object throws, and otherwise the call succeeds exactly when every named abstract is registered and then applies them in order |
| Abstracts.GetNames | src/singletons/abstract.js:111-125 | every name comes from a non-null entry, and with no nulls there is one name per entry |
| Abstracts.GetNamesAppend | src/singletons/abstract.js:111-125 | names are collected in order, so the names of a concatenation concatenate |
| Abstracts.ApplyNamesAppend | src/singletons/abstract.js:78-100 | extending with two lists in turn is extending with their concatenation |
| Services.Register | src/singletons/service.js:39-47 | restricted names throw; with an array of abstracts, an undefined or null third argument throws; otherwise the (possibly extended) third argument is stored, a second argument that is not an array is dropped, and other services are untouched |
| Services.ReregisterOverwrites | src/singletons/service.js:39-47 | registering a name again replaces the service |
| Services.TwoArgumentRegisterStoresUndefined | src/singletons/service.js:25-47 | the documented two-argument call `register(name, object)` stores `undefined`, where the corrected registration stores the object |
| Services.RegisterIntended | src/singletons/service.js:30-47 | a non-array second argument is itself stored; with an array of abstracts it behaves exactly as `Register`; restricted names still throw |
| Enumerators.Register | src/singletons/enumerator.js:37-39 | the name holds the object, and every other name is untouched |
| Enumerators.LastRegistrationWins | src/singletons/enumerator.js:37-39 | the last registration of a name wins, whatever is registered under other names |
| RouterPattern.BeforeQuery | src/core/router.js:309 | the part before the first `?` is a query-free prefix of the path |
| RouterPattern.CompileSegments | src/core/router.js:311-321 | a placeholder gives one marker and one name; the marker count grows by exactly the names recorded; blank segments give nothing |
| RouterPattern.CompileAppend | src/core/router.js:311-321 | compiling is segment-wise: the pattern of a concatenation is the concatenated patterns |
| RouterPattern.CompileOne | src/core/router.js:313-319 | one segment becomes a marker plus the name with its first `:` removed, itself, or nothing when blank |
| RouterPattern.CreatePathPattern | src/core/router.js:301-325 | there are no more names than tokens, and every token is the marker or a non-blank literal other than the marker |
| RouterPattern.CreatePathPatternIgnoresQuery | src/core/router.js:301-325 | a query never reaches the pattern |
| RouterPattern.LeadingSlashIgnored | src/core/router.js:301-325 | a leading `/` does not change the pattern |
| RouterPattern.LiteralMarkerHasNoName | src/core/router.js:301-325 | a literal `__var__` segment compiles to the marker without recording a name |
| RouterPattern.PlaceholderNamesCollide | src/core/router.js:277-289 | `/a/:x` and `/a/:y` collide: placeholder names play no part |
| RouterPattern.SegmentBoundariesCollide | src/core/router.js:277-289 | `/ab/c` and `/a/bc` collide because tokens are joined with no separator |
| RouterPattern.CheckFrom | src/core/router.js:483-496 | holds exactly when every literal token from the given position on equals the probe's token there |
| RouterPattern.CheckPathIntegrity | src/core/router.js:483-496 | holds exactly when every literal token of the pattern equals the probe's token at its position |
| RouterPattern.PatternMatchesItsInstances | src/core/router.js:740-766 | a pattern matches every path of its length that agrees with it at the literal positions |
| RouterPattern.Assignments | src/core/router.js:567-587 | one assignment per marker, keyed by the placeholder names in order, and by `undefined` once they run out |
| RouterPattern.AssignmentAt | src/core/router.js:567-587 | the k-th assignment holds the parsed probe token at the k-th marker's position |
| RouterPattern.Assign | src/core/router.js:567-587 | keys are unique, exactly the assigned keys appear, and the last assignment to a key wins |
| RouterPattern.PathParams | src/core/router.js:567-587 | the path parameters form an object with unique keys |
| RouterPattern.PathParamsExact | src/core/router.js:567-587 | for a well-formed pattern, each placeholder name maps to the parsed probe token at its marker, and the keys are exactly the names |
| RouterRegistry.RouteNameExist | src/core/router.js:256-268 | holds exactly when an entry stored under the current path carries that name |
| RouterRegistry.PatternExist | src/core/router.js:277-289 | holds exactly when some stored pattern collides with the new one |
| RouterRegistry.RegisterPath | src/core/router.js:180-211 | a duplicate path throws PATH_ALREADY_EXIST; a colliding pattern throws the `TypeError` of `pathPattern.join`; otherwise the endpoint is appended and the table invariant is kept |
| RouterRegistry.RegisterPathIntended | src/core/router.js:194-197 | a colliding pattern throws PATH_PATTERN_ALREADY_EXIST for the path; it differs from `RegisterPath` exactly on colliding patterns and agrees on every success |
| RouterRegistry.PatternCollisionThrowsTypeError | src/core/router.js:194-197 | registering `/a/:x` and then `/a/:y` throws the `TypeError`, where the intended definition throws PATH_PATTERN_ALREADY_EXIST |
| RouterRegistry.AppendKeepsValid | src/core/router.js:199-209 | appending a fresh, non-colliding endpoint keeps keys unique and every stored pattern equal to its path's pattern |
| RouterRegistry.RouteNameCheckUnreachable | src/core/router.js:180-190 | registration never fails with a route-name error |
| RouterRegistry.RouteNameCheckIsInert | src/core/router.js:180-190 | switching the route-name check on changes no outcome |
| RouterRegistry.PathFunction | src/core/router.js:146-160 | an empty path or a missing object throws; otherwise the path is registered |
| RouterRegistry.OtherFunction | src/core/router.js:119-121 | a missing object throws; on success the `!` endpoint holds the object |
| RouterRegistry.RegisterTwiceFails | src/core/router.js:182-184 | the second registration of a path always fails |
| RouterRegistry.InitRouteFunctions | src/core/router.js:213-226 | each deferred route name becomes its result, and nothing else changes |
| RouterRegistry.InitRouteFunctionsKeepsValid | src/core/router.js:213-226 | resolving route names keeps the table invariant |
| RouterRegistry.InitRouteFunctionsIdempotent | src/core/router.js:213-226 | resolving route names twice is resolving them once |
| RouterRegistry.ByName | src/core/router.js:235-247 | fails exactly when no endpoint carries the name; otherwise it returns the path of the first such endpoint |
| RouterRegistry.SameNameBothRegister | src/core/router.js:180-247 | two paths with the same route name both register, and the name resolves to the first |
| RouterRegistry.FindClosest | src/core/router.js:1171-1192 | absent exactly when no endpoint names the controller; otherwise an endpoint of that controller with a pattern no longer than any other of its endpoints |
| RouterView.GetCurrentRoute | src/core/router.js:842-856 | in HTML5 mode the route is the pathname, without its first character exactly when the first `/` is the second character; in hash mode without `#/` it is the hash itself |
| RouterView.RouteOfHash | src/core/router.js:842-856 | the hash `#/x` has route `x` |
| RouterView.RouteOfPathName | src/core/router.js:842-856 | in HTML5 mode a pathname that starts with `/` is its own route |
| RouterView.ProbePath | src/core/router.js:724-730 | in hash mode the hash is the probed path or `#/` followed by it; in HTML5 mode the probed path is the pathname itself when it starts with `/` or has none, and the pathname with a `/` added in front when its first `/` comes later |
| RouterView.ProbeOfPathName | src/core/router.js:724-730 | in HTML5 mode the probed tokens are the pathname's pattern |
| RouterView.ProbeIsRoute | src/core/router.js:724-730 | in hash mode, when the hash starts with `#/`, the probed path is the current route |
| RouterView.ClearCaches | src/core/router.js:594-599 | both caches are emptied and nothing else changes |
| RouterView.ClearedCachesMiss | src/core/router.js:594-599 | after clearing, neither cache hits for any route |
| RouterView.SameRouteMisses | src/core/router.js:718-721 | a cache entry never hits for the route it was stored under, and always hits for any other route |
| RouterView.FirstMatch | src/core/router.js:740-766 | finds the first endpoint whose pattern matches the probe, and none when no endpoint matches |
| RouterView.ResolveModal | src/core/router.js:747-755 | a modal endpoint's controller becomes the previous controller, or its default when there is none; nothing else changes |
| RouterView.GetCurrentViewData | src/core/router.js:716-770 | a hit returns the cached data unchanged; a miss stores the data under the current route and only touches the matched endpoint's controller |
| RouterView.GetCurrentViewDataMatch | src/core/router.js:716-770 | a match is the first matching endpoint, with its controller resolved for modals |
| RouterView.ControllerOverwriteKeepsValid | src/core/router.js:747-755 | overwriting a modal endpoint's controller keeps the table invariant |
| RouterView.GetCurrentView | src/core/router.js:639-689 | a hit returns the cached view; it fails exactly on no match without an `other` endpoint; a miss stores the view; only the caches and endpoints change |
| RouterView.FreshViewController | src/core/router.js:639-689 | with empty caches the view's controller is the matched endpoint's resolved controller |
| RouterView.GetPathValueWithoutParams | src/core/router.js:1018-1026 | the result is a colon-free prefix of the path that stops just before the first `:` |
| RouterView.RefreshHyperlinkCache | src/core/router.js:989-1009 | fails exactly when no endpoint matches, and otherwise refreshes the links of the current endpoint's path |
| RouterView.WithModal | src/core/router.js:676-678 | without a modal only the route callback runs; with a modal that does not exist it throws before any effect; with a modal it renders the modal and then runs the route callback |
| RouterView.RenderCurrentView | src/core/router.js:955-980 | a missing view throws; a first modal visit renders the default controller with the modal as its callback; a later modal visit renders only the modal and refreshes the links; any other route renders its controller; the previous controller changes exactly on success |
| RouterView.FirstModalRendersDefaultThenModal | src/core/router.js:955-980 | the first visit to a modal route renders its default controller before the modal |
| RouterView.RenderFrame | src/core/router.js:955-980 | rendering changes only the caches, the endpoints and the previous controller |
| RouterNavigation.EventsFired | src/core/router.js:429-441 | every registered route event fires with the route, and nothing else does |
| RouterNavigation.OnRouteChange | src/core/router.js:449-457 | the event is set and others are kept; re-registering warns, first registration does not |
| RouterNavigation.OffRouteChange | src/core/router.js:464-470 | the event is no longer registered and every other event is kept |
| RouterNavigation.RegisteredEventFires | src/core/router.js:429-457 | an event registered with a function fires on the next route change |
| RouterNavigation.UnregisteredEventIsSilent | src/core/router.js:429-470 | an event switched off never fires |
| RouterNavigation.PreparePath | src/core/router.js:885-905 | the address is the path with its first `#/` made `/`, given a leading `/`, with its path parameters bound, followed by the query of the URL parameters |
| RouterNavigation.HashPathRedirectsToPath | src/core/router.js:885-905 | `#/x` and `/x` prepare to the same path `/x` |
| RouterNavigation.Redirect | src/core/router.js:885-920 | no path throws after clearing the caches; hash mode sets the hash and, when asked, the guard; HTML5 mode pushes the address, stores it as the guard when asked, and then runs the history handler on that state |
| RouterNavigation.OnHashChange | src/core/router.js:381-396 | a hash equal to the guard consumes the guard and fires only route events; any other hash renders the view and fires the events |
| RouterNavigation.RenderKeepsGuard | src/core/router.js:955-980 | rendering never touches the reload guard |
| RouterNavigation.OnHistoryChange | src/core/router.js:403-422 | ignored in hash mode; a pathname equal to the guard consumes it without rendering; otherwise the view renders |
| RouterNavigation.GuardedHashRedirectSkipsRender | src/core/router.js:381-396 | a redirect with reload prevention, followed by its hash change, fires route events without rendering and clears the guard |
| RouterNavigation.GuardedHistoryRedirectSkipsRender | src/core/router.js:403-422 | in HTML5 mode, a guarded redirect to a query-free path does not render |
| RouterNavigation.GuardedHistoryRedirectWithQueryRenders | src/core/router.js:403-422 | in HTML5 mode, a guarded redirect to a path with a query renders and the guard stays |
| RouterNavigation.RedirectByName | src/core/router.js:1060-1062 | an unknown route name throws; a known one redirects to its path |
| RouterNavigation.RedirectController | src/core/router.js:1162-1169 | a controller with no endpoint does nothing; otherwise it redirects to its closest endpoint's path with empty parameters, reloading |
| RouterNavigation.RedirectControllerLands | src/core/router.js:1162-1192 | in hash mode, the hash becomes the closest endpoint's prepared path and the reload guard is untouched |
| RouterNavigation.OverwriteOne | src/core/router.js:791-795 | the keys stay the same, no key is duplicated, and only the given key may change |
| RouterNavigation.Overwrite | src/core/router.js:785-800 | the parameter keys stay the same |
| RouterNavigation.OverwriteValue | src/core/router.js:785-800 | a key takes the given value exactly when its current value is truthy and the given one is neither null nor undefined, and otherwise keeps its value |
| RouterNavigation.SetPathParams | src/core/router.js:785-800 | no match throws; otherwise it redirects to the current endpoint's path with the overwritten path parameters and the current query, preventing the reload |
| RouterNavigation.KeepNonNull | src/core/router.js:816-833 | exactly the entries whose value is not `null` are kept |
| RouterNavigation.SetURLParams | src/core/router.js:816-833 | no match throws; otherwise it redirects to the current path with the URL parameters minus the null ones, preventing the reload |
| RouterNavigation.SetPathParamsSkipsRender | src/core/router.js:785-800 | in hash mode, setting path parameters sets the reload guard for the new hash |
| RouterNavigation.CreateLink | src/core/router.js:1114-1134 | hash links start with `#`; the link is the path (prefixed with `#` when it starts with `/`, with `#/` when it starts with neither `/` nor `#`, in hash mode only) with its path parameters bound, followed by the query |
| RouterNavigation.Html5LinkIsRedirectAddress | src/core/router.js:1114-1134 | in HTML5 mode a link to a rooted path without `#/` is the address a redirect to it navigates to |
| RouterNavigation.CreateLinkRoundTrip | src/core/router.js:1114-1134 | a hash link to `x` or `/x` is `#/x`, and following it makes `x` the current route |
| RouterNavigation.WindowTarget | src/core/router.js:1077-1089 | blank, self, parent and top are tried in that order, and the first the lower-cased type contains names the target; a type with none of them is the target, lower-cased |
| RouterNavigation.WindowTargetIgnoresCase | src/core/router.js:1077-1089 | the case of ASCII letters in the type makes no difference |
| RouterNavigation.WindowTargetPrecedence | src/core/router.js:1081-1085 | `parent self` opens `_self`, because `self` is tried before `parent` |
| RouterNavigation.WindowTargetIdempotent | src/core/router.js:1077-1089 | normalising a target twice is normalising it once |
| RouterNavigation.TargetFixed | src/core/router.js:1077-1089 | the four keywords are left as they are |
| RouterNavigation.Location | src/core/router.js:1073-1097 | the caches are cleared; a truthy type opens a window with the normalised target, and otherwise the location is set |
| RouterNavigation.FireRouteEvents | src/core/router.js:429-441 | never fails; every effect fires a registered event with the current route, and every registered event is fired |
| RouterNavigation.RegisterRouter | src/core/router.js:351-375 | disabled routing does nothing; enabled but undefined routing throws; a hash without `#/` is reset to `#/`; otherwise the current view renders |
| RouterNavigation.RegisterRouterLandsOnRoot | src/core/router.js:351-375 | in hash mode, registration with a stale hash renders a state whose hash is `#/` and whose route is empty, whatever the stale hash was |
| RouterNavigation.RegisterRouterResetsOnce | src/core/router.js:351-375 | in hash mode, registering with a hash that lacks `#/` sets the hash to `#/` and then does what registering with `#/` does |
| RouterNavigation.RegisteredHashIsRoot | src/core/router.js:351-375 | after the reset, the current route is empty |

## Left out

- The `dist` bundles, `security.js`, the configuration files, the jQuery plugins, the components and partials, and the DOM modules (selectors, templates, the spinner's DOM) are not part of this model.
- Network requests (`$.ajax`) and promises: `Rest.Call` returns the request settings it would send, or the interceptor steps for cached data.
- Util.TryParseNumber: does not compute `parseFloat`'s value, because floating point is out of scope. A float result carries the text it came from, so `"1.50"` stays `"1.50"` where `String(parseFloat("1.50"))` is `"1.5"` (which changes the URLs `setPathParams` rebuilds). Integers are exact: beyond 2^53 the source's `parseInt` rounds (`"9007199254740993"` gives 9007199254740992); digit text too long for a double is `Infinity` in the source and takes the `parseFloat` branch; and a fraction with 17 or more significant digits that rounds to a whole number (`"1.0000000000000001"`) is an integer in the source and a float in the model.
- `__getURLParams` (the query-string regex): the query parameters after a navigation come from the caller as an `address` object.
- User hooks that run arbitrary code are left out, because their effects cannot be seen: `pathFunctionHandler`, `redirectToViewHandler`, `lastPathHandler`, `createLinkHandler`, `history.onpushstate`, and route-event and render callbacks that change router state. Callbacks are recorded as effects.
- `routingParams` and the `e` argument passed to route events are carried through without effect. `app.currentController` is passed to route events, and that is not modelled.
- RouterRegistry.FindClosest: states that the result is a shortest pattern of that controller, not which one wins a tie, because the tie order depends on the sort comparator's behaviour.
- The ordering JavaScript gives to integer-like object keys, prototype keys and `$` replacement patterns in `String.prototype.replace` are left out. Objects keep insertion order.
- Util.TryParseNumber: `$.isNumeric` also accepts text padded with white space (`" 42"`); `Util.IsNumeric` accepts plain decimal text only, so the model returns such text unchanged where the source parses it.
- Util.TryParseNumberCanonicalInt: the round trip is stated for every integer; in the source it holds only for integers of magnitude at most 2^53, because numbers are doubles.
- Util.SortDesc: compares code points, not the UTF-16 code units JavaScript's `<` compares; the two orders differ only for characters outside the Basic Multilingual Plane.
- Rest.RequestSettings: the source reads and then blanks `Data-Type` on the caller's own headers object (rest.js lines 390-402 and 502-514), so an options object reused for a second call sends the default data type; the model builds each call's settings from its arguments and does not model that aliasing.
- AppEvents.ExtendOne: the source stores handlers on the same object as the bus itself, so a name mapping to `__applicationEvents`, `register`, `listen` or another bus member overwrites it; the model keeps handler slots apart from the bus and does not model that collision.
- AppEvents.Extend: the same collision as `ExtendOne`, entry by entry.
- Enumerators.Register: the names `register` and `add` overwrite the registry's own functions in the source; the model keeps the store apart from them.
- Abstracts.TryExtend: the source documents an array of strings, but reads each entry's `__name`, so a string entry looks up `app.abstract[undefined]` and throws; entries are modelled as abstracts or null only, so string entries are not expressible.
- RouterNavigation.WindowTarget: lower-cases ASCII letters only (`JsString.ToLowerAscii`), not the full Unicode mapping of `toLowerCase`.
- In HTML5 mode a pushed path containing `#` is treated as a plain pathname.
- RouterNavigation.Redirect: the hash and the pathname are stored exactly as assigned. Browsers percent-encode an assigned hash (space, `"`, `<`, `>`, backquote, non-ASCII) and a pushed path (the same, plus `{` and `}`), so for such addresses the browser's hash or pathname differs from the reload guard.
- RouterNavigation.GuardedHashRedirectSkipsRender: holds for addresses the browser stores unencoded; a guarded redirect to a hash the browser percent-encodes (`#/person/José`) misses the guard in the source, renders, and leaves the guard set.
- RouterNavigation.GuardedHistoryRedirectSkipsRender: holds for pathnames the browser stores unencoded; a pushed path the browser percent-encodes never equals the guard in the source, so it renders.
- RouterNavigation.SetPathParamsSkipsRender: holds when the new hash is stored unencoded; new values the browser percent-encodes miss the guard in the source and render.
- `getViewData`, `reloadView`, `back`, `getPathName`, the `__starting` flag, the `hashchange` binding itself, and all logging are left out. These are thin wrappers or I/O.
- The `app.router` route caches other than the view and data caches are folded into those two.

## Findings

| source | as written | input that shows it | evidently intended | confidence | as-written member | corrected member |
|---|---|---|---|---|---|---|
| src/core/router.js:194-197 | the arguments of `PATH_PATTERN_ALREADY_EXIST` are built with `pathPattern.join("")`, but `pathPattern` is the `{pattern, pathParams}` object from `__createPathPattern`, so the line throws `TypeError: pathPattern.join is not a function` | register `/a/:x`, then `/a/:y` (`RouterRegistry.PatternCollisionThrowsTypeError`) | throw `PATH_PATTERN_ALREADY_EXIST` for the path (presumably joining `pathPattern.pattern`) | high; not executed | RouterRegistry.RegisterPath | RouterRegistry.RegisterPathIntended |
| src/singletons/service.js:25-47 | `__tryExtend` returns the third argument whenever the second is not an array, so the object passed as second argument is dropped | `register("s", {a: 1})`, the documented call, stores `undefined` (`Services.TwoArgumentRegisterStoresUndefined`) | store the second argument when it is not an array | medium; not executed | Services.Register | Services.RegisterIntended |

`RegisterPath` keeps the code as written, and `PathFunction` uses it. `RegisterPathIntended` is
the corrected definition. Its contract proves that the two agree on every success and on every
error other than a collision, so nothing that is proved about a successful registration
depends on which one is used.

`Services.Register` likewise keeps the code as written, and `Services.Add` uses it.
`Services.RegisterIntended` is the corrected definition. Its contract proves that it is
`Register` with the second argument moved into the third place when that argument is not an
array, and exactly `Register` otherwise.
