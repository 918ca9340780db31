/**
  `app.events`: the application event bus (`register`, `listen`,
  `broadcast`, `destroy`) and the lifecycle handlers set by `extend`.

  A callback is identified by its source text, which is what `listen`
  compares (`toString()`).
 */
module AppEvents {
  import opened Wrappers
  import opened JsValue
  import opened Errors

  /** A callback function, known by its source text. */
  datatype Callback = Callback(text: string)

  /**
    `__applicationEvents` (event name to listener list) and the handler slots
    that `__extend` writes on `app.events`.
   */
  datatype Bus = Bus(events: Obj<seq<Callback>>, handlers: Obj<Callback>)

  const EmptyBus := Bus([], [])

  /** No two listeners of one event share a source text. */
  predicate NoDuplicateTexts(ls: seq<Callback>) {
    forall i, j :: 0 <= i < j < |ls| ==> ls[i].text != ls[j].text
  }

  /** The invariant the bus keeps: every listener list is duplicate-free. */
  predicate Valid(b: Bus) {
    DistinctKeys(b.events) && forall i :: 0 <= i < |b.events| ==> NoDuplicateTexts(b.events[i].1)
  }

  lemma EmptyBusValid()
    ensures Valid(EmptyBus)
  {
  }

  /** A valid bus stays valid when an event's list is replaced by a duplicate-free one. */
  lemma SetKeepsValid(b: Bus, name: string, ls: seq<Callback>)
    requires Valid(b) && NoDuplicateTexts(ls)
    ensures Valid(b.(events := Set(b.events, name, ls)))
  {
    var e := Set(b.events, name, ls);
    forall i | 0 <= i < |e| ensures NoDuplicateTexts(e[i].1) {
      var k := e[i].0;
      assert Keys(e)[i] == k;
      assert HasKey(e, k);
      KeyIndexUnique(Keys(e), k, i);
      if k != name {
        assert Get(e, k) == Get(b.events, k);
        var j := KeyIndex(Keys(b.events), k);
        assert b.events[j].1 == e[i].1;
      }
    }
  }

  /** `register` / `add`: a new event starts with no listeners; a known one throws. */
  function Register(b: Bus, name: string): (r: Result<Bus, Error>)
    ensures HasKey(b.events, name) <==> r.Failure?
    ensures r.Failure? ==> r.error == ApplicationEventAlreadyExist(name)
    ensures r.Success? ==>
      (Get(r.value.events, name) == Some([])
      && (forall n :: n != name ==> Get(r.value.events, n) == Get(b.events, n))
      && r.value.handlers == b.handlers)
    ensures r.Success? && Valid(b) ==> Valid(r.value)
  {
    if HasKey(b.events, name) then Failure(ApplicationEventAlreadyExist(name))
    else
      var nb := b.(events := Set(b.events, name, []));
      assert Valid(b) ==> Valid(nb) by {
        if Valid(b) { SetKeepsValid(b, name, []); }
      }
      Success(nb)
  }

  /** The position of a listener with the same text as `c`, if any. */
  function FindText(ls: seq<Callback>, c: Callback): (r: int)
    ensures -1 <= r < |ls|
    ensures r >= 0 ==> ls[r].text == c.text
    ensures r < 0 ==> forall i :: 0 <= i < |ls| ==> ls[i].text != c.text
  {
    if |ls| == 0 then -1
    else
      var k := FindText(ls[..|ls| - 1], c);
      if k >= 0 then k else if ls[|ls| - 1].text == c.text then |ls| - 1 else -1
  }

  /**
    `listen`: an unknown event or a null callback throws; a callback whose
    text matches an existing listener is not added again; otherwise it is
    appended.
   */
  function Listen(b: Bus, name: string, cb: Option<Callback>): (r: Result<Bus, Error>)
    ensures !HasKey(b.events, name) ==> r == Failure(ApplicationEventNotExist(name))
    ensures HasKey(b.events, name) && cb.None? ==> r == Failure(ApplicationEventCallbackNull(name))
    ensures HasKey(b.events, name) && cb.Some? ==> r.Success? && r.value.handlers == b.handlers
    ensures r.Success? ==> forall n :: n != name ==> Get(r.value.events, n) == Get(b.events, n)
    ensures r.Success? ==>
      cb.Some? && Get(b.events, name).Some? && Get(r.value.events, name).Some? &&
      var old_ := Get(b.events, name).value;
      var new_ := Get(r.value.events, name).value;
      ((exists i :: 0 <= i < |old_| && old_[i].text == cb.value.text) && new_ == old_)
      || ((forall i :: 0 <= i < |old_| ==> old_[i].text != cb.value.text) && new_ == old_ + [cb.value])
    ensures r.Success? && Valid(b) ==> Valid(r.value)
  {
    match Get(b.events, name)
    case None => Failure(ApplicationEventNotExist(name))
    case Some(ls) =>
      match cb
      case None => Failure(ApplicationEventCallbackNull(name))
      case Some(c) =>
        if FindText(ls, c) >= 0 then
          assert Set(b.events, name, ls) == b.events by {
            var i := KeyIndex(Keys(b.events), name);
            assert b.events[i] == (name, ls);
          }
          Success(b)
        else
          var nb := b.(events := Set(b.events, name, ls + [c]));
          assert Valid(b) ==> Valid(nb) by {
            if Valid(b) {
              var i := KeyIndex(Keys(b.events), name);
              assert b.events[i].1 == ls;
              SetKeepsValid(b, name, ls + [c]);
            }
          }
          Success(nb)
  }

  /** One invocation of a listener with the broadcast data. */
  datatype Call<D> = Call(listener: Callback, data: D)

  /**
    `broadcast`: an unknown event throws (the warning after the throw is never
    issued); otherwise every listener is called once, in registration order,
    with the event data.
   */
  function Broadcast<D>(b: Bus, name: string, data: D): (r: Result<seq<Call<D>>, Error>)
    ensures !HasKey(b.events, name) <==> r.Failure?
    ensures r.Failure? ==> r.error == ApplicationEventNotExist(name)
    ensures r.Success? ==>
      (|r.value| == |Get(b.events, name).value|
      && forall i :: 0 <= i < |r.value| ==> r.value[i] == Call(Get(b.events, name).value[i], data))
  {
    match Get(b.events, name)
    case None => Failure(ApplicationEventNotExist(name))
    case Some(ls) => Success(CallEach(ls, data))
  }

  function CallEach<D>(ls: seq<Callback>, data: D): (r: seq<Call<D>>)
    ensures |r| == |ls| && forall i :: 0 <= i < |ls| ==> r[i] == Call(ls[i], data)
  {
    if |ls| == 0 then [] else [Call(ls[0], data)] + CallEach(ls[1..], data)
  }

  /** `destroy`: an unknown event throws; a known one keeps its name but loses its listeners. */
  function Destroy(b: Bus, name: string): (r: Result<Bus, Error>)
    ensures !HasKey(b.events, name) <==> r.Failure?
    ensures r.Failure? ==> r.error == ApplicationEventNotExist(name)
    ensures r.Success? ==>
      (Get(r.value.events, name) == Some([])
      && (forall n :: n != name ==> Get(r.value.events, n) == Get(b.events, n))
      && Keys(r.value.events) == Keys(b.events))
    ensures r.Success? && Valid(b) ==> Valid(r.value)
  {
    if !HasKey(b.events, name) then Failure(ApplicationEventNotExist(name))
    else
      assert Valid(b) ==> Valid(b.(events := Set(b.events, name, []))) by {
        if Valid(b) { SetKeepsValid(b, name, []); }
      }
      Success(b.(events := Set(b.events, name, [])))
  }

  /** Listening twice with the same callback leaves the bus as after the first time. */
  lemma ListenIdempotent(b: Bus, name: string, c: Callback)
    requires Listen(b, name, Some(c)).Success?
    ensures Listen(Listen(b, name, Some(c)).value, name, Some(c)) == Listen(b, name, Some(c))
  {
    var b1 := Listen(b, name, Some(c)).value;
    var ls := Get(b1.events, name).value;
    assert exists i :: 0 <= i < |ls| && ls[i].text == c.text by {
      var old_ := Get(b.events, name).value;
      if forall i :: 0 <= i < |old_| ==> old_[i].text != c.text {
        assert ls[|ls| - 1] == c;
      }
    }
  }

  /** After `destroy`, the event still exists: `register` keeps failing and `listen` succeeds. */
  lemma DestroyKeepsRegistration(b: Bus, name: string, c: Callback)
    requires Destroy(b, name).Success?
    ensures Register(Destroy(b, name).value, name).Failure?
    ensures Listen(Destroy(b, name).value, name, Some(c)).Success?
    ensures Get(Listen(Destroy(b, name).value, name, Some(c)).value.events, name) == Some([c])
  {
    assert [] + [c] == [c];
  }

  // ---------------------------------------------------------------------------
  // extend / __extend / __functionName

  /** `__functionName`: the lifecycle aliases map to their handler slots; other names are kept. */
  function FunctionName(name: string): (r: string)
    ensures r == name || (name in Aliases && r == Aliases[name])
    ensures r !in Aliases
  {
    match name
    case "render" => "onRender"
    case "offline" => "onOffline"
    case "online" => "onOnline"
    case "dom" => "domEvents"
    case "back" => "onBack"
    case "ready" => "onReady"
    case _ => name
  }

  /** The alias table `__functionName` implements. */
  const Aliases: map<string, string> :=
    map["render" := "onRender", "offline" := "onOffline", "online" := "onOnline",
        "dom" := "domEvents", "back" := "onBack", "ready" := "onReady"]

  /** `FunctionName` agrees with the alias table, and is the identity off it. */
  lemma FunctionNameMatchesAliases(name: string)
    ensures name in Aliases ==> FunctionName(name) == Aliases[name]
    ensures name !in Aliases ==> FunctionName(name) == name
  {
  }

  /** Mapping a slot name again changes nothing: no slot name is itself an alias. */
  lemma FunctionNameIdempotent(name: string)
    ensures FunctionName(FunctionName(name)) == FunctionName(name)
  {
  }

  /** `__extend`: stores the callback under the mapped slot name. */
  function ExtendOne(b: Bus, name: string, cb: Callback): (r: Bus)
    ensures Get(r.handlers, FunctionName(name)) == Some(cb)
    ensures forall n :: n != FunctionName(name) ==> Get(r.handlers, n) == Get(b.handlers, n)
    ensures r.events == b.events
  {
    b.(handlers := Set(b.handlers, FunctionName(name), cb))
  }

  /** `extend`: `__extend` for every entry of the map, in key order; a later alias of a slot wins. */
  function Extend(b: Bus, m: Obj<Callback>): (r: Bus)
    ensures r.events == b.events
    ensures forall n :: (forall i :: 0 <= i < |m| ==> FunctionName(m[i].0) != n) ==> Get(r.handlers, n) == Get(b.handlers, n)
    decreases |m|
  {
    if |m| == 0 then b
    else Extend(ExtendOne(b, m[0].0, m[0].1), m[1..])
  }

  /** The last entry of the map decides its slot. */
  lemma {:induction false} ExtendLastWins(b: Bus, m: Obj<Callback>, name: string, cb: Callback)
    ensures Get(Extend(b, m + [(name, cb)]).handlers, FunctionName(name)) == Some(cb)
    decreases |m|
  {
    if |m| == 0 {
      assert Extend(b, [(name, cb)]) == Extend(ExtendOne(b, name, cb), []);
    } else {
      assert (m + [(name, cb)])[1..] == m[1..] + [(name, cb)];
      ExtendLastWins(ExtendOne(b, m[0].0, m[0].1), m[1..], name, cb);
    }
  }

  /** `render` and `onRender` name the same slot, so the later entry overwrites the earlier. */
  lemma AliasAndSlotCollide(b: Bus, f: Callback, g: Callback)
    ensures Get(Extend(b, [("render", f), ("onRender", g)]).handlers, "onRender") == Some(g)
  {
    var m := [("render", f)];
    var n := "onRender";
    assert FunctionName(n) == n;
    assert m + [(n, g)] == [("render", f), ("onRender", g)];
    ExtendLastWins(b, m, n, g);
  }
}
