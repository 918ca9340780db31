/**
  `app.abstract`: a registry of abstract functions that services and other
  modules are extended with. An extended object is kept symbolically as the
  base object with the abstract functions applied to it, innermost first.
 */
module Abstracts {
  import opened Wrappers
  import opened JsValue
  import opened Errors
  import AppSystem

  /** An object after zero or more abstract functions have been applied to it. */
  datatype Extended = Base(v: Value) | Applied(fn: string, inner: Extended)

  /** A registered abstract: `{abstractFunction, __name}`. */
  datatype Abstract = Abstract(fn: string, name: string)

  /** The registry's own members: a name among them counts as already registered. */
  const BuiltIns: set<string> := {"add", "register", "__tryExtend", "__getNames", "__extend"}

  /** `app.abstract` beyond its own members. */
  type Registry = Obj<Abstract>

  predicate Taken(reg: Registry, name: string) {
    name in BuiltIns || HasKey(reg, name)
  }

  /**
    `register` / `add`: restricted names and names already taken throw;
    otherwise `{abstractFunction, __name}` is stored under the name.
   */
  function Register(reg: Registry, name: string, fn: string): (r: Result<Registry, Error>)
    ensures name in AppSystem.RestrictedNames ==> r == Failure(RestrictedName(name))
    ensures name !in AppSystem.RestrictedNames && Taken(reg, name) ==> r == Failure(AbstractAlreadyRegistered(name))
    ensures r.Success? <==> name !in AppSystem.RestrictedNames && !Taken(reg, name)
    ensures r.Success? ==>
      (Get(r.value, name) == Some(Abstract(fn, name))
      && forall n :: n != name ==> Get(r.value, n) == Get(reg, n))
  {
    match AppSystem.FilterRestrictedNames(name)
    case Fail(e) => Failure(e)
    case Pass =>
      if Taken(reg, name) then Failure(AbstractAlreadyRegistered(name))
      else Success(Set(reg, name, Abstract(fn, name)))
  }

  /** `__extend`: apply the abstract function registered under `name`. */
  function Extend(reg: Registry, name: string, obj: Extended): (r: Result<Extended, Error>)
    ensures HasKey(reg, name) <==> r.Success?
    ensures r.Success? ==> r.value == Applied(Get(reg, name).value.fn, obj)
  {
    match Get(reg, name)
    case None => Failure(TypeError("abstract " + name))
    case Some(a) => Success(Applied(a.fn, obj))
  }

  /**
    The list argument of `__tryExtend`: any value that is not an array, or an
    array whose entries may be null.
   */
  datatype AbstractList = NotArray(v: Value) | List(entries: seq<Option<Abstract>>)

  /** One warning per null entry of the list. */
  datatype ExtendResult = ExtendResult(obj: Extended, nullEntries: nat)

  /** Applies each non-null entry's registered function in list order, threading the object. */
  function ExtendAll(reg: Registry, entries: seq<Option<Abstract>>, obj: Extended): (r: Result<ExtendResult, Error>)
    ensures r.Success? ==> r.value.nullEntries == |entries| - |GetNames(entries)|
    ensures r.Success? <==> forall i :: 0 <= i < |GetNames(entries)| ==> HasKey(reg, GetNames(entries)[i])
    ensures r.Success? ==> r.value.obj == ApplyNames(reg, GetNames(entries), obj)
    decreases |entries|
  {
    if |entries| == 0 then Success(ExtendResult(obj, 0))
    else match entries[0]
      case None =>
        assert GetNames(entries) == GetNames(entries[1..]);
        var rest :- ExtendAll(reg, entries[1..], obj);
        Success(ExtendResult(rest.obj, rest.nullEntries + 1))
      case Some(a) =>
        var names := GetNames(entries[1..]);
        assert GetNames(entries) == [a.name] + names;
        assert GetNames(entries)[0] == a.name;
        assert forall i :: 0 <= i < |names| ==> GetNames(entries)[i + 1] == names[i];
        var next :- Extend(reg, a.name, obj);
        var rest :- ExtendAll(reg, entries[1..], next);
        Success(rest)
  }

  /** The reference meaning of extension: the registered functions of `names`, applied in order. */
  function ApplyNames(reg: Registry, names: seq<string>, obj: Extended): Extended
    decreases |names|
  {
    if |names| == 0 then obj
    else match Get(reg, names[0])
      case None => obj
      case Some(a) => ApplyNames(reg, names[1..], Applied(a.fn, obj))
  }

  /** A bare `null` or `undefined`: reading a property of it throws. */
  predicate Nullish(obj: Extended) {
    obj.Base? && IsNullish(obj.v)
  }

  /**
    `__tryExtend`: a non-array list returns the object unchanged; with an
    array the log line reads the object's `__type` first (which throws for
    `null`/`undefined`), then each non-null entry's function is applied in
    list order and each null entry only warns.
   */
  function TryExtend(reg: Registry, list: AbstractList, obj: Extended): (r: Result<ExtendResult, Error>)
    ensures list.NotArray? ==> r == Success(ExtendResult(obj, 0))
    ensures list.List? && Nullish(obj) ==> r.Failure?
    ensures list.List? && !Nullish(obj) ==>
      (r.Success? <==> forall i :: 0 <= i < |GetNames(list.entries)| ==> HasKey(reg, GetNames(list.entries)[i]))
    ensures list.List? && r.Success? ==>
      r.value.obj == ApplyNames(reg, GetNames(list.entries), obj)
      && r.value.nullEntries == |list.entries| - |GetNames(list.entries)|
  {
    match list
    case NotArray(_) => Success(ExtendResult(obj, 0))
    case List(es) =>
      if Nullish(obj) then Failure(TypeError("__type of " + ToStr(obj.v)))
      else
        var r := ExtendAll(reg, es, obj);
        assert r.Success? <==> forall i :: 0 <= i < |GetNames(es)| ==> HasKey(reg, GetNames(es)[i]);
        r
  }

  /** `__getNames`: the names of the non-null entries, in order. */
  function GetNames(entries: seq<Option<Abstract>>): (r: seq<string>)
    ensures |r| <= |entries|
    ensures forall i :: 0 <= i < |r| ==> exists j :: 0 <= j < |entries| && entries[j].Some? && entries[j].value.name == r[i]
    ensures (forall i :: 0 <= i < |entries| ==> entries[i].Some?) ==> |r| == |entries|
  {
    if |entries| == 0 then []
    else
      var rest := GetNames(entries[1..]);
      assert forall j :: 0 <= j < |entries[1..]| ==> entries[1..][j] == entries[j + 1];
      match entries[0]
      case None => rest
      case Some(a) => [a.name] + rest
  }

  /** `__getNames` keeps the relative order: it is the non-null names with the nulls removed. */
  lemma {:induction false} GetNamesAppend(a: seq<Option<Abstract>>, b: seq<Option<Abstract>>)
    ensures GetNames(a + b) == GetNames(a) + GetNames(b)
    decreases |a|
  {
    if |a| == 0 {
      assert a + b == b;
    } else {
      var h := NameOf(a[0]);
      assert GetNames(a + b) == h + GetNames(a[1..] + b) by {
        GetNamesFront(a + b);
        assert (a + b)[0] == a[0];
        assert (a + b)[1..] == a[1..] + b;
      }
      assert GetNames(a) == h + GetNames(a[1..]) by {
        GetNamesFront(a);
      }
      GetNamesAppend(a[1..], b);
      PrependAssoc(GetNames(a + b), GetNames(a), h, GetNames(a[1..] + b), GetNames(a[1..]), GetNames(b));
    }
  }

  /** Sequence algebra for one step of the append lemma. */
  lemma PrependAssoc(whole: seq<string>, left: seq<string>, h: seq<string>, tail: seq<string>, leftTail: seq<string>, right: seq<string>)
    requires whole == h + tail && left == h + leftTail && tail == leftTail + right
    ensures whole == left + right
  {
    assert h + (leftTail + right) == (h + leftTail) + right;
  }

  /** The name an entry contributes: none for a null entry. */
  function NameOf(e: Option<Abstract>): seq<string> {
    match e
    case None => []
    case Some(x) => [x.name]
  }

  /** `__getNames` takes the first entry's name, then the names of the rest. */
  lemma GetNamesFront(s: seq<Option<Abstract>>)
    requires |s| > 0
    ensures GetNames(s) == NameOf(s[0]) + GetNames(s[1..])
  {
    match s[0]
    case None =>
    case Some(x) =>
  }

  /** Extending with two lists in turn is extending with their concatenation. */
  lemma {:induction false} ApplyNamesAppend(reg: Registry, a: seq<string>, b: seq<string>, obj: Extended)
    requires forall i :: 0 <= i < |a| ==> HasKey(reg, a[i])
    ensures ApplyNames(reg, a + b, obj) == ApplyNames(reg, b, ApplyNames(reg, a, obj))
    decreases |a|
  {
    if |a| == 0 {
      assert a + b == b;
    } else {
      assert (a + b)[0] == a[0];
      assert (a + b)[1..] == a[1..] + b;
      assert HasKey(reg, a[0]);
      var x := Applied(Get(reg, a[0]).value.fn, obj);
      ApplyNamesAppend(reg, a[1..], b, x);
    }
  }
}

/** `app.service`: named services, optionally extended by abstracts. */
module Services {
  import opened Wrappers
  import opened JsValue
  import opened Errors
  import AppSystem
  import opened Abstracts

  type Services = Obj<Extended>

  /**
    `register` / `add`: restricted names throw; otherwise the third argument
    (possibly undefined) is extended by the abstracts when the second
    argument is an array, and stored, overwriting any earlier one. With an
    array, an undefined or null service object throws. A second argument
    that is not an array is dropped: the third argument is stored.
   */
  function Register(reg: Abstracts.Registry, services: Services, name: string, list: AbstractList, obj: Value)
    : (r: Result<Services, Error>)
    ensures name in AppSystem.RestrictedNames ==> r == Failure(RestrictedName(name))
    ensures name !in AppSystem.RestrictedNames && list.NotArray? ==> r == Success(Set(services, name, Base(obj)))
    ensures list.List? && IsNullish(obj) ==> r.Failure?
    ensures r.Success? ==>
      (TryExtend(reg, list, Base(obj)).Success?
      && Get(r.value, name) == Some(TryExtend(reg, list, Base(obj)).value.obj)
      && forall n :: n != name ==> Get(r.value, n) == Get(services, n))
  {
    match AppSystem.FilterRestrictedNames(name)
    case Fail(e) => Failure(e)
    case Pass =>
      var ext :- TryExtend(reg, list, Base(obj));
      Success(Set(services, name, ext.obj))
  }

  /** `add` is `register`. */
  function Add(reg: Abstracts.Registry, services: Services, name: string, list: AbstractList, obj: Value)
    : (r: Result<Services, Error>)
    ensures r == Register(reg, services, name, list, obj)
  {
    Register(reg, services, name, list, obj)
  }

  /** Registering a name twice is allowed: the second object replaces the first. */
  lemma ReregisterOverwrites(reg: Abstracts.Registry, services: Services, name: string, x: Value, a: Value, b: Value)
    requires name !in AppSystem.RestrictedNames
    ensures Register(reg, services, name, NotArray(x), a).Success?
    ensures Register(reg, Register(reg, services, name, NotArray(x), a).value, name, NotArray(x), b).Success?
    ensures Get(Register(reg, Register(reg, services, name, NotArray(x), a).value, name, NotArray(x), b).value, name)
         == Some(Base(b))
  {
  }

  /**
    The documented two-argument call `register(name, serviceObject)` leaves
    the third argument undefined, and that is what is stored: the service
    object itself is dropped.
   */
  lemma TwoArgumentRegisterStoresUndefined(reg: Abstracts.Registry, services: Services, name: string, obj: Value)
    requires name !in AppSystem.RestrictedNames
    ensures Register(reg, services, name, NotArray(obj), Undefined).Success?
    ensures Get(Register(reg, services, name, NotArray(obj), Undefined).value, name) == Some(Base(Undefined))
    ensures Get(RegisterIntended(reg, services, name, NotArray(obj), Undefined).value, name) == Some(Base(obj))
  {
  }

  /**
    What `register` evidently means by `serviceObjectOrExtending`: a second
    argument that is not an array is the service object itself. With an
    array, it is `register` as written.
   */
  function RegisterIntended(reg: Abstracts.Registry, services: Services, name: string, list: AbstractList, obj: Value)
    : (r: Result<Services, Error>)
    ensures name in AppSystem.RestrictedNames ==> r == Failure(RestrictedName(name))
    ensures name !in AppSystem.RestrictedNames && list.NotArray? ==>
      r.Success? && Get(r.value, name) == Some(Base(list.v))
      && forall n :: n != name ==> Get(r.value, n) == Get(services, n)
    ensures list.List? ==> r == Register(reg, services, name, list, obj)
    ensures list.NotArray? ==> r == Register(reg, services, name, list, list.v)
  {
    match list
    case NotArray(v) => Register(reg, services, name, list, v)
    case List(_) => Register(reg, services, name, list, obj)
  }
}

/** `app.enumerator`: named enumerations, stored without any check. */
module Enumerators {
  import opened Wrappers
  import opened JsValue

  type Enumerators = Obj<Value>

  /** `register` / `add`: stores the object under the name, overwriting any earlier one. */
  function Register(e: Enumerators, name: string, obj: Value): (r: Enumerators)
    ensures Get(r, name) == Some(obj)
    ensures forall n :: n != name ==> Get(r, n) == Get(e, n)
  {
    Set(e, name, obj)
  }

  /** `add` is `register`. */
  function Add(e: Enumerators, name: string, obj: Value): (r: Enumerators)
    ensures r == Register(e, name, obj)
  {
    Register(e, name, obj)
  }

  /** The last registration of a name wins, and registering other names never disturbs it. */
  lemma LastRegistrationWins(e: Enumerators, name: string, a: Value, b: Value, other: string, c: Value)
    requires other != name
    ensures Get(Register(Register(Register(e, name, a), name, b), other, c), name) == Some(b)
  {
  }
}
