/**
  JavaScript values as they flow through the framework's parameter maps,
  and plain objects used as insertion-ordered string-keyed maps.
 */
module JsValue {
  import opened Wrappers
  import opened JsString

  /**
    A primitive JavaScript value. `Float` is a non-integral number kept as
    the numeric text it was parsed from (floating point is not modelled);
    `NaN` is the one non-number number the framework can produce.
   */
  datatype Value =
    | Undefined
    | Null
    | Bool(b: bool)
    | Int(i: int)
    | Float(text: string)
    | NaN
    | Str(s: string)

  /** `String(v)`: the text a value contributes when concatenated or used as a replacement. */
  function ToStr(v: Value): string {
    match v
    case Undefined => "undefined"
    case Null => "null"
    case Bool(b) => if b then "true" else "false"
    case Int(i) => IntToString(i)
    case Float(t) => t
    case NaN => "NaN"
    case Str(s) => s
  }

  /** JavaScript truthiness (a `Float` is never zero). */
  predicate Truthy(v: Value) {
    match v
    case Undefined => false
    case Null => false
    case Bool(b) => b
    case Int(i) => i != 0
    case Float(_) => true
    case NaN => false
    case Str(s) => s != ""
  }

  /** `v == null` with loose equality: true for `null` and `undefined` only. */
  predicate IsNullish(v: Value) {
    v.Undefined? || v.Null?
  }

  /** A plain object used as a map: its own enumerable string keys in `for..in` order. */
  type Obj<V> = seq<(string, V)>

  function Keys<V>(o: Obj<V>): (ks: seq<string>)
    ensures |ks| == |o|
    ensures forall i :: 0 <= i < |o| ==> ks[i] == o[i].0
  {
    seq(|o|, i requires 0 <= i < |o| => o[i].0)
  }

  predicate HasKey<V>(o: Obj<V>, k: string) {
    k in Keys(o)
  }

  /** No key occurs twice, as for any JavaScript object. */
  predicate DistinctKeys<V>(o: Obj<V>) {
    forall i, j :: 0 <= i < j < |o| ==> o[i].0 != o[j].0
  }

  /** The position of the first `k` in `ks`, or -1. */
  function KeyIndex(ks: seq<string>, k: string): (r: int)
    ensures -1 <= r < |ks|
    ensures r < 0 <==> k !in ks
    ensures r >= 0 ==> ks[r] == k && forall j :: 0 <= j < r ==> ks[j] != k
  {
    if |ks| == 0 then -1
    else if ks[0] == k then 0
    else
      var r := KeyIndex(ks[1..], k);
      assert k in ks[1..] <==> k in ks by {
        assert ks == [ks[0]] + ks[1..];
      }
      if r < 0 then -1 else r + 1
  }

  /** The first occurrence is determined by the keys alone. */
  lemma KeyIndexUnique(ks: seq<string>, k: string, r: int)
    requires 0 <= r < |ks| && ks[r] == k
    requires forall j :: 0 <= j < r ==> ks[j] != k
    ensures KeyIndex(ks, k) == r
  {
  }

  /** `o[k]` when the key exists. */
  function Get<V>(o: Obj<V>, k: string): (r: Option<V>)
    ensures r.None? <==> !HasKey(o, k)
    ensures r.Some? ==> (k, r.value) in o
  {
    var i := KeyIndex(Keys(o), k);
    if i < 0 then None else Some(o[i].1)
  }

  /** With distinct keys, reading an entry's key finds that entry. */
  lemma GetAt<V>(o: Obj<V>, j: nat)
    requires DistinctKeys(o) && j < |o|
    ensures Get(o, o[j].0) == Some(o[j].1)
  {
    KeyIndexUnique(Keys(o), o[j].0, j);
  }

  /** Reading an object whose first entry is `(k0, v0)`. */
  lemma GetCons<V>(k0: string, v0: V, rest: Obj<V>, k: string)
    ensures Get([(k0, v0)] + rest, k) == if k == k0 then Some(v0) else Get(rest, k)
  {
    var o := [(k0, v0)] + rest;
    assert Keys(o) == [k0] + Keys(rest);
    if k == k0 {
      KeyIndexUnique(Keys(o), k, 0);
    } else {
      var i := KeyIndex(Keys(rest), k);
      if i >= 0 {
        KeyIndexUnique(Keys(o), k, i + 1);
      } else {
        assert k !in Keys(o);
      }
    }
  }

  /** `o[k]` for a map of values: `undefined` when the key is missing. */
  function Lookup(o: Obj<Value>, k: string): Value {
    Get(o, k).GetOr(Undefined)
  }

  /** `o[k] = v`: an existing key keeps its position, a new key goes last. */
  function Set<V>(o: Obj<V>, k: string, v: V): (r: Obj<V>)
    ensures Get(r, k) == Some(v)
    ensures forall k' :: k' != k ==> Get(r, k') == Get(o, k')
    ensures HasKey(o, k) ==> Keys(r) == Keys(o)
    ensures !HasKey(o, k) ==> Keys(r) == Keys(o) + [k]
    ensures DistinctKeys(o) ==> DistinctKeys(r)
  {
    var i := KeyIndex(Keys(o), k);
    if i < 0 then
      var r := o + [(k, v)];
      assert Keys(r) == Keys(o) + [k];
      KeyIndexUnique(Keys(r), k, |o|);
      forall k' | k' != k ensures Get(r, k') == Get(o, k') {
        var j := KeyIndex(Keys(o), k');
        if j >= 0 { KeyIndexUnique(Keys(r), k', j); }
      }
      r
    else
      var r := o[i := (k, v)];
      assert Keys(r) == Keys(o);
      r
  }

  /** The entries of `o` whose value satisfies `keep`, in their original order. */
  function Filter<V>(o: Obj<V>, keep: V -> bool): (r: Obj<V>)
    ensures |r| <= |o|
    ensures forall i :: 0 <= i < |r| ==> keep(r[i].1)
    ensures forall i :: 0 <= i < |r| ==> r[i] in o
    ensures forall x :: x in o && keep(x.1) ==> x in r
  {
    if |o| == 0 then []
    else
      var rest := Filter(o[1..], keep);
      assert forall x :: x in o[1..] ==> x in o;
      if keep(o[0].1) then [o[0]] + rest else rest
  }
}
