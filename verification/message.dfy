/**
  `app.message`: translated message lookup and parameter binding.
  Translations are held per language as a map from message name to text.
 */
module Message {
  import opened Wrappers
  import opened JsString
  import opened JsValue
  import opened Errors
  import opened Util

  /** `__bindParams`: like `bindStringParams`, but values are inserted with `String(v)`, never JSON. */
  function BindParams(s: Option<string>, args: BindArgs): (r: string)
    ensures s.None? || s.value == "" ==> r == ""
    ensures s.Some? && (!Contains(s.value, "{") || args.NoArgs?) ==> r == s.value
  {
    if s.None? || s.value == "" then ""
    else if !Contains(s.value, "{") || args.NoArgs? then s.value
    else ReplaceEach(s.value, BindPairs(args, true))
  }

  /** `__bindParams` is `bindStringParams` with `noStringify` set. */
  lemma BindParamsIsUnstringifiedBind(s: Option<string>, args: BindArgs)
    ensures BindParams(s, args) == BindStringParams(s, args, true)
  {
  }

  /** With a one-element array, the value fills only the first `{0}`, written as plain text. */
  lemma BindParamsSingleValue(s: string, v: Value)
    requires Contains(s, "{")
    ensures BindParams(Some(s), ArrayArgs([v])) == ReplaceFirst(s, "{0}", ToStr(v))
  {
    var ps := BindPairs(ArrayArgs([v]), true);
    assert IntToString(0) == "0";
    assert "{" + "0" + "}" == "{0}";
    assert |ps| == 1 && ps[0] == ("{0}", ToStr(v));
    assert ps[1..] == [];
    assert ReplaceEach(s, ps) == ReplaceEach(ReplaceFirst(s, "{0}", ToStr(v)), []);
  }

  /** The text `get` returns, and whether it warned that the translation is missing. */
  datatype Lookup = Lookup(text: string, warned: bool)

  /**
    `get`: the current language must be loaded (otherwise reading its table
    throws); a missing or empty translation falls back to the message name
    with a warning; params, when given, are bound into the text.
   */
  function Get(messages: Obj<Obj<string>>, lang: string, name: string, args: BindArgs): (r: Result<Lookup, Error>)
    ensures !HasKey(messages, lang) <==> r.Failure?
    ensures r.Success? ==>
      var table := JsValue.Get(messages, lang).value;
      var found := JsValue.Get(table, name);
      var base := if found.Some? && found.value != "" then found.value else name;
      (r.value.warned <==> !(found.Some? && found.value != ""))
      && (args.NoArgs? ==> r.value.text == base)
      && (!Contains(base, "{") ==> r.value.text == base)
      && (!args.NoArgs? ==>
            var bound := BindStringParams(Some(base), args, true);
            r.value.text == if bound != "" then bound else name)
  {
    match JsValue.Get(messages, lang)
    case None => Failure(TypeError("translation table of the current language"))
    case Some(table) =>
      var found := JsValue.Get(table, name);
      var warned := !(found.Some? && found.value != "");
      var message := if warned then name else found.value;
      var bound := if !args.NoArgs? && message != "" then BindParams(Some(message), args) else message;
      assert !args.NoArgs? ==> bound == BindStringParams(Some(message), args, true) by {
        BindParamsIsUnstringifiedBind(Some(message), args);
      }
      Success(Lookup(if bound != "" then bound else name, warned))
  }

  /**
    A translation made of brace-free pieces around the parameters' tags comes
    back with each tag replaced by its value as plain text.
   */
  lemma GetFillsTags(messages: Obj<Obj<string>>, lang: string, name: string, pieces: seq<string>, args: BindArgs)
    requires HasKey(messages, lang)
    requires |pieces| == |BindPairs(args, true)| + 1
    requires forall i :: 0 <= i < |pieces| ==> !Contains(pieces[i], "{")
    requires forall i :: 0 <= i < |BindPairs(args, true)| ==> !Contains(BindPairs(args, true)[i].1, "{")
    requires var template := Weave(pieces, Tags(BindPairs(args, true)));
      template != "" && JsValue.Get(JsValue.Get(messages, lang).value, name) == Some(template)
    ensures var text := Weave(pieces, Texts(BindPairs(args, true)));
      Get(messages, lang, name, args) == Success(Lookup(if text != "" then text else name, false))
  {
    var template := Weave(pieces, Tags(BindPairs(args, true)));
    BindWoven(pieces, args, true);
    if args.NoArgs? {
      assert BindPairs(args, true) == [];
      assert template == pieces[0] == Weave(pieces, Texts(BindPairs(args, true)));
    }
  }
}
