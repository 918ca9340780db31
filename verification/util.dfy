/**
  The pure helpers of `app.util.System` that the router and the REST module
  use to read and build URLs and to bind message parameters.
 */
module Util {
  import opened Wrappers
  import opened JsString
  import opened JsValue

  // ---------------------------------------------------------------------------
  // isNull / isEmpty

  /** `isNull`: `obj == undefined || obj == null`. */
  predicate IsNull(v: Value): (r: bool)
    ensures r <==> IsNullish(v)
    ensures r ==> !Truthy(v)
  {
    v == Undefined || v == Null
  }

  /** `isEmpty`: null or undefined, or a string whose `trim()` is empty. */
  predicate IsEmpty(v: Value): (r: bool)
    ensures IsNull(v) ==> r
    ensures v.Str? ==> (r <==> forall i :: 0 <= i < |v.s| ==> IsJsWhitespace(v.s[i]))
    ensures !v.Str? ==> (r <==> IsNull(v))
  {
    IsNull(v) || (v.Str? && IsBlank(v.s))
  }

  /** Every null value is empty; the only other empty values are blank strings. */
  lemma EmptyExtendsNull(v: Value)
    ensures IsNull(v) ==> IsEmpty(v)
    ensures IsEmpty(v) && !IsNull(v) <==> v.Str? && IsBlank(v.s)
    ensures IsEmpty(Str("")) && IsEmpty(Str(" \t\n")) && !IsEmpty(Str(" a "))
  {
    assert IsJsWhitespace(" a "[1]) == false;
  }

  // ---------------------------------------------------------------------------
  // tryParseNumber

  /** The text after an optional leading sign. */
  function Unsigned(s: string): string {
    if |s| > 0 && (s[0] == '+' || s[0] == '-') then s[1..] else s
  }

  /** The position of the first exponent marker, or -1. */
  function ExponentAt(s: string): int {
    var e := IndexOf(s, "e");
    var E := IndexOf(s, "E");
    if e < 0 then E else if E < 0 then e else if e < E then e else E
  }

  /** Digits with an optional decimal point, at least one digit in all. */
  predicate IsMantissa(m: string) {
    var d := IndexOf(m, ".");
    if d < 0 then |m| > 0 && AllDigits(m)
    else AllDigits(m[..d]) && AllDigits(m[d + 1..]) && |m| > 1
  }

  /**
    The numeric strings the model recognises as `$.isNumeric`: an optional
    sign, a decimal mantissa and an optional exponent. Surrounding white
    space and hexadecimal or `Infinity` forms are not recognised.
   */
  predicate IsNumeric(s: string) {
    var b := Unsigned(s);
    var k := ExponentAt(b);
    if k < 0 then IsMantissa(b)
    else IsMantissa(b[..k]) && |Unsigned(b[k + 1..])| > 0 && AllDigits(Unsigned(b[k + 1..]))
  }

  /** `isInt(parseFloat(s))` for a numeric string without exponent: the fraction is all zeros. */
  predicate IsIntegral(s: string) {
    var b := Unsigned(s);
    var d := IndexOf(b, ".");
    d < 0 || forall i :: d < i < |b| ==> b[i] == '0'
  }

  /** The longest run of digits at the start of `s`. */
  function LeadingDigits(s: string): (r: string)
    ensures AllDigits(r) && |r| <= |s| && r == s[..|r|]
    ensures |r| < |s| ==> !IsDigit(s[|r|])
  {
    if |s| == 0 || !IsDigit(s[0]) then ""
    else [s[0]] + LeadingDigits(s[1..])
  }

  /** `parseInt(s, 10)` on a string without leading white space. */
  function ParseInt(s: string): Value {
    var neg := |s| > 0 && s[0] == '-';
    var ds := LeadingDigits(Unsigned(s));
    if ds == "" then NaN
    else if neg then Int(-(DigitsValue(ds) as int))
    else Int(DigitsValue(ds))
  }

  /**
    `tryParseNumber` on a string: blank, non-numeric and exponent strings come
    back unchanged; an integral numeric string becomes its integer unless it
    starts with `0` and is longer than one character; any other numeric
    string becomes a (non-integral) number.
   */
  function TryParseNumber(s: string): (r: Value)
    ensures IsBlank(s) || !IsNumeric(s) ==> r == Str(s)
    ensures Contains(s, "e") || Contains(s, "E") ==> r == Str(s)
    ensures r.Str? ==> r == Str(s)
    ensures r.Float? ==> IsNumeric(s) && !IsIntegral(s) && r.text == s
    ensures r.Int? || r.NaN? ==> IsNumeric(s) && IsIntegral(s) && !(s[0] == '0' && |s| > 1)
    ensures r.Float? <==>
      !IsBlank(s) && IsNumeric(s) && !Contains(s, "e") && !Contains(s, "E") && !IsIntegral(s)
    ensures !IsBlank(s) && IsNumeric(s) && !Contains(s, "e") && !Contains(s, "E") && IsIntegral(s) ==>
      if s[0] == '0' && |s| > 1 then r == Str(s) else r == ParseInt(s)
  {
    if IsBlank(s) || !IsNumeric(s) then Str(s)
    else if Contains(s, "e") || Contains(s, "E") then Str(s)
    else if IsIntegral(s) then
      if s[0] == '0' && |s| > 1 then Str(s) else ParseInt(s)
    else Float(s)
  }

  /** A string none of whose characters is `c` does not contain `c`. */
  lemma CharAbsent(s: string, c: char)
    requires forall i :: 0 <= i < |s| ==> s[i] != c
    ensures !Contains(s, [c])
  {
    forall i | 0 <= i <= |s| ensures !OccursAt(s, [c], i) {
      if i < |s| { assert s[i..i + 1][0] == s[i]; }
    }
  }

  /** The first `c` of `s` sits at `i`. */
  lemma CharFirstAt(s: string, c: char, i: nat)
    requires i < |s| && s[i] == c
    requires forall j :: 0 <= j < i ==> s[j] != c
    ensures IndexOf(s, [c]) == i
  {
    assert OccursAt(s, [c], i);
    forall j | 0 <= j < i ensures !OccursAt(s, [c], j) {
      assert s[j..j + 1][0] == s[j];
    }
  }

  lemma {:induction false} LeadingDigitsOfDigits(r: string)
    requires AllDigits(r)
    ensures LeadingDigits(r) == r
  {
    if |r| > 0 {
      LeadingDigitsOfDigits(r[1..]);
    }
  }

  /** The unsigned decimal text of a number is numeric, integral and has no exponent. */
  lemma DigitsAreIntegral(s: string, d: string)
    requires AllDigits(d) && |d| > 0
    requires s == d || s == "-" + d
    ensures Unsigned(s) == d && IsNumeric(s) && IsIntegral(s) && !IsBlank(s)
    ensures !Contains(s, "e") && !Contains(s, "E")
  {
    CharAbsent(d, '.');
    CharAbsent(d, 'e');
    CharAbsent(d, 'E');
    CharAbsent(s, 'e');
    CharAbsent(s, 'E');
    assert !IsJsWhitespace(s[0]);
  }

  /** Canonical integer text parses back to the same integer. */
  lemma TryParseNumberCanonicalInt(n: int)
    ensures TryParseNumber(IntToString(n)) == Int(n)
  {
    var s := IntToString(n);
    var d := NatToString(if n < 0 then -n else n);
    assert s == d || s == "-" + d;
    DigitsAreIntegral(s, d);
    assert !(s[0] == '0' && |s| > 1) by {
      if n >= 0 { assert s == d; } else { assert s[0] == '-'; }
    }
    assert TryParseNumber(s) == ParseInt(s);
    assert ParseInt(s) == Int(n) by {
      LeadingDigitsOfDigits(d);
      assert LeadingDigits(Unsigned(s)) == d;
      assert (|s| > 0 && s[0] == '-') <==> n < 0;
    }
  }

  /** A leading zero keeps an integral string a string. */
  lemma TryParseNumberLeadingZero()
    ensures TryParseNumber("042") == Str("042")
  {
    DigitsAreIntegral("042", "042");
  }

  /** Digits, a decimal point and digits: numeric, exponent-free, and integral exactly when the fraction is all zeros. */
  lemma PointNumber(a: string, b: string)
    requires AllDigits(a) && AllDigits(b) && |a| + |b| > 0
    ensures var s := a + "." + b;
      !Contains(s, "e") && !Contains(s, "E") && Unsigned(s) == s && IsNumeric(s) && !IsBlank(s)
      && (IsIntegral(s) <==> forall i :: 0 <= i < |b| ==> b[i] == '0')
      && LeadingDigits(s) == a
  {
    var s := a + "." + b;
    PointChars(a, b);
    assert s[..|a|] == a && s[|a| + 1..] == b;
    assert s[|a| + 1..] == b ==> forall i :: |a| < i < |s| ==> s[i] == b[i - |a| - 1];
  }

  /** The characters of digits, a point and digits: no exponent marker, one point, leading digits `a`. */
  lemma PointChars(a: string, b: string)
    requires AllDigits(a) && AllDigits(b)
    ensures var s := a + "." + b;
      !Contains(s, "e") && !Contains(s, "E") && IndexOf(s, ".") == |a| && !IsBlank(s)
      && LeadingDigits(s) == a && (|s| > 0 ==> IsDigit(s[0]) || s[0] == '.')
  {
    var s := a + "." + b;
    assert s[|a|] == '.';
    forall i | 0 <= i < |s| ensures s[i] != 'e' && s[i] != 'E' && (i != |a| ==> IsDigit(s[i])) {
      if i < |a| { assert s[i] == a[i]; }
      else if i > |a| { assert s[i] == b[i - |a| - 1]; }
    }
    CharAbsent(s, 'e');
    CharAbsent(s, 'E');
    CharFirstAt(s, '.', |a|);
    assert !IsJsWhitespace(s[|a|]);
    LeadingDigitsStop(a, "." + b);
    assert s == a + ("." + b);
  }

  /** The leading digits stop at the first character that is not a digit. */
  lemma {:induction false} LeadingDigitsStop(a: string, rest: string)
    requires AllDigits(a) && |rest| > 0 && !IsDigit(rest[0])
    ensures LeadingDigits(a + rest) == a
    decreases |a|
  {
    if |a| == 0 {
      assert a + rest == rest;
    } else {
      assert (a + rest)[0] == a[0];
      assert (a + rest)[1..] == a[1..] + rest;
      LeadingDigitsStop(a[1..], rest);
    }
  }

  /** An all-zero fraction makes the text integral, so a leading `0` again keeps it a string. */
  lemma TryParseNumberZeroFraction()
    ensures TryParseNumber("0.0") == Str("0.0")
  {
    PointNumber("0", "0");
    assert "0" + "." + "0" == "0.0";
  }

  /** An integral fraction is dropped: `parseInt` reads the integer part. */
  lemma TryParseNumberDropsFraction()
    ensures TryParseNumber("12.0") == Int(12)
  {
    PointNumber("12", "0");
    assert "12" + "." + "0" == "12.0";
    assert DigitsValue("12") == 12 by {
      assert "12"[..1] == "1";
    }
  }

  /** An exponent keeps the string; `.0` is numeric and integral but `parseInt` gives `NaN`. */
  lemma TryParseNumberOddities()
    ensures TryParseNumber("1e5") == Str("1e5")
    ensures TryParseNumber(".0") == NaN
  {
    assert OccursAt("1e5", "e", 1);
    FractionOnlyIsNaN("0");
    assert "." + "0" == ".0";
  }

  /** A zero fraction with no integer part is integral, but `parseInt` finds no digit in it. */
  lemma FractionOnlyIsNaN(b: string)
    requires AllDigits(b) && |b| > 0 && forall i :: 0 <= i < |b| ==> b[i] == '0'
    ensures TryParseNumber("." + b) == NaN
  {
    var s := "." + b;
    PointNumber("", b);
    assert "" + "." + b == s;
    assert s[0] == '.';
    assert TryParseNumber(s) == ParseInt(s);
    assert LeadingDigits(Unsigned(s)) == "";
  }

  // ---------------------------------------------------------------------------
  // preparePathDottedParams

  /** `!Below(a, b)`: `a` sorts at or after `b`. */
  predicate AtLeast(a: string, b: string) {
    !Below(a, b)
  }

  lemma AtLeastTransitive(a: string, b: string, c: string)
    requires AtLeast(a, b) && AtLeast(b, c)
    ensures AtLeast(a, c)
  {
    if Below(a, c) {
      if a == b {
      } else if b == c {
      } else {
        BelowTotal(a, b);
        BelowTotal(b, c);
        BelowTransitive(c, b, a);
        BelowAsymmetric(c, a);
      }
    }
  }

  predicate SortedDesc(s: seq<string>) {
    forall i, j :: 0 <= i < j < |s| ==> AtLeast(s[i], s[j])
  }

  /** Inserts `x` before the first element it sorts at or after. */
  function InsertDesc(x: string, s: seq<string>): (r: seq<string>)
    ensures multiset(r) == multiset(s) + multiset{x}
  {
    if |s| == 0 then [x]
    else if AtLeast(x, s[0]) then [x] + s
    else
      assert s == [s[0]] + s[1..];
      [s[0]] + InsertDesc(x, s[1..])
  }

  /** A head that is at least every later element keeps the sequence sorted. */
  lemma ConsSorted(h: string, t: seq<string>)
    requires SortedDesc(t)
    requires forall y :: y in multiset(t) ==> AtLeast(h, y)
    ensures SortedDesc([h] + t)
  {
    forall j | 0 <= j < |t| ensures AtLeast(h, t[j]) {
      assert t[j] in multiset(t);
    }
  }

  lemma {:induction false} InsertDescSorted(x: string, s: seq<string>)
    requires SortedDesc(s)
    ensures SortedDesc(InsertDesc(x, s))
  {
    if |s| == 0 {
    } else if AtLeast(x, s[0]) {
      forall y | y in multiset(s) ensures AtLeast(x, y) {
        var k :| 0 <= k < |s| && s[k] == y;
        if k > 0 { AtLeastTransitive(x, s[0], s[k]); }
      }
      ConsSorted(x, s);
    } else {
      var t := InsertDesc(x, s[1..]);
      InsertDescSorted(x, s[1..]);
      assert AtLeast(s[0], x) by { BelowAsymmetric(x, s[0]); }
      forall y | y in multiset(t) ensures AtLeast(s[0], y) {
        if y != x {
          assert y in multiset(s[1..]);
          var k :| 0 <= k < |s[1..]| && s[1..][k] == y;
          assert s[k + 1] == y;
        }
      }
      ConsSorted(s[0], t);
    }
  }

  /** `Array.prototype.sort()` followed by `reverse()`: a descending permutation. */
  function SortDesc(ks: seq<string>): (r: seq<string>)
    ensures SortedDesc(r)
    ensures multiset(r) == multiset(ks)
  {
    if |ks| == 0 then []
    else
      assert ks == [ks[0]] + ks[1..];
      var t := SortDesc(ks[1..]);
      InsertDescSorted(ks[0], t);
      InsertDesc(ks[0], t)
  }

  /** Substitutes, for each key in turn, the first `:key` with the key's value. */
  function ReplaceDotted(url: string, o: Obj<Value>, ks: seq<string>): (r: string)
    ensures !Contains(url, ":") ==> r == url
    decreases |ks|
  {
    if |ks| == 0 then url
    else
      assert !Contains(url, ":") ==> !Contains(url, ":" + ks[0]) by {
        if !Contains(url, ":") { NoColonNoPlaceholder(url, ks[0]); }
      }
      ReplaceDotted(ReplaceFirst(url, ":" + ks[0], ToStr(Lookup(o, ks[0]))), o, ks[1..])
  }

  /** A string with no `:` holds no `:key`. */
  lemma NoColonNoPlaceholder(url: string, k: string)
    requires !Contains(url, ":")
    ensures !Contains(url, ":" + k)
  {
    if Contains(url, ":" + k) {
      var i := IndexOf(url, ":" + k);
      NotContainsChar(url, ':', i);
    }
  }

  /**
    `preparePathDottedParams`: null params leave the URL unchanged; otherwise
    every key, in descending order, replaces the first `:key` with its value.
   */
  function PreparePathDottedParams(url: string, params: Option<Obj<Value>>): (r: string)
    ensures params.None? ==> r == url
    ensures !Contains(url, ":") ==> r == url
  {
    match params
    case None => url
    case Some(o) => ReplaceDotted(url, o, SortDesc(Keys(o)))
  }

  /** Replacing a pattern that cannot start at index 0 keeps the first character. */
  lemma ReplaceFirstKeepsHead(s: string, p: string, rep: string)
    requires |s| > 0 && |p| > 0 && s[0] != p[0]
    ensures |ReplaceFirst(s, p, rep)| > 0 && ReplaceFirst(s, p, rep)[0] == s[0]
  {
    var i := IndexOf(s, p);
    if i >= 0 {
      assert OccursAt(s, p, i);
      assert s[i..i + |p|][0] == p[0];
      assert i > 0;
      var r := ReplaceFirst(s, p, rep);
      var a := s[..i];
      assert r == a + rep + s[i + |p|..];
      assert r[0] == a[0];
    }
  }

  lemma {:induction false} ReplaceDottedKeepsHead(url: string, o: Obj<Value>, ks: seq<string>)
    requires |url| > 0 && url[0] != ':'
    ensures |ReplaceDotted(url, o, ks)| > 0 && ReplaceDotted(url, o, ks)[0] == url[0]
    decreases |ks|
  {
    if |ks| > 0 {
      var next := ReplaceFirst(url, ":" + ks[0], ToStr(Lookup(o, ks[0])));
      ReplaceFirstKeepsHead(url, ":" + ks[0], ToStr(Lookup(o, ks[0])));
      ReplaceDottedKeepsHead(next, o, ks[1..]);
    }
  }

  /** Substituting path parameters never touches a first character other than `:`. */
  lemma PreparePathDottedParamsKeepsHead(url: string, params: Option<Obj<Value>>)
    requires |url| > 0 && url[0] != ':'
    ensures |PreparePathDottedParams(url, params)| > 0 && PreparePathDottedParams(url, params)[0] == url[0]
  {
    if params.Some? {
      ReplaceDottedKeepsHead(url, params.value, SortDesc(Keys(params.value)));
    }
  }

  /** In the descending order a key always comes before any of its proper prefixes. */
  lemma LongerKeyFirst(ks: seq<string>, a: string, b: string)
    requires a in ks && b in ks
    requires |a| < |b| && b[..|a|] == a
    ensures exists i, j :: 0 <= i < j < |SortDesc(ks)| && SortDesc(ks)[i] == b && SortDesc(ks)[j] == a
  {
    var r := SortDesc(ks);
    assert a in multiset(r) && b in multiset(r);
    var i :| 0 <= i < |r| && r[i] == b;
    var j :| 0 <= j < |r| && r[j] == a;
    ProperPrefixBelow(a, b);
    assert i != j;
  }

  /** With a single parameter, the placeholder after a `:`-free head is replaced by the value's text. */
  lemma PrepareOneParam(a: string, k: string, b: string, v: Value)
    requires !Contains(a, ":")
    ensures PreparePathDottedParams(a + ":" + k + b, Some([(k, v)])) == a + ToStr(v) + b
  {
    var o := [(k, v)];
    assert Keys(o) == [k];
    assert SortDesc([k]) == [k];
    assert Lookup(o, k) == v;
    forall i | 0 <= i < |a| ensures a[i] != (":" + k)[0] {
      NotContainsChar(a, ':', i);
    }
    var url := a + ":" + k + b;
    assert url == a + (":" + k) + b;
    ReplaceFirstAfterFree(a, ":" + k, b, ToStr(v));
    assert [k][1..] == [];
    assert ReplaceDotted(url, o, [k]) == ReplaceDotted(ReplaceFirst(url, ":" + k, ToStr(v)), o, []);
  }

  /** `/person/:id` with `{id: v}` becomes `/person/` followed by `v` as text. */
  lemma PrepareOneParamExample(url: string, v: Value)
    requires url == "/person/:id"
    ensures PreparePathDottedParams(url, Some([("id", v)])) == "/person/" + ToStr(v)
  {
    var head := "/person/";
    CharAbsent(head, ':');
    assert url == head + ":" + "id" + "";
    PrepareOneParam(head, "id", "", v);
  }

  /** Two distinct keys come out larger first. */
  lemma SortDescPair(ks: seq<string>, x: string, y: string)
    requires multiset(ks) == multiset{x, y} && x != y
    ensures SortDesc(ks) == if AtLeast(x, y) then [x, y] else [y, x]
  {
    var r := SortDesc(ks);
    assert |r| == 2 by {
      assert |multiset(r)| == 2;
    }
    assert r == [r[0], r[1]];
    assert multiset{r[0], r[1]} == multiset{x, y};
    assert AtLeast(r[0], r[1]);
    BelowTotal(x, y);
  }

  /** The `:y` placeholder of `a:x b:y c` is the first `:y` when `y` sorts at or after `x`. */
  lemma SecondPlaceholderFirst(a: string, x: string, b: string, y: string, c: string, rep: string)
    requires x != y && AtLeast(y, x)
    requires !Contains(a, ":") && !Contains(x, ":") && !Contains(b, ":")
    requires !Contains(y, "/") && |b| > 0 && b[0] == '/'
    ensures ReplaceFirst(a + ":" + x + b + ":" + y + c, ":" + y, rep) == a + ":" + x + b + rep + c
  {
    var s := a + ":" + x + b + ":" + y + c;
    var p := ":" + y;
    var at := |a| + 1 + |x| + |b|;
    assert s[at..at + |p|] == p;
    forall j | 0 <= j < at ensures !OccursAt(s, p, j) {
      if j == |a| {
        FirstPlaceholderIsNotY(a, x, b, y, c);
      } else {
        if j < |a| {
          NotContainsChar(a, ':', j);
          assert s[j] == a[j];
        } else if j <= |a| + |x| {
          NotContainsChar(x, ':', j - |a| - 1);
          assert s[j] == x[j - |a| - 1];
        } else {
          NotContainsChar(b, ':', j - |a| - 1 - |x|);
          assert s[j] == b[j - |a| - 1 - |x|];
        }
        assert j + |p| <= |s| ==> s[j..j + |p|][0] == s[j];
      }
    }
    ReplaceFirstAt(s, p, rep, at);
    assert s[..at] == a + ":" + x + b;
    assert s[at + |p|..] == c;
  }

  /** `:y` does not match at the `:x` placeholder: `y` is not a prefix of `x`, nor does it run into the `/`. */
  lemma FirstPlaceholderIsNotY(a: string, x: string, b: string, y: string, c: string)
    requires x != y && AtLeast(y, x)
    requires !Contains(y, "/") && |b| > 0 && b[0] == '/'
    ensures !OccursAt(a + ":" + x + b + ":" + y + c, ":" + y, |a|)
  {
    var s := a + ":" + x + b + ":" + y + c;
    var n := |a|;
    if n + 1 + |y| <= |s| {
      var w := s[n..n + 1 + |y|];
      if |y| <= |x| {
        assert w[1..] == x[..|y|];
        if |y| < |x| && x[..|y|] == y {
          ProperPrefixBelow(y, x);
        }
      } else {
        NotContainsChar(y, '/', |x|);
        assert w[1 + |x|] == b[0];
      }
    }
  }

  /**
    Two path parameters each fill their own placeholder, whichever key sorts
    first, when a `/` follows the first placeholder, neither key holds `:`
    or `/`, and the first key's value holds no `:`.
   */
  lemma PrepareTwoParams(a: string, x: string, b: string, y: string, c: string, o: Obj<Value>)
    requires x != y && multiset(Keys(o)) == multiset{x, y}
    requires !Contains(a, ":") && !Contains(x, ":") && !Contains(b, ":")
    requires !Contains(x, "/") && !Contains(y, "/") && |b| > 0 && b[0] == '/'
    requires !Contains(ToStr(Lookup(o, x)), ":")
    ensures PreparePathDottedParams(a + ":" + x + b + ":" + y + c, Some(o))
         == a + ToStr(Lookup(o, x)) + b + ToStr(Lookup(o, y)) + c
  {
    var url := a + ":" + x + b + ":" + y + c;
    var vx := ToStr(Lookup(o, x));
    var vy := ToStr(Lookup(o, y));
    SortDescPair(Keys(o), x, y);
    if AtLeast(x, y) {
      ReplaceDottedTwo(url, o, x, y);
      LargerKeyFirst(a, x, b, y, c, vx, vy);
    } else {
      BelowAsymmetric(x, y);
      ReplaceDottedTwo(url, o, y, x);
      SmallerKeyFirst(a, x, b, y, c, vx, vy);
    }
  }

  /** When the second placeholder's key goes first, it still finds its own placeholder. */
  lemma SmallerKeyFirst(a: string, x: string, b: string, y: string, c: string, vx: string, vy: string)
    requires x != y && AtLeast(y, x)
    requires !Contains(a, ":") && !Contains(x, ":") && !Contains(b, ":")
    requires !Contains(y, "/") && |b| > 0 && b[0] == '/'
    ensures ReplaceFirst(ReplaceFirst(a + ":" + x + b + ":" + y + c, ":" + y, vy), ":" + x, vx)
         == a + vx + b + vy + c
  {
    SecondPlaceholderFirst(a, x, b, y, c, vy);
    var tail := b + vy + c;
    var u := a + ":" + x + b + vy + c;
    assert u == a + (":" + x) + tail;
    ReplaceFirstAfter(a, ':', x, tail, vx);
    assert a + vx + tail == a + vx + b + vy + c;
  }

  /** Two keys: two substitutions, in turn. */
  lemma ReplaceDottedTwo(url: string, o: Obj<Value>, p: string, q: string)
    ensures ReplaceDotted(url, o, [p, q])
         == ReplaceFirst(ReplaceFirst(url, ":" + p, ToStr(Lookup(o, p))), ":" + q, ToStr(Lookup(o, q)))
  {
    var u1 := ReplaceFirst(url, ":" + p, ToStr(Lookup(o, p)));
    var u2 := ReplaceFirst(u1, ":" + q, ToStr(Lookup(o, q)));
    assert [p, q][0] == p && [p, q][1..] == [q];
    assert ReplaceDotted(url, o, [p, q]) == ReplaceDotted(u1, o, [q]);
    assert [q][0] == q && [q][1..] == [];
    assert ReplaceDotted(u1, o, [q]) == ReplaceDotted(u2, o, []);
  }

  /** When the first placeholder's key goes first, each `:` in turn is the placeholder replaced. */
  lemma LargerKeyFirst(a: string, x: string, b: string, y: string, c: string, vx: string, vy: string)
    requires !Contains(a, ":") && !Contains(vx, ":") && !Contains(b, ":")
    ensures ReplaceFirst(ReplaceFirst(a + ":" + x + b + ":" + y + c, ":" + x, vx), ":" + y, vy)
         == a + vx + b + vy + c
  {
    var tail := b + ":" + y + c;
    var head := a + vx + b;
    assert ReplaceFirst(a + ":" + x + b + ":" + y + c, ":" + x, vx) == head + (":" + y) + c by {
      assert a + ":" + x + b + ":" + y + c == a + (":" + x) + tail;
      ReplaceFirstAfter(a, ':', x, tail, vx);
      assert a + vx + tail == head + (":" + y) + c;
    }
    assert !Contains(head, ":") by {
      NoCharConcat(a, vx, ':');
      NoCharConcat(a + vx, b, ':');
    }
    ReplaceFirstAfter(head, ':', y, c, vy);
  }

  // ---------------------------------------------------------------------------
  // prepareUrlParams

  function QueryPair(e: (string, Value)): string {
    e.0 + "=" + ToStr(e.1)
  }

  function AppendQuery(url: string, ps: Obj<Value>, first: bool): string
    decreases |ps|
  {
    if |ps| == 0 then url
    else AppendQuery(url + (if first then "?" else "&") + QueryPair(ps[0]), ps[1..], false)
  }

  /**
    `prepareUrlParams`: appends `?k=v` for the first key and `&k=v` for each
    later one, whatever the URL already holds; absent params append nothing.
   */
  function PrepareUrlParams(url: string, params: Option<Obj<Value>>): (r: string)
    ensures params.None? || params.value == [] ==> r == url
    ensures StartsWith(r, url)
  {
    var ps := params.GetOr([]);
    AppendQueryExtends(url, ps, true);
    AppendQuery(url, ps, true)
  }

  lemma {:induction false} AppendQueryExtends(url: string, ps: Obj<Value>, first: bool)
    decreases |ps|
    ensures StartsWith(AppendQuery(url, ps, first), url)
  {
    if |ps| > 0 {
      var u := url + (if first then "?" else "&") + QueryPair(ps[0]);
      AppendQueryExtends(u, ps[1..], false);
      assert u[..|url|] == url;
    }
  }

  lemma {:induction false} AppendQuerySnoc(url: string, ps: Obj<Value>, first: bool, e: (string, Value))
    decreases |ps|
    ensures AppendQuery(url, ps + [e], first)
         == AppendQuery(url, ps, first) + (if first && |ps| == 0 then "?" else "&") + QueryPair(e)
  {
    if |ps| > 0 {
      assert (ps + [e])[1..] == ps[1..] + [e];
      AppendQuerySnoc(url + (if first then "?" else "&") + QueryPair(ps[0]), ps[1..], false, e);
    }
  }

  lemma {:induction false} AppendQueryShift(u: string, v: string, ps: Obj<Value>, first: bool)
    decreases |ps|
    ensures AppendQuery(u + v, ps, first) == u + AppendQuery(v, ps, first)
  {
    if |ps| > 0 {
      var sep := (if first then "?" else "&") + QueryPair(ps[0]);
      assert u + v + (if first then "?" else "&") + QueryPair(ps[0]) == u + (v + sep);
      assert v + (if first then "?" else "&") + QueryPair(ps[0]) == v + sep;
      AppendQueryShift(u, v + sep, ps[1..], false);
    }
  }

  /** The query text does not depend on the URL it is appended to. */
  lemma PrepareUrlParamsAppends(url: string, params: Option<Obj<Value>>)
    ensures PrepareUrlParams(url, params) == url + PrepareUrlParams("", params)
  {
    assert url + "" == url;
    AppendQueryShift(url, "", params.GetOr([]), true);
  }

  /** Adding one more parameter appends exactly one more `k=v` pair with the right separator. */
  lemma PrepareUrlParamsSnoc(url: string, ps: Obj<Value>, k: string, v: Value)
    ensures PrepareUrlParams(url, Some(ps + [(k, v)]))
         == PrepareUrlParams(url, Some(ps)) + (if |ps| == 0 then "?" else "&") + k + "=" + ToStr(v)
  {
    AppendQuerySnoc(url, ps, true, (k, v));
  }

  // ---------------------------------------------------------------------------
  // removeUndefinedPathParams

  /** `removeUndefinedPathParams`: drops every `/undefined`, then every `/null`. */
  function RemoveUndefinedPathParams(url: string): (r: string)
    ensures !Contains(url, "/undefined") && !Contains(url, "/null") ==> r == url
  {
    RemoveAll(RemoveAll(url, "/undefined"), "/null")
  }

  /** One pass each: deleting `/null` can close up a new `/null`. */
  lemma RemoveUndefinedSinglePass()
    ensures RemoveUndefinedPathParams("/n/nullull") == "/null"
  {
    var s := "/n/nullull";
    NoUndefinedSegment(s);
    NullSplitsOnce(s);
  }

  lemma NoUndefinedSegment(s: string)
    requires s == "/n/nullull"
    ensures !Contains(s, "/undefined")
  {
    forall i | 0 <= i <= |s| ensures !OccursAt(s, "/undefined", i) {
      if i == 0 { assert s[0..10][2] != "/undefined"[2]; }
    }
  }

  lemma NullSplitsOnce(s: string)
    requires s == "/n/nullull"
    ensures Split(s, "/null") == ["/n", "ull"]
  {
    assert !OccursAt(s, "/null", 0) by { assert s[0..5][2] != "/null"[2]; }
    assert !OccursAt(s, "/null", 1) by { assert s[1..6][0] != "/null"[0]; }
    assert OccursAt(s, "/null", 2) by { assert s[2..7] == "/null"; }
    assert IndexOf(s, "/null") == 2;
    assert !Contains("ull", "/null");
    assert s[..2] == "/n" && s[7..] == "ull";
  }

  /** A pattern whose first character does not recur in it is first found after a prefix that lacks it. */
  lemma FirstAfterFreePrefix(a: string, p: string, b: string)
    requires p != "" && !Contains(a, p)
    requires forall k :: 0 < k < |p| ==> p[k] != p[0]
    ensures IndexOf(a + p + b, p) == |a|
  {
    var s := a + p + b;
    assert s[|a|..|a| + |p|] == p;
    forall j | 0 <= j < |a| ensures !OccursAt(s, p, j) {
      if j + |p| <= |a| {
        assert s[j..j + |p|] == a[j..j + |p|];
        assert !OccursAt(a, p, j);
      } else {
        assert s[j..j + |p|][|a| - j] == s[|a|] == p[0] != p[|a| - j];
      }
    }
    assert OccursAt(s, p, |a|);
  }

  /** Deleting every `p` keeps the text before the first `p` and goes on after it. */
  lemma RemoveAllAt(s: string, p: string, i: nat)
    requires p != "" && IndexOf(s, p) == i
    ensures RemoveAll(s, p) == s[..i] + RemoveAll(s[i + |p|..], p)
  {
    var rest := Split(s[i + |p|..], p);
    assert Split(s, p) == [s[..i]] + rest;
    JoinFront(s[..i], rest);
  }

  /** Joining without a separator puts the first piece in front of the rest joined. */
  lemma JoinFront(head: string, rest: seq<string>)
    requires |rest| >= 1
    ensures Join([head] + rest, "") == head + Join(rest, "")
  {
    assert ([head] + rest)[1..] == rest;
    assert head + "" == head;
  }

  /** A single `/undefined` segment is deleted, and the text around it is kept. */
  lemma RemoveOneUndefined(a: string, b: string)
    requires !Contains(a, "/undefined") && !Contains(b, "/undefined") && !Contains(a + b, "/null")
    ensures RemoveUndefinedPathParams(a + "/undefined" + b) == a + b
  {
    var s := a + "/undefined" + b;
    FirstAfterFreePrefix(a, "/undefined", b);
    RemoveAllAt(s, "/undefined", |a|);
    assert s[..|a|] == a && s[|a| + |"/undefined"|..] == b;
  }

  /** A single `/null` segment is deleted, and the text around it is kept. */
  lemma RemoveOneNull(a: string, b: string)
    requires !Contains(a, "/null") && !Contains(b, "/null") && !Contains(a + "/null" + b, "/undefined")
    ensures RemoveUndefinedPathParams(a + "/null" + b) == a + b
  {
    var s := a + "/null" + b;
    FirstAfterFreePrefix(a, "/null", b);
    RemoveAllAt(s, "/null", |a|);
    assert s[..|a|] == a && s[|a| + |"/null"|..] == b;
  }

  // ---------------------------------------------------------------------------
  // bindStringParams

  /** The second argument of `bindStringParams` / `__bindParams`: absent, an array or an object. */
  datatype BindArgs = NoArgs | ArrayArgs(items: seq<Value>) | MapArgs(entries: Obj<Value>)

  function HexDigit(n: nat): char
    requires n < 16
  {
    if n < 10 then ('0' as int + n) as char else ('a' as int + n - 10) as char
  }

  /** A string literal as `JSON.stringify` writes it. */
  function JsonQuoteBody(s: string): string {
    if |s| == 0 then ""
    else
      var c := s[0];
      var e :=
        if c == '"' then "\\\""
        else if c == '\\' then "\\\\"
        else if c == '\U{0008}' then "\\b"
        else if c == '\U{000C}' then "\\f"
        else if c == '\n' then "\\n"
        else if c == '\r' then "\\r"
        else if c == '\t' then "\\t"
        else if (c as int) < 0x20 then "\\u00" + [HexDigit(c as int / 16), HexDigit(c as int % 16)]
        else [c];
      e + JsonQuoteBody(s[1..])
  }

  /** The text `JSON.stringify(v)` contributes to a `replace` (`undefined` when it returns undefined). */
  function JsonText(v: Value): string {
    match v
    case Undefined => "undefined"
    case Null => "null"
    case NaN => "null"
    case Str(s) => "\"" + JsonQuoteBody(s) + "\""
    case _ => ToStr(v)
  }

  /** The `{i}` / `{name}` tags with their replacement texts, in iteration order. */
  function BindPairs(args: BindArgs, noStringify: bool): seq<(string, string)> {
    match args
    case NoArgs => []
    case ArrayArgs(items) =>
      seq(|items|, i requires 0 <= i < |items| =>
        ("{" + IntToString(i) + "}", if noStringify then ToStr(items[i]) else JsonText(items[i])))
    case MapArgs(entries) =>
      seq(|entries|, i requires 0 <= i < |entries| =>
        ("{" + entries[i].0 + "}", if noStringify then ToStr(entries[i].1) else JsonText(entries[i].1)))
  }

  /** Replaces, for each pair in turn, the first occurrence of its tag. */
  function ReplaceEach(s: string, pairs: seq<(string, string)>): string
    decreases |pairs|
  {
    if |pairs| == 0 then s
    else ReplaceEach(ReplaceFirst(s, pairs[0].0, pairs[0].1), pairs[1..])
  }

  /** Every tag starts with `{`, so a string without `{` is left alone. */
  lemma {:induction false} ReplaceEachNoBrace(s: string, pairs: seq<(string, string)>)
    requires !Contains(s, "{")
    requires forall i :: 0 <= i < |pairs| ==> StartsWith(pairs[i].0, "{")
    ensures ReplaceEach(s, pairs) == s
  {
    if |pairs| > 0 {
      if Contains(s, pairs[0].0) {
        var i := IndexOf(s, pairs[0].0);
        assert s[i] == '{';
        assert OccursAt(s, "{", i);
        assert false;
      }
      ReplaceEachNoBrace(s, pairs[1..]);
    }
  }

  /**
    `bindStringParams(string, params, noStringify)`: a falsy string gives '';
    a string without `{`, or absent params, is returned as is; otherwise each
    parameter replaces the first `{i}` / `{name}` with its (JSON) text.
   */
  function BindStringParams(s: Option<string>, args: BindArgs, noStringify: bool): (r: string)
    ensures s.None? || s.value == "" ==> r == ""
    ensures s.Some? && (!Contains(s.value, "{") || args.NoArgs?) ==> r == s.value
  {
    if s.None? || s.value == "" then ""
    else if !Contains(s.value, "{") || args.NoArgs? then s.value
    else ReplaceEach(s.value, BindPairs(args, noStringify))
  }

  /** The short-cut on a missing `{` only saves work: binding would change nothing anyway. */
  lemma BindShortcutIsSound(s: string, args: BindArgs, noStringify: bool)
    requires !Contains(s, "{")
    ensures ReplaceEach(s, BindPairs(args, noStringify)) == s
  {
    var ps := BindPairs(args, noStringify);
    forall i | 0 <= i < |ps| ensures StartsWith(ps[i].0, "{") {
    }
    ReplaceEachNoBrace(s, ps);
  }

  /** A single array parameter fills only the first `{0}`, as JSON text unless stringifying is switched off. */
  lemma BindFirstOccurrenceOnly(v: Value, noStringify: bool)
    ensures BindStringParams(Some("{0}-{0}"), ArrayArgs([v]), noStringify)
         == (if noStringify then ToStr(v) else JsonText(v)) + "-{0}"
  {
    assert OccursAt("{0}-{0}", "{", 0);
    BindSingleZero("{0}-{0}", v, noStringify);
    ZeroTagFirst(if noStringify then ToStr(v) else JsonText(v));
  }

  /** One array value binds as the single pair for the tag `{0}`. */
  lemma BindSingleZero(s: string, v: Value, noStringify: bool)
    ensures ReplaceEach(s, BindPairs(ArrayArgs([v]), noStringify))
         == ReplaceFirst(s, "{0}", if noStringify then ToStr(v) else JsonText(v))
  {
    assert IntToString(0) == "0";
    var ps := BindPairs(ArrayArgs([v]), noStringify);
    assert "{" + "0" + "}" == "{0}";
    assert ps[1..] == [];
  }

  /** The first `{0}` of `{0}-{0}` is at the start. */
  lemma ZeroTagFirst(t: string)
    ensures ReplaceFirst("{0}-{0}", "{0}", t) == t + "-{0}"
  {
    assert OccursAt("{0}-{0}", "{0}", 0);
    assert IndexOf("{0}-{0}", "{0}") == 0;
  }

  /** `pieces[0] + fills[0] + pieces[1] + ... + fills[n - 1] + pieces[n]`. */
  function Weave(pieces: seq<string>, fills: seq<string>): string
    requires |pieces| == |fills| + 1
    decreases |fills|
  {
    if |fills| == 0 then pieces[0]
    else pieces[0] + fills[0] + Weave(pieces[1..], fills[1..])
  }

  /** The tags of the pairs, in order. */
  function Tags(pairs: seq<(string, string)>): (r: seq<string>)
    ensures |r| == |pairs|
  {
    if |pairs| == 0 then [] else [pairs[0].0] + Tags(pairs[1..])
  }

  /** The replacement texts of the pairs, in order. */
  function Texts(pairs: seq<(string, string)>): (r: seq<string>)
    ensures |r| == |pairs|
  {
    if |pairs| == 0 then [] else [pairs[0].1] + Texts(pairs[1..])
  }

  /** One step of binding a woven template: the first tag is the first `{`. */
  lemma WovenStep(head: string, t: string, rest: string, text: string)
    requires Lacks(head, '{') && |t| > 0 && t[0] == '{'
    ensures ReplaceFirst(head + t + rest, t, text) == head + text + rest
  {
    ReplaceFirstAfterFree(head, t, rest, text);
  }

  /** No piece holds a `{`. */
  predicate BraceFree(pieces: seq<string>) {
    |pieces| == 0 || (Lacks(pieces[0], '{') && BraceFree(pieces[1..]))
  }

  /** Every tag starts with `{` and no text holds one. */
  predicate Tagged(pairs: seq<(string, string)>) {
    |pairs| == 0
    || (|pairs[0].0| > 0 && pairs[0].0[0] == '{' && Lacks(pairs[0].1, '{') && Tagged(pairs[1..]))
  }

  lemma {:induction false} BraceFreeAll(pieces: seq<string>)
    requires forall i :: 0 <= i < |pieces| ==> !Contains(pieces[i], "{")
    ensures BraceFree(pieces)
    decreases |pieces|
  {
    if |pieces| > 0 {
      NotContainsLacks(pieces[0], '{');
      assert forall i :: 0 <= i < |pieces[1..]| ==> pieces[1..][i] == pieces[i + 1];
      BraceFreeAll(pieces[1..]);
    }
  }

  lemma {:induction false} TaggedAll(pairs: seq<(string, string)>)
    requires forall i :: 0 <= i < |pairs| ==> |pairs[i].0| > 0 && pairs[i].0[0] == '{' && !Contains(pairs[i].1, "{")
    ensures Tagged(pairs)
    decreases |pairs|
  {
    if |pairs| > 0 {
      NotContainsLacks(pairs[0].1, '{');
      assert forall i :: 0 <= i < |pairs[1..]| ==> pairs[1..][i] == pairs[i + 1];
      TaggedAll(pairs[1..]);
    }
  }

  /**
    A template made of `{`-free text with the tags in pair order gets every
    tag replaced by its text, when no text brings in a `{` of its own.
   */
  lemma {:induction false} ReplaceEachWoven(prefix: string, pieces: seq<string>, pairs: seq<(string, string)>)
    requires |pieces| == |pairs| + 1
    requires Lacks(prefix, '{') && BraceFree(pieces) && Tagged(pairs)
    ensures ReplaceEach(prefix + Weave(pieces, Tags(pairs)), pairs) == prefix + Weave(pieces, Texts(pairs))
    decreases |pairs|
  {
    if |pairs| > 0 {
      var next := prefix + pieces[0] + pairs[0].1;
      var texts := Weave(pieces[1..], Texts(pairs[1..]));
      assert Lacks(next, '{') && BraceFree(pieces[1..]) && Tagged(pairs[1..]);
      assert ReplaceEach(next + Weave(pieces[1..], Tags(pairs[1..])), pairs[1..]) == next + texts by {
        ReplaceEachWoven(next, pieces[1..], pairs[1..]);
      }
      assert prefix + Weave(pieces, Texts(pairs)) == next + texts by {
        WeaveCons(pieces, pairs[0].1, Texts(pairs[1..]));
      }
      WovenFirstTag(prefix, pieces, pairs);
    }
  }

  /** Filling the first tag of a woven template leaves a woven template with a longer `{`-free prefix. */
  lemma WovenFirstTag(prefix: string, pieces: seq<string>, pairs: seq<(string, string)>)
    requires |pieces| == |pairs| + 1 && |pairs| > 0
    requires Lacks(prefix, '{') && BraceFree(pieces) && Tagged(pairs)
    ensures ReplaceEach(prefix + Weave(pieces, Tags(pairs)), pairs)
         == ReplaceEach(prefix + pieces[0] + pairs[0].1 + Weave(pieces[1..], Tags(pairs[1..])), pairs[1..])
  {
    var t := pairs[0].0;
    var head := prefix + pieces[0];
    var rest := Weave(pieces[1..], Tags(pairs[1..]));
    assert prefix + Weave(pieces, Tags(pairs)) == head + t + rest by {
      WeaveCons(pieces, t, Tags(pairs[1..]));
    }
    WovenStep(head, t, rest, pairs[0].1);
  }

  lemma WeaveCons(pieces: seq<string>, f: string, fills: seq<string>)
    requires |pieces| == |fills| + 2
    ensures Weave(pieces, [f] + fills) == pieces[0] + f + Weave(pieces[1..], fills)
  {
    assert ([f] + fills)[0] == f && ([f] + fills)[1..] == fills;
  }

  /**
    `bindStringParams` on a template whose `{`-free text surrounds the tags
    `{0}`, `{1}`, ... (or `{name}` in key order) gives the text with each tag
    filled, when no value's text holds a `{`.
   */
  lemma BindWoven(pieces: seq<string>, args: BindArgs, noStringify: bool)
    requires |pieces| == |BindPairs(args, noStringify)| + 1
    requires forall i :: 0 <= i < |pieces| ==> !Contains(pieces[i], "{")
    requires forall i :: 0 <= i < |BindPairs(args, noStringify)| ==> !Contains(BindPairs(args, noStringify)[i].1, "{")
    ensures BindStringParams(Some(Weave(pieces, Tags(BindPairs(args, noStringify)))), args, noStringify)
         == Weave(pieces, Texts(BindPairs(args, noStringify)))
  {
    var pairs := BindPairs(args, noStringify);
    var s := Weave(pieces, Tags(pairs));
    var w := Weave(pieces, Texts(pairs));
    assert ReplaceEach(s, pairs) == w by {
      BraceFreeAll(pieces);
      BindPairsTagged(args, noStringify);
      ReplaceEachWoven("", pieces, pairs);
      assert "" + s == s && "" + w == w;
    }
    if |pairs| > 0 {
      WovenHasBrace(pieces, pairs);
    }
  }

  /** The tags of `bindStringParams` start with `{`. */
  lemma BindPairsTagged(args: BindArgs, noStringify: bool)
    requires forall i :: 0 <= i < |BindPairs(args, noStringify)| ==> !Contains(BindPairs(args, noStringify)[i].1, "{")
    ensures Tagged(BindPairs(args, noStringify))
  {
    var pairs := BindPairs(args, noStringify);
    forall i | 0 <= i < |pairs| ensures |pairs[i].0| > 0 && pairs[i].0[0] == '{' {
    }
    TaggedAll(pairs);
  }

  /** A template with at least one tag holds a `{`. */
  lemma WovenHasBrace(pieces: seq<string>, pairs: seq<(string, string)>)
    requires |pieces| == |pairs| + 1 && |pairs| > 0 && |pairs[0].0| > 0 && pairs[0].0[0] == '{'
    ensures Contains(Weave(pieces, Tags(pairs)), "{")
  {
    var s := Weave(pieces, Tags(pairs));
    WeaveCons(pieces, pairs[0].0, Tags(pairs[1..]));
    assert s[|pieces[0]|..|pieces[0]| + 1] == "{";
    assert OccursAt(s, "{", |pieces[0]|);
  }
}
