/**
  The JavaScript string primitives the framework relies on: `indexOf`,
  `replace` with a string pattern (first occurrence only), `split`/`join`,
  `trim` emptiness, the default `sort` order and decimal integer text.
 */
module JsString {

  /** `p` occurs in `s` at index `i`. */
  predicate OccursAt(s: string, p: string, i: nat) {
    i + |p| <= |s| && s[i..i + |p|] == p
  }

  /** `s.indexOf(p, k)`: the first index at or after `k` where `p` occurs, or -1. */
  function IndexFrom(s: string, p: string, k: nat): (r: int)
    requires k <= |s|
    ensures r == -1 || k <= r <= |s|
    ensures r == -1 ==> forall i :: k <= i <= |s| ==> !OccursAt(s, p, i)
    ensures r >= 0 ==> OccursAt(s, p, r) && forall i :: k <= i < r ==> !OccursAt(s, p, i)
    decreases |s| - k
  {
    if OccursAt(s, p, k) then k
    else if k == |s| then -1
    else IndexFrom(s, p, k + 1)
  }

  /** `s.indexOf(p)`. */
  function IndexOf(s: string, p: string): (r: int)
    ensures -1 <= r <= |s|
    ensures r == -1 <==> forall i :: 0 <= i <= |s| ==> !OccursAt(s, p, i)
    ensures r >= 0 ==> OccursAt(s, p, r) && forall i :: 0 <= i < r ==> !OccursAt(s, p, i)
  {
    IndexFrom(s, p, 0)
  }

  /** `s.indexOf(p) > -1`. */
  predicate Contains(s: string, p: string) {
    IndexOf(s, p) >= 0
  }

  /** An occurrence inside a prefix of `s` is an occurrence in `s`. */
  lemma OccursInPrefix(s: string, p: string, n: nat, i: nat)
    requires n <= |s|
    requires OccursAt(s[..n], p, i)
    ensures OccursAt(s, p, i)
  {
    assert s[..n][i..i + |p|] == s[i..i + |p|];
  }

  /** An occurrence inside a suffix of `s` is an occurrence in `s`, shifted. */
  lemma OccursInSuffix(s: string, p: string, n: nat, i: nat)
    requires n <= |s|
    requires OccursAt(s[n..], p, i)
    ensures OccursAt(s, p, n + i)
  {
    assert s[n..][i..i + |p|] == s[n + i..n + i + |p|];
  }

  /** A string that is `p` somewhere contains `p`. */
  lemma ContainsWitness(s: string, p: string, i: nat)
    requires OccursAt(s, p, i)
    ensures Contains(s, p)
  {
  }

  /** The part of `s` before the first `p`: no earlier occurrence of `p` lives there. */
  lemma PrefixBeforeFirstFree(s: string, p: string)
    requires p != "" && Contains(s, p)
    ensures !Contains(s[..IndexOf(s, p)], p)
  {
    var n := IndexOf(s, p);
    if Contains(s[..n], p) {
      var j := IndexOf(s[..n], p);
      OccursInPrefix(s, p, n, j);
    }
  }

  /**
    `s.replace(p, rep)` with a string pattern: only the FIRST occurrence is
    replaced; a string without `p` comes back unchanged. Replacement
    patterns (`$&`, `$1`, ...) are not interpreted. The empty pattern
    matches at index 0.
   */
  function ReplaceFirst(s: string, p: string, rep: string): (r: string)
    ensures !Contains(s, p) ==> r == s
    ensures p == "" ==> r == rep + s
  {
    var i := IndexOf(s, p);
    if i < 0 then s
    else s[..i] + rep + s[i + |p|..]
  }

  /** Where `p` occurs, `replace` splits `s` at its first occurrence and puts `rep` there. */
  lemma ReplaceFirstSplits(s: string, p: string, rep: string)
    requires p != "" && Contains(s, p)
    ensures exists a, b :: s == a + p + b && !Contains(a, p) && ReplaceFirst(s, p, rep) == a + rep + b
  {
    var i := IndexOf(s, p);
    assert s == s[..i] + p + s[i + |p|..];
    PrefixBeforeFirstFree(s, p);
  }

  /** `replace` rewrites the occurrence at `i` when none starts earlier. */
  lemma ReplaceFirstAt(s: string, p: string, rep: string, i: nat)
    requires OccursAt(s, p, i)
    requires forall j :: 0 <= j < i ==> !OccursAt(s, p, j)
    ensures ReplaceFirst(s, p, rep) == s[..i] + rep + s[i + |p|..]
  {
    var k := IndexOf(s, p);
    assert k == i by {
      assert i <= |s| && OccursAt(s, p, i);
      assert k != -1;
      assert !(k < i);
      assert !(i < k);
    }
  }

  /** A pattern whose first character is absent from `a` is first found right after `a`. */
  lemma ReplaceFirstAfterFree(a: string, p: string, b: string, rep: string)
    requires |p| > 0
    requires forall k :: 0 <= k < |a| ==> a[k] != p[0]
    ensures ReplaceFirst(a + p + b, p, rep) == a + rep + b
  {
    var s := a + p + b;
    assert s[|a|..|a| + |p|] == p;
    forall j | 0 <= j < |a| ensures !OccursAt(s, p, j) {
      assert s[j] == a[j] != p[0];
    }
    ReplaceFirstAt(s, p, rep, |a|);
    assert s[..|a|] == a;
    assert s[|a| + |p|..] == b;
  }

  /** No character of `s` is `c`. */
  predicate Lacks(s: string, c: char) {
    forall k :: 0 <= k < |s| ==> s[k] != c
  }

  /** `s.indexOf(c) == -1` means `s` lacks `c`. */
  lemma NotContainsLacks(s: string, c: char)
    requires !Contains(s, [c])
    ensures Lacks(s, c)
  {
    forall k | 0 <= k < |s| ensures s[k] != c {
      NotContainsChar(s, c, k);
    }
  }

  /** A pattern starting with a character absent from `a` is first found right after `a`. */
  lemma ReplaceFirstAfter(a: string, c: char, rest: string, b: string, rep: string)
    requires !Contains(a, [c])
    ensures ReplaceFirst(a + ([c] + rest) + b, [c] + rest, rep) == a + rep + b
  {
    forall k | 0 <= k < |a| ensures a[k] != c {
      NotContainsChar(a, c, k);
    }
    ReplaceFirstAfterFree(a, [c] + rest, b, rep);
  }

  /** Two strings without `c` make one. */
  lemma NoCharConcat(a: string, b: string, c: char)
    requires !Contains(a, [c]) && !Contains(b, [c])
    ensures !Contains(a + b, [c])
  {
    forall k | 0 <= k < |a + b| ensures (a + b)[k] != c {
      if k < |a| {
        NotContainsChar(a, c, k);
      } else {
        NotContainsChar(b, c, k - |a|);
      }
    }
    forall i | 0 <= i <= |a + b| ensures !OccursAt(a + b, [c], i) {
      if i < |a + b| {
        assert (a + b)[i..i + 1] == [(a + b)[i]];
      }
    }
  }

  /** `s.indexOf(c) == -1` for a one-character pattern means no character of `s` is `c`. */
  lemma NotContainsChar(s: string, c: char, k: nat)
    requires !Contains(s, [c]) && k < |s|
    ensures s[k] != c
  {
    assert s[k..k + 1] == [s[k]];
    assert !OccursAt(s, [c], k);
  }

  /** `parts.join(sep)`. */
  function Join(parts: seq<string>, sep: string): string {
    if |parts| == 0 then ""
    else if |parts| == 1 then parts[0]
    else parts[0] + sep + Join(parts[1..], sep)
  }

  /**
    `s.split(sep)` for a non-empty separator: the pieces between the
    left-to-right, non-overlapping occurrences of `sep`. Joining them back
    with `sep` gives `s`, and no piece contains `sep`.
   */
  function Split(s: string, sep: string): (r: seq<string>)
    requires sep != ""
    ensures |r| >= 1
    ensures Join(r, sep) == s
    ensures forall k :: 0 <= k < |r| ==> !Contains(r[k], sep)
    ensures !Contains(s, sep) ==> r == [s]
    decreases |s|
  {
    var i := IndexOf(s, sep);
    if i < 0 then [s]
    else
      var rest := Split(s[i + |sep|..], sep);
      assert Join([s[..i]] + rest, sep) == s
          && forall k :: 0 <= k < |[s[..i]] + rest| ==> !Contains(([s[..i]] + rest)[k], sep) by {
        SplitStep(s, sep, i, rest);
      }
      [s[..i]] + rest
  }

  /** One step of `Split`: the text before the first separator, then the pieces of the rest. */
  lemma SplitStep(s: string, sep: string, i: nat, rest: seq<string>)
    requires sep != "" && i == IndexOf(s, sep)
    requires |rest| >= 1 && Join(rest, sep) == s[i + |sep|..]
    requires forall k :: 0 <= k < |rest| ==> !Contains(rest[k], sep)
    ensures Join([s[..i]] + rest, sep) == s
    ensures forall k :: 0 <= k < |[s[..i]] + rest| ==> !Contains(([s[..i]] + rest)[k], sep)
  {
    PrefixBeforeFirstFree(s, sep);
    PiecesFree(s[..i], rest, sep);
    JoinStep(s, sep, i, rest);
  }

  /** The text before an occurrence, the separator, and the rest joined back make `s`. */
  lemma JoinStep(s: string, sep: string, i: nat, rest: seq<string>)
    requires OccursAt(s, sep, i)
    requires |rest| >= 1 && Join(rest, sep) == s[i + |sep|..]
    ensures Join([s[..i]] + rest, sep) == s
  {
    JoinCons(s[..i], rest, sep);
    SplitAround(s, sep, i);
  }

  /** An occurrence of `sep` at `i` cuts `s` into the text before it, `sep`, and the text after it. */
  lemma SplitAround(s: string, sep: string, i: nat)
    requires OccursAt(s, sep, i)
    ensures s == s[..i] + sep + s[i + |sep|..]
  {
    assert s == s[..i] + s[i..i + |sep|] + s[i + |sep|..];
  }

  /** Joining puts the first piece and a separator in front of the rest joined. */
  lemma JoinCons(head: string, rest: seq<string>, sep: string)
    requires |rest| >= 1
    ensures Join([head] + rest, sep) == head + sep + Join(rest, sep)
  {
    assert ([head] + rest)[1..] == rest;
  }

  /** Putting a piece free of `sep` in front of pieces free of `sep`. */
  lemma PiecesFree(head: string, rest: seq<string>, sep: string)
    requires !Contains(head, sep)
    requires forall k :: 0 <= k < |rest| ==> !Contains(rest[k], sep)
    ensures forall k :: 0 <= k < |[head] + rest| ==> !Contains(([head] + rest)[k], sep)
  {
    var r := [head] + rest;
    forall k | 0 <= k < |r| ensures !Contains(r[k], sep) {
      if k > 0 {
        assert r[k] == rest[k - 1];
      }
    }
  }

  /** `s.split(p).join('')`: every left-to-right occurrence of `p` deleted in one pass. */
  function RemoveAll(s: string, p: string): (r: string)
    requires p != ""
    ensures !Contains(s, p) ==> r == s
  {
    Join(Split(s, p), "")
  }

  /** The characters `String.prototype.trim` removes (white space and line terminators). */
  predicate IsJsWhitespace(c: char) {
    || c == '\t' || c == '\n' || c == '\U{000B}' || c == '\U{000C}' || c == '\r' || c == ' '
    || c == '\U{00A0}' || c == '\U{1680}' || ('\U{2000}' <= c <= '\U{200A}')
    || c == '\U{2028}' || c == '\U{2029}' || c == '\U{202F}' || c == '\U{205F}' || c == '\U{3000}'
    || c == '\U{FEFF}'
  }

  /** `s.trim().length == 0`. */
  predicate IsBlank(s: string) {
    forall i :: 0 <= i < |s| ==> IsJsWhitespace(s[i])
  }

  predicate StartsWith(s: string, p: string) {
    |p| <= |s| && s[..|p|] == p
  }

  /** The default `Array.prototype.sort` order on strings, taken here character by character on code points. */
  predicate Below(a: string, b: string) {
    if |a| == 0 then |b| > 0
    else if |b| == 0 then false
    else if a[0] != b[0] then a[0] < b[0]
    else Below(a[1..], b[1..])
  }

  lemma {:induction false} BelowIrreflexive(a: string)
    ensures !Below(a, a)
  {
    if |a| > 0 {
      BelowIrreflexive(a[1..]);
    }
  }

  lemma {:induction false} BelowTransitive(a: string, b: string, c: string)
    requires Below(a, b) && Below(b, c)
    ensures Below(a, c)
  {
    if |a| > 0 && |b| > 0 && |c| > 0 && a[0] == b[0] && b[0] == c[0] {
      BelowTransitive(a[1..], b[1..], c[1..]);
    }
  }

  lemma {:induction false} BelowTotal(a: string, b: string)
    requires a != b
    ensures Below(a, b) || Below(b, a)
  {
    if |a| > 0 && |b| > 0 && a[0] == b[0] {
      assert a == [a[0]] + a[1..] && b == [b[0]] + b[1..];
      BelowTotal(a[1..], b[1..]);
    }
  }

  lemma {:induction false} BelowAsymmetric(a: string, b: string)
    requires Below(a, b)
    ensures !Below(b, a)
  {
    if |a| > 0 && |b| > 0 && a[0] == b[0] {
      BelowAsymmetric(a[1..], b[1..]);
    }
  }

  /** A proper prefix sorts first. */
  lemma {:induction false} ProperPrefixBelow(a: string, b: string)
    requires |a| < |b| && b[..|a|] == a
    ensures Below(a, b)
  {
    if |a| > 0 {
      assert a[0] == b[0];
      assert b[1..][..|a[1..]|] == a[1..];
      ProperPrefixBelow(a[1..], b[1..]);
    }
  }

  predicate IsDigit(c: char) {
    '0' <= c <= '9'
  }

  predicate AllDigits(s: string) {
    forall i :: 0 <= i < |s| ==> IsDigit(s[i])
  }

  /** The value of a run of decimal digits. */
  function DigitsValue(s: string): nat
    requires AllDigits(s)
  {
    if |s| == 0 then 0
    else DigitsValue(s[..|s| - 1]) * 10 + (s[|s| - 1] as int - '0' as int)
  }

  /** Decimal text of a natural number, without leading zeros. */
  function NatToString(n: nat): (r: string)
    ensures |r| >= 1 && AllDigits(r)
    ensures r[0] == '0' ==> n == 0 && |r| == 1
    ensures DigitsValue(r) == n
    decreases n
  {
    if n < 10 then [('0' as int + n) as char]
    else
      var r := NatToString(n / 10) + [('0' as int + n % 10) as char];
      assert r[..|r| - 1] == NatToString(n / 10);
      r
  }

  /** `String(i)` for an integer number. */
  function IntToString(i: int): string {
    if i < 0 then "-" + NatToString(-i) else NatToString(i)
  }

  /** `s.toLowerCase()` restricted to ASCII letters. */
  function ToLowerAscii(s: string): (r: string)
    ensures |r| == |s|
  {
    if |s| == 0 then ""
    else
      var c := s[0];
      [if 'A' <= c <= 'Z' then (c as int + 32) as char else c] + ToLowerAscii(s[1..])
  }

  /** Lower-casing twice is lower-casing once. */
  lemma {:induction false} ToLowerAsciiIdempotent(s: string)
    ensures ToLowerAscii(ToLowerAscii(s)) == ToLowerAscii(s)
  {
    if |s| > 0 {
      var t := ToLowerAscii(s);
      ToLowerAsciiIdempotent(s[1..]);
      assert t[1..] == ToLowerAscii(s[1..]);
    }
  }
}
