/**
  The router's path patterns: compiling a path into tokens
  (`__createPathPattern`), the collision test between patterns
  (`__pathPatternExist`), matching the current route against a pattern
  (`__checkPathIntegrity`) and extracting the path parameters
  (`__getPathData`).
 */
module RouterPattern {
  import opened Wrappers
  import opened JsString
  import opened JsValue
  import Util

  /** `__pathParamReplacement`: the token every placeholder segment compiles to. */
  const ParamMarker := "__var__"

  /** `__otherwiseReplacement`: the path the `other` endpoint is registered under. */
  const OtherwisePath := "!"

  /** A compiled path: the tokens, and the placeholder names in order. */
  datatype PathPattern = PathPattern(pattern: seq<string>, pathParams: seq<string>)

  /** How many tokens are the placeholder marker. */
  function MarkerCount(ts: seq<string>): nat {
    if |ts| == 0 then 0
    else (if ts[0] == ParamMarker then 1 else 0) + MarkerCount(ts[1..])
  }

  lemma {:induction false} MarkerCountAppend(a: seq<string>, b: seq<string>)
    ensures MarkerCount(a + b) == MarkerCount(a) + MarkerCount(b)
    decreases |a|
  {
    if |a| == 0 {
      assert a + b == b;
    } else {
      assert (a + b)[0] == a[0];
      assert (a + b)[1..] == a[1..] + b;
      MarkerCountAppend(a[1..], b);
    }
  }

  // ---------------------------------------------------------------------------
  // __createPathPattern

  /** The part of a path before its first `?`. */
  function BeforeQuery(path: string): (r: string)
    ensures !Contains(r, "?")
    ensures StartsWith(path, r)
    ensures !Contains(path, "?") ==> r == path
  {
    var i := IndexOf(path, "?");
    if i >= 0 then
      assert !Contains(path[..i], "?") by { PrefixBeforeFirstFree(path, "?"); }
      path[..i]
    else path
  }

  /** A segment that holds a `:` anywhere is a placeholder. */
  predicate IsPlaceholder(seg: string) {
    Contains(seg, ":")
  }

  /**
    One segment pushed in front of the tokens of the segments after it: a
    placeholder becomes the marker and records its name without the first
    `:`; a blank segment is dropped; any other segment is a literal.
   */
  function Cons(s: string, rest: PathPattern): (r: PathPattern)
    ensures MarkerCount(r.pattern) - |r.pathParams| == MarkerCount(rest.pattern) - |rest.pathParams| + MarkerCount([s])
  {
    assert !IsPlaceholder(ParamMarker) by { Util.CharAbsent(ParamMarker, ':'); }
    assert MarkerCount([s]) == (if s == ParamMarker then 1 else 0) by { assert [s][1..] == []; }
    if IsPlaceholder(s) then
      MarkerCountAppend([ParamMarker], rest.pattern);
      PathPattern([ParamMarker] + rest.pattern, [ReplaceFirst(s, ":", "")] + rest.pathParams)
    else if !IsBlank(s) then
      MarkerCountAppend([s], rest.pattern);
      PathPattern([s] + rest.pattern, rest.pathParams)
    else
      assert s != ParamMarker by { assert !IsJsWhitespace(ParamMarker[0]); }
      rest
  }

  /** The tokens of the split segments, left to right. */
  function CompileSegments(segs: seq<string>): (r: PathPattern)
    ensures |r.pattern| <= |segs|
    ensures |r.pathParams| <= |r.pattern|
    ensures forall i :: 0 <= i < |r.pattern| ==>
      r.pattern[i] == ParamMarker || (!IsBlank(r.pattern[i]) && !IsPlaceholder(r.pattern[i]))
    ensures MarkerCount(r.pattern) == |r.pathParams| + MarkerCount(segs)
  {
    if |segs| == 0 then PathPattern([], [])
    else
      assert MarkerCount(segs) == MarkerCount([segs[0]]) + MarkerCount(segs[1..]) by {
        assert segs == [segs[0]] + segs[1..];
        MarkerCountAppend([segs[0]], segs[1..]);
      }
      Cons(segs[0], CompileSegments(segs[1..]))
  }

  /** `__createPathPattern`: everything from the first `?` on is ignored, the rest is split on `/`. */
  function CreatePathPattern(path: string): (r: PathPattern)
    ensures |r.pathParams| <= |r.pattern|
    ensures forall i :: 0 <= i < |r.pattern| ==>
      r.pattern[i] == ParamMarker || (!IsBlank(r.pattern[i]) && !IsPlaceholder(r.pattern[i]))
  {
    CompileSegments(Split(BeforeQuery(path), "/"))
  }

  /** The tokens of two patterns one after the other. */
  function Concat(p: PathPattern, q: PathPattern): PathPattern {
    PathPattern(p.pattern + q.pattern, p.pathParams + q.pathParams)
  }

  lemma ConsConcat(s: string, p: PathPattern, q: PathPattern)
    ensures Cons(s, Concat(p, q)) == Concat(Cons(s, p), q)
  {
    if IsPlaceholder(s) {
      assert [ParamMarker] + (p.pattern + q.pattern) == ([ParamMarker] + p.pattern) + q.pattern;
      assert [ReplaceFirst(s, ":", "")] + (p.pathParams + q.pathParams) == ([ReplaceFirst(s, ":", "")] + p.pathParams) + q.pathParams;
    } else if !IsBlank(s) {
      assert [s] + (p.pattern + q.pattern) == ([s] + p.pattern) + q.pattern;
    }
  }

  /** Compiling is segment-wise: the pattern of a concatenation is the concatenated patterns. */
  lemma {:induction false} CompileAppend(a: seq<string>, b: seq<string>)
    ensures CompileSegments(a + b) == Concat(CompileSegments(a), CompileSegments(b))
    decreases |a|
  {
    if |a| == 0 {
      assert a + b == b;
      assert Concat(PathPattern([], []), CompileSegments(b)) == CompileSegments(b);
    } else {
      assert (a + b)[0] == a[0];
      assert (a + b)[1..] == a[1..] + b;
      CompileAppend(a[1..], b);
      ConsConcat(a[0], CompileSegments(a[1..]), CompileSegments(b));
    }
  }

  /** A single segment compiles to the marker (placeholder), to itself (literal), or to nothing (blank). */
  lemma CompileOne(s: string)
    ensures IsPlaceholder(s) ==> CompileSegments([s]) == PathPattern([ParamMarker], [ReplaceFirst(s, ":", "")])
    ensures !IsPlaceholder(s) && !IsBlank(s) ==> CompileSegments([s]) == PathPattern([s], [])
    ensures !IsPlaceholder(s) && IsBlank(s) ==> CompileSegments([s]) == PathPattern([], [])
  {
    assert [s][1..] == [];
  }

  /** Splitting on a one-character separator whose first occurrence ends the first piece. */
  lemma SplitCons(a: string, sep: string, b: string)
    requires |sep| == 1 && !Contains(a, sep)
    ensures Split(a + sep + b, sep) == [a] + Split(b, sep)
  {
    var s := a + sep + b;
    assert OccursAt(s, sep, |a|) by { assert s[|a|..|a| + |sep|] == sep; }
    forall i | 0 <= i < |a| ensures !OccursAt(s, sep, i) {
      if OccursAt(s, sep, i) {
        assert a[i..i + |sep|] == s[i..i + |sep|];
        ContainsWitness(a, sep, i);
      }
    }
    assert IndexOf(s, sep) == |a|;
    assert s[..|a|] == a;
    assert s[|a| + |sep|..] == b;
  }

  /** The query string never reaches the pattern. */
  lemma CreatePathPatternIgnoresQuery(p: string, q: string)
    requires !Contains(p, "?")
    ensures CreatePathPattern(p + "?" + q) == CreatePathPattern(p)
  {
    var s := p + "?" + q;
    assert OccursAt(s, "?", |p|) by { assert s[|p|..|p| + 1] == "?"; }
    forall i | 0 <= i < |p| ensures !OccursAt(s, "?", i) {
      if OccursAt(s, "?", i) {
        assert p[i..i + 1] == s[i..i + 1];
        ContainsWitness(p, "?", i);
      }
    }
    assert IndexOf(s, "?") == |p|;
    assert s[..|p|] == p;
  }

  /** A leading `/` (or any number of them) does not change the pattern: empty segments are dropped. */
  lemma LeadingSlashIgnored(x: string)
    ensures CreatePathPattern("/" + x) == CreatePathPattern(x)
  {
    var y := "/" + x;
    assert y[0] != '?';
    if Contains(x, "?") {
      var i := IndexOf(x, "?");
      assert OccursAt(y, "?", i + 1) by { assert y[i + 1..i + 2] == x[i..i + 1]; }
      forall j | 0 <= j < i + 1 ensures !OccursAt(y, "?", j) {
        if OccursAt(y, "?", j) {
          assert j > 0 by { assert y[0..1] != "?"; }
          assert x[j - 1..j] == y[j..j + 1];
          assert OccursAt(x, "?", j - 1);
        }
      }
      assert IndexOf(y, "?") == i + 1;
      assert BeforeQuery(y) == "/" + BeforeQuery(x);
    } else {
      forall j | 0 <= j <= |y| ensures !OccursAt(y, "?", j) {
        if OccursAt(y, "?", j) {
          assert j > 0 by { assert y[0..1] != "?"; }
          assert x[j - 1..j] == y[j..j + 1];
          ContainsWitness(x, "?", j - 1);
        }
      }
      assert BeforeQuery(y) == "/" + BeforeQuery(x);
    }
    var z := BeforeQuery(x);
    assert "/" + z == "" + "/" + z;
    Util.CharAbsent("", '/');
    SplitCons("", "/", z);
    CompileAppend([""], Split(z, "/"));
    CompileOne("");
    Util.CharAbsent("", ':');
    assert Concat(PathPattern([], []), CompileSegments(Split(z, "/"))) == CompileSegments(Split(z, "/"));
  }

  // ---------------------------------------------------------------------------
  // __pathPatternExist

  /** What `__pathPatternExist` compares: the tokens joined with no separator. */
  function Joined(p: PathPattern): string {
    Join(p.pattern, "")
  }

  /** Two patterns collide when their tokens, joined without a separator, are equal. */
  predicate Collide(p: PathPattern, q: PathPattern) {
    Joined(p) == Joined(q)
  }

  /** A segment that is kept verbatim: no `/`, `?` or `:`, and not blank. */
  predicate PlainSegment(x: string) {
    0 < |x| && !IsJsWhitespace(x[0]) && forall i :: 0 <= i < |x| ==> x[i] != '/' && x[i] != '?' && x[i] != ':'
  }

  /** Placeholder names play no part: `/a/:x` and `/a/:y` compile to the same tokens. */
  lemma PlaceholderNamesCollide(a: string, n: string, m: string)
    requires PlainSegment(a)
    requires forall i :: 0 <= i < |n| ==> n[i] != '/' && n[i] != '?'
    requires forall i :: 0 <= i < |m| ==> m[i] != '/' && m[i] != '?'
    ensures CreatePathPattern("/" + a + "/:" + n) == PathPattern([a, ParamMarker], [n])
    ensures CreatePathPattern("/" + a + "/:" + m) == PathPattern([a, ParamMarker], [m])
    ensures Collide(CreatePathPattern("/" + a + "/:" + n), CreatePathPattern("/" + a + "/:" + m))
  {
    LiteralThenPlaceholder(a, n);
    LiteralThenPlaceholder(a, m);
  }

  lemma LiteralThenPlaceholder(a: string, n: string)
    requires PlainSegment(a)
    requires forall i :: 0 <= i < |n| ==> n[i] != '/' && n[i] != '?'
    ensures CreatePathPattern("/" + a + "/:" + n) == PathPattern([a, ParamMarker], [n])
  {
    var p := ":" + n;
    assert "/" + a + "/:" + n == "/" + a + "/" + p;
    SlashPair(a, p);
    CompileLiteralPlaceholder(a, n);
  }

  /** The segments `a` and `:n` compile to a literal and a marker, recording `n`. */
  lemma CompileLiteralPlaceholder(a: string, n: string)
    requires PlainSegment(a)
    ensures CompileSegments([a, ":" + n]) == PathPattern([a, ParamMarker], [n])
  {
    var p := ":" + n;
    PlaceholderName(p);
    assert p[1..] == n;
    Literal(a);
    CompileOne(p);
    assert [a, p] == [a] + [p];
    CompileAppend([a], [p]);
  }

  /** The path `/x/y`. */
  function TwoSegmentPath(x: string, y: string): string {
    "/" + x + "/" + y
  }

  /** Segment boundaries play no part either: `/ab/c` and `/a/bc` both join to `abc`. */
  lemma SegmentBoundariesCollide(a: string, b: string, c: string)
    requires PlainSegment(a) && PlainSegment(b) && PlainSegment(c)
    ensures CreatePathPattern(TwoSegmentPath(a + b, c)).pattern == [a + b, c]
    ensures CreatePathPattern(TwoSegmentPath(a, b + c)).pattern == [a, b + c]
    ensures Collide(CreatePathPattern(TwoSegmentPath(a + b, c)), CreatePathPattern(TwoSegmentPath(a, b + c)))
  {
    assert (a + b) + c == a + (b + c);
    PlainConcat(a, b);
    PlainConcat(b, c);
    JoinedTwo(a + b, c);
    JoinedTwo(a, b + c);
  }

  lemma PlainConcat(x: string, y: string)
    requires PlainSegment(x) && PlainSegment(y)
    ensures PlainSegment(x + y)
  {
    assert (x + y)[0] == x[0];
    forall i | 0 <= i < |x + y| ensures (x + y)[i] != '/' && (x + y)[i] != '?' && (x + y)[i] != ':' {
      if i < |x| { assert (x + y)[i] == x[i]; } else { assert (x + y)[i] == y[i - |x|]; }
    }
  }

  lemma JoinPair(x: string, y: string)
    ensures Join([x, y], "") == x + y
  {
    assert [x, y][1..] == [y];
  }

  /** Two plain segments compile to themselves and join to their concatenation. */
  lemma JoinedTwo(x: string, y: string)
    requires PlainSegment(x) && PlainSegment(y)
    ensures CreatePathPattern(TwoSegmentPath(x, y)).pattern == [x, y]
    ensures Joined(CreatePathPattern(TwoSegmentPath(x, y))) == x + y
  {
    TwoLiterals(x, y);
    JoinPair(x, y);
  }

  lemma TwoLiterals(x: string, y: string)
    requires PlainSegment(x) && PlainSegment(y)
    ensures CreatePathPattern("/" + x + "/" + y) == PathPattern([x, y], [])
  {
    SlashPair(x, y);
    Literal(x);
    Literal(y);
    assert [x, y] == [x] + [y];
    CompileAppend([x], [y]);
  }

  /** A literal `__var__` segment compiles to the marker but records no name. */
  lemma LiteralMarkerHasNoName()
    ensures CreatePathPattern("/" + ParamMarker) == PathPattern([ParamMarker], [])
  {
    OneLiteral(ParamMarker);
  }

  lemma OneLiteral(x: string)
    requires PlainSegment(x)
    ensures CreatePathPattern("/" + x) == PathPattern([x], [])
  {
    LeadingSlashIgnored(x);
    Util.CharAbsent(x, '?');
    Util.CharAbsent(x, '/');
    Literal(x);
  }

  /** `/x/y` compiles segment by segment, for slash- and query-free `x` and `y`. */
  lemma SlashPair(x: string, y: string)
    requires forall i :: 0 <= i < |x| ==> x[i] != '/' && x[i] != '?'
    requires forall i :: 0 <= i < |y| ==> y[i] != '/' && y[i] != '?'
    ensures CreatePathPattern("/" + x + "/" + y) == CompileSegments([x, y])
  {
    var s := x + "/" + y;
    Util.CharAbsent(x, '/');
    Util.CharAbsent(y, '/');
    NoQueryAcrossSlash(x, y);
    Util.CharAbsent(s, '?');
    assert "/" + x + "/" + y == "/" + s;
    LeadingSlashIgnored(s);
    SplitCons(x, "/", y);
    assert [x] + [y] == [x, y];
  }

  /** Two pieces free of `?` joined by a slash are free of `?`. */
  lemma NoQueryAcrossSlash(x: string, y: string)
    requires forall i :: 0 <= i < |x| ==> x[i] != '?'
    requires forall i :: 0 <= i < |y| ==> y[i] != '?'
    ensures forall i :: 0 <= i < |x + "/" + y| ==> (x + "/" + y)[i] != '?'
  {
    var s := x + "/" + y;
    forall i | 0 <= i < |s| ensures s[i] != '?' {
      if i < |x| { assert s[i] == x[i]; }
      else if i > |x| { assert s[i] == y[i - |x| - 1]; }
    }
  }

  /** A short literal segment without `:`, `/`, `?` and not blank is kept as is. */
  lemma Literal(s: string)
    requires PlainSegment(s)
    ensures CompileSegments([s]) == PathPattern([s], [])
  {
    Util.CharAbsent(s, ':');
    CompileOne(s);
  }

  /** A placeholder `:name` records `name`. */
  lemma PlaceholderName(s: string)
    requires |s| > 0 && s[0] == ':'
    ensures IsPlaceholder(s)
    ensures ReplaceFirst(s, ":", "") == s[1..]
  {
    Util.CharFirstAt(s, ':', 0);
    assert s == "" + ":" + s[1..];
  }

  // ---------------------------------------------------------------------------
  // __checkPathIntegrity

  /** Every literal token of the endpoint pattern equals the probe's token at that position. */
  predicate LiteralsAgree(probe: seq<string>, pattern: seq<string>) {
    forall i :: 0 <= i < |pattern| ==> pattern[i] == ParamMarker || (i < |probe| && pattern[i] == probe[i])
  }

  /** `__checkPathIntegrity`, scanning the endpoint pattern from position `k`. */
  function CheckFrom(probe: seq<string>, pattern: seq<string>, k: nat): (r: bool)
    requires k <= |pattern|
    ensures r <==> forall i :: k <= i < |pattern| ==> pattern[i] == ParamMarker || (i < |probe| && pattern[i] == probe[i])
    decreases |pattern| - k
  {
    if k == |pattern| then true
    else if pattern[k] != ParamMarker && (k >= |probe| || pattern[k] != probe[k]) then false
    else CheckFrom(probe, pattern, k + 1)
  }

  /** `__checkPathIntegrity`: a probe position past its end never equals a literal. */
  function CheckPathIntegrity(probe: seq<string>, pattern: seq<string>): (r: bool)
    ensures r <==> LiteralsAgree(probe, pattern)
  {
    CheckFrom(probe, pattern, 0)
  }

  /** The matcher's test: the same number of tokens, and the literals agree. */
  predicate Matches(probe: seq<string>, pattern: PathPattern) {
    |pattern.pattern| == |probe| && CheckPathIntegrity(probe, pattern.pattern)
  }

  /** A pattern matches its own path, and every path that differs only at placeholders. */
  lemma PatternMatchesItsInstances(pattern: seq<string>, probe: seq<string>)
    requires |probe| == |pattern|
    requires forall i :: 0 <= i < |pattern| && pattern[i] != ParamMarker ==> probe[i] == pattern[i]
    ensures Matches(probe, PathPattern(pattern, []))
  {
  }

  // ---------------------------------------------------------------------------
  // __getPathData

  /** The placeholder names still to be used; once they run out, keys read `undefined`. */
  function NameAt(names: seq<string>): string {
    if |names| > 0 then names[0] else "undefined"
  }

  function Rest(names: seq<string>): seq<string> {
    if |names| > 0 then names[1..] else []
  }

  /**
    The assignments `__getPathData` performs, in order: for the k-th marker,
    the k-th name (or `undefined`) and the probe token at that position,
    through `tryParseNumber`.
   */
  function Assignments(pattern: seq<string>, names: seq<string>, probe: seq<string>): (r: seq<(string, Value)>)
    requires |pattern| <= |probe|
    ensures |r| == MarkerCount(pattern)
    ensures forall j :: 0 <= j < |r| ==> r[j].0 == (if j < |names| then names[j] else "undefined")
    decreases |pattern|
  {
    if |pattern| == 0 then []
    else
      var rest := if pattern[0] == ParamMarker then Assignments(pattern[1..], Rest(names), probe[1..])
                  else Assignments(pattern[1..], names, probe[1..]);
      if pattern[0] == ParamMarker then [(NameAt(names), Util.TryParseNumber(probe[0]))] + rest
      else rest
  }

  /** The k-th assignment comes from the k-th marker's position. */
  lemma {:induction false} AssignmentAt(pattern: seq<string>, names: seq<string>, probe: seq<string>, i: nat)
    requires |pattern| <= |probe| && i < |pattern| && pattern[i] == ParamMarker
    ensures MarkerCount(pattern[..i]) < |Assignments(pattern, names, probe)|
    ensures Assignments(pattern, names, probe)[MarkerCount(pattern[..i])].1 == Util.TryParseNumber(probe[i])
    decreases i
  {
    MarkerCountAppend(pattern[..i], pattern[i..]);
    assert pattern == pattern[..i] + pattern[i..];
    assert MarkerCount(pattern[i..]) >= 1 by { assert pattern[i..][0] == ParamMarker; }
    if i > 0 {
      var ns := if pattern[0] == ParamMarker then Rest(names) else names;
      AssignmentAt(pattern[1..], ns, probe[1..], i - 1);
      assert pattern[1..][..i - 1] == pattern[..i][1..];
      assert pattern[..i][0] == pattern[0];
    }
  }

  /** The object the assignments build: a later assignment to a key overwrites it in place. */
  function Assign(ps: seq<(string, Value)>): (r: Obj<Value>)
    ensures DistinctKeys(r)
    ensures forall k :: HasKey(r, k) <==> exists j :: 0 <= j < |ps| && ps[j].0 == k
    ensures forall j :: 0 <= j < |ps| && (forall j' :: j < j' < |ps| ==> ps[j'].0 != ps[j].0) ==> Get(r, ps[j].0) == Some(ps[j].1)
    decreases |ps|
  {
    if |ps| == 0 then []
    else
      var init := ps[..|ps| - 1];
      var (k, v) := ps[|ps| - 1];
      var prev := Assign(init);
      assert ps == init + [(k, v)];
      AssignStep(init, k, v, prev);
      Set(prev, k, v)
  }

  /** One more assignment: `Set` keeps the three properties of `Assign` for the longer list. */
  lemma AssignStep(init: seq<(string, Value)>, k: string, v: Value, prev: Obj<Value>)
    requires DistinctKeys(prev)
    requires forall x :: HasKey(prev, x) <==> exists j :: 0 <= j < |init| && init[j].0 == x
    requires forall j :: 0 <= j < |init| && (forall j' :: j < j' < |init| ==> init[j'].0 != init[j].0) ==> Get(prev, init[j].0) == Some(init[j].1)
    ensures var ps := init + [(k, v)]; var r := Set(prev, k, v);
      DistinctKeys(r)
      && (forall x :: HasKey(r, x) <==> exists j :: 0 <= j < |ps| && ps[j].0 == x)
      && (forall j :: 0 <= j < |ps| && (forall j' :: j < j' < |ps| ==> ps[j'].0 != ps[j].0) ==> Get(r, ps[j].0) == Some(ps[j].1))
  {
    var ps := init + [(k, v)];
    var r := Set(prev, k, v);
    assert forall x :: HasKey(r, x) <==> HasKey(prev, x) || x == k;
    forall x ensures HasKey(r, x) <==> exists j :: 0 <= j < |ps| && ps[j].0 == x {
      if x == k {
        assert ps[|init|].0 == x;
      } else if HasKey(prev, x) {
        var j :| 0 <= j < |init| && init[j].0 == x;
        assert ps[j] == init[j];
      } else {
        forall j | 0 <= j < |ps| ensures ps[j].0 != x {
          if j < |init| { assert ps[j] == init[j]; }
        }
      }
    }
    forall j | 0 <= j < |ps| && (forall j' :: j < j' < |ps| ==> ps[j'].0 != ps[j].0)
      ensures Get(r, ps[j].0) == Some(ps[j].1)
    {
      if j < |init| {
        assert ps[j] == init[j];
        assert ps[|init|].0 != ps[j].0;
        forall j' | j < j' < |init| ensures init[j'].0 != init[j].0 {
          assert ps[j'] == init[j'];
        }
      }
    }
  }

  /** `__getPathData`'s `pathParams`: the markers' probe tokens under the placeholder names. */
  function PathParams(pattern: PathPattern, probe: seq<string>): (r: Obj<Value>)
    requires |pattern.pattern| <= |probe|
    ensures DistinctKeys(r)
  {
    Assign(Assignments(pattern.pattern, pattern.pathParams, probe))
  }

  /**
    With one distinct name per marker (no literal `__var__` segment), the
    parameters hold exactly the names, each mapped to the parsed probe token
    at its marker.
   */
  lemma PathParamsExact(pattern: PathPattern, probe: seq<string>, i: nat)
    requires |pattern.pattern| <= |probe| && i < |pattern.pattern| && pattern.pattern[i] == ParamMarker
    requires MarkerCount(pattern.pattern) == |pattern.pathParams|
    requires forall a, b :: 0 <= a < b < |pattern.pathParams| ==> pattern.pathParams[a] != pattern.pathParams[b]
    ensures var k := MarkerCount(pattern.pattern[..i]);
      k < |pattern.pathParams|
      && Get(PathParams(pattern, probe), pattern.pathParams[k]) == Some(Util.TryParseNumber(probe[i]))
    ensures forall n :: HasKey(PathParams(pattern, probe), n) <==> n in pattern.pathParams
  {
    var ps := Assignments(pattern.pattern, pattern.pathParams, probe);
    AssignmentAt(pattern.pattern, pattern.pathParams, probe, i);
    var k := MarkerCount(pattern.pattern[..i]);
    assert ps[k].0 == pattern.pathParams[k];
    forall n ensures HasKey(PathParams(pattern, probe), n) <==> n in pattern.pathParams {
      if n in pattern.pathParams {
        var j :| 0 <= j < |pattern.pathParams| && pattern.pathParams[j] == n;
        assert ps[j].0 == n;
      }
    }
  }
}
