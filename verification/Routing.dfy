/** Route and service matching on paths. */
module Routing {
  import opened Prelude

  // ----- the string operations used

  function TrimLeft(s: string): (r: string)
    ensures r == "" || r[0] != '/'
  {
    if s != "" && s[0] == '/' then TrimLeft(s[1..]) else s
  }

  function TrimRight(s: string): (r: string)
    ensures r == "" || r[|r| - 1] != '/'
  {
    if s != "" && s[|s| - 1] == '/' then TrimRight(s[..|s| - 1]) else s
  }

  /** Without its leading and trailing slashes. */
  function Trim(s: string): string {
    TrimRight(TrimLeft(s))
  }

  /** The pieces between slashes; always at least one, possibly empty. */
  function Split(s: string): (parts: seq<string>)
    ensures parts != [] && forall i :: 0 <= i < |parts| ==> '/' !in parts[i]
  {
    if s == "" then [""]
    else
      var parts := Split(s[..|s| - 1]);
      var c := s[|s| - 1];
      if c == '/' then parts + [""]
      else parts[..|parts| - 1] + [parts[|parts| - 1] + [c]]
  }

  function Join(parts: seq<string>): string
    requires parts != []
  {
    if |parts| == 1 then parts[0]
    else Join(parts[..|parts| - 1]) + "/" + parts[|parts| - 1]
  }

  lemma JoinSnoc(parts: seq<string>, p: string)
    requires parts != []
    ensures Join(parts + [p]) == Join(parts) + "/" + p
  {
    assert (parts + [p])[..|parts|] == parts;
  }

  lemma JoinExtends(front: seq<string>, last: string, c: char)
    ensures Join(front + [last + [c]]) == Join(front + [last]) + [c]
  {
    hide Join;
    if front == [] {
      JoinOne(last);
      JoinOne(last + [c]);
      assert front + [last] == [last];
      assert front + [last + [c]] == [last + [c]];
    } else {
      JoinSnoc(front, last + [c]);
      JoinSnoc(front, last);
      Reassociate(Join(front) + "/", last, [c]);
    }
  }

  lemma Reassociate(a: string, b: string, c: string)
    ensures a + (b + c) == (a + b) + c
  {
  }

  lemma JoinOne(p: string)
    ensures Join([p]) == p
  {
  }

  /** Splitting loses nothing. */
  lemma {:induction false} JoinSplit(s: string)
    ensures Join(Split(s)) == s
    decreases |s|
  {
    if s != "" {
      var front, c := s[..|s| - 1], s[|s| - 1];
      JoinSplit(front);
      assert s == front + [c];
      if c == '/' {
        JoinSnoc(Split(front), "");
      } else {
        var parts := Split(front);
        assert parts == parts[..|parts| - 1] + [parts[|parts| - 1]];
        JoinExtends(parts[..|parts| - 1], parts[|parts| - 1], c);
      }
    }
  }

  lemma SplitSnoc(s: string, c: char)
    ensures var parts := Split(s);
            Split(s + [c]) == if c == '/' then parts + [""] else parts[..|parts| - 1] + [parts[|parts| - 1] + [c]]
  {
    assert (s + [c])[..|s|] == s;
  }

  /** Splitting cuts at every slash. */
  lemma {:induction false} SplitAppend(s: string, p: string)
    requires '/' !in p
    ensures Split(s + "/" + p) == Split(s) + [p]
    decreases |p|
  {
    hide Split;
    if p == "" {
      SplitSnoc(s, '/');
      assert s + "/" + p == s + ['/'];
    } else {
      var front, c := p[..|p| - 1], p[|p| - 1];
      SplitAppend(s, front);
      SplitSnoc(s + "/" + front, c);
      assert p == front + [c] && c in p;
      assert s + "/" + p == (s + "/" + front) + [c];
      assert (Split(s) + [front])[..|Split(s)|] == Split(s);
    }
  }

  lemma {:induction false} SplitPlain(p: string)
    requires '/' !in p
    ensures Split(p) == [p]
    decreases |p|
  {
    if p != "" {
      var front, c := p[..|p| - 1], p[|p| - 1];
      SplitPlain(front);
      assert p == front + [c] && c in p;
    }
  }

  /** ... and back: pieces without slashes survive joining and splitting. */
  lemma {:induction false} SplitJoin(parts: seq<string>)
    requires parts != [] && forall i :: 0 <= i < |parts| ==> '/' !in parts[i]
    ensures Split(Join(parts)) == parts
    decreases |parts|
  {
    hide Split;
    if |parts| == 1 {
      SplitPlain(parts[0]);
    } else {
      SplitJoin(parts[..|parts| - 1]);
      SplitAppend(Join(parts[..|parts| - 1]), parts[|parts| - 1]);
    }
  }

  function Slashes(n: nat): (s: string)
    ensures |s| == n
  {
    seq(n, _ => '/')
  }

  lemma {:induction false} TrimLeftCuts(s: string) returns (a: nat)
    ensures s == Slashes(a) + TrimLeft(s)
    decreases |s|
  {
    a := 0;
    if s != "" && s[0] == '/' {
      a := TrimLeftCuts(s[1..]);
      assert s == ['/'] + s[1..] && Slashes(a + 1) == ['/'] + Slashes(a);
      a := a + 1;
    }
  }

  lemma {:induction false} TrimRightCuts(s: string) returns (b: nat)
    ensures s == TrimRight(s) + Slashes(b)
    decreases |s|
  {
    b := 0;
    if s != "" && s[|s| - 1] == '/' {
      b := TrimRightCuts(s[..|s| - 1]);
      assert s == s[..|s| - 1] + ['/'] && Slashes(b + 1) == Slashes(b) + ['/'];
      b := b + 1;
    }
  }

  /** The segments of a path are its pieces between slashes, once nothing but the
      slashes at either end has been taken off. */
  lemma SegmentsExactly(path: string)
    ensures var inner := Join(Segments(path));
            && (exists a, b :: path == Slashes(a) + inner + Slashes(b))
            && (inner == "" || (inner[0] != '/' && inner[|inner| - 1] != '/'))
            && forall i :: 0 <= i < |Segments(path)| ==> '/' !in Segments(path)[i]
  {
    hide Slashes, TrimLeft, TrimRight, Split, Join;
    JoinSplit(Trim(path));
    var a := TrimLeftCuts(path);
    var left, inner := TrimLeft(path), Trim(path);
    var b := TrimRightCuts(left);
    assert path == Slashes(a) + inner + Slashes(b);
    assert inner != "" ==> inner[0] == left[0];
  }

  // ----- path patterns

  predicate IsParam(segment: string) {
    segment != "" && segment[0] == ':'
  }

  function Segments(path: string): (parts: seq<string>)
    ensures parts != []
  {
    Split(Trim(path))
  }

  /** Same number of segments, and every literal segment equal. */
  predicate SegmentsMatch(pattern: seq<string>, path: seq<string>) {
    |pattern| == |path|
    && forall i :: 0 <= i < |pattern| ==> IsParam(pattern[i]) || pattern[i] == path[i]
  }

  predicate Match(pattern: string, path: string) {
    pattern == path || SegmentsMatch(Segments(pattern), Segments(path))
  }

  /** What a pattern matches: itself, and the paths with as many segments that differ
      from it only where its segment starts with a colon. */
  lemma MatchExactly(pattern: string, path: string)
    ensures Match(pattern, path) <==>
            var ps, qs := Segments(pattern), Segments(path);
            || pattern == path
            || (|ps| == |qs| && forall i :: 0 <= i < |ps| ==> [':'] <= ps[i] || ps[i] == qs[i])
  {
    hide Segments;
    assert forall s: string :: IsParam(s) <==> [':'] <= s;
  }

  function ParamNames(pattern: seq<string>): set<string> {
    set i | 0 <= i < |pattern| && IsParam(pattern[i]) :: pattern[i][1..]
  }

  /** The map holds exactly the parameters; a repeated name keeps the value of its
      last occurrence. */
  ghost predicate Binds(params: map<string, string>, pattern: seq<string>, path: seq<string>)
  {
    && |pattern| == |path|
    && params.Keys == ParamNames(pattern)
    && forall i :: 0 <= i < |pattern| && IsParam(pattern[i]) && LastOfName(pattern, i) ==>
      params[pattern[i][1..]] == path[i]
  }

  predicate LastOfName(pattern: seq<string>, i: nat)
    requires i < |pattern|
  {
    forall j :: i < j < |pattern| && IsParam(pattern[j]) ==> pattern[j] != pattern[i]
  }

  /** The pattern's segments with every bound parameter replaced by its value. */
  function Substitute(pattern: seq<string>, params: map<string, string>): (r: seq<string>)
    ensures |r| == |pattern|
    ensures forall i :: 0 <= i < |pattern| ==>
              r[i] == if IsParam(pattern[i]) && pattern[i][1..] in params then params[pattern[i][1..]] else pattern[i]
  {
    seq(|pattern|, i requires 0 <= i < |pattern| =>
      if IsParam(pattern[i]) && pattern[i][1..] in params then params[pattern[i][1..]] else pattern[i])
  }

  method MatchPath(pattern: string, path: string) returns (params: map<string, string>, ok: bool)
    ensures ok == Match(pattern, path)
    ensures pattern == path ==> params == map[]
    ensures ok && pattern != path ==> Binds(params, Segments(pattern), Segments(path))
    ensures !ok ==> params == map[]
  {
    if pattern == path {
      return map[], true;
    }
    hide Binds, SegmentsMatch, Split, Trim, ParamNames;
    var patternParts := Split(Trim(pattern));
    var pathParts := Split(Trim(path));
    if |patternParts| != |pathParts| {
      DifferentLengths(patternParts, pathParts);
      return map[], false;
    }
    params := map[];
    NothingMatched(patternParts, pathParts);
    for i := 0 to |patternParts|
      invariant SegmentsMatch(patternParts[..i], pathParts[..i])
      invariant Binds(params, patternParts[..i], pathParts[..i])
    {
      var pp := patternParts[i];
      if pp != "" && pp[0] == ':' {
        BindsNext(params, patternParts, pathParts, i);
        params := params[pp[1..] := pathParts[i]];
      } else if pp != pathParts[i] {
        Mismatch(patternParts, pathParts, i);
        return map[], false;
      } else {
        BindsSkip(params, patternParts, pathParts, i);
      }
      SegmentsMatchNext(patternParts, pathParts, i);
    }
    assert patternParts[..|patternParts|] == patternParts && pathParts[..|patternParts|] == pathParts;
    ok := true;
  }

  lemma DifferentLengths(pattern: seq<string>, path: seq<string>)
    requires |pattern| != |path|
    ensures !SegmentsMatch(pattern, path)
  {
  }

  lemma NothingMatched(pattern: seq<string>, path: seq<string>)
    ensures SegmentsMatch(pattern[..0], path[..0]) && Binds(map[], pattern[..0], path[..0])
  {
  }

  lemma Mismatch(pattern: seq<string>, path: seq<string>, i: nat)
    requires |pattern| == |path| && i < |pattern| && !IsParam(pattern[i]) && pattern[i] != path[i]
    ensures !SegmentsMatch(pattern, path)
  {
  }

  lemma SegmentsMatchNext(pattern: seq<string>, path: seq<string>, i: nat)
    requires |pattern| == |path| && i < |pattern| && SegmentsMatch(pattern[..i], path[..i])
    requires IsParam(pattern[i]) || pattern[i] == path[i]
    ensures SegmentsMatch(pattern[..i + 1], path[..i + 1])
  {
    var p, q := pattern[..i + 1], path[..i + 1];
    forall k | 0 <= k <= i ensures IsParam(p[k]) || p[k] == q[k] {
      if k < i {
        assert pattern[..i][k] == pattern[k] && path[..i][k] == path[k];
      }
    }
  }

  lemma SameName(a: string, b: string)
    requires IsParam(a) && IsParam(b)
    ensures a == b <==> a[1..] == b[1..]
  {
    assert a == [':'] + a[1..] && b == [':'] + b[1..];
  }

  lemma BindsNext(params: map<string, string>, pattern: seq<string>, path: seq<string>, i: nat)
    requires |pattern| == |path| && i < |pattern| && IsParam(pattern[i])
    requires Binds(params, pattern[..i], path[..i])
    ensures Binds(params[pattern[i][1..] := path[i]], pattern[..i + 1], path[..i + 1])
  {
    var p, q := pattern[..i + 1], path[..i + 1];
    var params' := params[pattern[i][1..] := path[i]];
    forall name ensures name in ParamNames(p) <==> name in ParamNames(pattern[..i]) || name == pattern[i][1..] {
      if name in ParamNames(p) {
        var j :| 0 <= j < |p| && IsParam(p[j]) && p[j][1..] == name;
        if j < i { assert pattern[..i][j] == p[j]; }
      }
      if name in ParamNames(pattern[..i]) {
        var j :| 0 <= j < i && IsParam(pattern[..i][j]) && pattern[..i][j][1..] == name;
        assert p[j] == pattern[..i][j];
      }
      assert p[i] == pattern[i];
    }
    forall j | 0 <= j < |p| && IsParam(p[j]) && LastOfName(p, j) ensures params'[p[j][1..]] == q[j] {
      SameName(p[j], pattern[i]);
      if j < i {
        assert p[i] == pattern[i] && pattern[..i][j] == p[j];
        assert LastOfName(pattern[..i], j) by {
          assert forall k :: 0 <= k < i ==> pattern[..i][k] == p[k];
        }
        assert path[..i][j] == q[j];
      }
    }
  }

  lemma BindsSkip(params: map<string, string>, pattern: seq<string>, path: seq<string>, i: nat)
    requires |pattern| == |path| && i < |pattern| && !IsParam(pattern[i])
    requires Binds(params, pattern[..i], path[..i])
    ensures Binds(params, pattern[..i + 1], path[..i + 1])
  {
    var p, q := pattern[..i + 1], path[..i + 1];
    assert forall k :: 0 <= k < i ==> pattern[..i][k] == p[k] && path[..i][k] == q[k];
    assert ParamNames(p) == ParamNames(pattern[..i]);
    forall j | 0 <= j < |p| && IsParam(p[j]) && LastOfName(p, j) ensures params[p[j][1..]] == q[j] {
      assert LastOfName(pattern[..i], j);
    }
  }

  /** Segments of the same name agree on the path. */
  predicate NamesAgree(pattern: seq<string>, path: seq<string>)
    requires |pattern| == |path|
  {
    forall i, j :: 0 <= i < |pattern| && 0 <= j < |pattern| && IsParam(pattern[i]) && pattern[i] == pattern[j] ==>
      path[i] == path[j]
  }

  /** Exactly when routing can be undone: substituting the parameters into the
      pattern gives the path's segments back if and only if no name stands for two
      different segments; in particular whenever the names are distinct. */
  lemma SubstitutionInvertsMatch(pattern: seq<string>, path: seq<string>, params: map<string, string>)
    requires SegmentsMatch(pattern, path) && Binds(params, pattern, path)
    ensures Substitute(pattern, params) == path <==> NamesAgree(pattern, path)
  {
    forall i | 0 <= i < |pattern| && IsParam(pattern[i])
      ensures pattern[i][1..] in params
      ensures exists k :: i <= k < |pattern| && pattern[k] == pattern[i] && params[pattern[i][1..]] == path[k]
    {
      assert pattern[i][1..] in ParamNames(pattern);
      var k := LastNamed(pattern, i);
      assert params[pattern[k][1..]] == path[k];
    }
    var r := Substitute(pattern, params);
    if r == path {
      forall i, j | 0 <= i < |pattern| && 0 <= j < |pattern| && IsParam(pattern[i]) && pattern[i] == pattern[j]
        ensures path[i] == path[j]
      {
        assert r[i] == r[j];
      }
    }
    if NamesAgree(pattern, path) {
      forall i | 0 <= i < |pattern| ensures r[i] == path[i] {
        if IsParam(pattern[i]) {
          var k :| i <= k < |pattern| && pattern[k] == pattern[i] && params[pattern[i][1..]] == path[k];
        }
      }
    }
  }

  lemma LastNamed(pattern: seq<string>, i: nat) returns (k: nat)
    requires i < |pattern| && IsParam(pattern[i])
    ensures i <= k < |pattern| && pattern[k] == pattern[i] && LastOfName(pattern, k)
    decreases |pattern| - i
  {
    if LastOfName(pattern, i) {
      k := i;
    } else {
      var j :| i < j < |pattern| && IsParam(pattern[j]) && pattern[j] == pattern[i];
      k := LastNamed(pattern, j);
    }
  }

  /** With distinct names, a match taken apart and put together again is the path
      without its outer slashes. */
  lemma MatchRebuildsPath(pattern: string, path: string, params: map<string, string>)
    requires Match(pattern, path) && pattern != path
    requires |Segments(pattern)| == |Segments(path)| && Binds(params, Segments(pattern), Segments(path))
    requires forall i, j :: 0 <= i < j < |Segments(pattern)| && IsParam(Segments(pattern)[i]) ==>
        Segments(pattern)[i] != Segments(pattern)[j]
    ensures Join(Substitute(Segments(pattern), params)) == Trim(path)
  {
    hide Split, Trim, Join, Binds, Substitute;
    SubstitutionInvertsMatch(Segments(pattern), Segments(path), params);
    JoinSplit(Trim(path));
  }

  lemma TwoSegments(path: string, a: string, b: string)
    requires a != "" && b != "" && '/' !in a && '/' !in b && path == "/" + a + "/" + b
    ensures Segments(path) == [a, b]
  {
    hide Split;
    var inner := a + "/" + b;
    assert path[1..] == inner && inner[0] == a[0] && a[0] in a;
    assert inner[|inner| - 1] == b[|b| - 1] && b[|b| - 1] in b;
    assert inner != "" && inner[0] != '/' && inner[|inner| - 1] != '/';
    assert TrimLeft(path) == TrimLeft(path[1..]);
    assert TrimLeft(inner) == inner;
    assert TrimRight(inner) == inner;
    SplitAppend(a, b);
    SplitPlain(a);
  }

  /** A pattern that uses a name twice matches, keeps the last segment only, and
      cannot be undone. */
  lemma RepeatedNameForgetsASegment(params: map<string, string>)
    requires Binds(params, Segments("/:a/:a"), Segments("/x/y"))
    ensures Match("/:a/:a", "/x/y") && params == map["a" := "y"]
    ensures Substitute(Segments("/:a/:a"), params) == ["y", "y"] != Segments("/x/y") == ["x", "y"]
  {
    hide Split, Segments, Substitute;
    TwoSegments("/:a/:a", ":a", ":a");
    TwoSegments("/x/y", "x", "y");
    var pattern := [":a", ":a"];
    assert pattern[0][1..] == "a" && pattern[1][1..] == "a";
    assert ParamNames(pattern) == {"a"};
    assert LastOfName(pattern, 1) && IsParam(pattern[1]);
    assert params["a"] == "y";
  }

  // ----- choosing a route

  datatype Route = Route(id: int, path: string, httpMethod: string, serviceID: int)

  predicate Applies(r: Route, serviceID: int, path: string, httpMethod: string) {
    r.serviceID == serviceID && r.httpMethod == httpMethod && Match(r.path, path)
  }

  /** A match that binds nothing: the literal path, or a pattern without
      parameters. */
  predicate Parameterless(r: Route, path: string) {
    r.path == path || ParamNames(Segments(r.path)) == {}
  }

  lemma BindsNothing(r: Route, path: string, params: map<string, string>)
    requires Match(r.path, path)
    requires r.path == path ==> params == map[]
    requires r.path != path ==> Binds(params, Segments(r.path), Segments(path))
    ensures |params| == 0 <==> Parameterless(r, path)
    ensures |params| == 0 <==> params == map[]
  {
  }

  /** The literal path, or no segment that starts with a colon. */
  lemma ParameterlessExactly(r: Route, path: string)
    ensures var ps := Segments(r.path);
            Parameterless(r, path) <==> r.path == path || forall i :: 0 <= i < |ps| ==> !([':'] <= ps[i])
  {
    hide Segments;
    var ps := Segments(r.path);
    forall i | 0 <= i < |ps| && [':'] <= ps[i] ensures ParamNames(ps) != {} {
      assert IsParam(ps[i]) && ps[i][1..] in ParamNames(ps);
    }
  }

  /** The route chosen: the first that applies without parameters, else the first
      that applies. The lookup of its cached details is left to the caller. */
  method MatchRoute(routes: seq<Route>, serviceID: int, path: string, httpMethod: string)
      returns (best: Option<nat>, params: map<string, string>)
    ensures best.None? <==> forall i :: 0 <= i < |routes| ==> !Applies(routes[i], serviceID, path, httpMethod)
    ensures best.Some? ==> best.value < |routes| && Applies(routes[best.value], serviceID, path, httpMethod)
    ensures best.Some? ==>
              var r := routes[best.value];
              r.serviceID == serviceID && r.httpMethod == httpMethod && Match(r.path, path)
    ensures best.None? ==>
              forall i :: 0 <= i < |routes| ==>
                !(routes[i].serviceID == serviceID && routes[i].httpMethod == httpMethod && Match(routes[i].path, path))
    ensures best.Some? && Parameterless(routes[best.value], path) ==>
              && params == map[]
              && forall i :: 0 <= i < best.value ==>
                   !(Applies(routes[i], serviceID, path, httpMethod) && Parameterless(routes[i], path))
    ensures best.Some? && !Parameterless(routes[best.value], path) ==>
              && Binds(params, Segments(routes[best.value].path), Segments(path))
              && (forall i :: 0 <= i < best.value ==> !Applies(routes[i], serviceID, path, httpMethod))
              && (forall i :: 0 <= i < |routes| ==>
                    !(Applies(routes[i], serviceID, path, httpMethod) && Parameterless(routes[i], path)))
  {
    hide Match, Parameterless, Binds, Segments;
    best, params := None, map[];
    for i := 0 to |routes|
      invariant best.None? ==> forall j :: 0 <= j < i ==> !Applies(routes[j], serviceID, path, httpMethod)
      invariant best.Some? ==>
                  && best.value < i && Applies(routes[best.value], serviceID, path, httpMethod)
                  && !Parameterless(routes[best.value], path)
                  && Binds(params, Segments(routes[best.value].path), Segments(path))
                  && forall j :: 0 <= j < best.value ==> !Applies(routes[j], serviceID, path, httpMethod)
      invariant forall j :: 0 <= j < i ==>
          !(Applies(routes[j], serviceID, path, httpMethod) && Parameterless(routes[j], path))
    {
      var route := routes[i];
      if route.serviceID != serviceID || route.httpMethod != httpMethod {
        continue;
      }
      var ps, ok := MatchPath(route.path, path);
      if !ok {
        continue;
      }
      BindsNothing(route, path, ps);
      if |ps| == 0 {
        best, params := Some(i), ps;
        return;
      }
      if best.None? {
        best, params := Some(i), ps;
      }
    }
  }

  // ----- choosing a service

  predicate MatchBasePath(reqPath: string, basePath: string) {
    && basePath != ""
    && (basePath == "/" || reqPath == basePath
        || (|reqPath| > |basePath| && reqPath[..|basePath|] == basePath && reqPath[|basePath|] == '/'))
  }

  /** A base path covers itself and what continues it with a slash; "/" covers all. */
  lemma BasePathExactly(reqPath: string, basePath: string)
    ensures MatchBasePath(reqPath, basePath) <==>
            basePath != "" && (basePath == "/" || reqPath == basePath || basePath + "/" <= reqPath)
  {
    if basePath + "/" <= reqPath {
      assert reqPath[|basePath|] == (basePath + "/")[|basePath|] && reqPath[..|basePath|] == basePath;
    }
    if |reqPath| > |basePath| && reqPath[..|basePath|] == basePath && reqPath[|basePath|] == '/' {
      assert reqPath[..|basePath| + 1] == basePath + "/";
    }
  }

  /** What the cached lookup of a service gives: an error, nothing, or a base path,
      which may be older than the row just read. */
  datatype Lookup = LookupError | Missing | Cached(basePath: string)

  datatype ServiceMatch =
    | NoService
    | ServiceError
    | OutOfRange                                  // slice bounds panic
    | Matched(index: nat, basePath: string, newPath: string)

  /** The rest of the path behind the cached base path. */
  function Strip(reqPath: string, cached: string): Option<string> {
    if cached == "/" then Some(reqPath)
    else if |cached| > |reqPath| then None
    else if reqPath[|cached|..] == "" then Some("/")
    else Some(reqPath[|cached|..])
  }

  predicate Usable(l: Lookup) {
    !l.Missing? && l != Cached("")
  }

  /** `reqPath` is already clean; `bases` are the base paths of the service rows
      and `lookups` what the cache answers for each of them. */
  method MatchService(reqPath: string, bases: seq<string>, lookups: seq<Lookup>) returns (r: ServiceMatch)
    requires |bases| == |lookups|
    ensures r.NoService? <==> forall i :: 0 <= i < |bases| ==> !(MatchBasePath(reqPath, bases[i]) && Usable(lookups[i]))
    ensures !r.NoService? ==>
              exists i: nat :: i < |bases| && MatchBasePath(reqPath, bases[i]) && Usable(lookups[i])
                && (forall j :: 0 <= j < i ==> !(MatchBasePath(reqPath, bases[j]) && Usable(lookups[j])))
                && r == Outcome(reqPath, i, lookups[i])
  {
    for i := 0 to |bases|
      invariant forall j :: 0 <= j < i ==> !(MatchBasePath(reqPath, bases[j]) && Usable(lookups[j]))
    {
      if MatchBasePath(reqPath, bases[i]) {
        match lookups[i]
        case LookupError => return ServiceError;
        case Missing => continue;
        case Cached(basePath) =>
          if basePath == "" {
            continue;
          }
          var newPath := reqPath;
          if basePath != "/" {
            if |basePath| > |reqPath| {
              return OutOfRange;
            }
            newPath := reqPath[|basePath|..];
            if newPath == "" {
              newPath := "/";
            }
          }
          return Matched(i, basePath, newPath);
      }
    }
    r := NoService;
  }

  function Outcome(reqPath: string, i: nat, l: Lookup): ServiceMatch {
    match l
    case LookupError => ServiceError
    case Missing => NoService
    case Cached(base) =>
      var rest := Strip(reqPath, base);
      if rest.None? then OutOfRange else Matched(i, base, rest.value)
  }

  /** Which answers of the cache end the search, and with what: an error is reported,
      a missing or empty record is passed over, "/" leaves the path whole. */
  lemma OutcomeExactly(reqPath: string, i: nat, l: Lookup)
    ensures Usable(l) <==> l == LookupError || exists base :: base != "" && l == Cached(base)
    ensures l == LookupError ==> Outcome(reqPath, i, l) == ServiceError
    ensures l == Cached("/") ==> Outcome(reqPath, i, l) == Matched(i, "/", reqPath)
    ensures l == Cached(reqPath) && reqPath != "/" ==> Outcome(reqPath, i, l) == Matched(i, reqPath, "/")
    ensures forall base, rest ::
              l == Cached(base) && base != "/" && reqPath == base + rest && rest != "" ==>
                Outcome(reqPath, i, l) == Matched(i, base, rest)
  {
    if l.Cached? {
      assert l == Cached(l.basePath);
    }
  }

  /** For a cached base path equal to its row, base and rest put the path together
      again: the rest is "/" when they are equal, and the whole path under "/". */
  lemma StripInvertsConcat(reqPath: string, base: string)
    requires MatchBasePath(reqPath, base)
    ensures var rest := Strip(reqPath, base);
            && rest.Some?
            && (base == "/" ==> rest.value == reqPath)
            && (base != "/" && reqPath == base ==> rest.value == "/")
            && (base != "/" && reqPath != base ==> base + rest.value == reqPath && rest.value[0] == '/')
  {
  }

  /** For any cached base path, fresh or stale: the slice is out of range exactly
      when that base is longer than the path; a shorter base and the rest rebuild
      the path exactly when it is a prefix of it; a base of the same length, whatever
      it is, leaves "/". */
  lemma StripOfStaleBase(reqPath: string, cached: string)
    requires cached != "/" && reqPath != ""
    ensures Strip(reqPath, cached).None? <==> |cached| > |reqPath|
    ensures Strip(reqPath, cached).Some? && |cached| < |reqPath| ==>
              (cached + Strip(reqPath, cached).value == reqPath <==> cached <= reqPath)
    ensures |cached| == |reqPath| ==> Strip(reqPath, cached) == Some("/")
  {
    if |cached| < |reqPath| && cached <= reqPath {
      assert reqPath == cached + reqPath[|cached|..];
    }
  }

  /** A service whose row still has the base "/a" while its cached record already
      has "/a/b": the row matches the path, and the slice panics. */
  method LongerCachedBase() returns (r: ServiceMatch)
    ensures r.OutOfRange?
  {
    assert MatchBasePath("/a", ["/a"][0]) && Usable([Cached("/a/b")][0]);
    r := MatchService("/a", ["/a"], [Cached("/a/b")]);
  }
}
