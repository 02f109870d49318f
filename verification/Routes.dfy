/** The router of `config.rs`: routes sorted most specific first, then the first match. The glob
    and method libraries are parameters: which patterns compile, which paths a pattern matches,
    and which strings are HTTP methods. */
module Routes {
  import opened Wrappers
  import opened Text

  datatype RouteConfig = RouteConfig(methods: seq<string>, path: string, script: string)

  datatype RouteError =
    | BadGlob(path: string)
    | BadMethod(badPath: string, verb: string)

  /** `pattern` stands for the compiled matcher. */
  datatype Route = Route(pattern: string, methods: seq<string>, specificity: nat, script: string)

  /** The libraries the router calls. */
  datatype Library = Library(compiles: string -> bool, isMatch: (string, string) -> bool, isMethod: string -> bool)

  predicate IsWildcard(c: char) { c == '*' || c == '?' || c == '[' || c == '{' }

  /** The leading run of literal characters. */
  function LiteralPrefix(pattern: string): string {
    if pattern == "" || IsWildcard(pattern[0]) then "" else [pattern[0]] + LiteralPrefix(pattern[1..])
  }

  /** `literal_prefix_len`, which counts bytes. */
  function LiteralPrefixLen(pattern: string): nat {
    Utf8Len(LiteralPrefix(pattern))
  }

  /** The prefix is literal, and as long as it can be. */
  lemma {:induction false} LiteralPrefixMaximal(pattern: string)
    ensures LiteralPrefix(pattern) <= pattern
    ensures forall i :: 0 <= i < |LiteralPrefix(pattern)| ==> pattern[i] !in "*?[{"
    ensures var n := |LiteralPrefix(pattern)|; n < |pattern| ==> pattern[n] in "*?[{"
  {
    if pattern != "" {
      assert "*?[{" == ['*', '?', '[', '{'];
      assert pattern == [pattern[0]] + pattern[1..];
      if !IsWildcard(pattern[0]) {
        LiteralPrefixMaximal(pattern[1..]);
      }
    }
  }

  /** The specificity of a pattern is the number of bytes before its first wildcard. */
  lemma {:induction false} SpecificityCounts(front: string, rest: string)
    requires forall i :: 0 <= i < |front| ==> front[i] !in "*?[{"
    requires rest != "" ==> rest[0] in "*?[{"
    ensures LiteralPrefixLen(front + rest) == Utf8Len(front)
  {
    assert "*?[{" == ['*', '?', '[', '{'];
    PrefixOf(front, rest);
  }

  lemma {:induction false} PrefixOf(front: string, rest: string)
    requires forall i :: 0 <= i < |front| ==> !IsWildcard(front[i])
    requires rest != "" ==> IsWildcard(rest[0])
    ensures LiteralPrefix(front + rest) == front
  {
    if front == "" {
      assert front + rest == rest;
    } else {
      PrefixOf(front[1..], rest);
      assert (front + rest)[1..] == front[1..] + rest;
    }
  }

  predicate Matches(lib: Library, route: Route, verb: string, path: string) {
    (route.methods == [] || verb in route.methods) && lib.isMatch(route.pattern, path)
  }

  // ---------- building ----------

  /** The first of the config's methods that is not one. */
  function FirstBadMethod(lib: Library, methods: seq<string>): Option<string> {
    if methods == [] then None
    else if !lib.isMethod(methods[0]) then Some(methods[0])
    else FirstBadMethod(lib, methods[1..])
  }

  function Compile(lib: Library, config: RouteConfig): Result<Route, RouteError> {
    if !lib.compiles(config.path) then Err(BadGlob(config.path))
    else
      match FirstBadMethod(lib, config.methods)
      case Some(raw) => Err(BadMethod(config.path, raw))
      case None => Ok(Route(config.path, config.methods, LiteralPrefixLen(config.path), config.script))
  }

  /** The routes in declaration order, or the first error. */
  function CompileAll(lib: Library, configs: seq<RouteConfig>): Result<seq<Route>, RouteError> {
    if configs == [] then Ok([])
    else
      var init, last := configs[..|configs| - 1], configs[|configs| - 1];
      match CompileAll(lib, init)
      case Err(e) => Err(e)
      case Ok(routes) =>
        match Compile(lib, last)
        case Err(e) => Err(e)
        case Ok(route) => Ok(routes + [route])
  }

  /** The routes of one specificity, in order. */
  function OfSpecificity(routes: seq<Route>, n: nat): seq<Route> {
    if routes == [] then []
    else (if routes[0].specificity == n then [routes[0]] else []) + OfSpecificity(routes[1..], n)
  }

  ghost predicate Descending(routes: seq<Route>) {
    forall i, j :: 0 <= i < j < |routes| ==> routes[i].specificity >= routes[j].specificity
  }

  /** What a stable sort by descending specificity promises of its output: the order, and that the
      routes of each specificity are the declared ones in declaration order. */
  ghost predicate StablySorted(declared: seq<Route>, sorted: seq<Route>) {
    && Descending(sorted)
    && forall n: nat :: OfSpecificity(sorted, n) == OfSpecificity(declared, n)
  }

  lemma {:induction false} OfSpecificityAppend(a: seq<Route>, b: seq<Route>, n: nat)
    ensures OfSpecificity(a + b, n) == OfSpecificity(a, n) + OfSpecificity(b, n)
  {
    if a == [] {
      assert a + b == b;
    } else {
      OfSpecificityAppend(a[1..], b, n);
      assert (a + b)[1..] == a[1..] + b && (a + b)[0] == a[0];
      var head := if a[0].specificity == n then [a[0]] else [];
      assert head + (OfSpecificity(a[1..], n) + OfSpecificity(b, n))
          == head + OfSpecificity(a[1..], n) + OfSpecificity(b, n);
    }
  }

  lemma {:induction false} NoneOfSpecificity(routes: seq<Route>, n: nat)
    requires forall i :: 0 <= i < |routes| ==> routes[i].specificity != n
    ensures OfSpecificity(routes, n) == []
  {
    if routes != [] {
      NoneOfSpecificity(routes[1..], n);
    }
  }

  /** Stands for the library's stable sort: each route goes after every one at least as specific. */
  method SortByKey(declared: seq<Route>) returns (sorted: seq<Route>)
    ensures StablySorted(declared, sorted)
  {
    sorted := [];
    for i := 0 to |declared|
      invariant StablySorted(declared[..i], sorted)
    {
      var route := declared[i];
      var at := |sorted|;
      while at > 0 && sorted[at - 1].specificity < route.specificity
        invariant 0 <= at <= |sorted|
        invariant forall j :: at <= j < |sorted| ==> sorted[j].specificity < route.specificity
      {
        at := at - 1;
      }
      InsertKeepsSorted(declared[..i], sorted, route, at);
      assert declared[..i + 1] == declared[..i] + [route];
      sorted := sorted[..at] + [route] + sorted[at..];
    }
    assert declared[..|declared|] == declared;
  }

  /** A route put after every one at least as specific keeps the sort stable. */
  lemma InsertKeepsSorted(declared: seq<Route>, sorted: seq<Route>, route: Route, at: nat)
    requires StablySorted(declared, sorted) && at <= |sorted|
    requires at > 0 ==> sorted[at - 1].specificity >= route.specificity
    requires forall j :: at <= j < |sorted| ==> sorted[j].specificity < route.specificity
    ensures StablySorted(declared + [route], sorted[..at] + [route] + sorted[at..])
  {
    var before, after := sorted[..at], sorted[at..];
    assert sorted == before + after;
    InsertDescending(before, route, after);
    forall n: nat
      ensures OfSpecificity(before + [route] + after, n) == OfSpecificity(declared + [route], n)
    {
      InsertFiltered(declared, before, route, after, n);
    }
  }

  lemma InsertDescending(before: seq<Route>, route: Route, after: seq<Route>)
    requires Descending(before + after)
    requires before != [] ==> before[|before| - 1].specificity >= route.specificity
    requires forall j :: 0 <= j < |after| ==> after[j].specificity < route.specificity
    ensures Descending(before + [route] + after)
  {
    var without, with := before + after, before + [route] + after;
    assert forall i :: 0 <= i < |before| ==> with[i] == without[i] == before[i];
    assert forall i :: |before| < i < |with| ==> with[i] == without[i - 1] == after[i - |before| - 1];
    forall i | 0 <= i < |before|
      ensures before[i].specificity >= route.specificity
    {
      assert i < |before| - 1 ==> without[i].specificity >= without[|before| - 1].specificity;
    }
  }

  lemma InsertFiltered(declared: seq<Route>, before: seq<Route>, route: Route, after: seq<Route>, n: nat)
    requires OfSpecificity(before + after, n) == OfSpecificity(declared, n)
    requires forall j :: 0 <= j < |after| ==> after[j].specificity < route.specificity
    ensures OfSpecificity(before + [route] + after, n) == OfSpecificity(declared + [route], n)
  {
    OfSpecificityAppend(before, after, n);
    OfSpecificityAppend(before + [route], after, n);
    OfSpecificityAppend(before, [route], n);
    OfSpecificityAppend(declared, [route], n);
    if n == route.specificity {
      NoneOfSpecificity(after, n);
    } else {
      NoneOfSpecificity([route], n);
    }
  }

  class Router {
    var routes: seq<Route>

    constructor ()
      ensures routes == []
    {
      routes := [];
    }

    /** `Router::build`: compiles the routes in order, stopping at the first error, then sorts. */
    method Build(lib: Library, configs: seq<RouteConfig>) returns (error: Option<RouteError>)
      modifies this
      ensures match CompileAll(lib, configs)
              case Ok(declared) => error == None && StablySorted(declared, routes)
              case Err(e) => error == Some(e) && routes == old(routes)
    {
      var pushed: seq<Route> := [];
      for i := 0 to |configs|
        invariant CompileAll(lib, configs[..i]) == Ok(pushed)
      {
        var route := Compile(lib, configs[i]);
        assert configs[..i + 1][..i] == configs[..i];
        if route.Err? {
          CompileAllStops(lib, configs, i);
          return Some(route.error);
        }
        pushed := pushed + [route.value];
      }
      assert configs[..|configs|] == configs;
      routes := SortByKey(pushed);
      return None;
    }
  }

  lemma {:induction false} CompileAllStops(lib: Library, configs: seq<RouteConfig>, i: nat)
    requires i < |configs| && CompileAll(lib, configs[..i]).Ok? && Compile(lib, configs[i]).Err?
    ensures CompileAll(lib, configs) == Err(Compile(lib, configs[i]).error)
    decreases |configs|
  {
    var init := configs[..|configs| - 1];
    if i < |init| {
      assert init[..i] == configs[..i];
      CompileAllStops(lib, init, i);
    }
  }

  // ---------- resolving ----------

  /** `Router::resolve`: the first route that matches. */
  function FirstMatch(lib: Library, routes: seq<Route>, verb: string, path: string): Option<Route> {
    if routes == [] then None
    else if Matches(lib, routes[0], verb, path) then Some(routes[0])
    else FirstMatch(lib, routes[1..], verb, path)
  }

  /** `Router::claims_path`. */
  predicate ClaimsPath(lib: Library, routes: seq<Route>, path: string) {
    exists i :: 0 <= i < |routes| && lib.isMatch(routes[i].pattern, path)
  }

  /** What the configuration promises: a matching route that no matching route beats, neither by a
      longer literal prefix nor, at the same length, by being declared earlier. */
  ghost predicate IsBest(lib: Library, declared: seq<Route>, i: nat, verb: string, path: string)
    requires i < |declared|
  {
    && Matches(lib, declared[i], verb, path)
    && forall j :: 0 <= j < |declared| && Matches(lib, declared[j], verb, path) ==>
         declared[j].specificity < declared[i].specificity
         || (declared[j].specificity == declared[i].specificity && i <= j)
  }

  lemma {:induction false} FirstMatchSpec(lib: Library, routes: seq<Route>, verb: string, path: string)
    ensures match FirstMatch(lib, routes, verb, path)
            case None => forall i :: 0 <= i < |routes| ==> !Matches(lib, routes[i], verb, path)
            case Some(route) =>
              exists k :: 0 <= k < |routes| && routes[k] == route && Matches(lib, route, verb, path)
                          && forall i :: 0 <= i < k ==> !Matches(lib, routes[i], verb, path)
  {
    if routes != [] && !Matches(lib, routes[0], verb, path) {
      FirstMatchSpec(lib, routes[1..], verb, path);
      match FirstMatch(lib, routes[1..], verb, path) {
        case None =>
          assert forall i :: 1 <= i < |routes| ==> routes[i] == routes[1..][i - 1];
        case Some(route) =>
          var k :| 0 <= k < |routes[1..]| && routes[1..][k] == route
                   && forall i :: 0 <= i < k ==> !Matches(lib, routes[1..][i], verb, path);
          assert routes[k + 1] == route;
          assert forall i :: 1 <= i < k + 1 ==> routes[i] == routes[1..][i - 1];
      }
    }
  }

  lemma {:induction false} MemberOfSpecificity(routes: seq<Route>, route: Route)
    ensures route in OfSpecificity(routes, route.specificity) <==> route in routes
  {
    if routes != [] {
      MemberOfSpecificity(routes[1..], route);
      assert routes == [routes[0]] + routes[1..];
    }
  }

  /** Restricted to one specificity, first match commutes with dropping the others. */
  lemma {:induction false} FirstMatchWithin(lib: Library, routes: seq<Route>, n: nat, verb: string, path: string)
    requires forall i :: 0 <= i < |routes| && Matches(lib, routes[i], verb, path) ==> routes[i].specificity <= n
    requires exists i :: 0 <= i < |routes| && Matches(lib, routes[i], verb, path) && routes[i].specificity == n
    ensures FirstMatch(lib, OfSpecificity(routes, n), verb, path).Some?
    ensures forall i :: 0 <= i < |routes| && IsBest(lib, routes, i, verb, path) ==>
              FirstMatch(lib, OfSpecificity(routes, n), verb, path) == Some(routes[i])
    ensures exists i :: 0 <= i < |routes| && IsBest(lib, routes, i, verb, path)
  {
    var head, rest := routes[0], routes[1..];
    assert forall i :: 1 <= i < |routes| ==> routes[i] == rest[i - 1];
    assert forall i :: 0 <= i < |rest| ==> rest[i] == routes[i + 1];
    var kept := OfSpecificity(routes, n);
    if head.specificity == n && Matches(lib, head, verb, path) {
      assert kept[0] == head;
      assert IsBest(lib, routes, 0, verb, path);
    } else {
      FirstMatchWithin(lib, rest, n, verb, path);
      assert head.specificity == n ==> kept[1..] == OfSpecificity(rest, n);
      assert head.specificity != n ==> kept == OfSpecificity(rest, n);
      var b :| 0 <= b < |rest| && IsBest(lib, rest, b, verb, path);
      assert rest[b].specificity == n by {
        var m :| 0 <= m < |rest| && Matches(lib, rest[m], verb, path) && rest[m].specificity == n;
      }
      assert IsBest(lib, routes, b + 1, verb, path);
      forall i | 0 <= i < |routes| && IsBest(lib, routes, i, verb, path)
        ensures i > 0 && IsBest(lib, rest, i - 1, verb, path)
      {
        assert Matches(lib, routes[b + 1], verb, path);
      }
    }
  }

  /** Sorting and taking the first match answers with the most specific match, and among those the
      earliest declared, for every list of routes and every request. */
  lemma ResolveIsBest(lib: Library, declared: seq<Route>, sorted: seq<Route>, verb: string, path: string)
    requires StablySorted(declared, sorted)
    ensures match FirstMatch(lib, sorted, verb, path)
            case None => forall i :: 0 <= i < |declared| ==> !Matches(lib, declared[i], verb, path)
            case Some(route) =>
              exists i :: 0 <= i < |declared| && declared[i] == route && IsBest(lib, declared, i, verb, path)
  {
    FirstMatchSpec(lib, sorted, verb, path);
    forall i | 0 <= i < |declared|
      ensures declared[i] in sorted
    {
      SameMembers(declared, sorted, declared[i]);
    }
    match FirstMatch(lib, sorted, verb, path) {
      case None =>
      case Some(route) =>
        var n := route.specificity;
        SameMembers(declared, sorted, route);
        TopSpecificity(lib, sorted, verb, path);
        FirstMatchWithin(lib, sorted, n, verb, path);
        FirstMatchWithin(lib, declared, n, verb, path);
        assert FirstMatch(lib, OfSpecificity(sorted, n), verb, path) == Some(route);
    }
  }

  lemma SameMembers(declared: seq<Route>, sorted: seq<Route>, route: Route)
    requires StablySorted(declared, sorted)
    ensures route in sorted <==> route in declared
  {
    MemberOfSpecificity(declared, route);
    MemberOfSpecificity(sorted, route);
  }

  /** In a sorted list the first match is itself a best match. */
  lemma TopSpecificity(lib: Library, sorted: seq<Route>, verb: string, path: string)
    requires Descending(sorted) && FirstMatch(lib, sorted, verb, path).Some?
    ensures exists k :: 0 <= k < |sorted| && IsBest(lib, sorted, k, verb, path)
                        && FirstMatch(lib, sorted, verb, path) == Some(sorted[k])
    ensures forall i :: 0 <= i < |sorted| && Matches(lib, sorted[i], verb, path) ==>
              sorted[i].specificity <= FirstMatch(lib, sorted, verb, path).value.specificity
  {
  }

  /** Building succeeds exactly when every glob compiles and every method is one. */
  lemma {:induction false} CompilesExactly(lib: Library, configs: seq<RouteConfig>)
    ensures CompileAll(lib, configs).Ok?
       <==> forall i :: 0 <= i < |configs| ==>
              && lib.compiles(configs[i].path)
              && forall verb :: verb in configs[i].methods ==> lib.isMethod(verb)
  {
    if configs != [] {
      var init, last := configs[..|configs| - 1], configs[|configs| - 1];
      CompilesExactly(lib, init);
      BadMethodIsFirst(lib, last.methods);
      assert configs == init + [last];
    }
  }

  /** The method an error names is in the list and is none, and everything before it is one. */
  lemma {:induction false} BadMethodIsFirst(lib: Library, methods: seq<string>)
    ensures match FirstBadMethod(lib, methods)
            case None => forall verb :: verb in methods ==> lib.isMethod(verb)
            case Some(bad) =>
              exists k :: 0 <= k < |methods| && methods[k] == bad && !lib.isMethod(bad)
                          && forall j :: 0 <= j < k ==> lib.isMethod(methods[j])
  {
    if methods != [] {
      assert methods == [methods[0]] + methods[1..];
      if lib.isMethod(methods[0]) {
        BadMethodIsFirst(lib, methods[1..]);
        match FirstBadMethod(lib, methods[1..]) {
          case None =>
          case Some(bad) =>
            var k :| 0 <= k < |methods[1..]| && methods[1..][k] == bad
                     && forall j :: 0 <= j < k ==> lib.isMethod(methods[1..][j]);
            assert methods[k + 1] == bad;
            assert forall j :: 1 <= j < k + 1 ==> methods[j] == methods[1..][j - 1];
        }
      } else {
        assert methods[0] == FirstBadMethod(lib, methods).value;
      }
    }
  }

  /** The error is that of the first configured route that has one, its glob looked at first. */
  lemma {:induction false} BuildErrorIsFirst(lib: Library, configs: seq<RouteConfig>, k: nat)
    requires k < |configs| && CompileAll(lib, configs[..k]).Ok?
    requires !lib.compiles(configs[k].path) || exists verb :: verb in configs[k].methods && !lib.isMethod(verb)
    ensures !lib.compiles(configs[k].path) ==> CompileAll(lib, configs) == Err(BadGlob(configs[k].path))
    ensures lib.compiles(configs[k].path) ==>
              exists j :: 0 <= j < |configs[k].methods| && !lib.isMethod(configs[k].methods[j])
                          && (forall i :: 0 <= i < j ==> lib.isMethod(configs[k].methods[i]))
                          && CompileAll(lib, configs) == Err(BadMethod(configs[k].path, configs[k].methods[j]))
  {
    BadMethodIsFirst(lib, configs[k].methods);
    CompileAllStops(lib, configs, k);
  }

  /** A configured route takes a request if it allows the method and its glob matches the path. */
  predicate Takes(lib: Library, config: RouteConfig, verb: string, path: string) {
    (config.methods == [] || verb in config.methods) && lib.isMatch(config.path, path)
  }

  /** The configured route that must answer: no other that takes the request has a longer literal
      prefix, and none declared earlier has one as long. */
  ghost predicate Answers(lib: Library, configs: seq<RouteConfig>, i: nat, verb: string, path: string)
    requires i < |configs|
  {
    && Takes(lib, configs[i], verb, path)
    && forall j :: 0 <= j < |configs| && Takes(lib, configs[j], verb, path) ==>
         var mine, other := LiteralPrefixLen(configs[i].path), LiteralPrefixLen(configs[j].path);
         other < mine || (other == mine && i <= j)
  }

  /** Compiling keeps the routes in order, each with what its configuration says. */
  lemma {:induction false} CompiledInOrder(lib: Library, configs: seq<RouteConfig>)
    requires CompileAll(lib, configs).Ok?
    ensures |CompileAll(lib, configs).value| == |configs|
    ensures forall i :: 0 <= i < |configs| ==> Compile(lib, configs[i]) == Ok(CompileAll(lib, configs).value[i])
  {
    if configs != [] {
      CompiledInOrder(lib, configs[..|configs| - 1]);
    }
  }

  /** From the configuration to the answer: a request goes to the script of the configured route of
      longest literal prefix that takes it, the earliest declared of those, and to no route only if
      none takes it. */
  lemma {:induction false} ConfiguredRouteAnswers(lib: Library, configs: seq<RouteConfig>, declared: seq<Route>,
      sorted: seq<Route>, verb: string, path: string)
    requires CompileAll(lib, configs) == Ok(declared) && StablySorted(declared, sorted)
    ensures match FirstMatch(lib, sorted, verb, path)
            case None => forall i :: 0 <= i < |configs| ==> !Takes(lib, configs[i], verb, path)
            case Some(route) =>
              exists i :: 0 <= i < |configs| && Answers(lib, configs, i, verb, path)
                          && route.pattern == configs[i].path && route.script == configs[i].script
  {
    hide LiteralPrefixLen, FirstMatch;
    CompiledInOrder(lib, configs);
    ResolveIsBest(lib, declared, sorted, verb, path);
    forall i | 0 <= i < |configs|
      ensures Matches(lib, declared[i], verb, path) <==> Takes(lib, configs[i], verb, path)
      ensures declared[i].specificity == LiteralPrefixLen(configs[i].path)
      ensures declared[i].pattern == configs[i].path && declared[i].script == configs[i].script
    {
      assert Compile(lib, configs[i]) == Ok(declared[i]);
    }
    if FirstMatch(lib, sorted, verb, path).Some? {
      var i :| 0 <= i < |declared| && Some(declared[i]) == FirstMatch(lib, sorted, verb, path)
               && IsBest(lib, declared, i, verb, path);
      assert Answers(lib, configs, i, verb, path);
    }
  }

  // ---------- dispatch ----------

  datatype Dispatch = Scripted(script: string) | MethodNotAllowed | DefaultScript

  /** How `proxy::handle` chooses what runs. */
  function Choose(lib: Library, routes: seq<Route>, verb: string, path: string): Dispatch {
    match FirstMatch(lib, routes, verb, path)
    case Some(route) => Scripted(route.script)
    case None => if ClaimsPath(lib, routes, path) then MethodNotAllowed else DefaultScript
  }

  /** Requests split exactly in three by what the configuration declares: a match is scripted, a
      claimed path with no matching method is refused, and only an unclaimed path reaches the
      default script. */
  lemma DispatchExactly(lib: Library, declared: seq<Route>, sorted: seq<Route>, verb: string, path: string)
    requires StablySorted(declared, sorted)
    ensures Choose(lib, sorted, verb, path).Scripted?
       <==> exists i :: 0 <= i < |declared| && Matches(lib, declared[i], verb, path)
    ensures Choose(lib, sorted, verb, path) == DefaultScript
       <==> forall i :: 0 <= i < |declared| ==> !lib.isMatch(declared[i].pattern, path)
  {
    ResolveIsBest(lib, declared, sorted, verb, path);
    FirstMatchSpec(lib, sorted, verb, path);
    forall i | 0 <= i < |declared|
      ensures declared[i] in sorted
    {
      SameMembers(declared, sorted, declared[i]);
    }
    forall i | 0 <= i < |sorted|
      ensures sorted[i] in declared
    {
      SameMembers(declared, sorted, sorted[i]);
    }
    if i :| 0 <= i < |declared| && lib.isMatch(declared[i].pattern, path) {
      var j :| 0 <= j < |sorted| && sorted[j] == declared[i];
      assert ClaimsPath(lib, sorted, path);
    }
  }

  /** The same in terms of the configuration: a request goes to the default script exactly when no
      configured glob matches its path, is refused exactly when some glob does but no route with one
      takes the method, and otherwise runs the script of the route that answers. */
  lemma {:induction false} DispatchAsConfigured(lib: Library, configs: seq<RouteConfig>, declared: seq<Route>,
      sorted: seq<Route>, verb: string, path: string)
    requires CompileAll(lib, configs) == Ok(declared) && StablySorted(declared, sorted)
    ensures Choose(lib, sorted, verb, path) == DefaultScript
       <==> forall i :: 0 <= i < |configs| ==> !lib.isMatch(configs[i].path, path)
    ensures Choose(lib, sorted, verb, path) == MethodNotAllowed
       <==> && (exists i :: 0 <= i < |configs| && lib.isMatch(configs[i].path, path))
            && forall i :: 0 <= i < |configs| && lib.isMatch(configs[i].path, path) ==>
                 configs[i].methods != [] && verb !in configs[i].methods
    ensures match Choose(lib, sorted, verb, path)
            case Scripted(script) =>
              exists i :: 0 <= i < |configs| && Answers(lib, configs, i, verb, path) && script == configs[i].script
            case _ => true
  {
    hide Answers, LiteralPrefixLen;
    CompiledInOrder(lib, configs);
    forall i | 0 <= i < |configs|
      ensures declared[i].pattern == configs[i].path
    {
      assert Compile(lib, configs[i]) == Ok(declared[i]);
    }
    DispatchExactly(lib, declared, sorted, verb, path);
    ConfiguredRouteAnswers(lib, configs, declared, sorted, verb, path);
    if FirstMatch(lib, sorted, verb, path).Some? {
      AnswererTakes(lib, configs, verb, path);
    }
  }

  lemma AnswererTakes(lib: Library, configs: seq<RouteConfig>, verb: string, path: string)
    ensures forall i :: 0 <= i < |configs| && Answers(lib, configs, i, verb, path) ==>
              Takes(lib, configs[i], verb, path)
  {
  }
}
