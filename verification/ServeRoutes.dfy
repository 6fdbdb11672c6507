/** Which backend a request path is served from: routes are collected in rule order, sorted
    by descending path length, and turned into an insertion-ordered handler table of which
    the first prefix match counts. */
module ServeRoutes {
  import opened Wrappers
  import opened Ordering

  /** One HTTP path rule.  `backend` is the resolved URL, if the service and port exist. */
  datatype Rule = Rule(path: Option<string>, backend: Option<string>)

  datatype Route = Route(path: string, url: string)

  predicate RouteLe(a: Route, b: Route) {
    |a.path| >= |b.path|
  }

  function RouteOf(r: Rule): Option<Route> {
    match r.backend
    case Some(url) => Some(Route(if r.path.Some? then r.path.value else "/", url))
    case None => None
  }

  function RoutesOf(rules: seq<Rule>): seq<Route> {
    if rules == [] then []
    else
      match RouteOf(rules[0])
      case Some(r) => [r] + RoutesOf(rules[1..])
      case None => RoutesOf(rules[1..])
  }

  // ── the handler table ───────────────────────────────────────────────────────

  /** An existing path keeps its place and takes the new URL. */
  function PutHandler(table: seq<Route>, r: Route): seq<Route> {
    if table == [] then [r]
    else if table[0].path == r.path then [r] + table[1..]
    else [table[0]] + PutHandler(table[1..], r)
  }

  function Handlers(routes: seq<Route>): seq<Route> {
    if routes == [] then []
    else PutHandler(Handlers(routes[..|routes| - 1]), routes[|routes| - 1])
  }

  /** The first handler whose path is a prefix of the request. */
  function FirstMatch(table: seq<Route>, request: string): Option<Route> {
    if table == [] then None
    else if table[0].path <= request then Some(table[0])
    else FirstMatch(table[1..], request)
  }

  // ── the specification ───────────────────────────────────────────────────────

  /** The URLs of the routes for one path, in order. */
  function UrlsFor(routes: seq<Route>, path: string): seq<string> {
    if routes == [] then []
    else if routes[0].path == path then [routes[0].url] + UrlsFor(routes[1..], path)
    else UrlsFor(routes[1..], path)
  }

  /** The URL of the last route for a path. */
  function LastUrl(routes: seq<Route>, path: string): Option<string> {
    var urls := UrlsFor(routes, path);
    if urls == [] then None else Some(urls[|urls| - 1])
  }

  predicate Declared(routes: seq<Route>, path: string) {
    exists r :: r in routes && r.path == path
  }

  lemma {:induction false} UrlsForDeclared(routes: seq<Route>, path: string)
    ensures UrlsFor(routes, path) != [] <==> Declared(routes, path)
  {
    if routes != [] {
      UrlsForDeclared(routes[1..], path);
      assert routes == [routes[0]] + routes[1..];
    }
  }

  lemma {:induction false} UrlsForAppend(a: seq<Route>, b: seq<Route>, path: string)
    ensures UrlsFor(a + b, path) == UrlsFor(a, path) + UrlsFor(b, path)
  {
    if a == [] {
      assert a + b == b;
    } else {
      assert (a + b)[1..] == a[1..] + b;
      UrlsForAppend(a[1..], b, path);
    }
  }

  /** Sorting is stable: routes for the same path keep their order. */
  lemma {:induction false} UrlsForCons(x: Route, xs: seq<Route>, path: string)
    ensures UrlsFor([x] + xs, path) == if x.path == path then [x.url] + UrlsFor(xs, path) else UrlsFor(xs, path)
  {
    assert ([x] + xs)[1..] == xs;
  }

  lemma {:induction false} InsertStable(x: Route, xs: seq<Route>, path: string)
    ensures UrlsFor(Insert(x, xs, RouteLe), path) == UrlsFor([x] + xs, path)
  {
    if xs != [] && !RouteLe(x, xs[0]) {
      var y, rest := xs[0], xs[1..];
      assert xs == [y] + rest && x.path != y.path;
      InsertStable(x, rest, path);
      UrlsForCons(y, Insert(x, rest, RouteLe), path);
      UrlsForCons(x, rest, path);
      UrlsForCons(y, rest, path);
      UrlsForCons(x, xs, path);
    }
  }

  lemma {:induction false} SortStable(xs: seq<Route>, path: string)
    ensures UrlsFor(Sort(xs, RouteLe), path) == UrlsFor(xs, path)
  {
    if xs != [] {
      var x, sorted := xs[0], Sort(xs[1..], RouteLe);
      SortStable(xs[1..], path);
      InsertStable(x, sorted, path);
      UrlsForCons(x, sorted, path);
    }
  }

  // ── the table's contents ────────────────────────────────────────────────────

  function PathOf(r: Route): string {
    r.path
  }

  lemma {:induction false} PutHandlerEffect(table: seq<Route>, r: Route)
    requires DistinctBy(table, PathOf)
    ensures DistinctBy(PutHandler(table, r), PathOf)
    ensures forall h :: h in PutHandler(table, r) <==> h == r || (h in table && h.path != r.path)
  {
    if table != [] {
      DistinctHead(table, PathOf);
      assert table == [table[0]] + table[1..];
      if table[0].path != r.path {
        PutHandlerEffect(table[1..], r);
        var rest := PutHandler(table[1..], r);
        forall i | 0 <= i < |rest|
          ensures PathOf(rest[i]) != PathOf(table[0])
        {
          assert rest[i] in rest;
        }
      } else {
        forall h | h in table[1..]
          ensures h.path != r.path
        {
          assert PathOf(h) != PathOf(table[0]);
        }
      }
    }
  }

  lemma {:induction false} LastUrlAppend(init: seq<Route>, last: Route, path: string)
    ensures LastUrl(init + [last], path) == if path == last.path then Some(last.url) else LastUrl(init, path)
  {
    UrlsForAppend(init, [last], path);
    assert [last][1..] == [];
  }

  lemma {:induction false} HandlersDistinct(routes: seq<Route>)
    ensures DistinctBy(Handlers(routes), PathOf)
  {
    if routes != [] {
      HandlersDistinct(routes[..|routes| - 1]);
      PutHandlerEffect(Handlers(routes[..|routes| - 1]), routes[|routes| - 1]);
    }
  }

  /** The table holds each declared path with the URL of its last route. */
  lemma {:induction false} HandlersContents(routes: seq<Route>, h: Route)
    ensures h in Handlers(routes) <==> LastUrl(routes, h.path) == Some(h.url)
  {
    if routes != [] {
      var init, last := routes[..|routes| - 1], routes[|routes| - 1];
      HandlersContents(init, h);
      HandlersDistinct(init);
      PutHandlerEffect(Handlers(init), last);
      assert routes == init + [last];
      LastUrlAppend(init, last, h.path);
    }
  }

  lemma {:induction false} PutHandlerSorted(table: seq<Route>, r: Route)
    requires Sorted(table, RouteLe) && forall h | h in table :: RouteLe(h, r)
    ensures Sorted(PutHandler(table, r), RouteLe)
    ensures forall h | h in PutHandler(table, r) :: RouteLe(h, r)
  {
    if table != [] {
      assert table == [table[0]] + table[1..];
      assert table[0] in table;
      PutHandlerSorted(table[1..], r);
      var rest := if table[0].path == r.path then table[1..] else PutHandler(table[1..], r);
      PutHandlerLengths(table[1..], r);
      forall h | h in rest
        ensures RouteLe(table[0], h)
      {
        if h in table[1..] {
          var i :| 0 <= i < |table[1..]| && table[1..][i] == h;
          assert table[i + 1] == h;
        }
      }
    }
  }

  lemma {:induction false} PutHandlerLengths(table: seq<Route>, r: Route)
    ensures forall h | h in PutHandler(table, r) :: h == r || h in table
  {
    if table != [] {
      PutHandlerLengths(table[1..], r);
      assert table == [table[0]] + table[1..];
    }
  }

  lemma {:induction false} HandlersSorted(routes: seq<Route>)
    requires Sorted(routes, RouteLe)
    ensures Sorted(Handlers(routes), RouteLe)
    ensures forall h | h in Handlers(routes) :: exists r :: r in routes && r.path == h.path
  {
    if routes != [] {
      var init, last := routes[..|routes| - 1], routes[|routes| - 1];
      HandlersSorted(init);
      assert routes == init + [last];
      forall h | h in Handlers(init)
        ensures RouteLe(h, last)
      {
        var r :| r in init && r.path == h.path;
        var i :| 0 <= i < |init| && init[i] == r;
        assert RouteLe(routes[i], routes[|routes| - 1]);
      }
      PutHandlerSorted(Handlers(init), last);
      PutHandlerLengths(Handlers(init), last);
    }
  }

  // ── first match is longest prefix ───────────────────────────────────────────

  lemma {:induction false} FirstMatchOfSorted(table: seq<Route>, request: string)
    requires Sorted(table, RouteLe)
    ensures match FirstMatch(table, request)
            case None => forall h | h in table :: !(h.path <= request)
            case Some(h) => h in table && h.path <= request && forall k | k in table && k.path <= request :: |k.path| <= |h.path|
  {
    if table != [] {
      FirstMatchOfSorted(table[1..], request);
      assert table == [table[0]] + table[1..];
      forall k | k in table
        ensures RouteLe(table[0], k)
      {
        var i :| 0 <= i < |table| && table[i] == k;
      }
    }
  }

  function Table(rules: seq<Rule>): seq<Route> {
    Handlers(Sort(RoutesOf(rules), RouteLe))
  }

  lemma {:induction false} RouteOrder()
    ensures TotalPreorder(RouteLe)
  {
  }

  lemma {:induction false} LastUrlStable(routes: seq<Route>, path: string)
    ensures LastUrl(Sort(routes, RouteLe), path) == LastUrl(routes, path)
  {
    SortStable(routes, path);
  }

  /** The table holds, for each declared path, the URL of the last resolvable rule with it. */
  lemma {:induction false} TableEntry(rules: seq<Rule>, h: Route)
    ensures h in Table(rules) <==> LastUrl(RoutesOf(rules), h.path) == Some(h.url)
  {
    LastUrlStable(RoutesOf(rules), h.path);
    HandlersContents(Sort(RoutesOf(rules), RouteLe), h);
  }

  lemma {:induction false} TableSorted(rules: seq<Rule>)
    ensures Sorted(Table(rules), RouteLe)
  {
    RouteOrder();
    SortSorted(RoutesOf(rules), RouteLe);
    HandlersSorted(Sort(RoutesOf(rules), RouteLe));
  }

  /** For every request path: no handler matches exactly when no resolvable rule's path is
      a prefix of it; otherwise the first match has the longest such path, and serves the
      backend of the last resolvable rule with that path. */
  lemma {:induction false} FirstMatchIsLongestPrefix(rules: seq<Rule>, request: string)
    ensures var routes := RoutesOf(rules);
            match FirstMatch(Table(rules), request)
            case None => forall p :: Declared(routes, p) ==> !(p <= request)
            case Some(h) =>
              && LastUrl(routes, h.path) == Some(h.url) && h.path <= request
              && (forall p :: Declared(routes, p) && p <= request ==> |p| <= |h.path|)
  {
    var routes := RoutesOf(rules);
    TableSorted(rules);
    FirstMatchOfSorted(Table(rules), request);
    forall p | Declared(routes, p)
      ensures exists h :: h in Table(rules) && h.path == p
    {
      UrlsForDeclared(routes, p);
      TableEntry(rules, Route(p, LastUrl(routes, p).value));
    }
    match FirstMatch(Table(rules), request)
    case None =>
    case Some(h) => TableEntry(rules, h);
  }

  // ── on the rules' own fields ────────────────────────────────────────────────

  /** The rule's backend was resolved, and its path, or the root when it has none, is this. */
  predicate Serves(r: Rule, path: string) {
    r.backend.Some? && (r.path == Some(path) || (r.path == None && path == "/"))
  }

  /** The position of the last rule that serves the path, with its backend. */
  predicate LastToServe(rules: seq<Rule>, path: string, i: int) {
    0 <= i < |rules| && Serves(rules[i], path) && forall j | i < j < |rules| :: !Serves(rules[j], path)
  }

  lemma {:induction false} RouteExactly(r: Rule, path: string)
    ensures match RouteOf(r)
            case Some(route) => (Serves(r, path) <==> route.path == path) && Some(route.url) == r.backend
            case None => !Serves(r, path)
  {
  }

  lemma {:induction false} RoutesAppend(a: seq<Rule>, b: seq<Rule>)
    ensures RoutesOf(a + b) == RoutesOf(a) + RoutesOf(b)
  {
    if a == [] {
      assert a + b == b;
    } else {
      assert (a + b)[1..] == a[1..] + b;
      RoutesAppend(a[1..], b);
    }
  }

  lemma {:induction false} OneRuleMore(init: seq<Rule>, last: Rule, path: string)
    ensures LastUrl(RoutesOf(init + [last]), path) ==
            if Serves(last, path) then last.backend else LastUrl(RoutesOf(init), path)
  {
    RoutesAppend(init, [last]);
    RouteExactly(last, path);
    assert [last][1..] == [];
    match RouteOf(last)
    case None => assert RoutesOf(init + [last]) == RoutesOf(init);
    case Some(route) =>
      assert RoutesOf([last]) == [route];
      LastUrlAppend(RoutesOf(init), route, path);
  }

  /** The last URL of a path is the backend of the last rule that serves it. */
  lemma {:induction false} LastUrlExactly(rules: seq<Rule>, path: string)
    ensures LastUrl(RoutesOf(rules), path).None? ==> forall r | r in rules :: !Serves(r, path)
    ensures LastUrl(RoutesOf(rules), path).Some? ==>
              exists i :: LastToServe(rules, path, i) && rules[i].backend == LastUrl(RoutesOf(rules), path)
  {
    if rules != [] {
      var n := |rules| - 1;
      var init, last := rules[..n], rules[n];
      assert rules == init + [last];
      LastUrlExactly(init, path);
      OneRuleMore(init, last, path);
      hide LastUrl, RoutesOf, Serves;
      if Serves(last, path) {
        assert LastToServe(rules, path, n);
      } else if LastUrl(RoutesOf(init), path).Some? {
        var i :| LastToServe(init, path, i) && init[i].backend == LastUrl(RoutesOf(init), path);
        assert LastToServe(rules, path, i);
      }
    }
  }

  lemma {:induction false} DeclaredExactly(rules: seq<Rule>, path: string)
    ensures Declared(RoutesOf(rules), path) <==> exists r :: r in rules && Serves(r, path)
  {
    UrlsForDeclared(RoutesOf(rules), path);
    LastUrlExactly(rules, path);
    if i :| LastToServe(rules, path, i) {
      assert rules[i] in rules;
    }
  }

  /** A request is served from the rule whose path is the longest of those that prefix it, the
      last of them if several have it; it is not served exactly when no rule's path does. */
  lemma {:induction false} ServedExactly(rules: seq<Rule>, request: string)
    ensures match FirstMatch(Table(rules), request)
            case None => forall r, p | r in rules && Serves(r, p) :: !(p <= request)
            case Some(h) =>
              && h.path <= request
              && (exists i :: LastToServe(rules, h.path, i) && rules[i].backend == Some(h.url))
              && (forall r, p | r in rules && Serves(r, p) && p <= request :: |p| <= |h.path|)
  {
    FirstMatchIsLongestPrefix(rules, request);
    var found := FirstMatch(Table(rules), request);
    forall r, p | r in rules && Serves(r, p)
      ensures p <= request ==> found.Some? && |p| <= |found.value.path|
    {
      DeclaredExactly(rules, p);
    }
    if found.Some? {
      LastUrlExactly(rules, found.value.path);
    }
  }

  // ── collecting and building ─────────────────────────────────────────────────

  method CollectRoutes(rules: seq<Rule>) returns (collected: seq<Route>)
    ensures collected == RoutesOf(rules)
  {
    collected := [];
    for k := 0 to |rules|
      invariant collected + RoutesOf(rules[k..]) == RoutesOf(rules)
    {
      assert rules[k..][1..] == rules[k + 1..];
      match RouteOf(rules[k]) {
        case Some(r) => collected := collected + [r];
        case None =>
      }
    }
    assert rules[|rules|..] == [];
  }

  /** `collect_ingress_routes`: `None` when there are no path rules at all. */
  method CollectIngressRoutes(rules: seq<Rule>) returns (routes: Option<seq<Route>>)
    ensures routes.None? <==> rules == []
    ensures routes.Some? ==> routes.value == Sort(RoutesOf(rules), RouteLe)
  {
    if rules == [] {
      return None;
    }
    var collected := CollectRoutes(rules);
    routes := Some(Sort(collected, RouteLe));
  }

  /** The handler table of `build_serve_json`. */
  method BuildHandlers(routes: seq<Route>) returns (table: seq<Route>)
    ensures table == Handlers(routes)
  {
    table := [];
    for k := 0 to |routes|
      invariant table == Handlers(routes[..k])
    {
      assert routes[..k + 1][..k] == routes[..k];
      table := PutHandler(table, routes[k]);
    }
    assert routes[..|routes|] == routes;
  }
}
