/**
 * Whole-router behaviour on small tries: a single registered route is found
 * by every request that fits it, a literal pattern wins over a wildcard
 * pattern at the same depth, and the request scenarios the crate documents
 * (the root route, one and two wildcards, a method without a handler).
 * `Router.MatchRoute` returns `Lookup` of the router's table and
 * `Router.RouteRequest` branches on it, so these lemmas are about what
 * the router answers.
 */
module Scenarios {
  import opened Wrappers
  import opened Text
  import opened Segments
  import opened Paths
  import opened Routes
  import opened Nodes
  import opened Routers

  /** A trie holding one route, appended to the default node. */
  function Single(r: Route): (t: Table)
    ensures TableOk(t)
    ensures t.Keys == {[]} + Prefixes(KeysOf(r.path))
    ensures KeysOf(r.path) in t && t[KeysOf(r.path)] == Some(r)
  {
    EmptyTableOk();
    InsertPreservesOk(EmptyTable, r);
    InsertKeys(EmptyTable, r);
    InsertReaches(EmptyTable, r);
    Insert(EmptyTable, r)
  }

  /** In a trie holding one route, the only node as deep as the route's pattern is the route's own. */
  lemma SingleDeepest(r: Route, ks: seq<Key>)
    requires ks in Single(r) && |ks| == |r.path|
    ensures ks == KeysOf(r.path)
  {
    var keys := KeysOf(r.path);
    if ks != [] {
      assert ks in Prefixes(keys);
      var j :| 0 <= j <= |keys| && ks == keys[..j];
      assert j == |keys|;
    }
  }

  /**
   * With one route registered, every request without empty components that
   * fits the route's pattern matches that route, with the components at
   * the wildcard positions as parameters.
   */
  lemma SingleRouteFound(r: Route, comps: seq<string>)
    requires forall i | 0 <= i < |comps| :: comps[i] != []
    requires Matches(KeysOf(r.path), comps)
    ensures MatchComponents(Single(r), comps) == Some(Match(r, Params(r.path, comps)))
  {
    var t := Single(r);
    assert Walk(t, comps).Some? by {
      NonEmptyKeepsAll(comps);
      WalkExact(t, comps);
    }
    var keys := Walk(t, comps).value;
    assert keys[0] in t && |keys[0]| == |r.path| by {
      NonEmptyKeepsAll(comps);
      FirstCandidate(t, comps);
    }
    SingleDeepest(r, keys[0]);
    MatchFirst(t, comps, keys);
  }

  /**
   * With one route registered, a request without empty components that does
   * not fit the route's pattern finds nothing.
   */
  lemma SingleRouteMissed(r: Route, comps: seq<string>)
    requires forall i | 0 <= i < |comps| :: comps[i] != []
    requires !Matches(KeysOf(r.path), comps)
    ensures MatchComponents(Single(r), comps) == None
  {
    var t := Single(r);
    NonEmptyKeepsAll(comps);
    var m := MatchComponents(t, comps);
    if m.Some? {
      SingleRouted(r, KeysOf(m.value.route.path));
      assert false;
    }
  }

  /** In a trie holding one route, only the route's own node carries a route. */
  lemma SingleRouted(r: Route, ks: seq<Key>)
    requires ks in Single(r) && Single(r)[ks].Some?
    ensures ks == KeysOf(r.path)
  {
  }

  /** Two routes with different key paths appended to the default node: each is found at its own node. */
  lemma TwoRoutes(r1: Route, r2: Route)
    requires KeysOf(r1.path) != KeysOf(r2.path)
    ensures TableOk(Insert(Insert(EmptyTable, r1), r2))
    ensures KeysOf(r1.path) in Insert(Insert(EmptyTable, r1), r2)
    ensures Insert(Insert(EmptyTable, r1), r2)[KeysOf(r1.path)] == Some(r1)
    ensures KeysOf(r2.path) in Insert(Insert(EmptyTable, r1), r2)
    ensures Insert(Insert(EmptyTable, r1), r2)[KeysOf(r2.path)] == Some(r2)
  {
    var t1 := Insert(EmptyTable, r1);
    EmptyTableOk();
    InsertPreservesOk(EmptyTable, r1);
    InsertPreservesOk(t1, r2);
    InsertReaches(EmptyTable, r1);
    InsertReaches(t1, r2);
    InsertOnlyGrows(t1, r2);
  }

  /** Nothing comes before a key path of literals only. */
  lemma NothingBeforeLiterals(ks: seq<Key>, lits: seq<Key>)
    requires forall i | 0 <= i < |lits| :: lits[i].LitKey?
    ensures !Prefers(ks, lits)
  {
  }

  /** Two wildcards fit every request of two components. */
  lemma WildcardPairFits(x: string, y: string)
    ensures Matches([DynKey, DynKey], [x, y])
  {
  }

  /** A node whose key path spells out the request in literals is the first candidate of the walk. */
  lemma LiteralRouteFirst(t: Table, r: Route, comps: seq<string>)
    requires TableOk(t)
    requires forall i | 0 <= i < |comps| :: comps[i] != []
    requires |r.path| == |comps| && forall i | 0 <= i < |comps| :: r.path[i] == Literal(comps[i])
    requires KeysOf(r.path) in t
    ensures Walk(t, comps).Some? && Walk(t, comps).value[0] == KeysOf(r.path)
  {
    var ks := KeysOf(r.path);
    assert NonEmpty(comps) == comps by {
      NonEmptyKeepsAll(comps);
    }
    assert Matches(ks, comps);
    assert Walk(t, comps).Some? by {
      WalkExact(t, comps);
    }
    var first := Walk(t, comps).value[0];
    assert first != ks ==> Prefers(first, ks) by {
      FirstCandidate(t, comps);
    }
    NothingBeforeLiterals(first, ks);
  }

  /**
   * A route whose pattern is all literals is found by the request spelling
   * them out, with no parameters, whatever else the trie holds: no other
   * fitting node comes before it.
   */
  lemma LiteralRouteFound(t: Table, r: Route, comps: seq<string>)
    requires TableOk(t)
    requires forall i | 0 <= i < |comps| :: comps[i] != []
    requires |r.path| == |comps| && forall i | 0 <= i < |comps| :: r.path[i] == Literal(comps[i])
    requires KeysOf(r.path) in t && t[KeysOf(r.path)] == Some(r)
    ensures MatchComponents(t, comps) == Some(Match(r, []))
  {
    LiteralRouteFirst(t, r, comps);
    MatchFirst(t, comps, Walk(t, comps).value);
    LiteralsOnlyNoParams(r.path, comps);
  }

  /** The two routes of `LiteralBeatsWildcard`, appended in either order, each sit at their own node. */
  lemma AmbiguousTable(t: Table, r1: Route, r2: Route, x: string, y: string, a: string, b: string)
    requires r1.path == [Literal(x), Literal(y)] && r2.path == [Dynamic(a), Dynamic(b)]
    requires t == Insert(Insert(EmptyTable, r1), r2) || t == Insert(Insert(EmptyTable, r2), r1)
    ensures TableOk(t)
    ensures [LitKey(x), LitKey(y)] in t && t[[LitKey(x), LitKey(y)]] == Some(r1)
    ensures [DynKey, DynKey] in t && t[[DynKey, DynKey]] == Some(r2)
  {
    assert KeysOf(r1.path) == [LitKey(x), LitKey(y)] && KeysOf(r2.path) == [DynKey, DynKey];
    TwoRoutes(r1, r2);
    TwoRoutes(r2, r1);
  }

  /**
   * A fully literal pattern and a fully wildcard pattern of the same depth,
   * registered in either order: the request spelling out the literals
   * fits both, and gets the literal route with no parameters.
   */
  lemma LiteralBeatsWildcard(t: Table, r1: Route, r2: Route, x: string, y: string, a: string, b: string)
    requires x != [] && y != []
    requires r1.path == [Literal(x), Literal(y)] && r2.path == [Dynamic(a), Dynamic(b)]
    requires t == Insert(Insert(EmptyTable, r1), r2) || t == Insert(Insert(EmptyTable, r2), r1)
    ensures TableOk(t)
    ensures [DynKey, DynKey] in t && t[[DynKey, DynKey]] == Some(r2) && Matches([DynKey, DynKey], [x, y])
    ensures MatchComponents(t, [x, y]) == Some(Match(r1, []))
  {
    AmbiguousTable(t, r1, r2, x, y, a, b);
    LiteralRouteFound(t, r1, [x, y]);
    WildcardPairFits(x, y);
  }

  /** A join of non-empty pieces starts with the first piece's first character. */
  lemma JoinHead(cs: seq<string>, sep: string)
    requires |cs| >= 1 && cs[0] != []
    ensures Join(cs, sep) != [] && Join(cs, sep)[0] == cs[0][0]
  {
    if |cs| > 1 {
      assert Join(cs, sep) == cs[0] + sep + Join(cs[1..], sep);
    }
  }

  /** A leading slash before a string that does not start with one is trimmed, and nothing else. */
  lemma TrimOneSlash(j: string)
    requires j != [] && j[0] != '/'
    ensures TrimStart("/" + j, '/') == j
  {
    assert ("/" + j)[1..] == j;
  }

  /** A request path of non-empty '/'-free components, written with a leading slash, splits back into them. */
  lemma ComponentsOfJoin(cs: seq<string>)
    requires |cs| >= 1
    requires forall i | 0 <= i < |cs| :: cs[i] != [] && '/' !in cs[i]
    ensures Components("/" + Join(cs, "/")) == cs
  {
    JoinHead(cs, "/");
    TrimOneSlash(Join(cs, "/"));
    SplitJoin(cs, '/');
  }

  /** The request "/a//b" has the components `a`, "" and `b`. */
  lemma DoubleSlashComponents(a: string, b: string)
    requires a != [] && b != [] && '/' !in a && '/' !in b
    ensures Components("/" + a + "//" + b) == [a, [], b]
  {
    var rest := a + "//" + b;
    assert "/" + a + "//" + b == "/" + rest;
    assert rest[0] == a[0];
    TrimOneSlash(rest);
    assert rest == a + ['/'] + ("/" + b);
    SplitAppend(a, '/', "/" + b);
    SplitNoSep(a, '/');
    SplitNoSep(b, '/');
    assert ("/" + b)[1..] == b;
  }

  /**
   * The request "/a//b" against the pattern `/[x]/[y]`: the parameters are
   * `a` and "", so `b` is lost.
   */
  lemma DoubleSlashRequest(t: Table, a: string, b: string, x: string, y: string)
    requires TableOk(t) && a != [] && b != [] && '/' !in a && '/' !in b
    requires Lookup(t, "/" + a + "//" + b).Some?
    requires Lookup(t, "/" + a + "//" + b).value.route.path == [Dynamic(x), Dynamic(y)]
    ensures Lookup(t, "/" + a + "//" + b).value.params == [a, []]
  {
    DoubleSlashComponents(a, b);
    LookupVia(t, "/" + a + "//" + b, [a, [], b]);
    ParamsMisaligned(t, a, b, x, y);
  }

  /** A request of one non-empty '/'-free component. */
  lemma OneComponent(c: string)
    requires c != [] && '/' !in c
    ensures Components("/" + c) == [c]
  {
    ComponentsOfJoin([c]);
    assert Join([c], "/") == c;
  }

  /** A lone wildcard fits any one component and takes it as its parameter. */
  lemma OneWildcard(p: Path, c: string)
    requires |p| == 1 && p[0].Dynamic?
    ensures Matches(KeysOf(p), [c]) && Params(p, [c]) == [c]
  {
    assert p[..0] == [];
  }

  /** A lone literal fits the component spelling it and has no parameters. */
  lemma OneLiteral(p: Path, c: string)
    requires p == [Literal(c)]
    ensures Matches(KeysOf(p), [c]) && Params(p, [c]) == []
  {
    LiteralsOnlyNoParams(p, [c]);
  }

  /** `Lookup` is the match on the path's components. */
  lemma LookupVia(t: Table, path: string, comps: seq<string>)
    requires TableOk(t) && Components(path) == comps
    ensures Lookup(t, path) == MatchComponents(t, comps)
  {
  }

  /**
   * `GET /` registered: the request "/" invokes the root's GET handler with
   * no parameters, and a request of one component (such as "/missing")
   * finds nothing, which the default fallback answers with 404.
   */
  lemma RootScenario(r: Route, h: HandlerId, c: string, ex: ExtraRef)
    requires r == Get(New([]), h)
    requires c != [] && '/' !in c
    ensures Lookup(Single(r), "/") == Some(Match(r, []))
    ensures Handler(r, GET) == Some(h)
    ensures Lookup(Single(r), "/" + c) == None
    ensures DefaultResponse(NotFound(DefaultNotFound, ex), []) == Some(Response(404, None, "Not Found"))
  {
    assert Handler(r, GET) == Some(h);
    RootMatched(r);
    RootMissesComponent(r, c);
  }

  /** With only the root routed, "/" matches it with no parameters. */
  lemma RootMatched(r: Route)
    requires r.path == []
    ensures Lookup(Single(r), "/") == Some(Match(r, []))
  {
    var t := Single(r);
    assert KeysOf(r.path) == [] && t[[]] == Some(r);
    RootPath("/");
    LookupVia(t, "/", [[]]);
    RootMatch(t, [[]]);
  }

  /** With only the root routed, a request of one non-empty component finds nothing. */
  lemma RootMissesComponent(r: Route, c: string)
    requires r.path == []
    requires c != [] && '/' !in c
    ensures Lookup(Single(r), "/" + c) == None
  {
    OneComponent(c);
    LookupVia(Single(r), "/" + c, [c]);
    assert !Matches(KeysOf(r.path), [c]);
    SingleRouteMissed(r, [c]);
  }

  /** `GET /[slug]` registered: a request of one component (such as "/hello") has that component as its one parameter. */
  lemma SlugScenario(r: Route, slug: string, c: string)
    requires r.path == [Dynamic(slug)]
    requires c != [] && '/' !in c
    ensures Lookup(Single(r), "/" + c) == Some(Match(r, [c]))
  {
    assert Lookup(Single(r), "/" + c) == MatchComponents(Single(r), [c]) by {
      OneComponent(c);
      LookupVia(Single(r), "/" + c, [c]);
    }
    OneWildcard(r.path, c);
    SingleRouteFound(r, [c]);
  }

  /**
   * A wildcard, a literal and a wildcard fit three components whose middle
   * one is the literal, and the parameters are the first and the third.
   */
  lemma OuterWildcards(p: Path, comps: seq<string>)
    requires |p| == 3 && |comps| == 3 && p[0].Dynamic? && p[1] == Literal(comps[1]) && p[2].Dynamic?
    ensures Matches(KeysOf(p), comps)
    ensures Params(p, comps) == [comps[0], comps[2]]
  {
    assert p[..1][..0] == [] && p[..2][..1] == p[..1] && p[..3] == p;
    assert Params(p[..1], comps) == [comps[0]];
    assert Params(p[..2], comps) == [comps[0]];
  }

  /**
   * `GET /[slug]/literal/[slug2]` registered: the request "/a/literal/b"
   * has the parameters "a" and "b" (here for any '/'-free "a", "literal"
   * and "b").
   */
  lemma TwoSlugScenario(r: Route, slug: string, lit: string, slug2: string, a: string, b: string)
    requires r.path == [Dynamic(slug), Literal(lit), Dynamic(slug2)]
    requires a != [] && '/' !in a && lit != [] && '/' !in lit && b != [] && '/' !in b
    ensures Lookup(Single(r), "/" + Join([a, lit, b], "/")) == Some(Match(r, [a, b]))
  {
    var comps := [a, lit, b];
    assert Lookup(Single(r), "/" + Join(comps, "/")) == MatchComponents(Single(r), comps) by {
      ComponentsOfJoin(comps);
      LookupVia(Single(r), "/" + Join(comps, "/"), comps);
    }
    TwoSlugMatch(r, slug, lit, slug2, a, b);
  }

  /** The same match, on the request's component list. */
  lemma TwoSlugMatch(r: Route, slug: string, lit: string, slug2: string, a: string, b: string)
    requires r.path == [Dynamic(slug), Literal(lit), Dynamic(slug2)]
    requires a != [] && lit != [] && b != []
    ensures MatchComponents(Single(r), [a, lit, b]) == Some(Match(r, [a, b]))
  {
    var comps := [a, lit, b];
    OuterWildcards(r.path, comps);
    SingleRouteFound(r, comps);
  }

  /**
   * Only `GET /resource` registered: the request `DELETE /resource` matches
   * the route, which has no DELETE handler, so it goes to the
   * method-not-allowed fallback, whose default answer is 405 with the
   * `Allow` header "GET".
   */
  lemma MethodNotAllowedScenario(r: Route, res: string, h: HandlerId, ex: ExtraRef, order: seq<Method>)
    requires r == Get(New([Literal(res)]), h)
    requires res != [] && '/' !in res
    requires ListsAllowed(r, order)
    ensures Lookup(Single(r), "/" + res) == Some(Match(r, []))
    ensures Handler(r, DELETE).None?
    ensures DefaultResponse(MethodNotAllowed(DefaultMethodNotAllowed, r, Context([], ex)), order)
      == Some(Response(405, Some("GET"), "Method Not Allowed"))
  {
    assert Lookup(Single(r), "/" + res) == MatchComponents(Single(r), [res]) by {
      OneComponent(res);
      LookupVia(Single(r), "/" + res, [res]);
    }
    assert MatchComponents(Single(r), [res]) == Some(Match(r, [])) by {
      OneLiteral(r.path, res);
      SingleRouteFound(r, [res]);
    }
    OnlyGetAllowed(r, h, order, ex);
  }

  /** A route with only a GET handler: the default 405 answer allows exactly "GET". */
  lemma OnlyGetAllowed(r: Route, h: HandlerId, order: seq<Method>, ex: ExtraRef)
    requires r == Get(New(r.path), h)
    requires ListsAllowed(r, order)
    ensures Handler(r, DELETE).None?
    ensures DefaultResponse(MethodNotAllowed(DefaultMethodNotAllowed, r, Context([], ex)), order)
      == Some(Response(405, Some("GET"), "Method Not Allowed"))
  {
    assert AllowedMethods(r) == {GET};
    assert order == [GET] by {
      assert |order| == 1 && order[0] in AllowedMethods(r);
    }
    var names := seq(|order|, i requires 0 <= i < |order| => MethodName(order[i]));
    assert names == ["GET"];
  }
}
