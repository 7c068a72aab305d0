/**
 * The router (src/router.rs): a trie of routes, two fallback handlers and
 * the shared application context.
 *
 * `match_route` walks the trie one request component at a time, keeping an
 * ordered list of candidate nodes; the functions below say what that walk
 * computes on the trie's `Table`, and `Router.MatchRoute` is the loop the
 * source runs, proved to compute it. `route` is the three-way decision
 * between the not-found fallback, the method-not-allowed fallback and the
 * matched handler.
 */
module Routers {
  import opened Wrappers
  import opened Text
  import opened Segments
  import opened Paths
  import opened Routes
  import opened Nodes

  /** The request path's components as `match_route` splits them: leading slashes trimmed, empty components kept. */
  function Components(path: string): (cs: seq<string>)
    ensures |cs| >= 1
  {
    Split(TrimStart(path, '/'), '/')
  }

  /** The components the walk consumes: the non-empty ones, in order. */
  function NonEmpty(cs: seq<string>): (r: seq<string>)
    ensures |r| <= |cs|
    ensures forall i :: 0 <= i < |r| ==> r[i] != []
    decreases |cs|
  {
    if |cs| == 0 then []
    else NonEmpty(cs[..|cs| - 1]) + (if cs[|cs| - 1] == [] then [] else [cs[|cs| - 1]])
  }

  /** The positions of the non-empty components, in order. */
  function NonEmptyIndices(cs: seq<string>): (r: seq<nat>)
    ensures forall k | 0 <= k < |r| :: r[k] < |cs| && cs[r[k]] != []
    ensures forall k, l | 0 <= k < l < |r| :: r[k] < r[l]
    ensures forall i | 0 <= i < |cs| && cs[i] != [] :: i in r
    decreases |cs|
  {
    if |cs| == 0 then []
    else NonEmptyIndices(cs[..|cs| - 1]) + (if cs[|cs| - 1] == [] then [] else [|cs| - 1])
  }

  /** The walk's components are the request's components at the non-empty positions, in order: only empty ones are dropped. */
  lemma {:induction false} NonEmptyAt(cs: seq<string>)
    ensures |NonEmpty(cs)| == |NonEmptyIndices(cs)|
    ensures forall k | 0 <= k < |NonEmptyIndices(cs)| :: NonEmpty(cs)[k] == cs[NonEmptyIndices(cs)[k]]
    decreases |cs|
  {
    if |cs| != 0 {
      var pre, last := cs[..|cs| - 1], cs[|cs| - 1];
      NonEmptyAt(pre);
      var kept, idx := NonEmpty(pre), NonEmptyIndices(pre);
      if last == [] {
        assert NonEmpty(cs) == kept && NonEmptyIndices(cs) == idx;
      } else {
        assert NonEmpty(cs) == kept + [last] && NonEmptyIndices(cs) == idx + [|cs| - 1];
      }
    }
  }

  /** The key path `ks` fits the components `cs`: each key is the literal for its component or the wildcard. */
  predicate Matches(ks: seq<Key>, cs: seq<string>) {
    |ks| == |cs| && forall i :: 0 <= i < |ks| ==> ks[i] == LitKey(cs[i]) || ks[i] == DynKey
  }

  /** The children of one candidate that survive `comp`: its literal child for that text, then its wildcard child, each if present. */
  function Expand(t: Table, c: seq<Key>, comp: string): (r: seq<seq<Key>>)
    ensures |r| <= 2
    ensures forall x :: x in r <==> x in t && (x == c + [LitKey(comp)] || x == c + [DynKey])
  {
    (if c + [LitKey(comp)] in t then [c + [LitKey(comp)]] else [])
    + (if c + [DynKey] in t then [c + [DynKey]] else [])
  }

  /** One level of the walk: the surviving children of every candidate, candidate by candidate. */
  function Step(t: Table, cands: seq<seq<Key>>, comp: string): (r: seq<seq<Key>>)
    ensures forall x :: x in r <==>
      x in t && |x| >= 1 && x[..|x| - 1] in cands && (x[|x| - 1] == LitKey(comp) || x[|x| - 1] == DynKey)
    decreases |cands|
  {
    if |cands| == 0 then []
    else
      var c := cands[|cands| - 1];
      var r := Step(t, cands[..|cands| - 1], comp) + Expand(t, c, comp);
      assert cands == cands[..|cands| - 1] + [c];
      StepMembers(t, cands[..|cands| - 1], c, comp, Step(t, cands[..|cands| - 1], comp), Expand(t, c, comp));
      r
  }

  lemma StepMembers(t: Table, init: seq<seq<Key>>, c: seq<Key>, comp: string, s: seq<seq<Key>>, e: seq<seq<Key>>)
    requires forall x :: x in s <==>
      x in t && |x| >= 1 && x[..|x| - 1] in init && (x[|x| - 1] == LitKey(comp) || x[|x| - 1] == DynKey)
    requires forall x :: x in e <==> x in t && (x == c + [LitKey(comp)] || x == c + [DynKey])
    ensures forall x :: x in s + e <==>
      x in t && |x| >= 1 && x[..|x| - 1] in init + [c] && (x[|x| - 1] == LitKey(comp) || x[|x| - 1] == DynKey)
  {
    forall x
      ensures x in s + e <==>
        x in t && |x| >= 1 && x[..|x| - 1] in init + [c] && (x[|x| - 1] == LitKey(comp) || x[|x| - 1] == DynKey)
    {
      if |x| >= 1 {
        var p, k := x[..|x| - 1], x[|x| - 1];
        assert x == p + [k];
        assert (x == c + [LitKey(comp)] || x == c + [DynKey]) <==> p == c && (k == LitKey(comp) || k == DynKey);
      } else {
        assert x != c + [LitKey(comp)] && x != c + [DynKey];
      }
    }
  }

  /**
   * The candidate list after consuming `comps`, empty components skipped;
   * `None` once a level leaves no candidate.
   */
  function Walk(t: Table, comps: seq<string>): (r: Option<seq<seq<Key>>>)
    requires [] in t
    ensures r.Some? ==> |r.value| >= 1
    ensures r.Some? ==> forall x | x in r.value :: x in t && |x| == |NonEmpty(comps)|
    decreases |comps|
  {
    if |comps| == 0 then Some([[]])
    else
      match Walk(t, comps[..|comps| - 1])
      case None => None
      case Some(cands) =>
        var comp := comps[|comps| - 1];
        if comp == [] then Some(cands)
        else
          var next := Step(t, cands, comp);
          if |next| == 0 then None else Some(next)
  }

  /** Fitting one more component is fitting the shorter list and then that component's literal or the wildcard. */
  lemma MatchesSnoc(x: seq<Key>, cs: seq<string>, c: string)
    ensures Matches(x, cs + [c]) <==>
      |x| >= 1 && Matches(x[..|x| - 1], cs) && (x[|x| - 1] == LitKey(c) || x[|x| - 1] == DynKey)
  {
    if |x| >= 1 && |x| == |cs| + 1 {
      var p := x[..|x| - 1];
      if Matches(p, cs) && (x[|x| - 1] == LitKey(c) || x[|x| - 1] == DynKey) {
        forall i | 0 <= i < |x| ensures x[i] == LitKey((cs + [c])[i]) || x[i] == DynKey {
          if i < |p| {
            assert x[i] == p[i];
          }
        }
      }
      if Matches(x, cs + [c]) {
        forall i | 0 <= i < |p| ensures p[i] == LitKey(cs[i]) || p[i] == DynKey {
          assert p[i] == x[i] && (cs + [c])[i] == cs[i];
        }
      }
    }
  }

  /** The nodes that fit one more component are the extensions of nodes that fit the shorter list. */
  lemma FitsSnoc(t: Table, ne: seq<string>, comp: string)
    requires TableOk(t)
    ensures forall x :: x in t && Matches(x, ne + [comp]) <==>
      x in t && |x| >= 1 && Matches(x[..|x| - 1], ne) && x[..|x| - 1] in t && (x[|x| - 1] == LitKey(comp) || x[|x| - 1] == DynKey)
  {
    forall x ensures x in t && Matches(x, ne + [comp]) <==>
      x in t && |x| >= 1 && Matches(x[..|x| - 1], ne) && x[..|x| - 1] in t && (x[|x| - 1] == LitKey(comp) || x[|x| - 1] == DynKey)
    {
      MatchesSnoc(x, ne, comp);
      if x in t && |x| >= 1 {
        assert x == x[..|x| - 1] + [x[|x| - 1]];
      }
    }
  }

  /** One step of an exact walk is exact. */
  lemma StepExact(t: Table, ne: seq<string>, cands: seq<seq<Key>>, comp: string)
    requires TableOk(t)
    requires forall x :: x in cands <==> x in t && Matches(x, ne)
    ensures forall x :: x in Step(t, cands, comp) <==> x in t && Matches(x, ne + [comp])
    ensures |Step(t, cands, comp)| != 0 <==> exists ks :: ks in t && Matches(ks, ne + [comp])
  {
    FitsSnoc(t, ne, comp);
    var next := Step(t, cands, comp);
    if |next| != 0 {
      assert next[0] in next;
    }
  }

  lemma NonEmptySnoc(comps: seq<string>)
    requires |comps| > 0
    ensures NonEmpty(comps) ==
      NonEmpty(comps[..|comps| - 1]) + (if comps[|comps| - 1] == [] then [] else [comps[|comps| - 1]])
  {
  }

  /**
   * The walk is exact: it fails precisely when no node of the trie fits the
   * non-empty components, and otherwise its candidates are precisely the
   * nodes that fit them.
   */
  lemma {:induction false} WalkExact(t: Table, comps: seq<string>)
    requires TableOk(t)
    ensures Walk(t, comps).Some? <==> exists ks :: ks in t && Matches(ks, NonEmpty(comps))
    ensures Walk(t, comps).Some? ==>
      forall x :: x in Walk(t, comps).value <==> x in t && Matches(x, NonEmpty(comps))
    decreases |comps|
  {
    if |comps| == 0 {
      assert Matches([], []);
    } else {
      var prefix, comp := comps[..|comps| - 1], comps[|comps| - 1];
      WalkExact(t, prefix);
      NonEmptySnoc(comps);
      match Walk(t, prefix)
      case None =>
        if comp != [] {
          FitsSnoc(t, NonEmpty(prefix), comp);
        }
      case Some(cands) =>
        if comp != [] {
          StepExact(t, NonEmpty(prefix), cands, comp);
        }
    }
  }

  /** `x` comes before `y` in candidate order: where they first differ, `x` holds a literal and `y` the wildcard. */
  ghost predicate Prefers(x: seq<Key>, y: seq<Key>) {
    exists i :: 0 <= i < |x| && i < |y| && x[..i] == y[..i] && x[i].LitKey? && y[i] == DynKey
  }

  /** Candidates of one level, strictly in candidate order. */
  ghost predicate Ordered(cs: seq<seq<Key>>) {
    forall a, b | 0 <= a < b < |cs| :: Prefers(cs[a], cs[b])
  }

  /** Extending both sides keeps the order. */
  lemma PrefersExtend(x: seq<Key>, y: seq<Key>, x': seq<Key>, y': seq<Key>)
    requires Prefers(x, y) && |x| <= |x'| && |y| <= |y'| && x'[..|x|] == x && y'[..|y|] == y
    ensures Prefers(x', y')
  {
    var i :| 0 <= i < |x| && i < |y| && x[..i] == y[..i] && x[i].LitKey? && y[i] == DynKey;
    assert x'[..i] == x[..i] && y'[..i] == y[..i];
    assert x'[i] == x[i] && y'[i] == y[i];
  }

  /** A level built from ordered candidates is ordered. */
  lemma {:induction false} StepOrdered(t: Table, cands: seq<seq<Key>>, comp: string)
    requires Ordered(cands)
    ensures Ordered(Step(t, cands, comp))
    decreases |cands|
  {
    if |cands| != 0 {
      var init, c := cands[..|cands| - 1], cands[|cands| - 1];
      OrderedLast(cands);
      assert forall j | 0 <= j < |init| :: init[j] == cands[j];
      StepOrdered(t, init, comp);
      ExpandOrdered(t, c, comp);
      StepBeforeExpand(t, init, c, comp);
      OrderedAppend(Step(t, init, comp), Expand(t, c, comp));
    }
  }

  /** Dropping the last candidate keeps the order, and every other candidate comes before the last. */
  lemma OrderedLast(cands: seq<seq<Key>>)
    requires Ordered(cands) && |cands| >= 1
    ensures Ordered(cands[..|cands| - 1])
    ensures forall j | 0 <= j < |cands| - 1 :: Prefers(cands[j], cands[|cands| - 1])
  {
    var init := cands[..|cands| - 1];
    forall a, b | 0 <= a < b < |init| ensures Prefers(init[a], init[b]) {
      assert init[a] == cands[a] && init[b] == cands[b];
    }
  }

  /** A candidate's literal child comes before its wildcard child. */
  lemma ExpandOrdered(t: Table, c: seq<Key>, comp: string)
    ensures Ordered(Expand(t, c, comp))
  {
    var e := Expand(t, c, comp);
    if |e| == 2 {
      assert e[0] == c + [LitKey(comp)] && e[1] == c + [DynKey];
      assert e[0][..|c|] == e[1][..|c|] == c;
    }
  }

  /** The children of earlier candidates come before the children of a later one. */
  lemma StepBeforeExpand(t: Table, init: seq<seq<Key>>, c: seq<Key>, comp: string)
    requires forall j | 0 <= j < |init| :: Prefers(init[j], c)
    ensures forall a, b | 0 <= a < |Step(t, init, comp)| && 0 <= b < |Expand(t, c, comp)| ::
      Prefers(Step(t, init, comp)[a], Expand(t, c, comp)[b])
  {
    var s, e := Step(t, init, comp), Expand(t, c, comp);
    forall a, b | 0 <= a < |s| && 0 <= b < |e| ensures Prefers(s[a], e[b]) {
      var x, y := s[a], e[b];
      assert x in s && y in e;
      var px := x[..|x| - 1];
      var j :| 0 <= j < |init| && init[j] == px;
      assert Prefers(px, c);
      assert y[..|c|] == c;
      PrefersExtend(px, c, x, y);
    }
  }

  lemma OrderedAppend(s: seq<seq<Key>>, e: seq<seq<Key>>)
    requires Ordered(s) && Ordered(e)
    requires forall a, b | 0 <= a < |s| && 0 <= b < |e| :: Prefers(s[a], e[b])
    ensures Ordered(s + e)
  {
    forall a, b | 0 <= a < b < |s + e| ensures Prefers((s + e)[a], (s + e)[b]) {
      if b < |s| {
        assert (s + e)[a] == s[a] && (s + e)[b] == s[b];
      } else if a < |s| {
        assert (s + e)[a] == s[a] && (s + e)[b] == e[b - |s|];
      } else {
        assert (s + e)[a] == e[a - |s|] && (s + e)[b] == e[b - |s|];
      }
    }
  }

  /** Every level of the walk is in candidate order: literal children before wildcard children, level by level. */
  lemma {:induction false} WalkOrdered(t: Table, comps: seq<string>)
    requires [] in t
    ensures Walk(t, comps).Some? ==> Ordered(Walk(t, comps).value)
    decreases |comps|
  {
    if |comps| != 0 {
      var prefix := comps[..|comps| - 1];
      WalkOrdered(t, prefix);
      match Walk(t, prefix)
      case None =>
      case Some(cands) =>
        if comps[|comps| - 1] != [] {
          StepOrdered(t, cands, comps[|comps| - 1]);
          assert Walk(t, comps) == if |Step(t, cands, comps[|comps| - 1])| == 0 then None else Some(Step(t, cands, comps[|comps| - 1]));
        }
    }
  }

  /** Candidate order is a strict order: no two key paths come before each other. */
  lemma PrefersAsymmetric(x: seq<Key>, y: seq<Key>)
    requires Prefers(x, y)
    ensures !Prefers(y, x)
  {
  }

  /** The positions of the wildcards of a pattern, in order. */
  function DynamicIndices(p: Path): (r: seq<nat>)
    ensures forall k | 0 <= k < |r| :: r[k] < |p| && p[r[k]].Dynamic?
    ensures forall k, l | 0 <= k < l < |r| :: r[k] < r[l]
    ensures forall i | 0 <= i < |p| && p[i].Dynamic? :: i in r
    decreases |p|
  {
    if |p| == 0 then []
    else DynamicIndices(p[..|p| - 1]) + (if p[|p| - 1].Dynamic? then [|p| - 1] else [])
  }

  /**
   * The `fold` at the end of `match_route`: for each wildcard of the matched
   * pattern, the request component at the same index of the split that
   * still holds the empty components.
   */
  function Params(p: Path, segs: seq<string>): (r: seq<string>)
    requires |p| <= |segs|
    decreases |p|
  {
    if |p| == 0 then []
    else Params(p[..|p| - 1], segs) + (if p[|p| - 1].Dynamic? then [segs[|p| - 1]] else [])
  }

  /** The parameters are the request components at the wildcard positions, one per wildcard, in pattern order. */
  lemma {:induction false} ParamsAtWildcards(p: Path, segs: seq<string>)
    requires |p| <= |segs|
    ensures |Params(p, segs)| == |DynamicIndices(p)|
    ensures forall k | 0 <= k < |DynamicIndices(p)| :: Params(p, segs)[k] == segs[DynamicIndices(p)[k]]
    decreases |p|
  {
    if |p| != 0 {
      ParamsAtWildcards(p[..|p| - 1], segs);
    }
  }

  /** A pattern without wildcards yields no parameters. */
  lemma {:induction false} LiteralsOnlyNoParams(p: Path, segs: seq<string>)
    requires |p| <= |segs|
    requires forall i | 0 <= i < |p| :: p[i].Literal?
    ensures Params(p, segs) == []
    decreases |p|
  {
    if |p| != 0 {
      LiteralsOnlyNoParams(p[..|p| - 1], segs);
    }
  }

  /** The outcome of a successful match: the route, and the parameters. */
  datatype Match = Match(route: Route, params: seq<string>)

  /**
   * What `match_route` returns for the components `comps`: the route of the
   * first surviving candidate with its parameters, or `None` when the walk
   * fails or that first candidate carries no route.
   */
  function MatchComponents(t: Table, comps: seq<string>): (m: Option<Match>)
    requires TableOk(t)
    ensures m.Some? ==>
      var ks := KeysOf(m.value.route.path);
      ks in t && t[ks] == Some(m.value.route) && Matches(ks, NonEmpty(comps))
    ensures m.Some? ==> |m.value.params| == |DynamicIndices(m.value.route.path)|
  {
    match Walk(t, comps)
    case None => None
    case Some(cands) =>
      match t[cands[0]]
      case None => None
      case Some(r) =>
        WalkExact(t, comps);
        assert cands[0] in cands;
        ParamsAtWildcards(r.path, comps);
        Some(Match(r, Params(r.path, comps)))
  }

  /** A successful walk decides the match by its first candidate alone. */
  lemma MatchFirst(t: Table, comps: seq<string>, keys: seq<seq<Key>>)
    requires TableOk(t) && Walk(t, comps) == Some(keys)
    ensures keys[0] in t
    ensures t[keys[0]].None? ==> MatchComponents(t, comps) == None
    ensures t[keys[0]].Some? ==>
      var r := t[keys[0]].value;
      |r.path| <= |comps| && MatchComponents(t, comps) == Some(Match(r, Params(r.path, comps)))
  {
    assert keys[0] in keys;
  }

  /** `match_route(path)`. */
  function Lookup(t: Table, path: string): (m: Option<Match>)
    requires TableOk(t)
    ensures m.Some? ==> KeysOf(m.value.route.path) in t && t[KeysOf(m.value.route.path)] == Some(m.value.route)
  {
    MatchComponents(t, Components(path))
  }

  /**
   * The match is the most preferred node fitting the request: every other
   * fitting node comes after it in candidate order (a literal wins over the
   * wildcard at the first level where two fits differ).
   */
  lemma MatchPreferred(t: Table, comps: seq<string>)
    requires TableOk(t) && MatchComponents(t, comps).Some?
    ensures forall ks | ks in t && Matches(ks, NonEmpty(comps)) && ks != KeysOf(MatchComponents(t, comps).value.route.path) ::
      Prefers(KeysOf(MatchComponents(t, comps).value.route.path), ks)
  {
    WalkExact(t, comps);
    WalkOrdered(t, comps);
    var cands := Walk(t, comps).value;
    var first := KeysOf(MatchComponents(t, comps).value.route.path);
    assert first == cands[0];
    forall ks | ks in t && Matches(ks, NonEmpty(comps)) && ks != first ensures Prefers(first, ks) {
      var b :| 0 <= b < |cands| && cands[b] == ks;
      assert b != 0;
    }
  }

  /** The first candidate of a successful walk fits, and comes before every other fitting node. */
  lemma FirstCandidate(t: Table, comps: seq<string>)
    requires TableOk(t) && Walk(t, comps).Some?
    ensures var first := Walk(t, comps).value[0];
      first in t && Matches(first, NonEmpty(comps))
      && forall other | other in t && Matches(other, NonEmpty(comps)) && other != first :: Prefers(first, other)
  {
    WalkExact(t, comps);
    WalkOrdered(t, comps);
    var cands := Walk(t, comps).value;
    assert cands[0] in cands;
    forall other | other in t && Matches(other, NonEmpty(comps)) && other != cands[0] ensures Prefers(cands[0], other) {
      var b :| 0 <= b < |cands| && cands[b] == other;
      assert b != 0;
    }
  }

  /** Some node fits, and the most preferred fitting node carries no route. */
  ghost predicate BestFitUnrouted(t: Table, ne: seq<string>) {
    exists ks | ks in t && Matches(ks, ne) && t[ks].None? ::
      forall other | other in t && Matches(other, ne) && other != ks :: Prefers(ks, other)
  }

  /**
   * `match_route` finds nothing exactly when no node fits the request, or
   * the most preferred fitting node carries no route, even if a less
   * preferred fit does.
   */
  lemma MatchNone(t: Table, comps: seq<string>)
    requires TableOk(t)
    ensures MatchComponents(t, comps).None? <==>
      (forall ks | ks in t :: !Matches(ks, NonEmpty(comps))) || BestFitUnrouted(t, NonEmpty(comps))
  {
    WalkExact(t, comps);
    var ne := NonEmpty(comps);
    if Walk(t, comps).Some? {
      FirstCandidate(t, comps);
      var first := Walk(t, comps).value[0];
      if t[first].Some? {
        if BestFitUnrouted(t, ne) {
          var ks :| ks in t && Matches(ks, ne) && t[ks].None? &&
            forall other | other in t && Matches(other, ne) && other != ks :: Prefers(ks, other);
          assert Prefers(first, ks);
          PrefersAsymmetric(first, ks);
          assert false;
        }
      } else {
        assert first in t && Matches(first, ne) && t[first].None?;
      }
    }
  }

  /** Empty components only: the walk stays at the root. */
  lemma {:induction false} WalkAllEmpty(t: Table, comps: seq<string>)
    requires [] in t
    requires forall i | 0 <= i < |comps| :: comps[i] == []
    ensures NonEmpty(comps) == []
    ensures Walk(t, comps) == Some([[]])
    decreases |comps|
  {
    if |comps| != 0 {
      WalkAllEmpty(t, comps[..|comps| - 1]);
    }
  }

  /** A request path with no non-empty component gets the root's route, if any, with no parameters. */
  lemma RootMatch(t: Table, comps: seq<string>)
    requires TableOk(t)
    requires forall i | 0 <= i < |comps| :: comps[i] == []
    ensures MatchComponents(t, comps) == if t[[]].Some? then Some(Match(t[[]].value, [])) else None
  {
    WalkAllEmpty(t, comps);
  }

  /** The request "/" splits into the one empty component. */
  lemma RootPath(path: string)
    requires path == "/"
    ensures Components(path) == [[]]
  {
    assert TrimStart(path, '/') == [];
  }

  /** Without empty components, each key of the matched pattern sits over its request component. */
  lemma {:induction false} NonEmptyKeepsAll(cs: seq<string>)
    requires forall i | 0 <= i < |cs| :: cs[i] != []
    ensures NonEmpty(cs) == cs
    decreases |cs|
  {
    if |cs| != 0 {
      NonEmptyKeepsAll(cs[..|cs| - 1]);
      assert cs == cs[..|cs| - 1] + [cs[|cs| - 1]];
    }
  }

  /** Trailing empty components (a trailing slash) are dropped by the walk. */
  lemma {:induction false} NonEmptyDropsTail(ne: seq<string>, tail: seq<string>)
    requires forall i | 0 <= i < |ne| :: ne[i] != []
    requires forall i | 0 <= i < |tail| :: tail[i] == []
    ensures NonEmpty(ne + tail) == ne
    decreases |tail|
  {
    if |tail| == 0 {
      assert ne + tail == ne;
      NonEmptyKeepsAll(ne);
    } else {
      var front := tail[..|tail| - 1];
      NonEmptyDropsTail(ne, front);
      assert (ne + tail)[..|ne + tail| - 1] == ne + front;
    }
  }

  /**
   * With no empty request component before the last non-empty one (`comps`
   * is `ne` followed only by empty components, such as the one a trailing
   * slash leaves), the parameters are exactly the components at the
   * wildcard positions of the matched pattern, and every literal of the
   * pattern equals the component at its position.
   */
  lemma ParamsAligned(t: Table, ne: seq<string>, tail: seq<string>)
    requires TableOk(t) && MatchComponents(t, ne + tail).Some?
    requires forall i | 0 <= i < |ne| :: ne[i] != []
    requires forall i | 0 <= i < |tail| :: tail[i] == []
    ensures var m := MatchComponents(t, ne + tail).value;
      |m.route.path| == |ne|
      && (forall i | 0 <= i < |ne| && m.route.path[i].Literal? :: m.route.path[i].text == ne[i])
      && |m.params| == |DynamicIndices(m.route.path)|
      && forall k | 0 <= k < |m.params| :: m.params[k] == ne[DynamicIndices(m.route.path)[k]]
  {
    var comps := ne + tail;
    NonEmptyDropsTail(ne, tail);
    var m := MatchComponents(t, comps).value;
    ParamsAtWildcards(m.route.path, comps);
    forall i | 0 <= i < |ne| && m.route.path[i].Literal? ensures m.route.path[i].text == ne[i] {
      assert KeysOf(m.route.path)[i] == LitKey(m.route.path[i].text);
    }
    forall k | 0 <= k < |m.params| ensures m.params[k] == ne[DynamicIndices(m.route.path)[k]] {
      assert comps[DynamicIndices(m.route.path)[k]] == ne[DynamicIndices(m.route.path)[k]];
    }
  }

  /**
   * An empty interior component is skipped by the walk but still counted by
   * the parameter indices: `/a//b` against `/[x]/[y]` gives the parameters
   * "a" and "", and "b" is lost.
   */
  lemma ParamsMisaligned(t: Table, a: string, b: string, x: string, y: string)
    requires TableOk(t) && a != [] && b != []
    requires MatchComponents(t, [a, [], b]).Some?
    requires MatchComponents(t, [a, [], b]).value.route.path == [Dynamic(x), Dynamic(y)]
    ensures MatchComponents(t, [a, [], b]).value.params == [a, []]
  {
    var p := [Dynamic(x), Dynamic(y)];
    var segs := [a, [], b];
    assert p[..1][..0] == [];
    assert Params(p[..1], segs) == [a];
    assert p[..1] == p[..|p| - 1];
    assert Params(p, segs) == Params(p[..1], segs) + [segs[1]];
  }

  /** A routeless node with two literal keys over the request blocks every other fit. */
  lemma LiteralPairUnrouted(t: Table, x: string, y: string)
    requires TableOk(t) && x != [] && y != []
    requires [LitKey(x), LitKey(y)] in t && t[[LitKey(x), LitKey(y)]] == None
    ensures MatchComponents(t, [x, y]) == None
  {
    var xy := [LitKey(x), LitKey(y)];
    NonEmptyKeepsAll([x, y]);
    forall other | other in t && Matches(other, [x, y]) && other != xy ensures Prefers(xy, other) {
      if other[0] == DynKey {
        assert xy[..0] == other[..0];
      } else {
        assert xy[..1] == other[..1];
      }
    }
    assert Matches(xy, [x, y]);
    MatchNone(t, [x, y]);
  }

  /**
   * When the most preferred fit carries no route the lookup fails, whatever
   * other fits exist: with `/x/y/z` and `/[a]/[b]` registered, `/x/y` finds
   * the routeless node `x/y` first and returns nothing, although `/[a]/[b]`
   * fits.
   */
  lemma FirstWithoutRoute(t: Table, r1: Route, r2: Route, x: string, y: string, z: string, a: string, b: string)
    requires x != [] && y != []
    requires r1.path == [Literal(x), Literal(y), Literal(z)]
    requires r2.path == [Dynamic(a), Dynamic(b)]
    requires t == Insert(Insert(EmptyTable, r1), r2)
    ensures TableOk(t)
    ensures [DynKey, DynKey] in t && t[[DynKey, DynKey]] == Some(r2) && Matches([DynKey, DynKey], [x, y])
    ensures MatchComponents(t, [x, y]) == None
  {
    var t1 := Insert(EmptyTable, r1);
    var xy := [LitKey(x), LitKey(y)];
    ThreeLiteralsTable(r1, x, y, z);
    InsertPreservesOk(t1, r2);
    InsertOnlyGrows(t1, r2);
    InsertReaches(t1, r2);
    assert KeysOf(r2.path) == [DynKey, DynKey];
    assert xy in t && t[xy] == None;
    LiteralPairUnrouted(t, x, y);
  }

  /** Appending `/x/y/z` to an empty trie leaves the node `x/y` without a route. */
  lemma ThreeLiteralsTable(r1: Route, x: string, y: string, z: string)
    requires r1.path == [Literal(x), Literal(y), Literal(z)]
    ensures TableOk(Insert(EmptyTable, r1))
    ensures [LitKey(x), LitKey(y)] in Insert(EmptyTable, r1) && Insert(EmptyTable, r1)[[LitKey(x), LitKey(y)]] == None
  {
    var xy := [LitKey(x), LitKey(y)];
    EmptyTableOk();
    InsertPreservesOk(EmptyTable, r1);
    assert KeysOf(r1.path)[..2] == xy;
    InsertKeys(EmptyTable, r1);
    assert xy in Prefixes(KeysOf(r1.path));
    InsertCreatesOnlyPrefixes(EmptyTable, r1);
  }

  /** Once a walk fails, longer request paths fail too: the walk never recovers. */
  lemma {:induction false} WalkNonePersists(t: Table, comps: seq<string>, i: nat)
    requires [] in t && i <= |comps| && Walk(t, comps[..i]) == None
    ensures Walk(t, comps) == None
    decreases |comps|
  {
    if |comps| != i {
      assert comps[..|comps| - 1][..i] == comps[..i];
      WalkNonePersists(t, comps[..|comps| - 1], i);
    } else {
      assert comps[..i] == comps;
    }
  }

  /** One more component: an empty one leaves the walk where it was, any other takes one step. */
  lemma WalkSnoc(t: Table, comps: seq<string>, s: nat, keys: seq<seq<Key>>)
    requires [] in t && s < |comps| && Walk(t, comps[..s]) == Some(keys)
    ensures comps[s] == [] ==> Walk(t, comps[..s + 1]) == Some(keys)
    ensures comps[s] != [] ==>
      Walk(t, comps[..s + 1]) == (if |Step(t, keys, comps[s])| == 0 then None else Some(Step(t, keys, comps[s])))
  {
    assert comps[..s + 1][..s] == comps[..s];
  }

  lemma WalkWhole(t: Table, comps: seq<string>)
    requires [] in t
    ensures Walk(t, comps[..|comps|]) == Walk(t, comps)
  {
    assert comps[..|comps|] == comps;
  }

  /** `candidates` are the nodes named by `keys`, position by position. */
  ghost predicate Named(paths: map<seq<Key>, Node>, keys: seq<seq<Key>>, candidates: seq<Node>) {
    |keys| == |candidates| && forall j | 0 <= j < |keys| :: keys[j] in paths && paths[keys[j]] == candidates[j]
  }

  /** A child lookup on a node of the tree is a lookup of the extended key path. */
  lemma ChildLookup(root: Node, paths: map<seq<Key>, Node>, ks: seq<Key>, k: Key)
    requires Shaped(root, paths) && ks in paths
    ensures k in paths[ks].children <==> ks + [k] in paths
    ensures k in paths[ks].children ==> paths[ks + [k]] == paths[ks].children[k]
  {
    NamedIffChild(root, paths, KidsOf(paths), ks, k);
  }

  /** Adding one candidate to the walk's level adds its surviving children at the end. */
  lemma StepSnoc(t: Table, keys: seq<seq<Key>>, c: nat, comp: string)
    requires c < |keys|
    ensures Step(t, keys[..c + 1], comp) == Step(t, keys[..c], comp) + Expand(t, keys[c], comp)
  {
    assert keys[..c + 1][..c] == keys[..c];
  }

  lemma NamedAppend(paths: map<seq<Key>, Node>, k1: seq<seq<Key>>, n1: seq<Node>, k2: seq<seq<Key>>, n2: seq<Node>)
    requires Named(paths, k1, n1) && Named(paths, k2, n2)
    ensures Named(paths, k1 + k2, n1 + n2)
  {
  }

  /**
   * The body of the inner loop of `match_route`: the candidate's child under
   * `Segment::literal(segment)` and then its child under a dynamic segment,
   * each if present.
   */
  method SurvivingChildren(ghost root: Node, ghost paths: map<seq<Key>, Node>, ghost t: Table,
                           candidate: Node, ghost key: seq<Key>, segment: string)
    returns (found: seq<Node>, ghost foundKeys: seq<seq<Key>>)
    requires Shaped(root, paths) && t.Keys == paths.Keys && key in paths && paths[key] == candidate
    ensures Named(paths, foundKeys, found)
    ensures foundKeys == Expand(t, key, segment)
  {
    var literal := KeyOf(Literal(segment));
    var dynamic := KeyOf(Dynamic(""));
    ChildLookup(root, paths, key, literal);
    ChildLookup(root, paths, key, dynamic);
    found := [];
    foundKeys := [];
    if literal in candidate.children {
      found := found + [candidate.children[literal]];
      foundKeys := foundKeys + [key + [literal]];
    }
    if dynamic in candidate.children {
      found := found + [candidate.children[dynamic]];
      foundKeys := foundKeys + [key + [dynamic]];
    }
  }

  /** The inner loop of `match_route`: the surviving children of every candidate, candidate by candidate. */
  method NextCandidates(ghost root: Node, ghost paths: map<seq<Key>, Node>, ghost t: Table,
                        candidates: seq<Node>, ghost keys: seq<seq<Key>>, segment: string)
    returns (next: seq<Node>, ghost nextKeys: seq<seq<Key>>)
    requires Shaped(root, paths) && t.Keys == paths.Keys && Named(paths, keys, candidates)
    ensures Named(paths, nextKeys, next)
    ensures nextKeys == Step(t, keys, segment)
  {
    next := [];
    nextKeys := [];
    for c := 0 to |candidates|
      invariant Named(paths, nextKeys, next)
      invariant nextKeys == Step(t, keys[..c], segment)
    {
      var found;
      ghost var foundKeys;
      found, foundKeys := SurvivingChildren(root, paths, t, candidates[c], keys[c], segment);
      NamedAppend(paths, nextKeys, next, foundKeys, found);
      StepSnoc(t, keys, c, segment);
      next := next + found;
      nextKeys := nextKeys + foundKeys;
    }
    assert keys[..|candidates|] == keys;
  }

  /**
   * The outer loop of `match_route`: the candidates after every non-empty
   * component, starting from the root, or `None` as soon as a level is
   * empty.
   */
  method Survivors(root: Node, ghost paths: map<seq<Key>, Node>, ghost t: Table, segments: seq<string>)
    returns (survivors: Option<seq<Node>>, ghost keys: seq<seq<Key>>)
    requires Shaped(root, paths) && TableOk(t) && t.Keys == paths.Keys
    ensures survivors.None? <==> Walk(t, segments).None?
    ensures survivors.Some? ==> Walk(t, segments) == Some(keys) && Named(paths, keys, survivors.value)
  {
    var candidates := [root];
    keys := [[]];
    for s := 0 to |segments|
      invariant Named(paths, keys, candidates)
      invariant Walk(t, segments[..s]) == Some(keys)
    {
      WalkSnoc(t, segments, s, keys);
      if segments[s] == [] {
        continue;
      }
      var next;
      ghost var nextKeys;
      next, nextKeys := NextCandidates(root, paths, t, candidates, keys, segments[s]);
      if |next| == 0 {
        WalkNonePersists(t, segments, s + 1);
        return None, keys;
      }
      candidates, keys := next, nextKeys;
    }
    WalkWhole(t, segments);
    return Some(candidates), keys;
  }

  /** The `fold` at the end of `match_route`: the component at the index of each wildcard of `p`. */
  method CollectParams(p: Path, segments: seq<string>) returns (params: seq<string>)
    requires |p| <= |segments|
    ensures params == Params(p, segments)
  {
    params := [];
    for idx := 0 to |p|
      invariant params == Params(p[..idx], segments)
    {
      if p[idx].Dynamic? {
        params := params + [segments[idx]];
      }
      assert p[..idx + 1][..idx] == p[..idx];
    }
    assert p[..|p|] == p;
  }

  /** The table of a tree whose nodes nothing has written to is the table it had. */
  twostate lemma TableUnchanged(paths: map<seq<Key>, Node>)
    requires unchanged(paths.Values)
    ensures TableOf(paths) == old(TableOf(paths))
  {
  }

  /** The shared `Extra` value, by identity. */
  type ExtraRef = nat

  /** The `route_not_found` fallback: the default one, or a handler set by the user. */
  datatype NotFoundHandler = DefaultNotFound | CustomNotFound(id: HandlerId)

  /** The `method_not_allowed` fallback: the default one, or a handler set by the user. */
  datatype MethodNotAllowedHandler = DefaultMethodNotAllowed | CustomMethodNotAllowed(id: HandlerId)

  /** What a handler receives besides the request (src/context.rs). */
  datatype Context = Context(params: seq<string>, ex: ExtraRef)

  /** The parts of a request the router looks at. */
  datatype Request = Request(verb: Method, path: string)

  /** Which function `route` hands the request to, and with what. */
  datatype Outcome =
    | NotFound(notFound: NotFoundHandler, ex: ExtraRef)
    | MethodNotAllowed(notAllowed: MethodNotAllowedHandler, route: Route, ctx: Context)
    | Invoke(handler: HandlerId, ctx: Context)

  /** The status, `Allow` header and body of a response. */
  datatype Response = Response(status: nat, allow: Option<string>, body: string)

  /**
   * What the default fallbacks of `Router::new` answer: 404 "Not Found",
   * and 405 "Method Not Allowed" with the route's methods in the `Allow`
   * header, in the order `order` in which its handler table yields them.
   * `None` when the outcome goes to a fallback set by the user or to the
   * route's own handler.
   */
  function DefaultResponse(o: Outcome, order: seq<Method>): (r: Option<Response>)
    requires o.MethodNotAllowed? ==> ListsAllowed(o.route, order)
    ensures r.Some? <==>
      (o.NotFound? && o.notFound == DefaultNotFound) || (o.MethodNotAllowed? && o.notAllowed == DefaultMethodNotAllowed)
    ensures r.Some? && o.NotFound? ==> r.value == Response(404, None, "Not Found")
    ensures r.Some? && o.MethodNotAllowed? ==>
      r.value.status == 405 && r.value.body == "Method Not Allowed" && r.value.allow.Some?
      && forall m | m in AllowedMethods(o.route) :: Occurs(MethodName(m), r.value.allow.value)
    ensures r.Some? && o.MethodNotAllowed? ==> r.value.allow == Some(AllowValue(order))
  {
    match o
    case NotFound(DefaultNotFound, _) => Some(Response(404, None, "Not Found"))
    case MethodNotAllowed(DefaultMethodNotAllowed, route, _) =>
      var allow := AllowValue(order);
      assert forall m | m in AllowedMethods(route) :: exists i | 0 <= i < |order| :: order[i] == m;
      Some(Response(405, Some(allow), "Method Not Allowed"))
    case _ => None
  }

  /**
   * The default 405 answer's `Allow` header names the route's methods and
   * nothing else: it is empty when the route has none, and otherwise, when
   * no method name holds a ',', it has one ','-separated item per allowed
   * method, each the name of an allowed method (after one space from the
   * second item on).
   */
  lemma DefaultAllowExact(route: Route, ctx: Context, order: seq<Method>)
    requires ListsAllowed(route, order)
    requires forall m | m in AllowedMethods(route) :: ',' !in MethodName(m)
    ensures var r := DefaultResponse(MethodNotAllowed(DefaultMethodNotAllowed, route, ctx), order);
      r.Some? && r.value.allow.Some?
      && (AllowedMethods(route) == {} ==> r.value.allow.value == [])
      && (AllowedMethods(route) != {} ==>
            var items := Split(r.value.allow.value, ',');
            |items| == |AllowedMethods(route)|
            && forall i | 0 <= i < |items| ::
                 exists m | m in AllowedMethods(route) :: items[i] == (if i == 0 then "" else " ") + MethodName(m))
  {
    var allow := AllowValue(order);
    if AllowedMethods(route) != {} {
      assert forall i | 0 <= i < |order| :: order[i] in AllowedMethods(route);
      AllowValueSplits(order);
    }
  }

  /**
   * The source's `Router`: the shared value, the trie's root and the two
   * fallbacks. The root is never replaced, only grown. The trie's nodes
   * are named by a ghost map `paths` from key path to node, which the
   * methods that read or grow the trie take (and `register` returns).
   */
  class Router {
    var ex: ExtraRef
    const root: Node
    var routeNotFound: NotFoundHandler
    var methodNotAllowed: MethodNotAllowedHandler

    /** `paths` names a tree under `root` whose table is one `append` can build. */
    ghost predicate Valid(paths: map<seq<Key>, Node>)
      reads paths.Values`children, paths.Values`route
    {
      Shaped(root, paths) && TableOk(TableOf(paths))
    }

    /** `Router::new`: an empty trie and the default fallbacks. */
    constructor (ex: ExtraRef)
      ensures Valid(map[[] := root]) && TableOf(map[[] := root]) == EmptyTable
      ensures this.ex == ex && routeNotFound == DefaultNotFound && methodNotAllowed == DefaultMethodNotAllowed
    {
      this.ex := ex;
      var n := new Node();
      root := n;
      routeNotFound := DefaultNotFound;
      methodNotAllowed := DefaultMethodNotAllowed;
      new;
      assert KidsOf(map[[] := n]) == map[[] := map[]];
      assert TableOf(map[[] := n]) == EmptyTable;
      EmptyTableOk();
    }

    /** `Router::route_not_found`: replaces the not-found fallback. */
    method SetRouteNotFound(handler: NotFoundHandler)
      modifies this`routeNotFound
      ensures routeNotFound == handler
    {
      routeNotFound := handler;
    }

    /** `Router::method_not_allowed`: replaces the method-not-allowed fallback. */
    method SetMethodNotAllowed(handler: MethodNotAllowedHandler)
      modifies this`methodNotAllowed
      ensures methodNotAllowed == handler
    {
      methodNotAllowed := handler;
    }

    /** `Router::register`: appends the route to the trie. */
    method Register(r: Route, ghost paths: map<seq<Key>, Node>) returns (ghost paths': map<seq<Key>, Node>)
      requires Valid(paths)
      modifies paths.Values
      ensures Valid(paths')
      ensures TableOf(paths') == Insert(old(TableOf(paths)), r)
      ensures forall n | n in paths'.Values && n !in paths.Values :: fresh(n)
    {
      InsertPreservesOk(TableOf(paths), r);
      paths' := root.Append(r, paths);
    }

    /** `Router::register_many`: appends the routes in order. */
    method RegisterMany(rs: seq<Route>, ghost paths: map<seq<Key>, Node>) returns (ghost paths': map<seq<Key>, Node>)
      requires Valid(paths)
      modifies paths.Values
      ensures Valid(paths')
      ensures TableOf(paths') == InsertAll(old(TableOf(paths)), rs)
      ensures forall n | n in paths'.Values && n !in paths.Values :: fresh(n)
    {
      paths' := paths;
      for i := 0 to |rs|
        invariant Valid(paths')
        invariant TableOf(paths') == InsertAll(old(TableOf(paths)), rs[..i])
        invariant forall n | n in paths'.Values && n !in paths.Values :: fresh(n)
      {
        InsertAllSnoc(old(TableOf(paths)), rs, i);
        paths' := Register(rs[i], paths');
      }
      InsertAllWhole(old(TableOf(paths)), rs);
    }

    /** `Router::match_route`. */
    method MatchRoute(path: string, ghost paths: map<seq<Key>, Node>) returns (m: Option<Match>)
      requires Valid(paths)
      ensures m == Lookup(TableOf(paths), path)
    {
      var segments := Components(path);
      ghost var t := TableOf(paths);
      assert Lookup(t, path) == MatchComponents(t, segments);
      var survivors;
      ghost var keys;
      survivors, keys := Survivors(root, paths, t, segments);
      TableUnchanged(paths);
      if survivors.None? {
        return None;
      }
      var first := survivors.value[0];
      assert keys[0] in paths && first == paths[keys[0]];
      assert first.route == t[keys[0]];
      if first.route.None? {
        assert MatchComponents(t, segments) == None by {
          MatchFirst(t, segments, keys);
        }
        return None;
      }
      var route := first.route.value;
      assert |route.path| <= |segments| && MatchComponents(t, segments) == Some(Match(route, Params(route.path, segments))) by {
        MatchFirst(t, segments, keys);
      }
      var params := CollectParams(route.path, segments);
      TableUnchanged(paths);
      return Some(Match(route, params));
    }

    /**
     * The decision inside `Router::route`: no match goes to the not-found
     * fallback, a match without a handler for the method to the
     * method-not-allowed fallback with the route, and otherwise to the
     * handler, both with the parameters and the shared value.
     */
    method RouteRequest(req: Request, ghost paths: map<seq<Key>, Node>) returns (o: Outcome)
      requires Valid(paths)
      ensures Lookup(TableOf(paths), req.path).None? ==> o == NotFound(routeNotFound, ex)
      ensures Lookup(TableOf(paths), req.path).Some? ==>
        var m := Lookup(TableOf(paths), req.path).value;
        Handler(m.route, req.verb).None? ==> o == MethodNotAllowed(methodNotAllowed, m.route, Context(m.params, ex))
      ensures Lookup(TableOf(paths), req.path).Some? ==>
        var m := Lookup(TableOf(paths), req.path).value;
        Handler(m.route, req.verb).Some? ==> o == Invoke(Handler(m.route, req.verb).value, Context(m.params, ex))
    {
      var found := MatchRoute(req.path, paths);
      if found.None? {
        return NotFound(routeNotFound, ex);
      }
      var ctx := Context(found.value.params, ex);
      var handler := Handler(found.value.route, req.verb);
      if handler.None? {
        return MethodNotAllowed(methodNotAllowed, found.value.route, ctx);
      }
      return Invoke(handler.value, ctx);
    }
  }

  /** The table after appending the routes of `rs` in order. */
  function InsertAll(t: Table, rs: seq<Route>): Table
    decreases |rs|
  {
    if |rs| == 0 then t else Insert(InsertAll(t, rs[..|rs| - 1]), rs[|rs| - 1])
  }

  lemma InsertAllSnoc(t: Table, rs: seq<Route>, i: nat)
    requires i < |rs|
    ensures InsertAll(t, rs[..i + 1]) == Insert(InsertAll(t, rs[..i]), rs[i])
  {
    assert rs[..i + 1][..i] == rs[..i];
  }

  lemma InsertAllWhole(t: Table, rs: seq<Route>)
    ensures InsertAll(t, rs[..|rs|]) == InsertAll(t, rs)
  {
    assert rs[..|rs|] == rs;
  }

  /**
   * `register_many` keeps, at each pattern, the last route registered with
   * it: a route that no later route shares a key path with is the route of
   * its node afterwards.
   */
  lemma {:induction false} LastRegistrationWins(t: Table, rs: seq<Route>, j: nat)
    requires j < |rs|
    requires forall k | j < k < |rs| :: KeysOf(rs[k].path) != KeysOf(rs[j].path)
    ensures KeysOf(rs[j].path) in InsertAll(t, rs)
    ensures InsertAll(t, rs)[KeysOf(rs[j].path)] == Some(rs[j])
    decreases |rs|
  {
    var init := rs[..|rs| - 1];
    if j == |rs| - 1 {
      InsertReaches(InsertAll(t, init), rs[j]);
    } else {
      LastRegistrationWins(t, init, j);
      InsertOnlyGrows(InsertAll(t, init), rs[|rs| - 1]);
    }
  }
}
