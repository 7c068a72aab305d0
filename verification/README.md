# radmin-router routing core in Dafny

This project models how the radmin-router crate stores routes and matches
requests. A `Router` owns a trie of `Node`s. Each node may carry a `Route`,
and its children are keyed by path `Segment`s. Literal segments compare by
their text. Every wildcard (`[name]`) equals every other wildcard, so a
node has at most one wildcard child.

- `register` and `register_many` append routes to the trie.
- `match_route` walks the trie one request component at a time. It keeps an
  ordered list of candidate nodes: for each candidate, its literal child
  comes first and its wildcard child second.
- `route` sends a request to the not-found fallback, to the
  method-not-allowed fallback, or to the matched route's handler.

Modules, one per file:

| file | module | models |
|---|---|---|
| wrappers.dfy | `Wrappers` | the `Option` type |
| text.dfy | `Text` | `str::split`, the `join` that `Display` performs, `trim_start_matches` |
| segment.rs → segment.dfy | `Segments` | the segment datatype, its `Eq` and `Hash` |
| path.rs → path.dfy | `Paths` | `Display` (`Format`), `FromStr` (`Paths.FromStr`, specified by `ParsePath`) |
| route.rs → route.dfy | `Routes` | a route as a value (the builders take and return it by value) |
| node.rs → node.dfy | `Nodes` | the `Node` class with the source's two fields; `Append` walks a cursor down them and is proved to perform `Insert` on the trie's table |
| router.rs → router.dfy | `Routers` | the `Router` class; `MatchRoute` runs the source's candidate loops and is proved equal to the pure `Lookup` |
| scenarios.dfy | `Scenarios` | whole-router behaviour on small tries and the request examples the crate documents |

A trie is viewed from outside as a `Table`. A table maps the key path of
every reachable node to that node's optional route.

A ghost map from key paths to node objects witnesses that the objects form
a tree. That map is threaded through the methods that read or grow the
trie.

Behaviour kept as the code has it:

- Parameters are taken from the request's component list *before* empty
  components are dropped. So in `/a//b` against `/[x]/[y]`, the second
  parameter is the empty string (`Routers.ParamsMisaligned`,
  `Scenarios.DoubleSlashRequest`).
- The walk skips empty components but keeps them in that list, because the
  request path is split with empty pieces included.
- A bracketed component `[slug]` names its wildcard `slu`, because the slice
  end drops two characters (`Paths.ParseExample`). Wildcards compare equal
  whatever their names, so the parsed path still equals the one written
  with `slug`.
- The parser panics on some inputs, so `FromStr` is not total. It indexes
  the character vector with the byte length. It slices backwards on `[]`.
  Its short-circuit `&&` only reaches the second index when the component
  starts with `[`. These inputs are excluded by the precondition
  `PatternOk`: a component that starts with `[` must be ASCII, and `[]` is
  refused. Components that do not start with `[` may hold any character.
  The crate's own description calls parsing total; the model follows the
  code.
- Only the *first* surviving candidate decides the match. When that node
  carries no route, the result is no match, even if a later candidate
  carries one (`Routers.FirstWithoutRoute`). The candidate order is proved
  to put literals before wildcards at the first position where two key
  paths differ (`Routers.WalkOrdered`, `Routers.MatchPreferred`).

## Model

| member | source | states |
|---|---|---|
| Text.TrimStart | src/router.rs:87-89 | the result is a suffix of the input, does not start with the trimmed character, and everything dropped was that character |
| Text.SplitPiecesLackSep | src/path.rs:47 | no piece of a split contains the separator |
| Text.SplitAppend | src/path.rs:47 | splitting `a + sep + b` gives the pieces of `a` followed by the pieces of `b` |
| Text.SplitCons | src/path.rs:47 | a leading separator yields an empty first piece; any other leading character extends the first piece |
| Text.SplitNoSep | src/path.rs:47 | a string without the separator splits into itself alone |
| Text.SplitJoin | src/path.rs:27-34 | splitting undoes the "/"-join of `Display` when no piece holds the separator |
| Text.Split | src/path.rs:47 | `str::split` never returns an empty list |
| Text.JoinSplit | src/path.rs:47 | joining the pieces of a split with the separator gives back the input |
| Text.JoinHasPiece | src/router.rs:45-50 | every piece of a join occurs in the joined string |
| Text.SplitCommaJoin | src/router.rs:45-50 | splitting a ", "-join on "," gives back exactly the pieces, each after the first behind one space, when no piece holds a "," |
| Text.SpaceLedSplit | src/router.rs:45-50 | a space in front of a split string puts one space in front of its first piece and leaves the other pieces as they are |
| Text.JoinCons | src/path.rs:27-34 | joining a piece in front of a non-empty list puts the piece and one separator in front |
| Text.JoinExtendHead | src/path.rs:27-34 | extending the first piece by a character extends the join by that character |
| Segments.SegEq | src/segment.rs:49-57 | `PartialEq::eq` holds exactly when the keys are equal (literals by text, any two wildcards), so keys may stand for segments in the children map |
| Segments.DynamicAlwaysEqual | src/segment.rs:53 | two wildcards are equal whatever their names |
| Segments.LiteralEquality | src/segment.rs:52-54 | literals are equal exactly when their texts are; a literal never equals a wildcard (either way round) |
| Segments.SegEqIsEquivalence | src/segment.rs:49-59 | `Eq` is reflexive, symmetric and transitive |
| Segments.HashConsistentWithEq | src/segment.rs:41-47 | equal segments feed equal data to the hasher; literals feed equal data exactly when their texts are equal; all wildcards feed the same data (the `hash_literal` and `hash_dynamic` tests, lines 72-90) |
| Segments.AtMostOneDynamicKey | src/segment.rs:49-57 | a children map keyed by segments holds at most one wildcard key |
| Segments.PathEqIsKeysEq | src/path.rs:15-16 | `Path`'s derived equality is equality of the key sequences |
| Paths.Format | src/path.rs:18-35 | the formatted path always starts with "/" |
| Paths.ParseComponent | src/path.rs:52-61 | a component becomes a wildcard exactly when it starts with `[` and ends with `]`; a literal keeps the text verbatim; a wildcard's name drops the last two characters |
| Paths.ParseComponents | src/path.rs:47-64 | at most one segment per component, and no segment is an empty literal |
| Paths.ParsePath | src/path.rs:42-67 | the parsed pattern has no empty literal segment and no segment that renders with a "/" |
| Paths.ParsedLackSlash | src/path.rs:47-64 | components without "/" parse to segments whose rendering has no "/" |
| Paths.ComponentLacksSlash | src/path.rs:52-61 | one component without "/" parses to a segment whose rendering has no "/" |
| Paths.FromStr | src/path.rs:42-67 | the loop over the split pieces returns `ParsePath(s)`, with no empty literal segment |
| Paths.ParseComponentsAppend | src/path.rs:47-64 | parsing distributes over concatenation of component lists |
| Paths.FormatEmpty | src/path.rs:84-87 | the empty path formats as "/" |
| Paths.FormatExamples | src/path.rs:89-99 | `segment` formats as "/segment"; `segment`, `[slug]` formats as "/segment/[slug]" |
| Paths.FormatSplits | src/path.rs:18-35 | splitting a formatted path gives an empty lead piece and then each rendered segment |
| Paths.LeadingSlashAbsorbed | src/path.rs:47-50 | a leading slash changes nothing in the parsed path |
| Paths.TrailingSlashAbsorbed | src/path.rs:47-50 | a trailing slash changes nothing in the parsed path |
| Paths.DoubledSlashAbsorbed | src/path.rs:47-50 | "//" parses like "/" |
| Paths.ParseRender | src/path.rs:18-61 | a parseable segment parses back, from its rendering, to an equal segment |
| Paths.ParseRendered | src/path.rs:18-64 | parsing the rendered segments gives back an equal path |
| Paths.RoundTrip | src/path.rs:18-67 | parse(format(p)) equals p under `Path` equality, for paths whose segments survive the round trip |
| Paths.SplitExampleTail | src/path.rs:47 | "test/[slug]" splits into "test" and "[slug]" |
| Paths.SplitExample | src/path.rs:47 | "/test/[slug]" splits into "", "test", "[slug]" |
| Paths.ParseExampleComponents | src/path.rs:52-61 | "test" is a literal; "[slug]" is the wildcard named "slu" |
| Paths.ParseExample | src/path.rs:101-110 | "/test/[slug]" parses to the literal `test` and the wildcard `slu` |
| Paths.ParseExampleEquality | src/path.rs:101-119 | that parse equals `test`, `[slug]` and differs from `another_segment`, `[slug]` (the `path_from_str` test) |
| Routes.Handler | src/route.rs:46-48 | a handler exists exactly for the allowed methods |
| Routes.New | src/route.rs:34-39 | the given path and no handler for any method |
| Routes.Register | src/route.rs:50-53 | the method now maps to the handler; the path and every other method are unchanged; the allowed set grows by that method |
| Routes.Get | src/route.rs:55-58 | GET maps to the handler; the path and every other method are unchanged |
| Routes.Post | src/route.rs:60-63 | as `Get`, for POST |
| Routes.Put | src/route.rs:65-68 | as `Get`, for PUT |
| Routes.Delete | src/route.rs:70-73 | as `Get`, for DELETE |
| Routes.Head | src/route.rs:75-78 | as `Get`, for HEAD |
| Routes.Options | src/route.rs:80-83 | as `Get`, for OPTIONS |
| Routes.Connect | src/route.rs:85-88 | as `Get`, for CONNECT |
| Routes.Patch | src/route.rs:90-93 | as `Get`, for PATCH |
| Routes.Trace | src/route.rs:95-98 | as `Get`, for TRACE |
| Routes.RegisterTwice | src/route.rs:50-53 | registering a method again replaces its handler and adds no allowed method |
| Routes.RegisterHandlerExample | src/route.rs:143-150 | a new route has no GET handler; after `get` it has one |
| Routes.AllowedMethodsExample | src/route.rs:126-141 | after `get` and `patch` the allowed methods are exactly GET and PATCH, in whichever order the table yields them |
| Routes.AllowValue | src/router.rs:45-50 | every method name of the given order occurs in the `Allow` value; no methods give "" (exactness is `AllowValueSplits`) |
| Routes.AllowValueSplits | src/router.rs:45-50 | the `Allow` value is exactly the method names joined by ", ": split on ",", it gives one item per method, in order, each the name behind one space from the second on |
| Routes.MethodNameInjective | src/router.rs:48 | two well-formed methods with the same name are the same method |
| Routes.AllowValueExample | src/router.rs:45-50 | GET, PATCH in that order give the `Allow` value "GET, PATCH" |
| Nodes.EmptyTableOk | src/node.rs:20-27 | the default node is a well-formed trie with no route and no children |
| Nodes.InsertKeys | src/node.rs:30-41 | append adds exactly the prefixes of the route's key path as nodes |
| Nodes.InsertReaches | src/node.rs:30-41 | after append, the node at the route's key path carries the route |
| Nodes.InsertOnlyGrows | src/node.rs:30-41 | append keeps every node, and every route except the terminal one |
| Nodes.InsertCreatesOnlyPrefixes | src/node.rs:33-38 | every new node is a prefix of the route's key path, and carries no route unless it is the last |
| Nodes.PrefixesPresent | src/node.rs:33-38 | in a well-formed trie every prefix of a present key path is present |
| Nodes.InsertReusesNodes | src/node.rs:36-37 | appending along an existing path creates no node |
| Nodes.InsertPreservesOk | src/node.rs:30-41 | append keeps the trie well formed: rooted, prefix-closed |
| Nodes.InsertOverwrites | src/node.rs:40 | appending a second route with an equal path replaces the first and creates no node |
| Nodes.InsertRoot | src/node.rs:56-62 | a route with the empty path becomes the root's route (the `insert_root` test) |
| Nodes.InsertChainExample | src/node.rs:64-88 | appending `/test/path` creates one child and one grandchild; only the grandchild carries the route; each has the expected children (the `insert_create_nested` test) |
| Nodes.Node.constructor | src/node.rs:20-27 | `Node::default`: no route and no children |
| Nodes.Node.EntryOrInsert | src/node.rs:34-37 | `entry(k).or_insert(default)`: returns the child at `k`, creating an empty one only when missing; the tree stays a tree; the table only grows by that key path with no route |
| Nodes.Node.Append | src/node.rs:30-41 | the trie's table becomes `Insert(old table, r)`; the tree shape is kept; old nodes keep their names; new nodes are fresh |
| Nodes.Node.Descend | src/node.rs:33-38 | one step of the cursor: the walked prefix grows by one key and the cursor moves to that child |
| Nodes.Node.SetRoute | src/node.rs:40 | only the cursor node's table entry changes |
| Nodes.WalkedAll | src/node.rs:33-40 | at the end of the walk, the cursor is the node named by the whole key path, and setting its route performs `Insert` |
| Nodes.PadInsert | src/node.rs:30-41 | growing the table by the walked prefixes and setting the terminal route is `Insert` |
| Nodes.NamedIffChild | src/node.rs:8 | a one-key extension of a node's path names a node exactly when that node has the child |
| Nodes.AddChild | src/node.rs:36-37 | hanging a new empty node under a missing key keeps the tree and grows the table by an entry with no route |
| Routers.Components | src/router.rs:87-91 | the request path's components: leading slashes trimmed, split on "/", empty components kept; never an empty list |
| Routers.NonEmpty | src/router.rs:95-98 | the walk consumes no more components than the request has, and none of them is empty (what is kept, and in which order, is `NonEmptyAt`) |
| Routers.NonEmptyIndices | src/router.rs:95-98 | the positions of the non-empty components: in range, increasing, and every non-empty position is listed |
| Routers.NonEmptyAt | src/router.rs:95-98 | the walk consumes exactly the request components at the non-empty positions, in order |
| Routers.Expand | src/router.rs:101-108 | a candidate's surviving children: exactly its literal child for the component and its wildcard child, where present |
| Routers.Step | src/router.rs:100-109 | one level of the walk holds exactly the children, by the component's literal or the wildcard, of the previous level's candidates |
| Routers.Walk | src/router.rs:93-115 | the walk ends with a non-empty candidate list whose nodes are all as deep as the non-empty components, or fails |
| Routers.MatchesSnoc | src/router.rs:101-108 | fitting one more component means fitting the shorter list, then that component's literal or the wildcard |
| Routers.FitsSnoc | src/router.rs:101-108 | the nodes fitting one more component are the extensions of the nodes fitting the shorter list |
| Routers.StepExact | src/router.rs:100-113 | one step of an exact walk is exact, and it is empty exactly when no node fits |
| Routers.WalkExact | src/router.rs:93-115 | the walk succeeds exactly when some node fits the non-empty components, and then its candidates are exactly the fitting nodes |
| Routers.PrefersExtend | src/router.rs:101-108 | extending two key paths keeps their candidate order |
| Routers.StepOrdered | src/router.rs:100-109 | a level built from ordered candidates is ordered |
| Routers.OrderedLast | src/router.rs:101 | dropping the last candidate keeps the order, and every earlier candidate precedes the last |
| Routers.ExpandOrdered | src/router.rs:102-108 | a candidate's literal child precedes its wildcard child |
| Routers.StepBeforeExpand | src/router.rs:101-108 | the children of earlier candidates precede the children of a later one |
| Routers.OrderedAppend | src/router.rs:100-109 | two ordered lists, the first entirely before the second, concatenate to an ordered list |
| Routers.WalkOrdered | src/router.rs:93-115 | every level of the walk is in candidate order: literal before wildcard at the first key where two paths differ |
| Routers.PrefersAsymmetric | src/router.rs:117-121 | candidate order is strict: no two key paths precede each other |
| Routers.DynamicIndices | src/router.rs:126-128 | exactly the wildcard positions of a pattern, increasing |
| Routers.ParamsAtWildcards | src/router.rs:122-133 | one parameter per wildcard, in pattern order, each the request component at that wildcard's index |
| Routers.LiteralsOnlyNoParams | src/router.rs:122-133 | a pattern without wildcards yields no parameters |
| Routers.MatchComponents | src/router.rs:86-136 | a match names a route present in the trie at its own key path, which fits the non-empty components, with one parameter per wildcard |
| Routers.MatchFirst | src/router.rs:121-135 | a successful walk decides the match by its first candidate alone: no route there means no match |
| Routers.Lookup | src/router.rs:86-136 | a match names a route present in the trie at its own key path |
| Routers.MatchPreferred | src/router.rs:117-121 | the matched route precedes every other fitting node in candidate order |
| Routers.FirstCandidate | src/router.rs:117-121 | the first candidate fits, and precedes every other fitting node |
| Routers.MatchNone | src/router.rs:111-121 | no match exactly when no node fits, or the most preferred fitting node carries no route |
| Routers.WalkAllEmpty | src/router.rs:95-98 | with empty components only, the walk stays at the root |
| Routers.RootMatch | src/router.rs:93-121 | a request path with no non-empty component gets the root's route, if any, with no parameters |
| Routers.RootPath | src/router.rs:87-91 | the request "/" gives the single empty component |
| Routers.NonEmptyKeepsAll | src/router.rs:95-98 | without empty components nothing is skipped |
| Routers.NonEmptyDropsTail | src/router.rs:95-98 | trailing empty components, such as a trailing slash leaves, are dropped and nothing else |
| Routers.ParamsAligned | src/router.rs:93-133 | when the only empty components are trailing ones, the matched pattern is as long as the non-empty components, its literals spell those components, and each parameter is the component at its wildcard |
| Routers.ParamsMisaligned | src/router.rs:122-133 | on the components `a`, "", `b` (those of `/a//b`, by `Scenarios.DoubleSlashComponents`), parameters are read from the unfiltered list: two wildcards give `a` and the empty string |
| Routers.LiteralPairUnrouted | src/router.rs:121 | a routeless node whose two literal keys spell the request blocks every other fitting node |
| Routers.FirstWithoutRoute | src/router.rs:121 | with `/x/y/z` and `/[a]/[b]` registered, `/x/y` is not matched although the wildcard route fits it |
| Routers.ThreeLiteralsTable | src/node.rs:30-41 | appending `/x/y/z` leaves the node `x/y` without a route |
| Routers.WalkNonePersists | src/router.rs:111-113 | once the walk fails, a longer request fails too |
| Routers.WalkSnoc | src/router.rs:95-114 | an empty component leaves the walk where it was; any other takes one step |
| Routers.ChildLookup | src/router.rs:102-106 | a child lookup on a node of the tree is a lookup of the extended key path |
| Routers.StepSnoc | src/router.rs:101-109 | one more candidate adds its surviving children at the end of the level |
| Routers.SurvivingChildren | src/router.rs:102-108 | returns the candidate's literal child, then its wildcard child, exactly as `Expand` lists them |
| Routers.NextCandidates | src/router.rs:100-109 | the inner loop computes the next level, exactly `Step` |
| Routers.Survivors | src/router.rs:93-115 | the outer loop fails exactly when `Walk` does; otherwise it returns `Walk`'s candidates as nodes |
| Routers.CollectParams | src/router.rs:122-133 | the fold computes `Params` |
| Routers.Router.constructor | src/router.rs:31-60 | an empty trie, the given shared value and the two default fallbacks |
| Routers.Router.SetRouteNotFound | src/router.rs:62-65 | replaces the not-found fallback |
| Routers.Router.SetMethodNotAllowed | src/router.rs:67-70 | replaces the method-not-allowed fallback |
| Routers.Router.Register | src/router.rs:72-75 | the table becomes `Insert(old table, r)`, and the trie stays valid |
| Routers.Router.RegisterMany | src/router.rs:77-84 | the table becomes the old table with the routes appended in order |
| Routers.Router.MatchRoute | src/router.rs:86-136 | the source's loops compute `Lookup` of the router's table |
| Routers.Router.RouteRequest | src/router.rs:147-162 | no match → not-found fallback; match without a handler for the method → method-not-allowed fallback with the route and context; otherwise → the handler, with the parameters and shared value |
| Routers.DefaultResponse | src/router.rs:35-58 | a response exactly for the two default fallbacks: 404 "Not Found" with no `Allow` header, or 405 "Method Not Allowed" whose `Allow` header is `AllowValue` of the route's methods and names every method the route allows |
| Routers.DefaultAllowExact | src/router.rs:43-58 | the default 405 `Allow` header holds the route's methods and nothing else: empty for a route without methods, and otherwise one ","-separated item per allowed method, each naming an allowed method |
| Routers.LastRegistrationWins | src/router.rs:77-84 | after `register_many`, a route's key path carries the last route registered with that key path |
| Scenarios.Single | src/node.rs:30-41 | one route appended to the default node: a well-formed trie with exactly the route's prefixes, the route at its own node |
| Scenarios.SingleDeepest | src/node.rs:30-41 | in a one-route trie, the only node as deep as the pattern is the route's own |
| Scenarios.SingleRouteFound | src/router.rs:86-136 | a request with no empty component that fits the only route matches it, with its parameters |
| Scenarios.SingleRouteMissed | src/router.rs:86-136 | with one route registered, any request without empty components that does not fit it is not matched |
| Scenarios.SingleRouted | src/node.rs:30-41 | in a one-route trie only the route's own node carries a route |
| Scenarios.TwoRoutes | src/router.rs:72-75 | two routes with different key paths each sit at their own node |
| Scenarios.NothingBeforeLiterals | src/router.rs:101-108 | no key path precedes one made of literals only |
| Scenarios.LiteralRouteFirst | src/router.rs:93-115 | the node whose literals spell the request is the walk's first candidate |
| Scenarios.LiteralRouteFound | src/router.rs:117-135 | a route whose literals spell the request is matched, with no parameters |
| Scenarios.AmbiguousTable | src/router.rs:72-75 | `/x/y` and `/[a]/[b]`, appended in either order, each sit at their own node |
| Scenarios.LiteralBeatsWildcard | src/router.rs:117-121 | with `/x/y` and `/[a]/[b]` both fitting `/x/y`, the literal route wins, whatever the registration order |
| Scenarios.ComponentsOfJoin | src/router.rs:87-91 | "/" plus non-empty '/'-free components joined by "/" splits back into them |
| Scenarios.DoubleSlashComponents | src/router.rs:87-91 | the request `/a//b` has the components `a`, "" and `b` |
| Scenarios.DoubleSlashRequest | src/router.rs:86-136 | the request `/a//b` matched by a two-wildcard pattern has the parameters `a` and "" |
| Scenarios.OneComponent | src/router.rs:87-91 | "/c" splits into the single component `c` |
| Scenarios.OneWildcard | src/router.rs:122-133 | a lone wildcard fits any component and takes it as its parameter |
| Scenarios.OneLiteral | src/router.rs:122-133 | a lone literal fits its own text and has no parameters |
| Scenarios.RootScenario | src/router.rs:31-42 | with `GET /` registered, "/" matches it, GET has its handler, any one-component request is not found, and the default not-found answer is 404 "Not Found" |
| Scenarios.RootMatched | src/router.rs:86-136 | with only the root routed, "/" matches it with no parameters |
| Scenarios.RootMissesComponent | src/router.rs:86-136 | with only the root routed, a one-component request finds nothing |
| Scenarios.SlugScenario | src/router.rs:122-133 | with `/[slug]` registered, a request `/hello` has parameter `hello` |
| Scenarios.OuterWildcards | src/router.rs:122-133 | a wildcard-literal-wildcard pattern fits its request and takes the outer two components |
| Scenarios.TwoSlugScenario | src/router.rs:122-133 | with `/[slug]/literal/[slug2]` registered, `/a/literal/b` has parameters `a`, `b` |
| Scenarios.TwoSlugMatch | src/router.rs:93-133 | the same match on the component list `a`, `literal`, `b` |
| Scenarios.MethodNotAllowedScenario | src/router.rs:43-58 | a GET-only route requested with DELETE is matched, has no DELETE handler, and the default answer is 405 with `Allow: GET` |
| Scenarios.OnlyGetAllowed | src/router.rs:43-58 | a GET-only route's default 405 answer allows exactly "GET" |

## Left out

- Asynchrony, hyper request and response bodies, `Arc`, the `logging` feature (timing, colours, `println!`, `eprintln!`): no routing logic. The multiple-match diagnostic (src/router.rs:117-119) prints and changes nothing.
- Handlers are opaque identifiers. What a handler or a user fallback returns is passed through and is not modelled; `RouteRequest` returns which function is called and with what. The two default fallbacks' answers are `DefaultResponse`.
- `HashMap` iteration order: the order of `allowed_methods` and of the `Allow` header is a parameter (`order`) of the members that use it. Hash values are modelled by the data fed to the hasher (`HashFeed`), not by a hash function.
- The request path is taken as a string; extracting it from the URI is not modelled.
- `Clone`, `Debug`, the `path!` macro, `From<AsRef<[Segment]>>` for `Path`, the macros crate and the example binary: no routing logic.
- `register` takes the router by value and returns it; the model grows the router in place, which has the same effect for the caller. The builder chaining of `route_not_found`, `method_not_allowed` and `register_many` (returning `&mut Self`) is not modelled.
- Router cloning and sharing nodes between routers: a `Router` owns its trie. A registered route is stored by value, as `route.clone()` does.
- Methods: an extension method whose token spells a standard name (`Extension("GET")`) is a value of the model, though hyper's parser produces the standard method for it. `Routes.WellFormed` names the methods hyper builds, and `Routes.MethodNameInjective` shows that among them a name identifies its method; the lemmas about routes do not need it.
