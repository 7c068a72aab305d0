/**
 * A route (src/route.rs): a path plus a table from HTTP method to handler.
 * Handlers are opaque identifiers. `register` and the nine builders take
 * the route by value and give it back, so the route is a value here and
 * each builder is a function from the old route to the new one.
 */
module Routes {
  import opened Wrappers
  import opened Text
  import opened Segments
  import opened Paths

  /** The request methods hyper knows by name, and any other method token. */
  datatype Method = GET | POST | PUT | DELETE | HEAD | OPTIONS | CONNECT | PATCH | TRACE
                  | Extension(token: string)

  /** A handler function pointer, identified. */
  type HandlerId = nat

  datatype Route = Route(path: Path, handlers: map<Method, HandlerId>)

  /** `Method::to_string`. */
  function MethodName(m: Method): string {
    match m
    case GET => "GET"
    case POST => "POST"
    case PUT => "PUT"
    case DELETE => "DELETE"
    case HEAD => "HEAD"
    case OPTIONS => "OPTIONS"
    case CONNECT => "CONNECT"
    case PATCH => "PATCH"
    case TRACE => "TRACE"
    case Extension(token) => token
  }

  /** `Route::allowed_methods`. The source returns the keys in hash order; the order is not part of the model. */
  function AllowedMethods(r: Route): set<Method> {
    r.handlers.Keys
  }

  /** `Route::handler`: the handler registered for `m`, if any. */
  function Handler(r: Route, m: Method): (h: Option<HandlerId>)
    ensures h.Some? <==> m in AllowedMethods(r)
  {
    if m in r.handlers then Some(r.handlers[m]) else None
  }

  /** `Route::new`: the given path and no handlers. */
  function New(p: Path): (r: Route)
    ensures r.path == p
    ensures AllowedMethods(r) == {}
    ensures forall m :: Handler(r, m) == None
  {
    Route(p, map[])
  }

  /** `Route::register`: `m` now maps to `h`; the path and every other method are untouched. */
  function Register(r: Route, m: Method, h: HandlerId): (r': Route)
    ensures r'.path == r.path
    ensures Handler(r', m) == Some(h)
    ensures forall m' :: m' != m ==> Handler(r', m') == Handler(r, m')
    ensures AllowedMethods(r') == AllowedMethods(r) + {m}
  {
    Route(r.path, r.handlers[m := h])
  }

  function Get(r: Route, h: HandlerId): (r': Route)
    ensures r'.path == r.path && Handler(r', GET) == Some(h)
    ensures forall m :: m != GET ==> Handler(r', m) == Handler(r, m)
  {
    Register(r, GET, h)
  }

  function Post(r: Route, h: HandlerId): (r': Route)
    ensures r'.path == r.path && Handler(r', POST) == Some(h)
    ensures forall m :: m != POST ==> Handler(r', m) == Handler(r, m)
  {
    Register(r, POST, h)
  }

  function Put(r: Route, h: HandlerId): (r': Route)
    ensures r'.path == r.path && Handler(r', PUT) == Some(h)
    ensures forall m :: m != PUT ==> Handler(r', m) == Handler(r, m)
  {
    Register(r, PUT, h)
  }

  function Delete(r: Route, h: HandlerId): (r': Route)
    ensures r'.path == r.path && Handler(r', DELETE) == Some(h)
    ensures forall m :: m != DELETE ==> Handler(r', m) == Handler(r, m)
  {
    Register(r, DELETE, h)
  }

  function Head(r: Route, h: HandlerId): (r': Route)
    ensures r'.path == r.path && Handler(r', HEAD) == Some(h)
    ensures forall m :: m != HEAD ==> Handler(r', m) == Handler(r, m)
  {
    Register(r, HEAD, h)
  }

  function Options(r: Route, h: HandlerId): (r': Route)
    ensures r'.path == r.path && Handler(r', OPTIONS) == Some(h)
    ensures forall m :: m != OPTIONS ==> Handler(r', m) == Handler(r, m)
  {
    Register(r, OPTIONS, h)
  }

  function Connect(r: Route, h: HandlerId): (r': Route)
    ensures r'.path == r.path && Handler(r', CONNECT) == Some(h)
    ensures forall m :: m != CONNECT ==> Handler(r', m) == Handler(r, m)
  {
    Register(r, CONNECT, h)
  }

  function Patch(r: Route, h: HandlerId): (r': Route)
    ensures r'.path == r.path && Handler(r', PATCH) == Some(h)
    ensures forall m :: m != PATCH ==> Handler(r', m) == Handler(r, m)
  {
    Register(r, PATCH, h)
  }

  function Trace(r: Route, h: HandlerId): (r': Route)
    ensures r'.path == r.path && Handler(r', TRACE) == Some(h)
    ensures forall m :: m != TRACE ==> Handler(r', m) == Handler(r, m)
  {
    Register(r, TRACE, h)
  }

  /** Registering a method again replaces its handler and leaves the set of allowed methods as one registration left it. */
  lemma RegisterTwice(r: Route, m: Method, h1: HandlerId, h2: HandlerId)
    ensures Register(Register(r, m, h1), m, h2) == Register(r, m, h2)
    ensures AllowedMethods(Register(Register(r, m, h1), m, h2)) == AllowedMethods(Register(r, m, h1))
  {
  }

  /** A new route has no GET handler; after `get` it has one (the `register_handler` test). */
  lemma RegisterHandlerExample(p: Path, h: HandlerId)
    ensures Handler(New(p), GET).None?
    ensures Handler(Get(New(p), h), GET) == Some(h)
  {
  }

  /**
   * The `allowed_methods` test: after `get` and `patch` the allowed methods
   * are GET and PATCH, whichever order the table yields them in.
   */
  lemma AllowedMethodsExample(p: Path, h1: HandlerId, h2: HandlerId, order: seq<Method>)
    requires |order| == |AllowedMethods(Patch(Get(New(p), h1), h2))|
    requires forall m :: m in order <==> m in AllowedMethods(Patch(Get(New(p), h1), h2))
    ensures AllowedMethods(Patch(Get(New(p), h1), h2)) == {GET, PATCH}
    ensures order == [GET, PATCH] || order == [PATCH, GET]
  {
    var allowed := AllowedMethods(Patch(Get(New(p), h1), h2));
    assert allowed == {GET, PATCH};
    assert |order| == 2 && GET in order && PATCH in order;
    PairOrder(order, GET, PATCH);
  }

  /** A list of two holding two different values holds them in one order or the other. */
  lemma PairOrder<T>(order: seq<T>, a: T, b: T)
    requires |order| == 2 && a in order && b in order && a != b
    ensures order == [a, b] || order == [b, a]
  {
    assert order == [order[0], order[1]];
  }

  /**
   * `order` is the route's handler table in the order its iteration yields
   * the methods: each allowed method exactly once, and nothing else.
   */
  ghost predicate ListsAllowed(r: Route, order: seq<Method>) {
    |order| == |AllowedMethods(r)| && forall m :: m in order <==> m in AllowedMethods(r)
  }

  /**
   * The `Allow` value the default 405 handler sends: the method names in
   * table order, joined with ", ". Every name occurs in it, and no methods
   * give "".
   */
  function AllowValue(order: seq<Method>): (v: string)
    ensures forall i | 0 <= i < |order| :: Occurs(MethodName(order[i]), v)
    ensures order == [] ==> v == []
  {
    var names := seq(|order|, i requires 0 <= i < |order| => MethodName(order[i]));
    JoinHasEveryPiece(names, ", ");
    assert forall i | 0 <= i < |order| :: names[i] == MethodName(order[i]);
    Join(names, ", ")
  }

  /**
   * The `Allow` value holds the names and nothing else: when no name holds
   * a ',', splitting it on ',' gives back exactly the names, in order, each
   * after the first behind one space.
   */
  lemma AllowValueSplits(order: seq<Method>)
    requires order != []
    requires forall i | 0 <= i < |order| :: ',' !in MethodName(order[i])
    ensures |Split(AllowValue(order), ',')| == |order|
    ensures forall i | 0 <= i < |order| ::
      Split(AllowValue(order), ',')[i] == (if i == 0 then "" else " ") + MethodName(order[i])
  {
    var names := seq(|order|, i requires 0 <= i < |order| => MethodName(order[i]));
    assert AllowValue(order) == Join(names, ", ");
    SplitCommaJoin(names);
  }

  /**
   * The methods hyper builds: a method outside the nine standard ones is an
   * extension token that is not empty and does not spell a standard name.
   */
  ghost predicate WellFormed(m: Method) {
    m.Extension? ==> m.token != [] && forall s: Method | !s.Extension? :: MethodName(s) != m.token
  }

  /** On the methods hyper builds, the name identifies the method. */
  lemma MethodNameInjective(a: Method, b: Method)
    requires WellFormed(a) && WellFormed(b)
    requires MethodName(a) == MethodName(b)
    ensures a == b
  {
  }

  lemma AllowValueExample(order: seq<Method>)
    requires order == [GET, PATCH]
    ensures AllowValue(order) == "GET, PATCH"
  {
    var names := seq(|order|, i requires 0 <= i < |order| => MethodName(order[i]));
    assert names[0] == "GET" && names[1] == "PATCH";
    assert names == ["GET", "PATCH"];
    assert Join(names, ", ") == "GET" + ", " + Join(["PATCH"], ", ");
  }
}
