/** The web framework of web/application.py: controllers whose actions are
    marked with `web.route` and `web.filter` decorators, an application that
    registers their routes and filters, and the request handling that runs
    an action through its chain of filters and turns the result into the
    response. The URL matching of the routes Mapper and the WebOb request
    and response objects are not part of this model: the matcher and the
    controller actions are parameters, and a response is a small value. */
module WebApplication {
  import opened Common
  import Middleware

  /** The keyword arguments of a route match, `controller` and `action` removed. */
  type Args = map<string, string>

  /** The body of a WebOb response: `body` (bytes) or `unicode_body`. */
  datatype Body = Bytes(bytes: string) | UnicodeText(text: string)

  datatype WebResponse = WebResponse(contentType: string, charset: string, body: Body)

  /** What an action or a filter returns: a str, a unicode, None, a response
      object, any other object, or an exception on its way out. */
  datatype Value = Str(s: string) | Unicode(u: string) | NoValue | Reply(response: WebResponse) | Other | Raised(error: string)

  /** The rest of a filter chain, called with the route arguments. */
  type Next = Args -> Value

  /** A filter is called with the rest of the chain and the route arguments. */
  type Filter = (Next, Args) -> Value

  /** The base `Filter.__call__`: hands the call on. */
  const PASS_ON: Filter := (next: Next, args: Args) => next(args)

  // ---------------------------------------------------------------------
  // Decorators

  /** One decorator line above an action. */
  datatype Decorator = RouteTo(path: string) | FilterWith(filter: Filter)

  /** The paths of the route decorators of a stack, top first. */
  function RoutesIn(ds: seq<Decorator>): (r: seq<string>)
    ensures |r| <= |ds|
  {
    if ds == [] then [] else (if ds[0].RouteTo? then [ds[0].path] else []) + RoutesIn(ds[1..])
  }

  /** The filters of the filter decorators of a stack, top first. */
  function FiltersIn(ds: seq<Decorator>): (r: seq<Filter>)
    ensures |r| <= |ds|
  {
    if ds == [] then [] else (if ds[0].FilterWith? then [ds[0].filter] else []) + FiltersIn(ds[1..])
  }

  function Reversed<T>(s: seq<T>): (r: seq<T>)
    ensures |r| == |s| && forall i | 0 <= i < |s| :: r[i] == s[|s| - 1 - i]
  {
    if s == [] then [] else Reversed(s[1..]) + [s[0]]
  }

  /** The `web` record a decorated function carries as `__web__`. */
  class Web {
    var paths: seq<string>
    var filters: seq<Filter>

    constructor ()
      ensures paths == [] && filters == []
    {
      paths := [];
      filters := [];
    }

    /** `web.route(path)`: appends the path. */
    method Route(path: string)
      modifies this
      ensures paths == old(paths) + [path] && filters == old(filters)
    {
      paths := paths + [path];
    }

    /** `web.filter(filter_)`: inserts the filter at the front. */
    method Filter(f: Filter)
      modifies this
      ensures filters == [f] + old(filters) && paths == old(paths)
    {
      filters := [f] + filters;
    }
  }

  /** Python applies a stack of decorators bottom up, so the filters end up in
      the order they are written, top first, and the paths bottom first. */
  method Decorate(w: Web, ds: seq<Decorator>)
    modifies w
    ensures w.filters == FiltersIn(ds) + old(w.filters)
    ensures w.paths == old(w.paths) + Reversed(RoutesIn(ds))
  {
    var k := |ds|;
    while k > 0
      invariant 0 <= k <= |ds|
      invariant w.filters == FiltersIn(ds[k..]) + old(w.filters)
      invariant w.paths == old(w.paths) + Reversed(RoutesIn(ds[k..]))
    {
      k := k - 1;
      DecoratorStep(ds, k);
      match ds[k] {
        case RouteTo(p) =>
          w.Route(p);
        case FilterWith(f) =>
          w.Filter(f);
      }
    }
  }

  /** What one decorator adds, applied after those below it. */
  lemma DecoratorStep(ds: seq<Decorator>, k: nat)
    requires k < |ds|
    ensures ds[k].FilterWith? ==> (FiltersIn(ds[k..]) == [ds[k].filter] + FiltersIn(ds[k + 1..]) &&
                                   RoutesIn(ds[k..]) == RoutesIn(ds[k + 1..]))
    ensures ds[k].RouteTo? ==> (FiltersIn(ds[k..]) == FiltersIn(ds[k + 1..]) &&
                                Reversed(RoutesIn(ds[k..])) == Reversed(RoutesIn(ds[k + 1..])) + [ds[k].path])
  {
    assert ds[k..][1..] == ds[k + 1..];
    if ds[k].RouteTo? {
      var r := RoutesIn(ds[k + 1..]);
      assert RoutesIn(ds[k..]) == [ds[k].path] + r;
      assert ([ds[k].path] + r)[1..] == r;
    } else {
      assert [] + FiltersIn(ds[k + 1..]) == FiltersIn(ds[k + 1..]);
    }
  }

  // ---------------------------------------------------------------------
  // Filter chains

  /** The chain `__call__` builds for a filter list: link i calls filter i
      with link i+1 as `next`; the link after the last filter calls the
      controller action and ignores its own `next`. */
  function Chain(filters: seq<Filter>, last: Next): (chain: Next)
    ensures (forall i, next: Next, a: Args | 0 <= i < |filters| :: filters[i](next, a) == next(a)) ==>
      forall a: Args :: chain(a) == last(a)
    decreases |filters|
  {
    if filters == [] then last
    else
      var rest := Chain(filters[1..], last);
      (args: Args) => filters[0](rest, args)
  }

  /** A chain of filters that hand the call on gives the action's result. */
  lemma {:induction false} PassOnChain(filters: seq<Filter>, last: Next, args: Args)
    requires forall i, next: Next, a: Args | 0 <= i < |filters| :: filters[i](next, a) == next(a)
    ensures Chain(filters, last)(args) == last(args)
    decreases |filters|
  {
    if filters != [] {
      PassOnChain(filters[1..], last, args);
      assert filters[0](Chain(filters[1..], last), args) == Chain(filters[1..], last)(args);
    }
  }

  /** `WrapperFilter(tag)` of the example application: `"<%s>%s</%s>"` around
      what the rest of the chain returns (str() of other objects is not
      modelled). */
  function WrapValue(tag: string, v: Value): (r: Value)
    ensures v.Str? ==> r == Str("<" + tag + ">" + v.s + "</" + tag + ">")
    ensures v.Raised? ==> r == v
  {
    match v
      case Str(s) => Str("<" + tag + ">" + s + "</" + tag + ">")
      case Unicode(u) => Unicode("<" + tag + ">" + u + "</" + tag + ">")
      case NoValue => Str("<" + tag + ">None</" + tag + ">")
      case Raised(e) => v
      case _ => Other
  }

  function Wrap(tag: string): Filter
  {
    (next: Next, args: Args) => WrapValue(tag, next(args))
  }

  function WrapAll(tags: seq<string>): (r: seq<Filter>)
    ensures |r| == |tags|
  {
    if tags == [] then [] else [Wrap(tags[0])] + WrapAll(tags[1..])
  }

  /** The opening tags, first filter outermost. */
  function Opening(tags: seq<string>): string
  {
    if tags == [] then "" else "<" + tags[0] + ">" + Opening(tags[1..])
  }

  /** The closing tags, first filter's last. */
  function Closing(tags: seq<string>): string
  {
    if tags == [] then "" else Closing(tags[1..]) + "</" + tags[0] + ">"
  }

  /** Wrapping filters nest in list order: the first filter's tag is
      outermost (`<h1><strong>...</strong></h1>` for `['h1', 'strong']`). */
  lemma {:induction false} WrapChain(tags: seq<string>, last: Next, args: Args, s: string)
    requires last(args) == Str(s)
    ensures Chain(WrapAll(tags), last)(args) == Str(Opening(tags) + s + Closing(tags))
    decreases |tags|
  {
    if tags != [] {
      var t := tags[0];
      var rest := Chain(WrapAll(tags[1..]), last);
      assert WrapAll(tags)[1..] == WrapAll(tags[1..]);
      WrapChain(tags[1..], last, args, s);
      var inner := Opening(tags[1..]) + s + Closing(tags[1..]);
      assert Chain(WrapAll(tags), last)(args) == WrapValue(t, rest(args));
      TagAround(t, Opening(tags[1..]), s, Closing(tags[1..]));
    }
  }

  lemma TagAround(t: string, a: string, s: string, c: string)
    ensures "<" + t + ">" + (a + s + c) + "</" + t + ">" == ("<" + t + ">" + a) + s + (c + "</" + t + ">")
  {
  }

  /** `result += v` on two results. */
  function Concat(a: Value, b: Value): (r: Value)
    ensures a.Str? && b.Str? ==> r == Str(a.s + b.s)
  {
    match (a, b)
      case (_, Raised(_)) => b
      case (Raised(_), _) => a
      case (Str(x), Str(y)) => Str(x + y)
      case (Str(x), Unicode(y)) => Unicode(x + y)
      case (Unicode(x), Str(y)) => Unicode(x + y)
      case (Unicode(x), Unicode(y)) => Unicode(x + y)
      case _ => Raised("TypeError")
  }

  /** `n` more rounds of `result += next(...)`, each call giving `v`. */
  function Repeat(acc: Value, n: nat, v: Value): Value
    decreases n
  {
    if n == 0 then acc else Repeat(Concat(acc, v), n - 1, v)
  }

  /** `CallManyFilter(n)` of the tests: calls the rest of the chain `n` times
      and concatenates the results, starting from `''`. */
  function CallMany(n: nat): Filter
  {
    (next: Next, args: Args) => Repeat(Str(""), n, next(args))
  }

  function RepeatText(s: string, n: nat): (r: string)
    ensures |r| == n * |s|
  {
    if n == 0 then "" else RepeatText(s, n - 1) + s
  }

  lemma {:induction false} RepeatStr(acc: string, n: nat, s: string)
    ensures Repeat(Str(acc), n, Str(s)) == Str(acc + RepeatText(s, n))
    decreases n
  {
    if n > 0 {
      RepeatStr(acc + s, n - 1, s);
      RepeatTextCons(s, n);
      assert acc + s + RepeatText(s, n - 1) == acc + RepeatText(s, n);
    }
  }

  lemma {:induction false} RepeatTextCons(s: string, n: nat)
    requires n > 0
    ensures RepeatText(s, n) == s + RepeatText(s, n - 1)
    decreases n
  {
    if n > 1 {
      RepeatTextCons(s, n - 1);
    }
  }

  /** An action returning `s` behind a `CallManyFilter(n)` answers `s * n`. */
  lemma CallManyChain(n: nat, last: Next, args: Args, s: string)
    requires last(args) == Str(s)
    ensures Chain([CallMany(n)], last)(args) == Str(RepeatText(s, n))
  {
    assert [CallMany(n)][1..] == [];
    RepeatStr("", n, s);
  }

  // ---------------------------------------------------------------------
  // Results

  /** The default response of a request: text/html in UTF-8, empty body. */
  const DEFAULT_RESPONSE := WebResponse("text/html", "UTF-8", Bytes(""))

  const ASSERTION_ERROR := "AssertionError"

  /** The text a result puts in the body. */
  function BodyText(b: Body): string
  {
    match b
      case Bytes(s) => s
      case UnicodeText(u) => u
  }

  /** The result dispatch of `__call__`: a str becomes `body`, a unicode
      `unicode_body`, None an empty body, a response object replaces the
      response; anything else fails the assertion. An exception raised in the
      chain propagates. */
  function Dispatch(result: Value, response: WebResponse): (r: Result<WebResponse>)
    ensures r.Ok? <==> (result.Str? || result.Unicode? || result.NoValue? || result.Reply?)
    ensures result.Reply? ==> r == Ok(result.response)
    ensures (result.Str? || result.Unicode? || result.NoValue?) ==>
      r.value.contentType == response.contentType && r.value.charset == response.charset &&
      BodyText(r.value.body) == (if result.Str? then result.s else if result.Unicode? then result.u else "") &&
      (r.value.body.UnicodeText? <==> result.Unicode?)
    ensures result.Other? ==> r == Err(ASSERTION_ERROR)
    ensures result.Raised? ==> r == Err(result.error)
  {
    match result
      case Str(s) => Ok(response.(body := Bytes(s)))
      case Unicode(u) => Ok(response.(body := UnicodeText(u)))
      case NoValue => Ok(response.(body := Bytes("")))
      case Reply(x) => Ok(x)
      case Other => Err(ASSERTION_ERROR)
      case Raised(e) => Err(e)
  }

  // ---------------------------------------------------------------------
  // The application

  /** A (controller, action) pair. */
  type Key = (string, string)

  /** An action as `add_controller` finds it: the method's name and the
      paths and filters its decorators left in `__web__`. */
  datatype Action = Action(name: string, paths: seq<string>, filters: seq<Filter>)

  /** One `_mapper.connect(path, controller=..., action=...)`. */
  datatype Route = Route(path: string, controller: string, action: string)

  /** A Mapper match: the controller and action names and the other arguments. */
  datatype Match = Match(controller: string, action: string, args: Args)

  function PathRoutes(controller: string, action: string, paths: seq<string>): (r: seq<Route>)
    ensures |r| == |paths| && forall i | 0 <= i < |paths| :: r[i] == Route(paths[i], controller, action)
  {
    if paths == [] then [] else PathRoutes(controller, action, paths[..|paths| - 1]) + [Route(paths[|paths| - 1], controller, action)]
  }

  /** The routes of a controller's actions, action by action, path by path. */
  function RoutesOf(controller: string, actions: seq<Action>): seq<Route>
  {
    if actions == [] then [] else PathRoutes(controller, actions[0].name, actions[0].paths) + RoutesOf(controller, actions[1..])
  }

  /** `self._filters.get(key, [])`. */
  function Get(filters: map<Key, seq<Filter>>, key: Key): seq<Filter>
  {
    if key in filters then filters[key] else []
  }

  /** The filter lists after `_add_filter` of each of `fs` for one key: the
      key gets a list once a filter is added to it. */
  function Extend(filters: map<Key, seq<Filter>>, key: Key, fs: seq<Filter>): (r: map<Key, seq<Filter>>)
    ensures Get(r, key) == Get(filters, key) + fs
    ensures forall other | other != key :: Get(r, other) == Get(filters, other)
  {
    if fs == [] then filters else filters[key := Get(filters, key) + fs]
  }

  /** Adding one more filter to an extended list. */
  lemma ExtendOne(filters: map<Key, seq<Filter>>, key: Key, fs: seq<Filter>, f: Filter)
    ensures var m := Extend(filters, key, fs);
      m[key := Get(m, key) + [f]] == Extend(filters, key, fs + [f])
  {
    var m := Extend(filters, key, fs);
    assert Get(m, key) + [f] == Get(filters, key) + (fs + [f]);
    if fs != [] {
      assert m[key := Get(m, key) + [f]] == filters[key := Get(filters, key) + (fs + [f])];
    }
  }

  /** The filter lists after `add_controller` registered, for each action,
      the controller's filters and then the action's own. */
  function Registered(filters: map<Key, seq<Filter>>, controller: string, controllerFilters: seq<Filter>,
                      actions: seq<Action>): map<Key, seq<Filter>>
    decreases |actions|
  {
    if actions == [] then filters
    else
      var key := (controller, actions[0].name);
      Registered(Extend(filters, key, controllerFilters + actions[0].filters), controller, controllerFilters, actions[1..])
  }

  /** For an action listed once, its filters are what it had, then the
      controller-level filters, then its own. */
  lemma {:induction false} ControllerFiltersFirst(filters: map<Key, seq<Filter>>, controller: string,
                                                  controllerFilters: seq<Filter>, actions: seq<Action>, i: nat)
    requires i < |actions| && forall j | 0 <= j < |actions| && j != i :: actions[j].name != actions[i].name
    ensures var key := (controller, actions[i].name);
      Get(Registered(filters, controller, controllerFilters, actions), key) ==
        Get(filters, key) + controllerFilters + actions[i].filters
    decreases |actions|
  {
    var key := (controller, actions[0].name);
    var next := Extend(filters, key, controllerFilters + actions[0].filters);
    if i == 0 {
      UnlistedKept(next, controller, controllerFilters, actions[1..], key);
    } else {
      forall j | 0 <= j < |actions[1..]| && j != i - 1 ensures actions[1..][j].name != actions[1..][i - 1].name {
        assert actions[1..][j] == actions[j + 1];
      }
      ControllerFiltersFirst(next, controller, controllerFilters, actions[1..], i - 1);
      assert actions[1..][i - 1] == actions[i];
      assert actions[0].name != actions[i].name;
    }
  }

  /** A key of no listed action keeps its filters. */
  lemma {:induction false} UnlistedKept(filters: map<Key, seq<Filter>>, controller: string,
                                        controllerFilters: seq<Filter>, actions: seq<Action>, key: Key)
    requires key.0 != controller || forall j | 0 <= j < |actions| :: actions[j].name != key.1
    ensures Get(Registered(filters, controller, controllerFilters, actions), key) == Get(filters, key)
    decreases |actions|
  {
    if actions != [] {
      var k := (controller, actions[0].name);
      assert k != key;
      var next := Extend(filters, k, controllerFilters + actions[0].filters);
      assert Get(next, key) == Get(filters, key);
      if key.0 == controller {
        forall j | 0 <= j < |actions[1..]| ensures actions[1..][j].name != key.1 {
          assert actions[1..][j] == actions[j + 1];
        }
      }
      UnlistedKept(next, controller, controllerFilters, actions[1..], key);
    }
  }

  /** One action of `add_controller` done: its routes and filters move from
      the work left to the state. */
  lemma ActionStep(routes: seq<Route>, filters: map<Key, seq<Filter>>, controller: string, controllerFilters: seq<Filter>,
                   actions: seq<Action>, k: nat)
    requires k < |actions|
    ensures var a := actions[k];
      routes + RoutesOf(controller, actions[k..]) ==
        (routes + PathRoutes(controller, a.name, a.paths)) + RoutesOf(controller, actions[k + 1..]) &&
      Registered(filters, controller, controllerFilters, actions[k..]) ==
        Registered(Extend(filters, (controller, a.name), controllerFilters + a.filters), controller, controllerFilters, actions[k + 1..])
  {
    assert actions[k..][1..] == actions[k + 1..];
  }

  /** The result of a request. */
  datatype Reply = NotFound(notFound: Middleware.Response) | Served(response: WebResponse)

  /** `call_controller`: KeyError for an unknown controller. */
  function CallController(controllers: set<string>, key: Key, args: Args, invoke: (string, string, Args) -> Value): Value
  {
    if key.0 !in controllers then Raised(Middleware.KEY_ERROR) else invoke(key.0, key.1, args)
  }

  function Last(controllers: set<string>, key: Key, invoke: (string, string, Args) -> Value): Next
  {
    (args: Args) => CallController(controllers, key, args, invoke)
  }

  /** The chain cache after a request: a chain is built from the filters
      registered at the first request for a (controller, action), and kept. */
  function ChainsAfter(chains: map<Key, seq<Filter>>, filters: map<Key, seq<Filter>>, environ: Middleware.Environ,
                       matcher: string -> Option<Match>): (r: map<Key, seq<Filter>>)
    ensures chains.Keys <= r.Keys && forall key | key in chains :: r[key] == chains[key]
  {
    if Middleware.PATH_INFO !in environ then chains
    else match matcher(environ[Middleware.PATH_INFO])
      case None => chains
      case Some(m) =>
        var key := (m.controller, m.action);
        if key in chains then chains else chains[key := Get(filters, key)]
  }

  /** The reply to a request, given the chain cache after it. */
  function Respond(chains: map<Key, seq<Filter>>, controllers: set<string>, environ: Middleware.Environ,
                   matcher: string -> Option<Match>, invoke: (string, string, Args) -> Value): (r: Result<Reply>)
    ensures Middleware.PATH_INFO !in environ ==> r == Err(Middleware.KEY_ERROR)
    ensures Middleware.PATH_INFO in environ && matcher(environ[Middleware.PATH_INFO]).None? ==>
      r == Ok(NotFound(Middleware.Call(Middleware.RESPONSE_NOT_FOUND).value))
  {
    if Middleware.PATH_INFO !in environ then Err(Middleware.KEY_ERROR)
    else match matcher(environ[Middleware.PATH_INFO])
      case None => Ok(NotFound(Middleware.Call(Middleware.RESPONSE_NOT_FOUND).value))
      case Some(m) =>
        var key := (m.controller, m.action);
        var filters := if key in chains then chains[key] else [];
        match Dispatch(Chain(filters, Last(controllers, key, invoke))(m.args), DEFAULT_RESPONSE)
          case Ok(x) => Ok(Served(x))
          case Err(e) => Err(e)
  }

  /** Once a chain is cached, filters registered later do not change the
      reply: the second request answers as the first did. */
  lemma CachedChainKept(chains: map<Key, seq<Filter>>, f1: map<Key, seq<Filter>>, f2: map<Key, seq<Filter>>,
                        controllers: set<string>, environ: Middleware.Environ, matcher: string -> Option<Match>,
                        invoke: (string, string, Args) -> Value)
    ensures var c1 := ChainsAfter(chains, f1, environ, matcher);
      ChainsAfter(c1, f2, environ, matcher) == c1 &&
      Respond(ChainsAfter(c1, f2, environ, matcher), controllers, environ, matcher, invoke) ==
        Respond(c1, controllers, environ, matcher, invoke)
  {
  }

  /** `Application`. */
  class Application {
    var controllers: set<string>
    var routes: seq<Route>
    var filters: map<Key, seq<Filter>>
    var chains: map<Key, seq<Filter>>

    constructor ()
      ensures controllers == {} && routes == [] && filters == map[] && chains == map[]
    {
      controllers := {};
      routes := [];
      filters := map[];
      chains := map[];
    }

    /** `_add_filter`: appends to the filter list of (controller, action). */
    method AddFilter(f: Filter, controller: string, action: string)
      modifies this
      ensures filters == old(filters)[(controller, action) := Get(old(filters), (controller, action)) + [f]]
      ensures controllers == old(controllers) && routes == old(routes) && chains == old(chains)
    {
      var key := (controller, action);
      if key !in filters {
        filters := filters[key := []];
      }
      filters := filters[key := filters[key] + [f]];
    }

    /** `_add_route` for each path of an action, in order. */
    method Connect(paths: seq<string>, controller: string, action: string)
      modifies this
      ensures routes == old(routes) + PathRoutes(controller, action, paths)
      ensures controllers == old(controllers) && filters == old(filters) && chains == old(chains)
    {
      var j := 0;
      while j < |paths|
        invariant 0 <= j <= |paths|
        invariant routes == old(routes) + PathRoutes(controller, action, paths[..j])
        invariant controllers == old(controllers) && filters == old(filters) && chains == old(chains)
      {
        assert paths[..j + 1][..j] == paths[..j];
        routes := routes + [Route(paths[j], controller, action)];
        j := j + 1;
      }
      assert paths[..j] == paths;
    }

    /** `_add_filter` for each filter of a list, in order. */
    method AddFilters(fs: seq<Filter>, controller: string, action: string)
      modifies this
      ensures filters == Extend(old(filters), (controller, action), fs)
      ensures controllers == old(controllers) && routes == old(routes) && chains == old(chains)
    {
      var key := (controller, action);
      var j := 0;
      while j < |fs|
        invariant 0 <= j <= |fs|
        invariant filters == Extend(old(filters), key, fs[..j])
        invariant controllers == old(controllers) && routes == old(routes) && chains == old(chains)
      {
        AddFilter(fs[j], controller, action);
        assert fs[..j + 1] == fs[..j] + [fs[j]];
        ExtendOne(old(filters), key, fs[..j], fs[j]);
        j := j + 1;
      }
      assert fs[..j] == fs;
    }

    /** `add_controller`: registers the controller under
        `module + '.' + class name`, and for each action connects its paths
        and adds the controller's filters, then the action's own. */
    method AddController(moduleName: string, className: string, controllerFilters: seq<Filter>, actions: seq<Action>)
      returns (name: string)
      modifies this
      ensures name == moduleName + "." + className
      ensures controllers == old(controllers) + {name}
      ensures routes == old(routes) + RoutesOf(name, actions)
      ensures filters == Registered(old(filters), name, controllerFilters, actions)
      ensures chains == old(chains)
    {
      name := moduleName + "." + className;
      controllers := controllers + {name};
      var k := 0;
      while k < |actions|
        invariant 0 <= k <= |actions|
        invariant controllers == old(controllers) + {name} && chains == old(chains)
        invariant old(routes) + RoutesOf(name, actions) == routes + RoutesOf(name, actions[k..])
        invariant Registered(old(filters), name, controllerFilters, actions) ==
          Registered(filters, name, controllerFilters, actions[k..])
      {
        var action := actions[k];
        ActionStep(routes, filters, name, controllerFilters, actions, k);
        Connect(action.paths, name, action.name);
        AddFilters(controllerFilters + action.filters, name, action.name);
        k := k + 1;
      }
    }

    /** `__call__`: KeyError without PATH_INFO, the not-found response when
        the Mapper does not match; otherwise the chain of the matched
        (controller, action), built on first use, is run with the match
        arguments and its result dispatched into the response. */
    method Call(environ: Middleware.Environ, matcher: string -> Option<Match>, invoke: (string, string, Args) -> Value)
      returns (r: Result<Reply>)
      modifies this
      ensures controllers == old(controllers) && routes == old(routes) && filters == old(filters)
      ensures chains == ChainsAfter(old(chains), filters, environ, matcher)
      ensures r == Respond(chains, controllers, environ, matcher, invoke)
    {
      if Middleware.PATH_INFO !in environ {
        return Err(Middleware.KEY_ERROR);
      }
      var m := matcher(environ[Middleware.PATH_INFO]);
      if m.None? {
        return Ok(NotFound(Middleware.Call(Middleware.RESPONSE_NOT_FOUND).value));
      }
      var key := (m.value.controller, m.value.action);
      if key !in chains {
        chains := chains[key := Get(filters, key)];
      }
      var result := Chain(chains[key], Last(controllers, key, invoke))(m.value.args);
      match Dispatch(result, DEFAULT_RESPONSE) {
        case Ok(x) => r := Ok(Served(x));
        case Err(e) => r := Err(e);
      }
    }
  }

  /** A filter added after the first request for an action is not applied:
      the chain was cached without it. */
  method LateFilterIgnored() returns (first: Result<Reply>, second: Result<Reply>)
    ensures first == second == Ok(Served(DEFAULT_RESPONSE.(body := Bytes("blaat"))))
  {
    var app := new Application();
    var name := app.AddController("test", "Controller", [], [Action("many", ["/many"], [])]);
    var environ := map[Middleware.PATH_INFO := "/many"];
    var matcher := (p: string) => Some(Match(name, "many", map[]));
    var invoke := (c: string, a: string, args: Args) => Str("blaat");
    first := app.Call(environ, matcher, invoke);
    app.AddFilter(CallMany(10), name, "many");
    second := app.Call(environ, matcher, invoke);
  }
}
