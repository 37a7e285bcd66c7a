/**
 * The request-dispatch front half of the server: building the host registry,
 * resolving a request's `Host` to a tenant, assembling the script request and
 * chaining the stages of one request.
 */
module DinoServer {

  import opened Wrappers
  import opened Collect
  import opened Router
  import opened Engine
  import opened Error
  import Utf8

  /** One tenant as handed to the server at start-up. */
  datatype TenantRouter = TenantRouter(host: string, router: SwappableAppRouter)

  /** Shared server state; the key is the host name as registered. */
  datatype AppState = AppState(routers: map<string, SwappableAppRouter>)

  /** The request URI: its full text and its path component. */
  datatype Uri = Uri(text: string, path: string)

  /**
   * Request head: method, URI and the header lines in order, values as raw
   * bytes. Header names arrive as the `http` crate stores them, in lower case,
   * so names differing only in case are already one name here.
   */
  datatype Parts = Parts(httpMethod: string, uri: Uri, headers: seq<(string, seq<Utf8.byte>)>)

  /**
   * The collaborators whose code lives in modules this model does not include:
   * route matching against a snapshot, loading a bundle into a script runtime,
   * and running one handler export of it.
   */
  datatype Collaborators = Collaborators(
    matchIt: (AppRouter, string, string) -> Result<Matched, AppError>,
    tryNewWorker: string -> Result<JsWorker, AppError>,
    run: (JsWorker, string, Req) -> Result<Res, AppError>)

  // ---------------------------------------------------------------------------
  // Host normalisation and tenant lookup

  /** `host.find(":").unwrap_or(host.len())`: where the first ':' is, or the length. */
  function ColonIndex(host: string): (i: nat)
    ensures i <= |host|
    ensures forall j :: 0 <= j < i ==> host[j] != ':'
    ensures i < |host| ==> host[i] == ':'
  {
    if |host| == 0 || host[0] == ':' then 0 else 1 + ColonIndex(host[1..])
  }

  /** The host with everything from its first ':' on cut away. */
  function StripPort(host: string): (h: string)
    ensures h <= host
    ensures ':' !in h
    ensures |h| < |host| ==> host[|h|] == ':'
  {
    host[..ColonIndex(host)]
  }

  /**
   * The tenant lookup of one request: the router currently held for the
   * stripped host, or `HostNotFound` carrying the stripped host.
   */
  function RouterForHost(host: string, state: AppState): (r: Result<AppRouter, AppError>)
    ensures r.Success? <==> StripPort(host) in state.routers
    ensures r.Success? ==> r.value == state.routers[StripPort(host)].current
    ensures r.Failure? ==> r.error == HostNotFound(StripPort(host))
  {
    var h := StripPort(host);
    if h in state.routers then Success(state.routers[h].Load()) else Failure(HostNotFound(h))
  }

  /** The lookup as the server performs it: scan for ':' and truncate the host there. */
  method GetRouterByHost(host: string, state: AppState) returns (r: Result<AppRouter, AppError>)
    ensures r == RouterForHost(host, state)
  {
    // the scan `ColonIndex` specifies: stop at the first ':' or the end
    var i := 0;
    while i < |host| && host[i] != ':'
      invariant 0 <= i <= |host|
      invariant forall j :: 0 <= j < i ==> host[j] != ':'
    {
      i := i + 1;
    }
    StripPortUnique(host, host[..i]);
    var h := host[..i];
    if h in state.routers {
      r := Success(state.routers[h].Load());
    } else {
      r := Failure(HostNotFound(h));
    }
  }

  /** Stripping leaves exactly the longest ':'-free prefix that ends at a ':' or at the end. */
  lemma StripPortUnique(host: string, p: string)
    requires p <= host && ':' !in p
    requires |p| == |host| || host[|p|] == ':'
    ensures p == StripPort(host)
  {
  }

  /** A host without ':' is left unchanged. */
  lemma StripPortNoColon(host: string)
    requires ':' !in host
    ensures StripPort(host) == host
  {
  }

  /** Stripping is idempotent. */
  lemma StripPortIdempotent(host: string)
    ensures StripPort(StripPort(host)) == StripPort(host)
  {
  }

  /** `name:port` resolves like `name` whatever the port text is. */
  lemma {:induction false} StripPortOfHostWithPort(name: string, port: string)
    requires ':' !in name
    ensures StripPort(name + ":" + port) == name
  {
    var host := name + ":" + port;
    assert host[|name|] == ':';
    assert host[..|name|] == name;
    StripPortUnique(host, name);
  }

  // ---------------------------------------------------------------------------
  // Registry construction

  /** The (host, router) pairs of the start-up list, in order. */
  function Entries(routes: seq<TenantRouter>): seq<(string, SwappableAppRouter)>
  {
    seq(|routes|, i requires 0 <= i < |routes| => (routes[i].host, routes[i].router))
  }

  /** The start-up loop that inserts every tenant into the registry in list order. */
  method BuildRegistry(routes: seq<TenantRouter>) returns (state: AppState)
    ensures state.routers == ToMap(Entries(routes))
    ensures forall h :: h in state.routers <==> exists i :: 0 <= i < |routes| && routes[i].host == h
    ensures forall i :: 0 <= i < |routes| && (forall j :: i < j < |routes| ==> routes[j].host != routes[i].host) ==>
              routes[i].host in state.routers && state.routers[routes[i].host] == routes[i].router
  {
    var m: map<string, SwappableAppRouter> := map[];
    for i := 0 to |routes|
      invariant m == ToMap(Entries(routes)[..i])
    {
      assert Entries(routes)[..i + 1][..i] == Entries(routes)[..i];
      m := m[routes[i].host := routes[i].router];
    }
    assert Entries(routes)[..|routes|] == Entries(routes);
    state := AppState(m);
    RegistryOfEntries(routes);
  }

  /** The collected entries, stated in terms of the start-up list. */
  lemma RegistryOfEntries(routes: seq<TenantRouter>)
    ensures forall h :: h in ToMap(Entries(routes)) <==> exists i :: 0 <= i < |routes| && routes[i].host == h
    ensures forall i :: 0 <= i < |routes| && (forall j :: i < j < |routes| ==> routes[j].host != routes[i].host) ==>
              routes[i].host in ToMap(Entries(routes)) && ToMap(Entries(routes))[routes[i].host] == routes[i].router
  {
    var ps := Entries(routes);
    var m := ToMap(ps);
    assert |ps| == |routes|;
    assert forall i :: 0 <= i < |ps| ==> ps[i].0 == routes[i].host && ps[i].1 == routes[i].router;
    ToMapSpec(ps);
    assert Collected(m, ps);
    forall h | h in m ensures exists i :: 0 <= i < |routes| && routes[i].host == h {
      var i :| 0 <= i < |ps| && ps[i].0 == h;
      assert routes[i].host == h;
    }
    forall h | exists i :: 0 <= i < |routes| && routes[i].host == h ensures h in m {
      var i :| 0 <= i < |routes| && routes[i].host == h;
      assert ps[i].0 == h;
    }
    forall i | 0 <= i < |routes| && (forall j :: i < j < |routes| ==> routes[j].host != routes[i].host)
      ensures routes[i].host in m && m[routes[i].host] == routes[i].router
    {
      assert LastOf(ps, i);
    }
  }

  // ---------------------------------------------------------------------------
  // Request assembly

  /** What `HeaderValue::to_str` accepts: tab and the visible ASCII range. */
  predicate VisibleAscii(v: seq<Utf8.byte>) {
    forall i :: 0 <= i < |v| ==> v[i] == 0x09 || 0x20 <= v[i] < 0x7F
  }

  predicate HeadersVisible(headers: seq<(string, seq<Utf8.byte>)>) {
    forall i :: 0 <= i < |headers| ==> VisibleAscii(headers[i].1)
  }

  /** `HeaderValue::to_str`: each byte read as the character of the same number. */
  function HeaderValueStr(v: seq<Utf8.byte>): (s: string)
    requires VisibleAscii(v)
    ensures Utf8.Valid(v) && Utf8.Decode(v) == s
    ensures Utf8.Encode(s) == v
  {
    AsciiDecodes(v);
    Utf8.EncodeDecode(v);
    seq(|v|, i requires 0 <= i < |v| => (v[i] as int) as char)
  }

  /** Bytes below 0x80 are each a UTF8-char on their own, decoding to the same number. */
  lemma {:induction false} AsciiDecodes(v: seq<Utf8.byte>)
    requires forall i :: 0 <= i < |v| ==> v[i] < 0x80
    ensures Utf8.Valid(v)
    ensures Utf8.Decode(v) == seq(|v|, i requires 0 <= i < |v| => (v[i] as int) as char)
    decreases |v|
  {
    if |v| != 0 {
      assert Utf8.CharWidth(v) == 1;
      AsciiDecodes(v[1..]);
    }
  }

  /** Header lines as (name, value text) pairs. */
  function HeaderPairs(headers: seq<(string, seq<Utf8.byte>)>): (ps: seq<(string, string)>)
    requires HeadersVisible(headers)
    ensures |ps| == |headers|
    ensures forall i :: 0 <= i < |headers| ==> ps[i].0 == headers[i].0 && Utf8.Encode(ps[i].1) == headers[i].1
  {
    seq(|headers|, i requires 0 <= i < |headers| && HeadersVisible(headers) => (headers[i].0, HeaderValueStr(headers[i].1)))
  }

  /** The body as the script sees it: present only when the bytes decode as UTF-8. */
  function BodyText(body: Option<seq<Utf8.byte>>): (s: Option<string>)
    ensures s.Some? <==> body.Some? && Utf8.Valid(body.value)
    ensures s.Some? ==> Utf8.Encode(s.value) == body.value
  {
    match body
    case None => None
    case Some(b) => Utf8.FromUtf8(b)
  }

  /**
   * Builds the script request from the route match, the request head, the
   * query map and the optional body. It never fails.
   */
  function AssembleReq(matched: Matched, parts: Parts, query: map<string, string>, body: Option<seq<Utf8.byte>>)
    : (r: Result<Req, AppError>)
    requires HeadersVisible(parts.headers)
    ensures r.Success?
    ensures r.value.httpMethod == parts.httpMethod && r.value.url == parts.uri.text && r.value.query == query
    ensures Collected(r.value.params, matched.params)
    ensures HeadersCollected(r.value.headers, parts.headers)
    ensures r.value.body.Some? <==> body.Some? && Utf8.Valid(body.value)
    ensures r.value.body.Some? ==> Utf8.Encode(r.value.body.value) == body.value
  {
    var params := ToMap(matched.params);
    var headers := ToMap(HeaderPairs(parts.headers));
    ToMapSpec(matched.params);
    AssembledHeaders(parts.headers);
    Success(Req(parts.httpMethod, parts.uri.text, query, params, headers, BodyText(body)))
  }

  /**
   * The header map's keys are exactly the header names, and the last line of
   * a name gives its value, whose UTF-8 encoding is that line's bytes.
   */
  ghost predicate HeadersCollected(m: map<string, string>, headers: seq<(string, seq<Utf8.byte>)>) {
    && (forall k :: k in m <==> exists i :: 0 <= i < |headers| && headers[i].0 == k)
    && (forall i :: 0 <= i < |headers| && LastOf(headers, i) ==> headers[i].0 in m && Utf8.Encode(m[headers[i].0]) == headers[i].1)
  }

  /** Header names become the keys; the last line of a name gives its value, whose bytes are kept. */
  lemma AssembledHeaders(headers: seq<(string, seq<Utf8.byte>)>)
    requires HeadersVisible(headers)
    ensures HeadersCollected(ToMap(HeaderPairs(headers)), headers)
  {
    var ps := HeaderPairs(headers);
    var m := ToMap(ps);
    ToMapSpec(ps);
    assert Collected(m, ps);
    forall k | k in m ensures exists i :: 0 <= i < |headers| && headers[i].0 == k {
      var i :| 0 <= i < |ps| && ps[i].0 == k;
      assert headers[i].0 == k;
    }
    forall i | 0 <= i < |headers| && LastOf(headers, i)
      ensures headers[i].0 in m && Utf8.Encode(m[headers[i].0]) == headers[i].1
    {
      assert LastOf(ps, i);
    }
  }

  // ---------------------------------------------------------------------------
  // The dispatch pipeline

  /**
   * One request: resolve the host, match the route, assemble the request,
   * load the bundle and run the handler. The first failing stage ends it.
   */
  function Handler(
    state: AppState, parts: Parts, host: string, query: map<string, string>,
    body: Option<seq<Utf8.byte>>, env: Collaborators): (r: Result<Res, AppError>)
    requires StripPort(host) in state.routers
             && env.matchIt(state.routers[StripPort(host)].current, parts.httpMethod, parts.uri.path).Success?
             ==> HeadersVisible(parts.headers)
    ensures StripPort(host) !in state.routers ==> r == Failure(HostNotFound(StripPort(host)))
    ensures r.Success? ==> StripPort(host) in state.routers
  {
    var router :- RouterForHost(host, state);
    var matched :- env.matchIt(router, parts.httpMethod, parts.uri.path);
    var req :- AssembleReq(matched, parts, query, body);
    var worker :- env.tryNewWorker(router.code);
    env.run(worker, matched.value, req)
  }

  /** An unknown host ends the request before route matching, whatever the collaborators would do. */
  lemma UnknownHostStopsPipeline(
    state: AppState, parts: Parts, host: string, query: map<string, string>,
    body: Option<seq<Utf8.byte>>, env1: Collaborators, env2: Collaborators)
    requires StripPort(host) !in state.routers
    ensures Handler(state, parts, host, query, body, env1) == Handler(state, parts, host, query, body, env2)
    ensures Handler(state, parts, host, query, body, env1) == Failure(HostNotFound(StripPort(host)))
  {
  }

  /**
   * A failed route match is the request's outcome: neither loading the
   * bundle nor running a handler has any say in it.
   */
  lemma RouteMissStopsPipeline(
    state: AppState, parts: Parts, host: string, query: map<string, string>,
    body: Option<seq<Utf8.byte>>, env1: Collaborators, env2: Collaborators)
    requires StripPort(host) in state.routers
    requires env1.matchIt == env2.matchIt
    requires env1.matchIt(state.routers[StripPort(host)].current, parts.httpMethod, parts.uri.path).Failure?
    ensures Handler(state, parts, host, query, body, env1) == Handler(state, parts, host, query, body, env2)
    ensures Handler(state, parts, host, query, body, env1)
         == env1.matchIt(state.routers[StripPort(host)].current, parts.httpMethod, parts.uri.path).PropagateFailure()
  {
  }

  /** A bundle that fails to load is the request's outcome: no handler runs. */
  lemma WorkerInitFailureStopsPipeline(
    state: AppState, parts: Parts, host: string, query: map<string, string>,
    body: Option<seq<Utf8.byte>>, env1: Collaborators, env2: Collaborators)
    requires HeadersVisible(parts.headers)
    requires StripPort(host) in state.routers
    requires env1.matchIt == env2.matchIt && env1.tryNewWorker == env2.tryNewWorker
    requires env1.matchIt(state.routers[StripPort(host)].current, parts.httpMethod, parts.uri.path).Success?
    requires env1.tryNewWorker(state.routers[StripPort(host)].current.code).Failure?
    ensures Handler(state, parts, host, query, body, env1) == Handler(state, parts, host, query, body, env2)
    ensures Handler(state, parts, host, query, body, env1)
         == env1.tryNewWorker(state.routers[StripPort(host)].current.code).PropagateFailure()
  {
  }

  /**
   * When every earlier stage succeeds, the outcome is the handler's, run on
   * the tenant's current bundle with the matched handler name and a request
   * that carries the method, URL and query through unchanged.
   */
  lemma HandlerRunsMatchedHandler(
    state: AppState, parts: Parts, host: string, query: map<string, string>,
    body: Option<seq<Utf8.byte>>, env: Collaborators)
    requires HeadersVisible(parts.headers)
    requires StripPort(host) in state.routers
    requires env.matchIt(state.routers[StripPort(host)].current, parts.httpMethod, parts.uri.path).Success?
    requires env.tryNewWorker(state.routers[StripPort(host)].current.code).Success?
    ensures
      var router := state.routers[StripPort(host)].current;
      var matched := env.matchIt(router, parts.httpMethod, parts.uri.path).value;
      var req := AssembleReq(matched, parts, query, body).value;
      && Handler(state, parts, host, query, body, env) == env.run(env.tryNewWorker(router.code).value, matched.value, req)
      && req.httpMethod == parts.httpMethod && req.url == parts.uri.text && req.query == query
  {
  }

  /**
   * Lookup compares hosts exactly: a host registered in lower case is not
   * found when its first letter arrives in upper case.
   */
  lemma HostLookupIsCaseSensitive(name: string, router: SwappableAppRouter)
    requires ':' !in name && |name| != 0 && 'a' <= name[0] <= 'z'
    ensures
      var upper := [((name[0] as int) - 0x20) as char] + name[1..];
      RouterForHost(upper, AppState(map[name := router])) == Failure(HostNotFound(upper))
  {
    var upper := [((name[0] as int) - 0x20) as char] + name[1..];
    assert upper[0] != name[0];
    assert forall i :: 1 <= i < |upper| ==> upper[i] == name[i];
    StripPortNoColon(upper);
  }

  /** The cut is at the first ':', so a bracketed IPv6 literal keeps only its '['. */
  lemma Ipv6LiteralHostIsCutAtFirstColon()
    ensures StripPort("[::1]:8080") == "["
  {
  }

  /**
   * `GET /hello/world` with `Host: a.example.com:<port>` against a tenant whose
   * matcher binds `name` to `world` for handler `greet`: the handler `greet`
   * runs on that tenant's bundle with `params == {name: world}`.
   */
  lemma GreetScenario(code: string, routes: ProjectRoutes, env: Collaborators, port: string)
    requires env.matchIt(AppRouter(code, routes), "GET", "/hello/world") == Success(Matched("greet", [("name", "world")]))
    requires env.tryNewWorker(code) == Success(JsWorker(code))
    ensures
      var state := AppState(map["a.example.com" := SwappableAppRouter(AppRouter(code, routes))]);
      var parts := Parts("GET", Uri("/hello/world", "/hello/world"), []);
      var req := AssembleReq(Matched("greet", [("name", "world")]), parts, map[], None).value;
      && Handler(state, parts, "a.example.com" + ":" + port, map[], None, env) == env.run(JsWorker(code), "greet", req)
      && req.params == map["name" := "world"]
  {
    StripPortOfHostWithPort("a.example.com", port);
    var ps := [("name", "world")];
    assert ps[..0] == [];
    assert ToMap(ps) == map["name" := "world"];
  }
}
