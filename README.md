# dino request dispatch, modelled in Dafny

This project models the request-dispatch front half of the `dino-server`
crate, the multi-tenant server that serves each tenant's JavaScript handlers by
host name. It covers four parts:

- how the server builds its host → router registry at start-up;
- how a request's `Host` is normalised and looked up in that registry;
- how the script request (`Req`) is assembled from the route match, the request head, the query map and the body;
- how the stages of one request are chained, where the first failure ends the request.

Modules:

- `Wrappers`: `Option` and a `Result` that works with `:-`, the way Rust's `?` does.
- `Utf8`: UTF-8 as section 4 of RFC 3629 defines it, which is exactly what Rust's `String::from_utf8` accepts.
  It has a validity predicate, a decoder and an encoder, and both round trips are proved.
- `Collect`: collecting `(key, value)` pairs into a `HashMap`, seen as inserts in order.
  `Collected` states what the result must be: the keys are exactly the pairs' keys, and the last pair for a key wins. The lemmas prove that `ToMap` meets it.
- `Error`, `Router`, `Engine`: data types standing in for those of the `error`, `router` and `engine` modules, which are not part of this model.
  Only part of their shape shows in `lib.rs`: `HostNotFound(String)` (lib.rs:111), the router's `code` (lib.rs:83), the `ProjectRoutes` alias (lib.rs:30) and the fields the `Req` builder sets (lib.rs:138-145).
  The rest is an assumed shape built from those uses:
  - the other `AppError` variants (`RouteNotFound`, `ScriptInit`, `ScriptExecution`);
  - `ProjectRoute(httpMethod, handler)`;
  - `AppRouter(code, routes)`;
  - `Res(status, headers, body)`.

  Nothing proved here depends on those assumed parts beyond passing them along.
  `SwappableAppRouter` is a cell holding one current `AppRouter`, and `Load` returns it.
- `DinoServer`: `dino-server/src/lib.rs`:
  - `ColonIndex` and `StripPort` model `find(":")` and `split_off`.
  - `RouterForHost` is the lookup, and `GetRouterByHost` is the same lookup written as the scan the server performs.
  - `BuildRegistry` is the start-up insert loop.
  - `AssembleReq` builds the script request.
  - `Handler` is the `?`-chained pipeline.

Route matching (`match_it`), loading a bundle into a script runtime (`JsWorker::try_new`) and running a handler (`run`) belong to modules that are not part of this model.
They are the three total functions of a `Collaborators` value that `Handler` receives.
That "a later stage does not happen" is stated as: the outcome is the same whatever those later functions are.

Host names are case-insensitive in DNS (RFC 4343).
But `get_router_by_host` lowercases neither the registered hosts nor the request's host, so lookup is exact and case-sensitive (`HostLookupIsCaseSensitive`).

## Model

| member | source | states |
|---|---|---|
| `DinoServer.ColonIndex` | dino-server/src/lib.rs:105 | the result is the position of the first ':' of the host, or its length when there is none |
| `DinoServer.StripPort` | dino-server/src/lib.rs:105 | the stripped host is a prefix of the host, contains no ':', and is followed in the host by ':' when it is shorter |
| `DinoServer.StripPortUnique` | dino-server/src/lib.rs:105 | any ':'-free prefix that ends at a ':' or at the end of the host is the stripped host, so stripping keeps exactly the text before the first ':' |
| `DinoServer.StripPortNoColon` | dino-server/src/lib.rs:105 | a host with no ':' is returned unchanged |
| `DinoServer.StripPortIdempotent` | dino-server/src/lib.rs:105 | stripping twice gives the same host as stripping once |
| `DinoServer.StripPortOfHostWithPort` | dino-server/src/lib.rs:105 | `name:port` strips to `name` for any port text |
| `DinoServer.Ipv6LiteralHostIsCutAtFirstColon` | dino-server/src/lib.rs:105 | `[::1]:8080` strips to `[`, because the cut is at the first ':' |
| `DinoServer.RouterForHost` | dino-server/src/lib.rs:104-115 | lookup succeeds exactly when the stripped host is a registry key, and then returns that key's current router; otherwise it fails with `HostNotFound` carrying the stripped host, not the original |
| `DinoServer.GetRouterByHost` | dino-server/src/lib.rs:104-115 | the scan-and-truncate lookup returns the same outcome as `RouterForHost` and leaves the registry as it was |
| `DinoServer.HostLookupIsCaseSensitive` | dino-server/src/lib.rs:108-111 | a host registered in lower case is not found when its first letter arrives in upper case; lookup fails with `HostNotFound` for that host |
| `Router.SwappableAppRouter.Load` | dino-server/src/lib.rs:112 | loading gives the snapshot the cell currently holds, whole |
| `DinoServer.BuildRegistry` | dino-server/src/lib.rs:50-53 | after the insert loop the registry is the in-order insertion of all pairs: every input host is a key, no other key exists, and each key holds the router of the last entry with that host |
| `DinoServer.RegistryOfEntries` | dino-server/src/lib.rs:50-53 | the collected start-up pairs have exactly the input hosts as keys, and each holds the router of the last entry with that host |
| `Collect.ToMap` | dino-server/src/lib.rs:123-134 | collecting into a map gives at most one key per pair, and the final pair's value always stands |
| `Collect.ToMapKeys` | dino-server/src/lib.rs:123-127 | a key is in the collected map exactly when some pair carries it |
| `Collect.ToMapLastWins` | dino-server/src/lib.rs:123-127 | a pair that no later pair shares its key with gives the value of its key |
| `Collect.ToMapSpec` | dino-server/src/lib.rs:123-134 | a collected map satisfies `Collected`: its keys are exactly the pairs' keys, and each key holds the value of its last pair |
| `Collect.ToMapValueFromPair` | dino-server/src/lib.rs:123-134 | every value in the collected map comes from a pair with that key |
| `DinoServer.AsciiDecodes` | dino-server/src/lib.rs:133 | bytes below 0x80 are valid UTF-8 and decode to the characters of the same numbers |
| `DinoServer.HeaderValueStr` | dino-server/src/lib.rs:133 | a visible-ASCII header value's text is the UTF-8 decoding of its bytes |
| `DinoServer.HeaderPairs` | dino-server/src/lib.rs:130-133 | one (name, text) pair per header line, in order, with the same name and a text whose UTF-8 encoding is the line's value bytes |
| `DinoServer.AssembledHeaders` | dino-server/src/lib.rs:130-134 | the header map's keys are exactly the header names, and the last line of a name gives its value, whose UTF-8 encoding is that line's bytes |
| `Utf8.Valid` | dino-server/src/lib.rs:136 | the validity check inside `String::from_utf8`: ASCII bytes are always valid, and valid UTF-8 never contains the octets C0, C1 or F5 to FF |
| `Utf8.EncodeCharRoundTrip` | dino-server/src/lib.rs:136 | one encoded character is a single well-formed UTF-8 character that decodes back to it |
| `Utf8.DecodeCharRoundTrip` | dino-server/src/lib.rs:136 | re-encoding a decoded character gives back exactly the bytes it was read from |
| `Utf8.DecodeEncode` | dino-server/src/lib.rs:136 | every string's encoding is valid UTF-8 and decodes back to the string |
| `Utf8.EncodeDecode` | dino-server/src/lib.rs:136 | every valid byte sequence is the encoding of its decoding |
| `Utf8.FromUtf8` | dino-server/src/lib.rs:136 | decoding yields a string exactly when the bytes are valid UTF-8, and that string's encoding is the bytes |
| `DinoServer.BodyText` | dino-server/src/lib.rs:136 | the body text is present exactly when bytes were supplied and are valid UTF-8, and it is their decoding; otherwise there is no body |
| `DinoServer.AssembleReq` | dino-server/src/lib.rs:117-148 | assembly never fails; method, URL and query are copied unchanged; params and headers are the collected maps (keys exactly the names, last pair wins); the body is present exactly when it is valid UTF-8 and is its decoding |
| `DinoServer.Handler` | dino-server/src/lib.rs:67-87 | an unknown stripped host makes the request fail with `HostNotFound`, and a request succeeds only for a registered host; header values need to be visible ASCII only when assembly is reached (a known host whose route matches) |
| `DinoServer.UnknownHostStopsPipeline` | dino-server/src/lib.rs:75 | when the host is unknown the outcome is `HostNotFound` whatever route matching and the script runtime would do |
| `DinoServer.RouteMissStopsPipeline` | dino-server/src/lib.rs:75-77 | a failed route match is the outcome, whatever loading the bundle and running a handler would do |
| `DinoServer.WorkerInitFailureStopsPipeline` | dino-server/src/lib.rs:75-83 | a bundle that fails to load is the outcome, whatever the handler would do |
| `DinoServer.HandlerRunsMatchedHandler` | dino-server/src/lib.rs:75-84 | when every earlier stage succeeds the outcome is the matched handler run on the tenant's current bundle, with a request whose method, URL and query are the original ones |
| `DinoServer.GreetScenario` | dino-server/src/lib.rs:75-84 | `GET /hello/world` with host `a.example.com:<port>`, matched to `greet` with `name = world`, runs `greet` with params `{name: world}` |

## Left out

- TCP binding, `axum::serve`, the `ServerTimeLayer` middleware and `tracing` logging (lib.rs:44-62, 106) are network I/O and framework plumbing.
- Axum's extractors are not modelled. The host, the query map, the request head and the optional body are parameters of `Handler`.
  So extracting `Host`, which includes its fallbacks, and parsing the query string (last duplicate wins) are not modelled.
- The concurrent side of the registry and of the swappable router is left out. This covers `DashMap` sharding and the atomic swap behind `load`.
  The registry is a sequential `map`, and a router cell holds one current snapshot. Reloading a tenant (`update`) is in the router module and is not part of this model.
- Route matching (`match_it`), bundle loading (`JsWorker::try_new`) and handler execution (`run`) are uninterpreted functions.
  Their code is in modules that are not part of this model, and the script runtime is foreign.
- `Response::from(res)` (lib.rs:86) is in the engine module. `Handler` returns the handler's `Res` as it is.
- Header names are taken as the `http` crate hands them out, already in lower case. Parsing and normalising them is not modelled.
- AssembleReq: header values must be visible ASCII (tab or 0x20-0x7E). `to_str().unwrap()` (lib.rs:133) panics on any other value, and the model makes that a precondition instead of modelling the panic. `Handler` carries that precondition only for requests that reach assembly (a known host and a successful route match).
- `TenantRouter::new` and `AppState::new` (lib.rs:89-102) are plain constructors. They are the datatype constructors here.
- `dino/src/utils.rs` is left out. It does file globbing, reads files, takes a `blake3` hash and caches build output, which is filesystem I/O and a foreign hash.
- `bundler/src/lib.rs` is left out. It wraps an external compiler.
- The CLI modules (`dino/src/cli`, `dino/src/lib.rs`) are left out. They are argument parsing and command dispatch.
