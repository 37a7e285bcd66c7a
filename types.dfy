/** The error kinds the dispatcher reports (the error module itself is not part of this model). */
module Error {

  datatype AppError =
    | HostNotFound(host: string)
    | RouteNotFound(httpMethod: string, path: string)
    | ScriptInit(message: string)
    | ScriptExecution(message: string)
}

/** A tenant's compiled routes and bundle, and the cell that holds its current version. */
module Router {

  /** One handler export bound to one HTTP method. */
  datatype ProjectRoute = ProjectRoute(httpMethod: string, handler: string)

  /** Path pattern to its routes, in insertion order (an `IndexMap`). */
  type ProjectRoutes = seq<(string, seq<ProjectRoute>)>

  /** One immutable tenant version: its bundle text and its routes. */
  datatype AppRouter = AppRouter(code: string, routes: ProjectRoutes)

  /**
   * The hot-swappable cell of one tenant, seen sequentially: it holds one
   * current snapshot and `Load` hands that snapshot out whole.
   */
  datatype SwappableAppRouter = SwappableAppRouter(current: AppRouter) {
    function Load(): (r: AppRouter)
      ensures r == current
    {
      current
    }
  }

  /** The outcome of route matching: the handler name and the bound path parameters, in order. */
  datatype Matched = Matched(value: string, params: seq<(string, string)>)
}

/** What crosses into the script runtime and back. */
module Engine {

  import opened Wrappers

  datatype Req = Req(
    httpMethod: string,
    url: string,
    query: map<string, string>,
    params: map<string, string>,
    headers: map<string, string>,
    body: Option<string>)

  datatype Res = Res(status: int, headers: map<string, string>, body: Option<string>)

  /** A script runtime loaded with one bundle. */
  datatype JsWorker = JsWorker(code: string)
}
