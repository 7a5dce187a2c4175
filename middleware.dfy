/**
 * `SecurityMiddleware` (middleware/security_middleware.py): the pass/reject
 * decision made for every request before it reaches a route.
 */
module Middleware {
  import opened Wrappers
  import opened Security

  /** Paths that pass without any key check; membership is exact string equality. */
  const PublicPaths: set<string> := {"/test", "/docs", "/openapi.json", "/redoc"}

  /** The header that carries the client's key. */
  const ApiKeyHeader: string := "blg-wr-api-key"

  /** What the middleware needs of a request: its URL path and its headers. */
  datatype Request = Request(path: string, headers: map<string, string>)

  /** Either the request goes on to `call_next`, or `HTTPException(status_code, detail)` is raised. */
  datatype Decision = Forward | Reject(statusCode: int, detail: string)

  /** `request.headers.get(name)`. */
  function Header(request: Request, name: string): Option<string>
  {
    if name in request.headers then Some(request.headers[name]) else None
  }

  datatype SecurityMiddleware = SecurityMiddleware(securityService: SecurityService)
  {
    /** `__call__` without the `call_next` plumbing. */
    function Dispatch(request: Request): (d: Decision)
      ensures request.path in PublicPaths ==> d == Forward
      ensures d == Forward <==>
                || request.path in PublicPaths
                || (&& ApiKeyHeader in request.headers
                    && request.headers[ApiKeyHeader] != ""
                    && securityService.apiKey == Some(request.headers[ApiKeyHeader]))
      ensures d != Forward ==> d == Reject(401, "Invalid API key")
    {
      if request.path in PublicPaths then Forward
      else
        var apiKey := Header(request, ApiKeyHeader);
        if !securityService.VerifyApiKey(apiKey) then Reject(401, "Invalid API key")
        else Forward
    }
  }

  /** A non-public path without the key header is rejected with 401, whatever the secret. */
  lemma MissingHeaderRejected(middleware: SecurityMiddleware, request: Request)
    requires request.path !in PublicPaths
    requires ApiKeyHeader !in request.headers
    ensures middleware.Dispatch(request) == Reject(401, "Invalid API key")
  {
  }

  /** "/hello" and "/docs/" are not public: they need the key like any other route. */
  lemma NearPublicPathsNeedKey(middleware: SecurityMiddleware, headers: map<string, string>)
    requires ApiKeyHeader !in headers
    ensures middleware.Dispatch(Request("/hello", headers)).Reject?
    ensures middleware.Dispatch(Request("/docs/", headers)).Reject?
  {
  }
}
