/**
 * The application's configuration and its middleware stack. Starlette wraps the list
 * outer-most first, so a request meets CORS, then the bearer-token check, then the
 * body-size limit, then the router. CORS is not part of this model.
 */
module App {
  import opened Wrappers
  import opened Asgi
  import Headers
  import BodySize
  import BearerAuth
  import Env
  import PyInt
  import Utf8

  /** The environment variables the application reads, each unset (`None`) or set. */
  datatype Environment = Environment(
    corsAllowOrigins: Option<string>,
    corsAllowCredentials: Option<string>,
    maxBodyBytes: Option<string>,
    authToken: Option<string>)

  /** The module-level settings computed when the application is imported. */
  datatype Config = Config(
    allowOrigins: seq<string>,
    allowCredentials: bool,
    maxBodyBytes: int,
    authToken: Option<string>,
    exemptPaths: set<string>)

  const DEFAULT_ORIGINS: seq<string> := ["http://localhost:3000", "http://127.0.0.1:3000"]
  const DEFAULT_MAX_BODY_BYTES: int := 256 * 1024
  const HEALTHZ: string := "/healthz"

  /** `ALLOW_ORIGINS`, `ALLOW_CREDENTIALS`, `MAX_BODY_BYTES`, `AUTH_TOKEN` and the exempt paths. */
  function Load(env: Environment): (c: Config)
    ensures c.authToken.Some? ==> c.authToken.value != ""
    ensures c.exemptPaths == {HEALTHZ}
    ensures env.maxBodyBytes.None? ==> c.maxBodyBytes == 262144
    ensures env.corsAllowOrigins.None? ==> c.allowOrigins == DEFAULT_ORIGINS
    ensures env.corsAllowCredentials.None? ==> !c.allowCredentials
  {
    ExemptHealthz();
    Config(
      Env.ParseCsv(env.corsAllowOrigins, DEFAULT_ORIGINS),
      Env.ParseBool(env.corsAllowCredentials, false),
      Env.EnvInt(env.maxBodyBytes, DEFAULT_MAX_BODY_BYTES),
      Env.AuthToken(env.authToken),
      BearerAuth.ExemptSet(Some([HEALTHZ])))
  }

  /** `exempt_paths=["/healthz"]` exempts that one path. */
  lemma ExemptHealthz()
    ensures BearerAuth.ExemptSet(Some([HEALTHZ])) == {HEALTHZ}
  {
    var s := BearerAuth.ExemptSet(Some([HEALTHZ]));
    assert forall p :: p in s <==> p == HEALTHZ;
  }

  /** The bearer-token check wrapped around the body-size limit wrapped around the router. */
  function Handle(config: Config, scope: Scope, msgs: seq<Message>): (v: Verdict)
    ensures v.Forwarded? ==> v.delivered == msgs
    ensures v.Aborted? ==> v.delivered < msgs && v.response == TooLarge()
    ensures v.Refused? ==> v.response == Unauthorized() || v.response == TooLarge()
    ensures v == Refused(Unauthorized()) ==>
      !BearerAuth.Bypassed(config.authToken, config.exemptPaths, scope)
  {
    var auth := BearerAuth.Guard(config.authToken, config.exemptPaths, scope, msgs);
    if auth.Forwarded? then BodySize.Guard(config.maxBodyBytes, scope, auth.delivered) else auth
  }

  /** With nothing set, the defaults app.py gives apply and authentication is off. */
  lemma DefaultConfig()
    ensures Load(Environment(None, None, None, None))
         == Config(DEFAULT_ORIGINS, false, 262144, None, {HEALTHZ})
  {
  }

  /** `or None` changes nothing the guard can see: an empty token already disables it. */
  lemma EmptyTokenIsNoToken(raw: Option<string>, exemptPaths: set<string>, scope: Scope, msgs: seq<Message>)
    ensures BearerAuth.Guard(Env.AuthToken(raw), exemptPaths, scope, msgs)
         == BearerAuth.Guard(raw, exemptPaths, scope, msgs)
  {
  }

  /** An unset or empty `MCP_AUTH_TOKEN` leaves only the body-size limit. */
  lemma NoTokenOnlyLimits(env: Environment, scope: Scope, msgs: seq<Message>)
    requires env.authToken.None? || env.authToken.value == ""
    ensures Handle(Load(env), scope, msgs) == BodySize.Guard(Load(env).maxBodyBytes, scope, msgs)
  {
  }

  /** Non-HTTP connections (lifespan, websocket) pass both guards untouched. */
  lemma NonHttpUntouched(config: Config, scope: Scope, msgs: seq<Message>)
    requires !IsHttp(scope)
    ensures Handle(config, scope, msgs) == Forwarded(msgs)
  {
  }

  /** `/healthz` is never refused for want of a credential; only the body-size limit applies. */
  lemma HealthzNeverUnauthorized(env: Environment, scope: Scope, msgs: seq<Message>)
    requires scope.path == Some(HEALTHZ)
    ensures Handle(Load(env), scope, msgs) == BodySize.Guard(Load(env).maxBodyBytes, scope, msgs)
    ensures Handle(Load(env), scope, msgs) != Refused(Unauthorized())
  {
    assert Unauthorized() != TooLarge();
  }

  /**
   * An exempt path such as `/healthz` still meets the fast body-size stage: a declared
   * length above the ceiling gets 413.
   */
  lemma ExemptStillSizeChecked(config: Config, scope: Scope, msgs: seq<Message>, k: nat, n: int)
    requires IsHttp(scope) && scope.path.GetOr("") in config.exemptPaths
    requires n > config.maxBodyBytes
    requires Headers.FirstMatch(scope.headers, Headers.NameKey("content-length")) == Some(k)
    requires scope.headers[k].value == Utf8.Encode(PyInt.Render(n))
    ensures Handle(config, scope, msgs) == Refused(TooLarge())
  {
    BodySize.DeclaredTooLargeRefused(config.maxBodyBytes, scope, msgs, k, n);
  }

  /**
   * Authentication runs first: a request the token check refuses gets 401 even when its
   * declared `Content-Length` is over the ceiling and the body-size stage alone would give 413.
   */
  lemma UnauthorizedBeforeTooLarge(config: Config, scope: Scope, msgs: seq<Message>, k: nat, n: int)
    requires BearerAuth.Guard(config.authToken, config.exemptPaths, scope, msgs).Refused?
    requires n > config.maxBodyBytes
    requires Headers.FirstMatch(scope.headers, Headers.NameKey("content-length")) == Some(k)
    requires scope.headers[k].value == Utf8.Encode(PyInt.Render(n))
    ensures BodySize.Guard(config.maxBodyBytes, scope, msgs) == Refused(TooLarge())
    ensures Handle(config, scope, msgs) == Refused(Unauthorized())
  {
    BodySize.DeclaredTooLargeRefused(config.maxBodyBytes, scope, msgs, k, n);
  }

  /** In particular, a guarded request with no `Authorization` header at all gets 401, not 413. */
  lemma MissingCredentialBeforeTooLarge(config: Config, scope: Scope, msgs: seq<Message>, k: nat, n: int)
    requires config.authToken.Some?
    requires !BearerAuth.Bypassed(config.authToken, config.exemptPaths, scope)
    requires forall j :: 0 <= j < |scope.headers| ==> !Headers.Matches(scope.headers[j], Headers.NameKey("authorization"))
    requires n > config.maxBodyBytes
    requires Headers.FirstMatch(scope.headers, Headers.NameKey("content-length")) == Some(k)
    requires scope.headers[k].value == Utf8.Encode(PyInt.Render(n))
    ensures Handle(config, scope, msgs) == Refused(Unauthorized())
  {
    BearerAuth.MissingCredentialRefused(config.authToken.value, config.exemptPaths, scope, msgs);
    UnauthorizedBeforeTooLarge(config, scope, msgs, k, n);
  }

  /** A request carrying the exact credential meets the body-size limit as if unguarded. */
  lemma AuthorizedOnlyLimits(config: Config, scope: Scope, msgs: seq<Message>)
    requires config.authToken.Some?
    requires !BearerAuth.Bypassed(config.authToken, config.exemptPaths, scope)
    requires var first := Headers.FirstMatch(scope.headers, Headers.NameKey("authorization"));
      first.Some? && scope.headers[first.value].value == Utf8.Encode("Bearer " + config.authToken.value)
    ensures Handle(config, scope, msgs) == BodySize.Guard(config.maxBodyBytes, scope, msgs)
  {
    BearerAuth.ForwardedIffExactCredential(config.authToken.value, config.exemptPaths, scope, msgs);
  }
}
