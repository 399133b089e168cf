/**
 * `OptionalBearerAuthMiddleware`: when a token is configured, HTTP requests must carry an
 * `Authorization` header equal, as a string, to `"Bearer " + token` (the header form of
 * section 2.1 of RFC 6750, compared here more strictly than the RFC asks: the scheme is
 * case-sensitive and exactly one space is allowed). Preflight requests and exempt paths
 * pass without it.
 */
module BearerAuth {
  import opened Wrappers
  import opened Asgi
  import Headers
  import PyStr
  import Utf8

  /** `if not self.token`: the guard is off when the token is `None` or empty. */
  predicate HasToken(token: Option<string>) {
    token.Some? && token.value != ""
  }

  /** The bypass rules, in the order the guard applies them. */
  predicate Bypassed(token: Option<string>, exemptPaths: set<string>, scope: Scope) {
    || !HasToken(token)
    || !IsHttp(scope)
    || PyStr.Upper(scope.verb.GetOr("")) == "OPTIONS"
    || scope.path.GetOr("") in exemptPaths
  }

  /** `OptionalBearerAuthMiddleware.__call__` for a request whose downstream app would pull `msgs`. */
  function Guard(token: Option<string>, exemptPaths: set<string>, scope: Scope, msgs: seq<Message>): (v: Verdict)
    ensures v == Forwarded(msgs) || v == Refused(Unauthorized())
    ensures v.Refused? ==> HasToken(token) && IsHttp(scope) && scope.path.GetOr("") !in exemptPaths
  {
    if !HasToken(token) then Forwarded(msgs)
    else if !IsHttp(scope) then Forwarded(msgs)
    else if PyStr.Upper(scope.verb.GetOr("")) == "OPTIONS" then Forwarded(msgs)
    else if scope.path.GetOr("") in exemptPaths then Forwarded(msgs)
    else if Headers.HeaderValue(scope.headers, "authorization") != "Bearer " + token.value then Refused(Unauthorized())
    else Forwarded(msgs)
  }

  /** `set(exempt_paths or [])`. */
  function ExemptSet(paths: Option<seq<string>>): (s: set<string>)
    ensures forall p :: p in s <==> paths.Some? && p in paths.value
  {
    set p | p in paths.GetOr([])
  }

  /** A bypassed request is forwarded whatever its headers. */
  lemma BypassForwards(token: Option<string>, exemptPaths: set<string>, scope: Scope, msgs: seq<Message>)
    requires Bypassed(token, exemptPaths, scope)
    ensures Guard(token, exemptPaths, scope, msgs) == Forwarded(msgs)
  {
  }

  /** The preflight method is recognised in any letter case. */
  lemma PreflightAnyCase(token: Option<string>, exemptPaths: set<string>, scope: Scope, msgs: seq<Message>)
    requires scope.verb.Some? && PyStr.Lower(scope.verb.value) == "options"
    ensures Guard(token, exemptPaths, scope, msgs) == Forwarded(msgs)
  {
    var m := scope.verb.value;
    var u := PyStr.Upper(m);
    assert |m| == 7;
    forall i | 0 <= i < 7
      ensures u[i] == "OPTIONS"[i]
    {
      assert PyStr.Lower(m)[i] == "options"[i];
    }
    assert u == "OPTIONS";
  }

  /**
   * When the guard is active, the request is forwarded exactly when the first `Authorization`
   * header is present and its bytes are the UTF-8 encoding of `"Bearer " + token`.
   */
  lemma ForwardedIffExactCredential(token: string, exemptPaths: set<string>, scope: Scope, msgs: seq<Message>)
    requires !Bypassed(Some(token), exemptPaths, scope)
    ensures var first := Headers.FirstMatch(scope.headers, Headers.NameKey("authorization"));
      Guard(Some(token), exemptPaths, scope, msgs).Forwarded? <==>
        first.Some? && scope.headers[first.value].value == Utf8.Encode("Bearer " + token)
  {
    var first := Headers.FirstMatch(scope.headers, Headers.NameKey("authorization"));
    var auth := Headers.HeaderValue(scope.headers, "authorization");
    if auth == "Bearer " + token {
      Headers.ValueIsExact(scope.headers, "authorization");
    }
    if first.Some? && scope.headers[first.value].value == Utf8.Encode("Bearer " + token) {
      Headers.EncodedValue(scope.headers, first.value, "authorization", "Bearer " + token);
    }
  }

  /** An active guard refuses a request without any `Authorization` header. */
  lemma MissingCredentialRefused(token: string, exemptPaths: set<string>, scope: Scope, msgs: seq<Message>)
    requires !Bypassed(Some(token), exemptPaths, scope)
    requires forall j :: 0 <= j < |scope.headers| ==> !Headers.Matches(scope.headers[j], Headers.NameKey("authorization"))
    ensures Guard(Some(token), exemptPaths, scope, msgs) == Refused(Unauthorized())
  {
    assert ("Bearer " + token)[0] == 'B';
  }

  /**
   * The scheme is compared case-sensitively: `bearer <token>` is refused, as is any first
   * `Authorization` header that reads other than `Bearer <token>`, even if a later one is right.
   */
  lemma OtherCredentialRefused(token: string, exemptPaths: set<string>, scope: Scope, msgs: seq<Message>, k: nat, value: string)
    requires !Bypassed(Some(token), exemptPaths, scope)
    requires Headers.FirstMatch(scope.headers, Headers.NameKey("authorization")) == Some(k)
    requires scope.headers[k].value == Utf8.Encode(value) && value != "Bearer " + token
    ensures Guard(Some(token), exemptPaths, scope, msgs) == Refused(Unauthorized())
  {
    Headers.EncodedValue(scope.headers, k, "authorization", value);
  }

  lemma LowercaseSchemeRefused(token: string, exemptPaths: set<string>, scope: Scope, msgs: seq<Message>, k: nat)
    requires !Bypassed(Some(token), exemptPaths, scope)
    requires Headers.FirstMatch(scope.headers, Headers.NameKey("authorization")) == Some(k)
    requires scope.headers[k].value == Utf8.Encode("bearer " + token)
    ensures Guard(Some(token), exemptPaths, scope, msgs) == Refused(Unauthorized())
  {
    assert ("bearer " + token)[0] != ("Bearer " + token)[0];
    OtherCredentialRefused(token, exemptPaths, scope, msgs, k, "bearer " + token);
  }

  /** An active guard forwards a request whose first `Authorization` header reads `Bearer <token>`. */
  lemma CredentialForwards(token: string, exemptPaths: set<string>, scope: Scope, msgs: seq<Message>)
    requires !Bypassed(Some(token), exemptPaths, scope)
    requires Headers.HeaderValue(scope.headers, "authorization") == "Bearer " + token
    ensures Guard(Some(token), exemptPaths, scope, msgs) == Forwarded(msgs)
  {
  }

  /** An ASCII token sent as `Authorization: Bearer <token>` on a non-exempt `POST` is forwarded. */
  lemma ExactTokenScenario(token: string, path: string, msgs: seq<Message>)
    requires token != "" && Utf8.IsAscii("Bearer " + token) && path != "/healthz"
    ensures var h := Header(Utf8.Ascii("Authorization"), Utf8.Ascii("Bearer " + token));
      Guard(Some(token), {"/healthz"}, Scope("http", Some("POST"), Some(path), [h]), msgs) == Forwarded(msgs)
  {
    var h := Header(Utf8.Ascii("Authorization"), Utf8.Ascii("Bearer " + token));
    var scope := Scope("http", Some("POST"), Some(path), [h]);
    assert |PyStr.Upper("POST")| == 4;
    assert Headers.Matches(h, Headers.NameKey("authorization"));
    Utf8.AsciiDecodes("Bearer " + token);
    assert Headers.HeaderValue(scope.headers, "authorization") == "Bearer " + token;
    CredentialForwards(token, {"/healthz"}, scope, msgs);
  }

  /** With `/healthz` exempt, a liveness probe needs no credential. */
  lemma HealthzScenario(msgs: seq<Message>)
    ensures Guard(Some("secret"), {"/healthz"}, Scope("http", Some("GET"), Some("/healthz"), []), msgs) == Forwarded(msgs)
  {
  }

  /** A second, correct `Authorization` header does not rescue a wrong first one. */
  lemma LaterDuplicateScenario(msgs: seq<Message>)
    ensures var wrong := Header(Utf8.Ascii("Authorization"), Utf8.Ascii("Bearer wrong"));
      var right := Header(Utf8.Ascii("authorization"), Utf8.Ascii("Bearer secret"));
      Guard(Some("secret"), {}, Scope("http", Some("POST"), Some("/mcp/x"), [wrong, right]), msgs) == Refused(Unauthorized())
  {
    var wrong := Header(Utf8.Ascii("Authorization"), Utf8.Ascii("Bearer wrong"));
    var right := Header(Utf8.Ascii("authorization"), Utf8.Ascii("Bearer secret"));
    var scope := Scope("http", Some("POST"), Some("/mcp/x"), [wrong, right]);
    assert |PyStr.Upper("POST")| == 4;
    assert Headers.Matches(wrong, Headers.NameKey("authorization"));
    Utf8.AsciiDecodes("Bearer wrong");
    assert Headers.HeaderValue(scope.headers, "authorization") == "Bearer wrong";
  }
}
