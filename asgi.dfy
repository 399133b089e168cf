/**
 * The ASGI values the middleware reads and produces, reduced to the keys it looks at.
 * Scopes and messages are Python dicts in the running system; here each `dict.get(key)`
 * that may be missing is an `Option`, and `x or default` is `GetOr(default)`.
 */
module Asgi {
  import opened Wrappers
  import Utf8

  type Byte = Utf8.Byte

  /** One `(name, value)` pair of the raw header list, both byte strings. */
  datatype Header = Header(name: seq<Byte>, value: seq<Byte>)

  /** A connection scope: `type`, `method` (here `verb`), `path` and the ordered header list. */
  datatype Scope = Scope(kind: string, verb: Option<string>, path: Option<string>, headers: seq<Header>)

  predicate IsHttp(scope: Scope) {
    scope.kind == "http"
  }

  /** One message returned by `receive()`: its `type`, `body` and `more_body` marker. */
  datatype Message = Message(kind: string, body: Option<seq<Byte>>, moreBody: bool)

  /** Only `http.request` messages carry body bytes that the size guard counts. */
  predicate IsBodyChunk(m: Message) {
    m.kind == "http.request"
  }

  /** `len(msg.get("body") or b"")` for a body chunk, nothing for any other message. */
  function BodyLength(m: Message): nat {
    if IsBodyChunk(m) then |m.body.GetOr([])| else 0
  }

  /** A complete response: status, content type and the text of the body. */
  datatype Response = Response(status: int, contentType: string, body: string)

  /** The two messages `_send_json` sends, as one response with a JSON content type. */
  function JsonResponse(status: int, body: string): Response {
    Response(status, "application/json", body)
  }

  const TOO_LARGE_BODY: string := "{\"detail\":\"Request body too large\"}"
  const UNAUTHORIZED_BODY: string := "{\"detail\":\"Unauthorized\"}"

  /** 413 Content Too Large (section 15.5.14 of RFC 9110), as the size guard sends it. */
  function TooLarge(): Response {
    JsonResponse(413, TOO_LARGE_BODY)
  }

  /** 401 Unauthorized (section 15.5.2 of RFC 9110), as the auth guard sends it. */
  function Unauthorized(): Response {
    JsonResponse(401, UNAUTHORIZED_BODY)
  }

  /**
   * What one middleware layer does with a request whose downstream app would pull the
   * messages `msgs` from `receive`:
   *  - Forwarded: the downstream app runs and is handed exactly `delivered`;
   *  - Refused: the layer answers itself and the downstream app is never invoked;
   *  - Aborted: the downstream app runs and is handed `delivered`, then the layer stops it
   *    and answers itself.
   */
  datatype Verdict =
    | Forwarded(delivered: seq<Message>)
    | Refused(response: Response)
    | Aborted(delivered: seq<Message>, response: Response)
}
