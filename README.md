# Request gating of mcp-secure-python-starter, in Dafny

This project models the request-gating core of `mcp-secure-python-starter`. That is a
Starlette application that puts an MCP server behind two pieces of ASGI middleware:

- **The body-size limit** (`MaxBodySizeMiddleware`). It refuses a request at once with
  413 when its declared `Content-Length` is above the ceiling. Otherwise it counts body
  bytes as the downstream app pulls them and stops the request with 413 on the first
  `http.request` chunk that takes the count past the ceiling.
- **The optional bearer-token check** (`OptionalBearerAuthMiddleware`). When a token is
  configured, every HTTP request that is not a preflight `OPTIONS` and not on an exempt
  path must carry `Authorization: Bearer <token>`, exactly as written. Anything else gets 401.

It also models what these build on:

- the header accessor `_get_header`;
- the configuration parsers `env_int`, `_parse_csv_env` and `_parse_bool_env`;
- the `AUTH_TOKEN = ... or None` normalisation;
- the order of the middleware stack.

Modules:

| module | file | contents |
|---|---|---|
| `Wrappers` | `wrappers.dfy` | `Option` |
| `PyStr` | `pystr.dfy` | Python's `str.isspace`, `strip`, ASCII `lower`/`upper`, `split` and `join` |
| `PyInt` | `pyint.dfy` | Python's `int(str)` on decimal text: the whitespace `int()` skips (every `str.isspace()` character except the separators U+001C to U+001F), one optional sign, digits with single underscores between them; `str(n)` |
| `Utf8` | `utf8.dfy` | Strict UTF-8 decoding and encoding (the well-formed byte sequences of Table 3-7 of the Unicode Standard, chapter 3) |
| `Asgi` | `asgi.dfy` | Scopes, messages, headers as byte pairs, the JSON responses, and the `Verdict` of a guard: `Forwarded(delivered)`, `Refused(response)` before the downstream app runs, or `Aborted(delivered, response)` after it pulled `delivered` |
| `Headers` | `headers.dfy` | `_get_header` as a loop (`GetHeader`) proved against a first-match function |
| `BodySize` | `body_size.dfy` | `limited_receive` as a class with a `received` counter, the streaming loop, and `MaxBodySizeMiddleware.__call__`, each proved against functions over the message sequence |
| `BearerAuth` | `bearer_auth.dfy` | The `OptionalBearerAuthMiddleware` cascade |
| `Env` | `env.dfy` | `env_int`, `_parse_csv_env`, `_parse_bool_env`, `or None` |
| `App` | `app.dfy` | The configuration loaded from the environment, and the stack: the token check, then the body-size limit |

A request is a `Scope` together with the sequence of messages its downstream app would pull
with `receive`. The model assumes that downstream app pulls every message in order and does
not catch `BodyTooLargeError`.

`os.getenv(name)` is an `Option<string>` parameter: `None` when the variable is unset.

Three consequences of the code deserve stating outright:

- The fast `Content-Length` stage also applies to `/healthz`. That path is exempt from the
  token check only, so a declared length above the ceiling gets 413 there
  (`App.ExemptStillSizeChecked`).
- `env_int` takes any integer as the ceiling, zero and negative ones included. With a
  negative ceiling even an empty body chunk is refused. The lemmas that need a ceiling of at
  least zero say so in their `requires`.
- `_parse_csv_env` and `_parse_bool_env` give the default when the variable is unset, and a
  set variable can also yield a value equal to the default. The model states the unset case
  and, separately, what a set value yields.

## Model

| member | source | states |
|---|---|---|
| `PyStr.Strip` | src/mcp_secure_python_starter/app.py:19 | `str.strip()` leaves no whitespace at either end |
| `PyStr.StripRemovesSpace` | src/mcp_secure_python_starter/app.py:19 | Everything `strip()` removes, before and after what it keeps, is whitespace |
| `PyStr.StripBounds` | src/mcp_secure_python_starter/app.py:28 | What `strip()` keeps is one slice of the input with only whitespace before and after it |
| `PyStr.StripKeepsAbsent` | src/mcp_secure_python_starter/app.py:19 | `strip()` only removes characters: one absent from the input is absent from the result |
| `PyStr.StripPadded` | src/mcp_secure_python_starter/app.py:28 | Stripping whitespace padding from around a stripped non-empty word gives the word back |
| `PyStr.StripIdempotent` | src/mcp_secure_python_starter/app.py:19 | Stripping twice is stripping once |
| `PyStr.Split` | src/mcp_secure_python_starter/app.py:19 | `split(",")` yields at least one field, no field holds a comma, and joining the fields with commas gives the input back |
| `PyStr.Lower` | src/mcp_secure_python_starter/app.py:28 | `lower()` keeps the length, maps each ASCII capital to its small letter (code point + 32), and changes nothing else |
| `PyStr.Upper` | src/mcp_secure_python_starter/middleware.py:82 | `upper()` keeps the length, maps each ASCII small letter to its capital (code point - 32), and changes nothing else |
| `PyStr.SplitJoin` | src/mcp_secure_python_starter/app.py:19 | Splitting a comma-join of comma-free fields gives those fields back, in order |
| `PyInt.ParseRender` | src/mcp_secure_python_starter/middleware.py:46 | `int(str(n)) == n` for every integer, negatives included |
| `PyInt.Parse` | src/mcp_secure_python_starter/middleware.py:46 | `int()` succeeds only on text that holds a digit |
| `PyInt.ParseRenderPadded` | src/mcp_secure_python_starter/middleware.py:103 | `int()` reads a rendered integer back as that integer, with any whitespace `int()` skips around it |
| `PyInt.SeparatorRefused` | src/mcp_secure_python_starter/middleware.py:46 | A separator U+001C to U+001F before the number is not skipped, so `int()` raises `ValueError` even though `str.isspace()` holds of it |
| `PyInt.ParseNeedsDigit` | src/mcp_secure_python_starter/middleware.py:46-49 | A string with no digit, the empty one included, is refused by `int()` (`ValueError`) |
| `Utf8.Decode` | src/mcp_secure_python_starter/middleware.py:16 | A successful strict decoding has between a quarter of the byte count and the byte count characters |
| `Utf8.DecodeEncode` | src/mcp_secure_python_starter/middleware.py:16 | Decoding the UTF-8 encoding of any string gives the string back |
| `Utf8.EncodeDecode` | src/mcp_secure_python_starter/middleware.py:16 | Whenever strict decoding succeeds, encoding the result gives the original bytes: decoding is injective |
| `Utf8.AsciiIsUtf8` | src/mcp_secure_python_starter/middleware.py:12 | `encode("ascii")` of an ASCII string is its UTF-8 encoding |
| `Headers.NameKey` | src/mcp_secure_python_starter/middleware.py:12 | Lower-casing the name keeps it ASCII, and the key is the ASCII encoding of the lower-cased name |
| `Headers.FirstMatch` | src/mcp_secure_python_starter/middleware.py:13-14 | No index exactly when no header name matches case-insensitively; otherwise the index of a match with no match before it |
| `Headers.HeaderValue` | src/mcp_secure_python_starter/middleware.py:11-19 | `""` when no header matches; a non-empty result is the strict UTF-8 decoding of the first matching header's value |
| `Headers.GetHeader` | src/mcp_secure_python_starter/middleware.py:11-19 | The loop returns the decoding of the first matching header's value, `""` when that value is not UTF-8, and `""` when nothing matches |
| `Headers.FirstMatchDecides` | src/mcp_secure_python_starter/middleware.py:13-18 | Headers after the first match, well-formed or not, never change the result |
| `Headers.ValueIsExact` | src/mcp_secure_python_starter/middleware.py:13-18 | A non-empty result means the first matching header's bytes are exactly the UTF-8 encoding of that result |
| `BodySize.TotalBytesPrefix` | src/mcp_secure_python_starter/middleware.py:57-58 | The body-byte count of a prefix is at most that of the whole stream |
| `BodySize.FirstOverflow` | src/mcp_secure_python_starter/middleware.py:56-60 | The least index of a body chunk at which the running total first exceeds the ceiling, or none when there is no such chunk |
| `BodySize.Scan` | src/mcp_secure_python_starter/middleware.py:53-66 | The counting pass never refuses up front. It forwards the whole stream, or aborts with 413 having delivered a proper prefix that extends what it had already passed |
| `BodySize.LimitIsFirstOverflow` | src/mcp_secure_python_starter/middleware.py:56-66 | The counting pass stops exactly at the first body chunk whose running total exceeds the ceiling; every earlier message is delivered unchanged and in order |
| `BodySize.ForwardedIffWithinCeiling` | src/mcp_secure_python_starter/middleware.py:58-61 | For a ceiling of at least zero, the whole stream, `more_body` markers included, is delivered iff its body bytes total at most the ceiling; equality passes |
| `BodySize.DeliveredWithinCeiling` | src/mcp_secure_python_starter/middleware.py:55-66 | For a ceiling of at least zero, the downstream app never receives more than the ceiling in body bytes, and a stopped stream was stopped at a body chunk that crosses it |
| `BodySize.LimitedReceive.constructor` | src/mcp_secure_python_starter/middleware.py:51 | A fresh counter starts at zero with no message pulled, which is the class invariant |
| `BodySize.LimitedReceive.Receive` | src/mcp_secure_python_starter/middleware.py:53-61 | The counter stays equal to the body bytes of all messages pulled so far, and grows only on `http.request`. The call raises exactly when this chunk takes the count past the ceiling, and otherwise hands the message on unchanged |
| `BodySize.Stream` | src/mcp_secure_python_starter/middleware.py:63-66 | Pulling every message through `limited_receive` gives the verdict of the counting pass |
| `BodySize.Guard` | src/mcp_secure_python_starter/middleware.py:38-66 | Every refusal or abort carries the 413 JSON response; a forwarded request is forwarded with all its messages; an abort delivers a proper prefix |
| `BodySize.MaxBodySize` | src/mcp_secure_python_starter/middleware.py:38-66 | `__call__`: the non-HTTP bypass, the `Content-Length` fast stage, then the counting stream, as `Guard` describes |
| `BodySize.DeclaredTooLarge` | src/mcp_secure_python_starter/middleware.py:44-46 | Only a `Content-Length` holding a digit can count as too large |
| `BodySize.UnreadableNotTooLarge` | src/mcp_secure_python_starter/middleware.py:45-49 | An empty or non-integer `Content-Length`, for which `int()` raises `ValueError`, never counts as too large |
| `BodySize.AdmittedLengthIgnored` | src/mcp_secure_python_starter/middleware.py:43-49 | A `Content-Length` the fast stage admits plays no further part: the verdict is that of the same request with no headers |
| `BodySize.DeclaredLength` | src/mcp_secure_python_starter/middleware.py:43-46 | The first `Content-Length` header, in any case and holding the decimal form of `n`, counts as too large iff `n` exceeds the ceiling |
| `BodySize.DeclaredTooLargeRefused` | src/mcp_secure_python_starter/middleware.py:43-47 | A declared length above the ceiling gives 413 `{"detail":"Request body too large"}` before the downstream app runs |
| `BodySize.DeclaredWithinCeilingStreams` | src/mcp_secure_python_starter/middleware.py:44-49 | A declared length at or below the ceiling, a negative one included, passes on to the counting stage |
| `BodySize.UnderstatedLengthRejected` | src/mcp_secure_python_starter/middleware.py:55-66 | With a ceiling of at least zero, an HTTP request whose body exceeds it always ends in 413, whatever length it declares |
| `BodySize.WithinCeilingForwarded` | src/mcp_secure_python_starter/middleware.py:39-61 | A request whose body is within the ceiling and whose declared length is not too large is forwarded untouched |
| `BodySize.DeclaredTwentyOverTen` | src/mcp_secure_python_starter/middleware.py:43-47 | With ceiling 10, `Content-Length: 20` is refused with 413 |
| `BodySize.FifteenBytesInThreeChunks` | src/mcp_secure_python_starter/middleware.py:55-66 | With ceiling 10, three 5-byte chunks deliver the first two and stop at the third |
| `BearerAuth.Guard` | src/mcp_secure_python_starter/middleware.py:75-95 | The guard either forwards the request with its messages untouched or answers 401 `{"detail":"Unauthorized"}`; it answers 401 only for an HTTP request, with a token set, on a non-exempt path |
| `BearerAuth.HasToken` | src/mcp_secure_python_starter/middleware.py:76-77 | The guard is on only for a token that is present and non-empty |
| `BearerAuth.Bypassed` | src/mcp_secure_python_starter/middleware.py:76-88 | The four bypasses, in the order the guard applies them: no token, not HTTP, `OPTIONS` in any case, an exempt path |
| `BearerAuth.BypassForwards` | src/mcp_secure_python_starter/middleware.py:76-88 | A request under any bypass is forwarded with its messages untouched, whatever its headers |
| `BearerAuth.ExemptSet` | src/mcp_secure_python_starter/middleware.py:73 | `set(exempt_paths or [])` holds exactly the listed paths, and none when no list is given |
| `BearerAuth.PreflightAnyCase` | src/mcp_secure_python_starter/middleware.py:82-84 | A method that is `options` in any letter case is forwarded without a credential |
| `BearerAuth.ForwardedIffExactCredential` | src/mcp_secure_python_starter/middleware.py:90-95 | Past the bypasses, a request is forwarded iff its first `Authorization` header exists and its bytes are exactly the UTF-8 encoding of `Bearer <token>` |
| `BearerAuth.MissingCredentialRefused` | src/mcp_secure_python_starter/middleware.py:90-94 | Past the bypasses, a request with no `Authorization` header gets 401 |
| `BearerAuth.OtherCredentialRefused` | src/mcp_secure_python_starter/middleware.py:90-94 | Past the bypasses, a first `Authorization` header that reads anything other than `Bearer <token>` gets 401, whatever headers follow it |
| `BearerAuth.LowercaseSchemeRefused` | src/mcp_secure_python_starter/middleware.py:91-93 | The scheme is case-sensitive: `bearer <token>` gets 401 |
| `BearerAuth.ExactTokenScenario` | src/mcp_secure_python_starter/middleware.py:90-95 | `Authorization: Bearer <token>` with an ASCII token on a non-exempt `POST` is forwarded |
| `BearerAuth.LaterDuplicateScenario` | src/mcp_secure_python_starter/middleware.py:13-18 | A wrong first `Authorization` header is refused even when a later one is right |
| `Env.EnvInt` | src/mcp_secure_python_starter/middleware.py:98-105 | `env_int` yields either the default or what `int()` reads from the set value, and the latter whenever the value is non-empty and readable |
| `Env.EnvIntRender` | src/mcp_secure_python_starter/middleware.py:98-105 | A rendered integer, padded with any whitespace `int()` skips, is read back whatever the default |
| `Env.EnvIntFallback` | src/mcp_secure_python_starter/middleware.py:100-105 | An unset, empty or digit-free value gives the default |
| `Env.NonEmptyAppend` | src/mcp_secure_python_starter/app.py:20 | The filter distributes over concatenation, so it keeps the order and every repetition of the fields it keeps |
| `Env.NonEmptySingle` | src/mcp_secure_python_starter/app.py:20 | A single field is kept exactly when it is non-empty |
| `Env.NonEmpty` | src/mcp_secure_python_starter/app.py:20 | The kept fields are exactly the non-empty ones |
| `Env.StripAllClean` | src/mcp_secure_python_starter/app.py:19 | Stripping comma-free fields gives stripped, comma-free fields |
| `Env.ParseCsv` | src/mcp_secure_python_starter/app.py:15-21 | Unset gives the default; otherwise every element is non-empty, has no surrounding whitespace, and holds no comma |
| `Env.CsvRoundTrip` | src/mcp_secure_python_starter/app.py:19-21 | A comma-join of clean fields reads back as exactly those fields, in order |
| `Env.CsvFields` | src/mcp_secure_python_starter/app.py:19-21 | For comma-free fields, the result is their stripped forms in order with the empty ones dropped |
| `Env.CsvSetEmpty` | src/mcp_secure_python_starter/app.py:16-21 | A set but empty variable gives the empty list, not the default |
| `Env.ParseBool` | src/mcp_secure_python_starter/app.py:24-28 | Unset gives the default; otherwise true iff the stripped, lower-cased value is `1`, `true`, `yes`, `y` or `on` |
| `Env.ParseBoolTrueIsPaddedTruthy` | src/mcp_secure_python_starter/app.py:28 | A set value reads as true only when it is a truthy word in some letter case with only whitespace around it; every other set value reads as false |
| `Env.ParseBoolTruthyPadded` | src/mcp_secure_python_starter/app.py:28 | A truthy word in any letter case with whitespace around it reads as true |
| `Env.AuthToken` | src/mcp_secure_python_starter/app.py:51 | The token is never the empty string; it is the set value when that is non-empty, and `None` when unset or empty |
| `App.Load` | src/mcp_secure_python_starter/app.py:45-51 | A loaded token is never empty, the exempt set is `{"/healthz"}`, and each unset variable gives the default app.py gives it |
| `App.Handle` | src/mcp_secure_python_starter/app.py:53-68 | The stack forwards untouched, aborts with 413 after a proper prefix, or refuses with 401 or 413; a 401 happens only when no bypass applies |
| `App.DefaultConfig` | src/mcp_secure_python_starter/app.py:45-51 | With nothing set: the two localhost origins, no credentials, 262144 bytes, no token |
| `App.EmptyTokenIsNoToken` | src/mcp_secure_python_starter/app.py:51 | The `or None` step changes no decision of the token check |
| `App.NoTokenOnlyLimits` | src/mcp_secure_python_starter/app.py:51 | With `MCP_AUTH_TOKEN` unset or empty, only the body-size limit applies |
| `App.NonHttpUntouched` | src/mcp_secure_python_starter/middleware.py:39-40 | A non-HTTP scope passes both guards with its messages untouched |
| `App.HealthzNeverUnauthorized` | src/mcp_secure_python_starter/app.py:65 | `/healthz` never gets 401; only the body-size limit applies to it |
| `App.ExemptStillSizeChecked` | src/mcp_secure_python_starter/app.py:65-66 | An exempt path with a declared length above the ceiling still gets 413 |
| `App.UnauthorizedBeforeTooLarge` | src/mcp_secure_python_starter/app.py:65-66 | The token check runs first: every request it refuses gets 401, even one whose declared length alone would give 413 |
| `App.MissingCredentialBeforeTooLarge` | src/mcp_secure_python_starter/app.py:65-66 | In particular a guarded request with no `Authorization` header and a declared length over the ceiling gets 401 |
| `App.AuthorizedOnlyLimits` | src/mcp_secure_python_starter/app.py:65-66 | A request with the exact credential meets the body-size limit as if no token check were there |

## Left out

- CORS (`CORSMiddleware`, app.py:57-64): a library outside this repository. Only its place as the outermost layer is recorded, as a comment in `App`.
- The router, `healthz`, the `FastMCP` engine, the `/mcp` mount and the `add` tool: the downstream app is a parameter. It is the sequence of messages it would pull.
- `__main__.py`: process start-up only.
- `async`/`await` and the `_send_json` emission: a response is the returned status, content type and body text. The two ASGI messages and the UTF-8 encoding of the body are not modelled.
- A 413 sent after the downstream app has already started its response (middleware.py:63-66): this needs response-stream semantics.
- A downstream app that stops pulling early or catches `BodyTooLargeError`: the model assumes it pulls every message.
- Cooperative concurrency across connections: each request's counter is local to that request.
- `PyStr.Lower`, `PyStr.Upper`: only ASCII letters are mapped. Python's full Unicode case mapping is not modelled, for example `'ı'.upper() == 'I'`. It matters only for a method name outside ASCII that upper-cases to `OPTIONS`.
- `Headers.HeaderValue`: requires the queried name to be ASCII. Both call sites pass an ASCII literal (`content-length`, `authorization`), so the requires holds wherever the source calls `_get_header`. A non-ASCII name whose `lower()` is ASCII, such as `"\u212A"` (Kelvin sign), which lower-cases to `k`, is not covered. Header names in requests are compared byte-wise after ASCII lower-casing, as `bytes.lower()` does.
- `App.Environment`, `Env.AuthToken`: `os.getenv` decodes with the surrogateescape handler, so a value of `MCP_AUTH_TOKEN`, `MCP_CORS_ALLOW_ORIGINS`, `MCP_CORS_ALLOW_CREDENTIALS` or `MCP_MAX_BODY_BYTES` can hold lone surrogates (U+D800 to U+DFFF), which a Dafny `string` cannot hold. Such values are not modelled. With such a token, the source refuses every guarded request with 401 (middleware.py:90-93), since a header value decoded with `.decode("utf-8")` never contains a surrogate.
- `PyInt.Parse`: non-ASCII Unicode digits, which Python's `int()` accepts, are refused. The length limit of `int()` on very long strings is not modelled.
- `BodySize.LimitedReceive.Receive`: `max_body_bytes` is `int(max_body_bytes)` of an integer, the identity, so the class stores it as given.
