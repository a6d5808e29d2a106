/** The request flow of the gateway (src/index.js `handleOptions`,
    `handleProxy`, `processRequest`, `_toJSON`).

    `HandleProxy` decides, for one inbound request, either the response to
    send at once or the call to forward; `ProcessRequest` turns the
    upstream's answer into the response. The bodies the framework reads
    (`text(req)`, `json(req)`) and the upstream's answer are inputs. */
module Proxy {
  import opened Wrappers
  import opened Strings
  import opened Fields
  import opened Glob
  import opened Gateway

  // ---------------------------------------------------------------------
  // Responses
  // ---------------------------------------------------------------------

  /** The options passed to `fetch`: method, outbound headers, and the body
      when one is attached. */
  datatype FetchOptions = FetchOptions(httpMethod: string, headers: Fields<Option<string>>, body: Option<string>)

  /** What a response carries: nothing, `{ error: message }`, a serialized
      error object, the diagnostic object for an upstream error, or the
      upstream's parsed payload. */
  datatype Body =
    | NoContent
    | Message(error: string)
    | ErrorObject(fields: Fields<Prop>)
    | UpstreamError(status: int, statusText: string, url: string, options: FetchOptions)
    | Payload(data: string)

  datatype Response = Response(status: int, headers: Fields<string>, body: Body)

  /** `_toJSON(error)`: `{ type: 'error' }` with every own property of the
      error assigned over it, in order. */
  function ToJson(f: Failure): Body {
    ErrorObject(Spread([("type", Text("error"))], f.fields))
  }

  /** The error object holds every property of the error with its value,
      `statusCode` included, and `type` is `error` unless the error has a
      `type` of its own. */
  lemma ToJsonShape(f: Failure, k: string)
    requires DistinctKeys(f.fields)
    ensures DistinctKeys(ToJson(f).fields)
    ensures k in Keys(f.fields) ==> Get(ToJson(f).fields, k) == Get(f.fields, k)
    ensures Get(ToJson(f).fields, "type") == if "type" in Keys(f.fields) then Get(f.fields, "type") else Some(Text("error"))
    ensures Get(ToJson(f).fields, "statusCode") == Get(f.fields, "statusCode")
    ensures k in Keys(ToJson(f).fields) <==> k == "type" || k in Keys(f.fields)
  {
    SpreadGet([("type", Text("error"))], f.fields, k);
    SpreadGet([("type", Text("error"))], f.fields, "type");
    SpreadGet([("type", Text("error"))], f.fields, "statusCode");
    assert Get([("type", Text("error"))], "statusCode") == Get([("type", Text("error"))][1..], "statusCode");
    GetKeys(f.fields, "statusCode");
  }

  /** How a caught error is answered: `send(res, error.statusCode || 500, _toJSON(error))`. */
  function Thrown(f: Failure): Response {
    Response(StatusOf(f), [], ToJson(f))
  }

  const NoReferer := Response(401, [], Message("Referer is missing"))
  const NotAuthorized := Response(401, [], Message("Referer or Destination not whitelisted or insecure"))

  /** `handleOptions`: 204 with the computed allow-headers. */
  function HandleOptions(headers: Fields<string>): Response {
    Response(204, [("access-control-allow-headers", AllowHeaders(headers))], NoContent)
  }

  // ---------------------------------------------------------------------
  // The decision
  // ---------------------------------------------------------------------

  /** A JSON request body as `json(req)` yields it: the `JSON.stringify`
      text of the parsed value and whether that value is truthy. */
  datatype Json = Json(serialized: string, truthy: bool)

  /** An inbound request: method, path, headers (lower-case names), and
      what reading the body as text and as JSON would give. */
  datatype Request = Request(
    httpMethod: string,
    url: string,
    headers: Fields<string>,
    text: Result<string, Failure>,
    json: Result<Json, Failure>)

  /** What the gateway does with a request: answer at once, or call `url`
      with `options` and relay the answer; `origin` is the raw origin
      header, used for the allow-origin of a successful relay. */
  datatype Decision =
    | Reply(response: Response)
    | Forward(url: string, options: FetchOptions, origin: Option<string>)

  /** The destination: the first `/<prefix>/` removed from the path, then
      decoded twice. */
  function DestinationUrl(path: string, prefix: string, decode: string -> Result<string, Failure>)
    : Result<string, Failure>
  {
    var once :- decode(ReplaceFirst(path, "/" + prefix + "/", ""));
    decode(once)
  }

  /** A path that starts with `/<prefix>/` yields the double decoding of
      what follows. */
  lemma DestinationOfProxyPath(prefix: string, rest: string, decode: string -> Result<string, Failure>)
    ensures DestinationUrl("/" + prefix + "/" + rest, prefix, decode) ==
              match decode(rest) case Err(e) => Err(e) case Ok(once) => decode(once)
  {
    var pat := "/" + prefix + "/";
    var path := pat + rest;
    assert "/" + prefix + "/" + rest == path;
    assert path[0..|pat|] == pat;
    IndexOfFirst(path, pat, 0, 0);
    assert path[..0] + "" + path[|pat|..] == rest;
  }

  /** A path in which `/<prefix>/` does not occur is decoded twice as it
      stands. */
  lemma DestinationWithoutPrefix(path: string, prefix: string, decode: string -> Result<string, Failure>)
    requires forall j: nat :: !OccursAt(path, "/" + prefix + "/", j)
    ensures DestinationUrl(path, prefix, decode) ==
              match decode(path) case Err(e) => Err(e) case Ok(once) => decode(once)
  {
    ReplaceFirstAbsent(path, "/" + prefix + "/", "");
  }

  /** The body to send upstream: none for `GET`; otherwise the JSON text
      (`{}` for a falsy value) when the content type is exactly
      `application/json`, else the raw text; an empty body is not attached. */
  function OutboundBody(req: Request): Result<Option<string>, Failure> {
    if req.httpMethod == "GET" then Ok(None)
    else
      var body :- ReadBody(req);
      Ok(if body != "" then Some(body) else None)
  }

  function ReadBody(req: Request): Result<string, Failure> {
    if Get(req.headers, "content-type") == Some("application/json") then
      match req.json
      case Err(e) => Err(e)
      case Ok(v) => Ok(if v.truthy then v.serialized else "{}")
    else req.text
  }

  /** The steps inside the `try` block, in order; an `Err` is what they
      throw. */
  function Attempt(req: Request, cfg: Config, platform: Platform): Result<Decision, Failure> {
    var origin := Get(req.headers, "origin");
    var referer := Get(req.headers, "referer");
    if !Truthy(referer) then Ok(Reply(NoReferer))
    else
      var caller :- GetOrigin(origin, referer, platform.decode);
      var callerOk :- IsAuthorized(caller, cfg.originWhitelist, platform.hostname);
      if !callerOk then Ok(Reply(NotAuthorized))
      else
        var destination :- DestinationUrl(req.url, cfg.prefix, platform.decode);
        var destinationOk :- IsAuthorized(Some(destination), cfg.destinationWhitelist, platform.hostname);
        if !destinationOk then Ok(Reply(NotAuthorized))
        else
          var headers :- RequestHeaders(req.headers, cfg, platform.decode);
          var body :- OutboundBody(req);
          Ok(Forward(destination, FetchOptions(req.httpMethod, headers, body), origin))
  }

  /** `handleProxy(req, res)`. */
  function HandleProxy(req: Request, cfg: Config, platform: Platform): Decision {
    if req.httpMethod == "OPTIONS" then Reply(HandleOptions(req.headers))
    else match Attempt(req, cfg, platform)
      case Ok(d) => d
      case Err(f) => Reply(Thrown(f))
  }

  /** OPTIONS is answered first, with no header or whitelist consulted
      beyond the allow-headers computation. */
  lemma OptionsHandledFirst(req: Request, cfg: Config, platform: Platform)
    requires req.httpMethod == "OPTIONS"
    ensures HandleProxy(req, cfg, platform) == Reply(HandleOptions(req.headers))
    ensures HandleProxy(req, cfg, platform).response.status == 204
  {
  }

  /** A missing or empty referer is refused before anything else is
      looked at. */
  lemma MissingRefererRefused(req: Request, cfg: Config, platform: Platform)
    requires req.httpMethod != "OPTIONS" && !Truthy(Get(req.headers, "referer"))
    ensures HandleProxy(req, cfg, platform) == Reply(NoReferer)
  {
  }

  /** A caller whose resolved origin's host name is not whitelisted is
      refused, whatever the destination. */
  lemma CallerRefused(req: Request, cfg: Config, platform: Platform)
    requires req.httpMethod != "OPTIONS" && Truthy(Get(req.headers, "referer"))
    requires var caller := GetOrigin(Get(req.headers, "origin"), Get(req.headers, "referer"), platform.decode);
      caller.Ok? && IsAuthorized(caller.value, cfg.originWhitelist, platform.hostname) == Ok(false)
    ensures HandleProxy(req, cfg, platform) == Reply(NotAuthorized)
  {
  }

  /** An authorized caller asking for a destination whose host name is not
      whitelisted is refused with the same response. */
  lemma DestinationRefused(req: Request, cfg: Config, platform: Platform)
    requires req.httpMethod != "OPTIONS" && Truthy(Get(req.headers, "referer"))
    requires var caller := GetOrigin(Get(req.headers, "origin"), Get(req.headers, "referer"), platform.decode);
      caller.Ok? && IsAuthorized(caller.value, cfg.originWhitelist, platform.hostname) == Ok(true)
    requires var destination := DestinationUrl(req.url, cfg.prefix, platform.decode);
      destination.Ok? && IsAuthorized(Some(destination.value), cfg.destinationWhitelist, platform.hostname) == Ok(false)
    ensures HandleProxy(req, cfg, platform) == Reply(NotAuthorized)
  {
  }

  /** A call is forwarded only when the referer is present, the caller's
      host name and the destination's host name are both whitelisted, and
      the forwarded URL is the decoded destination; conversely, such a
      request is forwarded unless building its headers or reading its body
      throws. */
  lemma ForwardOnlyWhenAuthorized(req: Request, cfg: Config, platform: Platform)
    requires req.httpMethod != "OPTIONS"
    ensures HandleProxy(req, cfg, platform).Forward? ==>
              && Truthy(Get(req.headers, "referer"))
              && (var caller := GetOrigin(Get(req.headers, "origin"), Get(req.headers, "referer"), platform.decode);
                  caller.Ok? && Truthy(caller.value) && platform.hostname(caller.value.value).Ok? &&
                  IsWhitelisted(platform.hostname(caller.value.value).value, cfg.originWhitelist))
              && DestinationUrl(req.url, cfg.prefix, platform.decode) == Ok(HandleProxy(req, cfg, platform).url)
              && (var url := HandleProxy(req, cfg, platform).url;
                  url != "" && platform.hostname(url).Ok? &&
                  IsWhitelisted(platform.hostname(url).value, cfg.destinationWhitelist))
    ensures (&& Truthy(Get(req.headers, "referer"))
             && (var caller := GetOrigin(Get(req.headers, "origin"), Get(req.headers, "referer"), platform.decode);
                 caller.Ok? && IsAuthorized(caller.value, cfg.originWhitelist, platform.hostname) == Ok(true))
             && (var destination := DestinationUrl(req.url, cfg.prefix, platform.decode);
                 destination.Ok? && IsAuthorized(Some(destination.value), cfg.destinationWhitelist, platform.hostname) == Ok(true))
             && RequestHeaders(req.headers, cfg, platform.decode).Ok?
             && OutboundBody(req).Ok?)
            ==> HandleProxy(req, cfg, platform).Forward?
  {
    var caller := GetOrigin(Get(req.headers, "origin"), Get(req.headers, "referer"), platform.decode);
    if HandleProxy(req, cfg, platform).Forward? {
      IsAuthorizedSpec(caller.value, cfg.originWhitelist, platform.hostname);
      var destination := DestinationUrl(req.url, cfg.prefix, platform.decode);
      IsAuthorizedSpec(Some(destination.value), cfg.destinationWhitelist, platform.hostname);
    }
  }

  /** An error thrown on the way — a caller or destination that is not a
      URL, a value that cannot be decoded, a body that cannot be read — is
      answered with the error object and its own status code, or 500; it is
      never taken for one of the two refusals. */
  lemma ThrownIsAnswered(req: Request, cfg: Config, platform: Platform)
    requires req.httpMethod != "OPTIONS"
    requires Attempt(req, cfg, platform).Err?
    ensures HandleProxy(req, cfg, platform) == Reply(Thrown(Attempt(req, cfg, platform).error))
    ensures HandleProxy(req, cfg, platform).response.body.ErrorObject?
    ensures HandleProxy(req, cfg, platform) != Reply(NoReferer) && HandleProxy(req, cfg, platform) != Reply(NotAuthorized)
    ensures var code := StatusCode(Attempt(req, cfg, platform).error);
      && (code.Some? && code.value != 0 ==> HandleProxy(req, cfg, platform).response.status == code.value)
      && (code.None? || code == Some(0) ==> HandleProxy(req, cfg, platform).response.status == 500)
  {
  }

  /** A caller origin that is not a URL gives 500 rather than a refusal. */
  lemma UnparsableCallerIs500(req: Request, cfg: Config, platform: Platform)
    requires req.httpMethod != "OPTIONS" && Truthy(Get(req.headers, "referer"))
    requires var caller := GetOrigin(Get(req.headers, "origin"), Get(req.headers, "referer"), platform.decode);
      caller.Ok? && platform.hostname(caller.value.value).Err?
    requires StatusCode(platform.hostname(GetOrigin(Get(req.headers, "origin"), Get(req.headers, "referer"), platform.decode).value.value).error).None?
    ensures HandleProxy(req, cfg, platform).Reply?
    ensures HandleProxy(req, cfg, platform).response.status == 500
  {
    GetOriginTruthy(Get(req.headers, "origin"), Get(req.headers, "referer"), platform.decode);
  }

  /** A forwarded call carries the inbound method, and a body only when the
      method is not `GET` and the body read is non-empty: the JSON text of
      the parsed value (or `{}`) for `application/json`, the raw text
      otherwise. */
  lemma ForwardedBody(req: Request, cfg: Config, platform: Platform)
    requires HandleProxy(req, cfg, platform).Forward?
    ensures var options := HandleProxy(req, cfg, platform).options;
      && options.httpMethod == req.httpMethod
      && (req.httpMethod == "GET" ==> options.body.None?)
      && (req.httpMethod != "GET" ==>
            ReadBody(req).Ok? && options.body == if ReadBody(req).value != "" then Some(ReadBody(req).value) else None)
      && (options.body.Some? ==> options.body.value != "")
  {
  }

  /** The body is read only for a method other than `GET`, and then in one
      way only: as JSON for exactly `application/json`, as text otherwise.
      What the other reading would give never affects the outcome. */
  lemma BodyReadOnlyWhenSent(req: Request, cfg: Config, platform: Platform,
                             t: Result<string, Failure>, j: Result<Json, Failure>)
    ensures req.httpMethod == "GET" ==>
              HandleProxy(req.(text := t, json := j), cfg, platform) == HandleProxy(req, cfg, platform)
    ensures Get(req.headers, "content-type") == Some("application/json") ==>
              HandleProxy(req.(text := t), cfg, platform) == HandleProxy(req, cfg, platform)
    ensures Get(req.headers, "content-type") != Some("application/json") ==>
              HandleProxy(req.(json := j), cfg, platform) == HandleProxy(req, cfg, platform)
  {
    if req.httpMethod == "GET" {
      SameBodySameDecision(req, req.(text := t, json := j), cfg, platform);
    }
    if Get(req.headers, "content-type") == Some("application/json") {
      SameBodySameDecision(req, req.(text := t), cfg, platform);
    } else {
      SameBodySameDecision(req, req.(json := j), cfg, platform);
    }
  }

  /** Two requests that agree on everything but how their body reads, and
      whose outbound bodies agree, are decided alike. */
  lemma SameBodySameDecision(a: Request, b: Request, cfg: Config, platform: Platform)
    requires a.httpMethod == b.httpMethod && a.url == b.url && a.headers == b.headers
    requires OutboundBody(a) == OutboundBody(b)
    ensures HandleProxy(a, cfg, platform) == HandleProxy(b, cfg, platform)
  {
  }

  /** A parsed `application/json` body on a call that passed both checks is
      forwarded: a falsy value as `{}` (so such a body is always attached),
      a truthy one as its serialization when that is non-empty. */
  lemma JsonBodyForwarded(req: Request, cfg: Config, platform: Platform)
    requires req.httpMethod != "OPTIONS" && req.httpMethod != "GET"
    requires Get(req.headers, "content-type") == Some("application/json") && req.json.Ok?
    requires Truthy(Get(req.headers, "referer"))
    requires var caller := GetOrigin(Get(req.headers, "origin"), Get(req.headers, "referer"), platform.decode);
      caller.Ok? && IsAuthorized(caller.value, cfg.originWhitelist, platform.hostname) == Ok(true)
    requires var destination := DestinationUrl(req.url, cfg.prefix, platform.decode);
      destination.Ok? && IsAuthorized(Some(destination.value), cfg.destinationWhitelist, platform.hostname) == Ok(true)
    requires RequestHeaders(req.headers, cfg, platform.decode).Ok?
    ensures HandleProxy(req, cfg, platform).Forward?
    ensures !req.json.value.truthy ==> HandleProxy(req, cfg, platform).options.body == Some("{}")
    ensures req.json.value.truthy && req.json.value.serialized != "" ==>
              HandleProxy(req, cfg, platform).options.body == Some(req.json.value.serialized)
  {
  }

  /** A JSON body that cannot be parsed, on a call that passed both checks,
      is answered with the parse error (its own status code, or 500) instead
      of being forwarded. */
  lemma UnparsableJsonIsThrown(req: Request, cfg: Config, platform: Platform)
    requires req.httpMethod != "OPTIONS" && req.httpMethod != "GET"
    requires Get(req.headers, "content-type") == Some("application/json") && req.json.Err?
    requires Truthy(Get(req.headers, "referer"))
    requires var caller := GetOrigin(Get(req.headers, "origin"), Get(req.headers, "referer"), platform.decode);
      caller.Ok? && IsAuthorized(caller.value, cfg.originWhitelist, platform.hostname) == Ok(true)
    requires var destination := DestinationUrl(req.url, cfg.prefix, platform.decode);
      destination.Ok? && IsAuthorized(Some(destination.value), cfg.destinationWhitelist, platform.hostname) == Ok(true)
    requires RequestHeaders(req.headers, cfg, platform.decode).Ok?
    ensures HandleProxy(req, cfg, platform) == Reply(Thrown(req.json.error))
    ensures StatusCode(req.json.error).Some? && StatusCode(req.json.error).value != 0 ==>
              HandleProxy(req, cfg, platform).response.status == StatusCode(req.json.error).value
  {
  }

  // ---------------------------------------------------------------------
  // Relaying the upstream's answer
  // ---------------------------------------------------------------------

  /** The upstream's answer: the call failed, or it returned a status, a
      status text and the result of parsing its body as JSON. */
  datatype Upstream =
    | Unreachable(failure: Failure)
    | Received(status: int, statusText: string, parsed: Result<string, Failure>)

  /** `processRequest(res, origin, url, options)`. */
  function ProcessRequest(origin: Option<string>, url: string, options: FetchOptions, upstream: Upstream): Response {
    match upstream
    case Unreachable(f) => Thrown(f)
    case Received(status, statusText, parsed) =>
      if status > 299 then
        Response(status, [], UpstreamError(status, statusText, url, options))
      else match parsed
        case Err(f) => Thrown(f)
        case Ok(data) =>
          Response(200, if Truthy(origin) then [("access-control-allow-origin", origin.value)] else [], Payload(data))
  }

  /** A status above 299 is relayed with its text and the request made; a
      successful parse is relayed as 200 with allow-origin set exactly when
      the raw origin header is truthy; failures carry their own status or
      500. */
  lemma ProcessRequestSpec(origin: Option<string>, url: string, options: FetchOptions, upstream: Upstream)
    ensures var r := ProcessRequest(origin, url, options, upstream);
      && (upstream.Received? && upstream.status > 299 ==>
            r.status == upstream.status && r.body == UpstreamError(upstream.status, upstream.statusText, url, options))
      && (r.body.Payload? <==> upstream.Received? && upstream.status <= 299 && upstream.parsed.Ok?)
      && (r.body.Payload? ==> r.status == 200 && r.body.data == upstream.parsed.value)
      && ("access-control-allow-origin" in Keys(r.headers) <==> r.body.Payload? && Truthy(origin))
      && (Get(r.headers, "access-control-allow-origin").Some? ==> Get(r.headers, "access-control-allow-origin") == origin)
      && (upstream.Unreachable? ==> r == Thrown(upstream.failure))
      && (upstream.Received? && upstream.status <= 299 && upstream.parsed.Err? ==> r == Thrown(upstream.parsed.error))
  {
    var r := ProcessRequest(origin, url, options, upstream);
    if r.body.Payload? && Truthy(origin) {
      assert Keys(r.headers) == ["access-control-allow-origin"];
    } else {
      assert r.headers == [];
    }
  }

  /** The whole exchange: the decision, then, for a forwarded call, the
      relay of the upstream's answer to it. */
  function Serve(req: Request, cfg: Config, platform: Platform, upstream: Upstream): Response {
    match HandleProxy(req, cfg, platform)
    case Reply(r) => r
    case Forward(url, options, origin) => ProcessRequest(origin, url, options, upstream)
  }

  /** A payload reaches the client only through a forwarded call: an
      authorized caller and destination. */
  lemma PayloadOnlyWhenAuthorized(req: Request, cfg: Config, platform: Platform, upstream: Upstream)
    requires req.httpMethod != "OPTIONS"
    requires Serve(req, cfg, platform, upstream).body.Payload?
    ensures HandleProxy(req, cfg, platform).Forward?
    ensures var caller := GetOrigin(Get(req.headers, "origin"), Get(req.headers, "referer"), platform.decode);
      caller.Ok? && IsAuthorized(caller.value, cfg.originWhitelist, platform.hostname) == Ok(true)
  {
    ForwardOnlyWhenAuthorized(req, cfg, platform);
    var caller := GetOrigin(Get(req.headers, "origin"), Get(req.headers, "referer"), platform.decode);
    IsAuthorizedSpec(caller.value, cfg.originWhitelist, platform.hostname);
  }

  // ---------------------------------------------------------------------
  // Worked cases
  // ---------------------------------------------------------------------

  /** An upstream 404 is relayed as 404 with its status text and the URL
      that was called. */
  lemma UpstreamNotFound(origin: Option<string>, url: string, options: FetchOptions, parsed: Result<string, Failure>)
    ensures ProcessRequest(origin, url, options, Received(404, "Not Found", parsed)) ==
              Response(404, [], UpstreamError(404, "Not Found", url, options))
  {
  }

  /** A pre-flight request gets 204 and an allow-headers value that lists
      the six defaults. */
  lemma PreflightListsDefaults(req: Request, cfg: Config, platform: Platform, name: string)
    requires req.httpMethod == "OPTIONS"
    requires forall i :: 0 <= i < |req.headers| ==> ',' !in req.headers[i].0
    requires name in DefaultAllowed
    ensures var r := HandleProxy(req, cfg, platform).response;
      r.status == 204 && Get(r.headers, "access-control-allow-headers").Some? &&
      name in SplitComma(Get(r.headers, "access-control-allow-headers").value)
  {
    DefaultsAlwaysAllowed(req.headers, name);
  }

  /** A destination whitelist written as a URL pattern refuses the call to
      that very host: with `https://api.example.com/` and a star
      configured, a call whose destination has host name
      `api.example.com` is refused, because only host names are tested
      and no host name holds `://`. */
  lemma UrlWhitelistRefusesItsHost(req: Request, env: Fields<string>, name: string, version: string,
                                   platform: Platform, scheme: string, host: string)
    requires ',' !in scheme + "://" + host && '*' !in scheme + "://" + host
    requires Get(env, "PROXY_DESTINATION_WHITELIST") == Some(scheme + "://" + host + "/*")
    requires req.httpMethod != "OPTIONS" && Truthy(Get(req.headers, "referer"))
    requires var cfg := Startup(env, name, version);
      var caller := GetOrigin(Get(req.headers, "origin"), Get(req.headers, "referer"), platform.decode);
      caller.Ok? && IsAuthorized(caller.value, cfg.originWhitelist, platform.hostname) == Ok(true)
    requires var destination := DestinationUrl(req.url, Startup(env, name, version).prefix, platform.decode);
      destination.Ok? && destination.value != "" && platform.hostname(destination.value) == Ok(host)
    ensures HandleProxy(req, Startup(env, name, version), platform) == Reply(NotAuthorized)
  {
    var cfg := Startup(env, name, version);
    UrlPatternRejectsHost(scheme, host);
    var destination := DestinationUrl(req.url, cfg.prefix, platform.decode);
    IsAuthorizedSpec(Some(destination.value), cfg.destinationWhitelist, platform.hostname);
    DestinationRefused(req, cfg, platform);
  }
}
