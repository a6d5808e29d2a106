# micro-cors-http-proxy core, in Dafny

This project models the decision logic of a CORS forwarding gateway.
The gateway receives a request under `/<prefix>/<encoded destination>`.
It checks the caller and the destination against whitelists, rewrites the
headers, forwards the call, and relays the answer.

The model has two parts.

- **Secret templating** (`src/utils/tokenization.js`). `FilterByPrefix`
  builds the replacement table from the environment. `MustachReplace`
  rewrites `{{ns.NAME}}` tokens in a header value. The regular expression
  `/{{((.*?)\.(.*?))}}/g` is modelled as an explicit scanner (`MatchHead`,
  `Head`, `Lex`). The scanner is proved to pick the match the lazy
  quantifiers pick. A loop version (`Substitute`) is proved equal to it.
- **Authorization and shaping** (`src/index.js`). This part covers:
  - the whitelist glob compiler (`PrepareRegex`, `ToRegexArray`);
  - a small interpreter for the regular expressions it produces
    (`Parse`, `AtomsMatch`, `RegexTest`);
  - the direct reading of a glob (`Pattern`, `Compile`, `Matches`);
  - origin resolution (`GetOrigin`) and authorization (`IsAuthorized`);
  - the two header transforms (`RequestHeaders`, `AllowHeaders`);
  - the decision sequence of `handleProxy` (`HandleProxy`, `Attempt`);
  - the relay of the upstream answer (`ProcessRequest`);
  - the error object (`ToJson`).

Files:

| file | module | contents |
|---|---|---|
| wrappers.dfy | `Wrappers` | `Option`, `Result` |
| strings.dfy | `Strings` | line terminators, `indexOf`, `replace` with a string pattern, `split(',')` and `join(',')`, upper-casing |
| fields.dfy | `Fields` | a JavaScript object as an ordered list of properties: `obj[k]`, `obj[k] = v`, `{...a, ...b}`, rest destructuring |
| tokenization.dfy | `Tokenization` | `filterByPrefix`, the token scanner, `mustachReplace` |
| glob.dfy | `Glob` | `prepareRegex`, its meaning, `toRegexArray`, `isWhitelisted` |
| gateway.dfy | `Gateway` | start-up configuration, `getOrigin`, `isAuthorized`, `requestHeaders`, `allowHeaders` |
| proxy.dfy | `Proxy` | `_toJSON`, `handleOptions`, `handleProxy`, `processRequest` |

The platform calls are parameters. These are the `hostname` of a WHATWG
`URL` and `decodeURIComponent`. Each is a function that gives a string or
the error it throws (`Gateway.Platform`). The request body as `text(req)`
and `json(req)` would read it is an input (`Proxy.Request`). So is the
upstream's answer (`Proxy.Upstream`).

## Where the code and the specification differ

The model follows the code.

- The destination is checked by host name only (src/index.js:245 calls
  `isAuthorized`, which parses the URL and tests `hostname`). The protocol
  is never checked. There is no https or localhost rule.
- The caller is checked against `PROXY_ORIGIN_WHITELIST` only.
- An unset or empty whitelist compiles to the single pattern `^$`. It
  therefore accepts the empty host name and nothing else.
- A whitelist entry written as a full URL (`https://host/*`) never accepts
  that host, because only host names are tested
  (`Glob.UrlPatternRejectsHost`, `Proxy.UrlWhitelistRefusesItsHost`).
- The allow-origin header of a relayed answer is the raw `origin` request
  header, not the resolved origin.
- `allowHeaders` does not remove duplicates.
- A decoding or URL-parsing failure answers 500 (or the error's own
  `statusCode`), not 401.

## Model

| member | source | states |
|---|---|---|
| Tokenization.FilterByPrefix | src/utils/tokenization.js:2-21 | `filterByPrefix(env, ...prefixes)`; its contract is `FilterByPrefixKeys` and `FilterByPrefixValues` |
| Tokenization.MustachReplace | src/utils/tokenization.js:23-34 | `mustachReplace(input, table, ...namespaces)`; its contract is `LexRoundTrip`, `TokenResolves`, `PlainTextPassesThrough` and `NoTokenIsIdentity` |
| Tokenization.StripPrefixes | src/utils/tokenization.js:14-17 | the stored key is what remains of the raw key once each matching prefix is removed from its front: a suffix of the raw key |
| Tokenization.FilterByPrefixKeys | src/utils/tokenization.js:2-21 | the table has an entry `k` exactly when some environment key starts with one of the prefixes and strips to `k`; all other keys are dropped |
| Tokenization.FilterByPrefixValues | src/utils/tokenization.js:12-20 | the value under `k` is, unchanged, the value of the last environment entry kept as `k` (a later assignment wins) |
| Tokenization.SinglePrefixTable | src/utils/tokenization.js:2-21 | with one prefix, `k` is in the table exactly when the environment has the key `prefix + k` |
| Tokenization.MatchHeadIsLazyMatch | src/utils/tokenization.js:25 | the scanner finds a token at a position exactly when the expression `{{(.*?)\.(.*?)}}` can match there; the match it finds is the lazy one (shortest namespace, then shortest name); neither group crosses a line terminator |
| Tokenization.MatchHeadShape | src/utils/tokenization.js:25 | a match spans `{{`, the namespace, `.`, the name and `}}` |
| Tokenization.LexRoundTrip | src/utils/tokenization.js:25 | the global scan loses and invents nothing: writing its pieces back gives the input |
| Tokenization.TokenResolves | src/utils/tokenization.js:25-33 | a token becomes `table[NAME.toUpperCase()]` exactly when its namespace is accepted, its name is not `undefined` and that entry is non-empty; otherwise it stays byte for byte; the inserted value is not rescanned and the text after the token is substituted on its own |
| Tokenization.PlainTextPassesThrough | src/utils/tokenization.js:25 | text without `{` is copied unchanged and does not affect how the text after it is substituted |
| Tokenization.NoTokenIsIdentity | src/utils/tokenization.js:25 | a string in which no position starts a `{{….…}}` match is returned unchanged, whatever the table |
| Tokenization.EmptyTableIsIdentity | src/utils/tokenization.js:28 | with an empty table every token is kept, so the input is returned unchanged |
| Tokenization.NoNamespaceIsIdentity | src/utils/tokenization.js:26-31 | with no accepted namespace the input is returned unchanged |
| Tokenization.ScanStep | src/utils/tokenization.js:25 | one step of the global scan consumes at least one character and emits the output for the consumed piece |
| Tokenization.Substitute | src/utils/tokenization.js:23-34 | one left-to-right pass, defined for every input and table, gives the same output as the substitution |
| Tokenization.TextThenToken | src/utils/tokenization.js:25-33 | plain text followed by one well-formed token becomes the text followed by that token's resolution |
| Tokenization.BearerTokenIsSubstituted | src/utils/tokenization.js:26-28 | `Bearer {{setting.TOKEN}}` with `TOKEN = abc123` becomes `Bearer abc123` |
| Tokenization.ForeignNamespaceIsKept | src/utils/tokenization.js:26-31 | `{{other.TOKEN}}` with only `setting` accepted stays as written |
| Tokenization.NameIsUpperCased | src/utils/tokenization.js:28 | `{{setting.token}}` is looked up as `TOKEN` |
| Tokenization.UndefinedIsNeverSubstituted | src/utils/tokenization.js:27-29 | a token named `undefined` is kept whatever the table holds |
| Tokenization.EmptyValueKeepsToken | src/utils/tokenization.js:28 | an empty table entry is falsy, so the token stays |
| Tokenization.ValuesAreNotRescanned | src/utils/tokenization.js:25 | a value that itself looks like a token is inserted as is |
| Tokenization.NamespaceRunsAcrossTokens | src/utils/tokenization.js:25 | in `{{a}}{{setting.X}}` the lazy namespace group runs across `}}{{`, so the only match has namespace `a}}{{setting` and nothing is replaced |
| Strings.IndexOfSpec | src/index.js:44 | `indexOf` gives the first occurrence from the start position on, and -1 only when there is none |
| Strings.ReplaceFirstAt | src/index.js:44 | `replace` with a string pattern rewrites only the leftmost occurrence and keeps the rest of the string |
| Strings.SplitJoinComma | src/index.js:143-147 | joining with commas and splitting again gives back the first item's pieces followed by the other, comma-free items |
| Strings.SplitCommaCount | src/index.js:68 | `split(',')` gives one piece more than there are commas |
| Fields.SetGet | src/index.js:108-111 | after `obj[k] = v`, `k` reads `v` and every other key reads as before |
| Fields.SetKeys | src/index.js:108-111 | an assigned key keeps its place if present and is otherwise added last |
| Fields.SpreadGet | src/index.js:120 | in `{...base, ...extra}` a key of `extra` reads its value from `extra`, any other key reads through to `base`, and no key appears twice |
| Fields.WithoutGet | src/index.js:100-106 | in the rest of a destructuring, the named properties read as `undefined` and every other reads as before |
| Fields.WithoutKeys | src/index.js:127-130 | the rest of a destructuring keeps exactly the keys not named |
| Glob.PrepareRegex | src/index.js:41-45 | `prepareRegex(glob)`; its meaning is `PrepareRegexMeaning` |
| Glob.ToRegexArray | src/index.js:65-70 | `toRegexArray(csv)`: one pattern per configured glob, in order; its meaning is `WhitelistedIffGlob` |
| Glob.StarInEscape | src/index.js:43 | escaping keeps a `*` exactly when the glob has one |
| Glob.LiteralPrepared | src/index.js:41-45 | a glob without `*` is only escaped: there is no `\*` to rewrite |
| Glob.WildPrepared | src/index.js:41-45 | in a glob with a `*`, the first `\*` of the escaped text comes from the glob's first `*`, and only it becomes `.+` |
| Glob.CompileSplits | src/index.js:44 | a glob without `*` is a literal; one with `*` splits at its first `*` into a `*`-free prefix and a suffix |
| Glob.MatchesWild | src/index.js:41-45 | a wildcard pattern accepts exactly prefix + `m` + suffix where `m` has one or more characters and no line terminator |
| Glob.PrepareRegexMeaning | src/index.js:41-45 | the anchored expression built from a glob is well formed and accepts a string exactly when the glob does: itself alone without `*`; otherwise prefix, one or more characters, suffix, with any later `*` literal |
| Glob.CollapseThenSplit | src/index.js:66-68 | collapsing `, ` to `,` and then splitting gives the same pieces as splitting first and then dropping one leading space from every piece but the first |
| Glob.GlobsOfList | src/index.js:65-70 | a configured list gives one glob per comma-separated piece, with one space after a comma ignored |
| Glob.IsWhitelisted | src/index.js:47-49 | a host is whitelisted exactly when some pattern of the list accepts it; an empty list accepts nothing |
| Glob.WhitelistedIffGlob | src/index.js:65-70 | a host passes the compiled list exactly when one of the configured globs, read directly, matches it |
| Glob.UnconfiguredAcceptsOnlyEmpty | src/index.js:65-70 | an unset or empty list is the single empty glob and accepts the empty host name only |
| Glob.SingleGlob | src/index.js:65-70 | a value without commas configures exactly one glob |
| Glob.OneGlobWhitelist | src/index.js:65-70 | with a single glob configured, a host passes exactly when that glob matches it |
| Glob.UrlPatternRejectsHost | src/index.js:56-70 | a whitelist entry `scheme://host/*` never accepts `host` |
| Glob.SubdomainWildcard | src/index.js:65-70 | the entry `*.domain` accepts every subdomain of `domain` and not `domain` itself |
| Gateway.Startup | src/index.js:72-82 | the module-level configuration; its contract is `StartupDefaults` and `ReplaceMatchIsAlsoASecret` |
| Gateway.GetOrigin | src/index.js:89-97 | `getOrigin(origin, referer)`; its contract is `GetOriginParam`, `GetOriginNoParam` and `GetOriginTruthy` |
| Gateway.IsAuthorized | src/index.js:56-63 | `isAuthorized(candidate, whitelist)`; its contract is `IsAuthorizedSpec` and `OnlyHostnameMatters` |
| Gateway.RequestHeaders | src/index.js:99-123 | `requestHeaders(headers)`; its contract is `RequestHeadersSpec` |
| Gateway.AllowHeaders | src/index.js:125-150 | `allowHeaders(headers)`; its contract is `AllowHeadersSplit` and `DefaultsAlwaysAllowed` |
| Gateway.Or | src/index.js:96 | `a \|\| b` is truthy exactly when one of them is |
| Gateway.StatusOf | src/index.js:268-271 | `error.statusCode \|\| 500`: a numeric, non-zero `statusCode` property is the status; a missing or zero one gives 500 |
| Gateway.StartupDefaults | src/index.js:72-82 | with none of the gateway's variables set, the prefix is `proxy`, the namespace `setting`, secrets come from `PROXY_REPLACE_*`, and both whitelists accept only the empty host name |
| Gateway.ReplaceMatchIsAlsoASecret | src/index.js:77-82 | `PROXY_REPLACE_MATCH` starts with the default secret prefix, so when set it also lands in the table, as `MATCH` |
| Gateway.FindOriginParam | src/index.js:92 | the position found is the leftmost one where `?origin=` is followed by a character other than `?` and `&`, and none exists when nothing is found |
| Gateway.ParamRun | src/index.js:92 | the greedy `[^\?&]+` takes every character up to the first `?` or `&` |
| Gateway.GetOriginParam | src/index.js:89-97 | with a `?origin=X` parameter in the referer, the first one's non-empty value `X` is decoded and replaces the origin header; a decoding failure propagates |
| Gateway.GetOriginNoParam | src/index.js:89-97 | without such a parameter the origin header is used when truthy, and the referer otherwise |
| Gateway.GetOriginTruthy | src/index.js:92-96 | with a referer present, the resolved origin is never falsy |
| Gateway.IsAuthorizedSpec | src/index.js:56-63 | a falsy candidate is refused without throwing; otherwise the candidate passes exactly when its host name parses and some pattern accepts it; it throws exactly when the host name does not parse |
| Gateway.OnlyHostnameMatters | src/index.js:58 | two candidates with the same host name are authorized alike, whatever their scheme, port, path or query |
| Gateway.EmptyWhitelistRefuses | src/index.js:56-63 | an empty whitelist authorizes nobody |
| Gateway.SubstituteValuesGet | src/index.js:108-111 | the filtered headers keep the names, in order, and each value goes through the template substitution |
| Gateway.SynthesizedShape | src/index.js:113-118 | `origin` holds the resolved origin, `x-forwarded-by` holds `name-version`, and the other two hold the raw origin and referer headers |
| Gateway.RequestHeadersSpec | src/index.js:99-123 | `host`, `referer` and `x-requested-with` are never copied; every other inbound header keeps its name with its value substituted; the four synthesized headers are always present and override inbound headers of the same name; no name appears twice |
| Gateway.AllowHeadersSplit | src/index.js:125-150 | read back at the commas, the allow-headers value lists the requested headers, then every other inbound header name in order, then the six defaults, without removing duplicates |
| Gateway.DefaultsAlwaysAllowed | src/index.js:135-147 | each of the six default header names is always allowed |
| Proxy.ToJson | src/index.js:10-19 | `_toJSON(error)`; its contract is `ToJsonShape` |
| Proxy.ToJsonShape | src/index.js:10-19 | the error object holds every own property of the error with its value, `statusCode` included, no key twice, and `type` is `error` unless the error has a `type` of its own |
| Proxy.HandleOptions | src/index.js:206-211 | `handleOptions`; its contract is `OptionsHandledFirst` and `PreflightListsDefaults` |
| Proxy.DestinationUrl | src/index.js:241-243 | the destination URL; its contract is `DestinationOfProxyPath` and `DestinationWithoutPrefix` |
| Proxy.OutboundBody | src/index.js:254-265 | the body attached to the forwarded call; its contract is `ForwardedBody` |
| Proxy.ReadBody | src/index.js:255-258 | the body read; its contract is `BodyReadOnlyWhenSent`, `JsonBodyForwarded` and `UnparsableJsonIsThrown` |
| Proxy.Attempt | src/index.js:220-267 | the steps inside the `try` block; its contract is `ForwardOnlyWhenAuthorized` and `ThrownIsAnswered` |
| Proxy.HandleProxy | src/index.js:213-272 | `handleProxy`; its contract is `OptionsHandledFirst`, `MissingRefererRefused`, `CallerRefused`, `DestinationRefused`, `ForwardOnlyWhenAuthorized` and `ThrownIsAnswered` |
| Proxy.ProcessRequest | src/index.js:166-204 | `processRequest`; its contract is `ProcessRequestSpec` |
| Proxy.DestinationOfProxyPath | src/index.js:241-243 | a path starting with `/<prefix>/` gives the double decoding of what follows |
| Proxy.DestinationWithoutPrefix | src/index.js:241-243 | a path without `/<prefix>/` is decoded twice as it stands |
| Proxy.OptionsHandledFirst | src/index.js:216-218 | an OPTIONS request gets 204 with the allow-headers value, before any check |
| Proxy.MissingRefererRefused | src/index.js:227-229 | a missing or empty referer gets 401 `Referer is missing` before any whitelist is consulted |
| Proxy.CallerRefused | src/index.js:231-238 | a caller whose resolved origin has a host name outside the origin whitelist gets 401 `not whitelisted`, whatever the destination |
| Proxy.DestinationRefused | src/index.js:241-247 | an authorized caller asking for a destination whose host name is outside the destination whitelist gets the same 401 |
| Proxy.ForwardOnlyWhenAuthorized | src/index.js:213-267 | a call is forwarded only with a referer present and with both the caller's and the destination's host names whitelisted, to the decoded destination; conversely such a request is forwarded unless building its headers or reading its body throws |
| Proxy.ThrownIsAnswered | src/index.js:268-271 | an error thrown on the way is answered with the error object and status `error.statusCode \|\| 500`, and never with one of the two refusal replies |
| Proxy.UnparsableCallerIs500 | src/index.js:231-238 | a caller origin that is not a URL gives 500 rather than a refusal |
| Proxy.ForwardedBody | src/index.js:249-265 | the forwarded call carries the inbound method, and a body only for a method other than `GET` and only when the body read is non-empty |
| Proxy.BodyReadOnlyWhenSent | src/index.js:254-258 | a `GET` request's body is never read; otherwise only one reading counts, JSON for exactly `application/json` and text for anything else, and the other reading never changes the outcome |
| Proxy.JsonBodyForwarded | src/index.js:255-263 | a parsed `application/json` body on a call that passed both checks is forwarded; a falsy value is sent as `{}`, so it is always attached, and a truthy one as its serialization |
| Proxy.UnparsableJsonIsThrown | src/index.js:255-258 | a JSON body that cannot be parsed, on a call that passed both checks, is answered with the parse error and its own status code instead of being forwarded |
| Proxy.ProcessRequestSpec | src/index.js:166-204 | a status above 299 is relayed with its status text and the request made; otherwise a parsed body is relayed as 200, with allow-origin set exactly when the raw origin header is truthy; fetch and parse failures carry their own status or 500 |
| Proxy.PayloadOnlyWhenAuthorized | src/index.js:213-267 | an upstream payload reaches the client only through a forwarded call, that is, for an authorized caller |
| Proxy.UpstreamNotFound | src/index.js:172-183 | an upstream 404 is relayed as 404 with `Not Found` and the URL called |
| Proxy.PreflightListsDefaults | src/index.js:206-211 | a pre-flight answer is 204 and its allow-headers value lists every default header name |
| Proxy.UrlWhitelistRefusesItsHost | src/index.js:241-247 | with `PROXY_DESTINATION_WHITELIST` set to `scheme://host/*`, an authorized call to a destination whose host name is `host` is refused |

## Left out

- Routing and CORS wiring (src/index.js:274-291), including the malformed
  `negativePattern`, `noProxy`, `notSupported` and the `micro-cors`
  wrapper, is framework plumbing. `HandleProxy` models the requests routed
  to `handleProxy`.
- `send`, `json(req)` and `text(req)` are framework calls. A response is a
  `(status, headers, body)` value, and the two body reads are inputs of the
  request.
- `fetch`, `response.text()` and `JSON.parse` (src/index.js:152-164,169)
  are network I/O and an external parser. The upstream status, status text
  and parse result are inputs.
- `new URL(...).hostname` and `decodeURIComponent` are platform functions
  passed as parameters. The WHATWG URL Standard's parsing and the
  percent-decoding of ECMAScript are not modelled.
- `process.env` is an ordered list of name and value pairs. Object key
  order, in which integer-like names come first, is not modelled. The
  package's `name` and `version` are parameters of `Startup`.
- The `unhandledRejection` logger (src/index.js:21-28) and the commented-out
  logging only write to the console.
- `_toJSON` of a falsy error (the empty string) is not modelled. Every
  thrown value is an error object whose own properties are text or
  numbers.
- Gateway.StatusOf: a `statusCode` property that is not a number is
  treated as absent (500), because `send` with a non-numeric status is
  outside the model.
- The upstream error body does not model the `...response` spread
  (src/index.js:177), which adds the fetch response's own enumerable
  properties. `options` appears as the structured value rather than its
  `JSON.stringify` text.
- Header values are single strings. The arrays Node.js uses for repeated
  headers such as `set-cookie` are not modelled.
- Strings are sequences of Unicode scalar values, not UTF-16 code units.
- Strings.Upper: upper-cases ASCII letters only, because the
  locale-independent full Unicode case mapping of `toUpperCase` is outside
  the model.
- Glob.RegexTest: interprets only the fragment that `prepareRegex`
  produces (identity escapes, `.+` and plain characters). Any other
  pattern is refused, because no other pattern reaches it.
- direct.js is a console demo driver, not part of the gateway, and is not
  part of this model.
