/** The per-request helpers of the gateway (src/index.js): start-up
    configuration, origin resolution, authorization against a whitelist, and
    the two header transforms.

    What the gateway gets from its platform is passed in: host-name
    extraction (the `hostname` of a WHATWG `URL`) and `decodeURIComponent`
    are functions that either give a string or fail with the error they
    would throw. */
module Gateway {
  import opened Wrappers
  import opened Strings
  import opened Fields
  import opened Tokenization
  import opened Glob

  // ---------------------------------------------------------------------
  // Values, errors and the platform
  // ---------------------------------------------------------------------

  /** A possibly undefined string is truthy when defined and non-empty. */
  predicate Truthy(v: Option<string>) {
    v.Some? && v.value != ""
  }

  /** `a || b`. */
  function Or(a: Option<string>, b: Option<string>): (r: Option<string>)
    ensures Truthy(r) <==> Truthy(a) || Truthy(b)
  {
    if Truthy(a) then a else b
  }

  /** `v || d` for a configuration value with a string default. */
  function OrDefault(v: Option<string>, d: string): string {
    if Truthy(v) then v.value else d
  }

  /** The value of an error's own property: text or a number. */
  datatype Prop = Text(text: string) | Number(number: int)

  /** A thrown error: its own properties in order (`message`, `stack`,
      `statusCode`, …). */
  datatype Failure = Failure(fields: Fields<Prop>)

  /** `error.statusCode` when it is a number. */
  function StatusCode(f: Failure): Option<int>
  {
    var v := Get(f.fields, "statusCode");
    if v.Some? && v.value.Number? then Some(v.value.number) else None
  }

  /** `error.statusCode || 500`. */
  function StatusOf(f: Failure): (status: int)
    ensures status == 500 || (StatusCode(f) == Some(status) && status != 0)
    ensures StatusCode(f).Some? && StatusCode(f).value != 0 ==> status == StatusCode(f).value
    ensures StatusCode(f).None? || StatusCode(f) == Some(0) ==> status == 500
  {
    match StatusCode(f)
    case Some(code) => if code != 0 then code else 500
    case None => 500
  }

  /** The platform functions the gateway calls. */
  datatype Platform = Platform(
    hostname: string -> Result<string, Failure>,
    decode: string -> Result<string, Failure>)

  // ---------------------------------------------------------------------
  // Configuration
  // ---------------------------------------------------------------------

  /** The values fixed at start-up: the compiled caller and destination
      whitelists, the path prefix, the replacement table, the accepted
      template namespace and the forwarding agent's `name-version`. */
  datatype Config = Config(
    originWhitelist: seq<string>,
    destinationWhitelist: seq<string>,
    prefix: string,
    replacements: map<string, string>,
    namespace: string,
    agent: string)

  /** What the module computes when loaded, from `process.env` and the
      package's name and version. */
  function Startup(env: Fields<string>, name: string, version: string): Config {
    Config(
      ToRegexArray(Get(env, "PROXY_ORIGIN_WHITELIST")),
      ToRegexArray(Get(env, "PROXY_DESTINATION_WHITELIST")),
      OrDefault(Get(env, "PROXY_PREFIX"), "proxy"),
      FilterByPrefix(env, [OrDefault(Get(env, "PROXY_REPLACE"), "PROXY_REPLACE_")]),
      OrDefault(Get(env, "PROXY_REPLACE_MATCH"), "setting"),
      name + "-" + version)
  }

  /** With none of the gateway's variables set, the prefix is `proxy`, the
      namespace `setting`, secrets come from `PROXY_REPLACE_*` variables,
      and each whitelist accepts only the empty host name. */
  lemma StartupDefaults(env: Fields<string>, name: string, version: string, host: string)
    requires forall k :: k in Keys(env) ==>
      k !in ["PROXY_ORIGIN_WHITELIST", "PROXY_DESTINATION_WHITELIST", "PROXY_PREFIX", "PROXY_REPLACE", "PROXY_REPLACE_MATCH"]
    ensures var cfg := Startup(env, name, version);
      && cfg.prefix == "proxy" && cfg.namespace == "setting" && cfg.agent == name + "-" + version
      && cfg.replacements == FilterByPrefix(env, ["PROXY_REPLACE_"])
      && (IsWhitelisted(host, cfg.originWhitelist) <==> host == "")
      && (IsWhitelisted(host, cfg.destinationWhitelist) <==> host == "")
  {
    GetKeys(env, "PROXY_ORIGIN_WHITELIST");
    GetKeys(env, "PROXY_DESTINATION_WHITELIST");
    GetKeys(env, "PROXY_PREFIX");
    GetKeys(env, "PROXY_REPLACE");
    GetKeys(env, "PROXY_REPLACE_MATCH");
    UnconfiguredAcceptsOnlyEmpty(None, host);
  }

  /** `PROXY_REPLACE_MATCH` itself starts with the default secret prefix, so
      when it is set its value is also a secret, under the name `MATCH`. */
  lemma ReplaceMatchIsAlsoASecret(env: Fields<string>, name: string, version: string)
    requires !Truthy(Get(env, "PROXY_REPLACE"))
    requires "PROXY_REPLACE_MATCH" in Keys(env)
    ensures "MATCH" in Startup(env, name, version).replacements
  {
    var i :| 0 <= i < |env| && env[i].0 == "PROXY_REPLACE_MATCH";
    assert env[i].0 == "PROXY_REPLACE_" + "MATCH";
    SinglePrefixTable(env, "PROXY_REPLACE_", "MATCH");
  }

  // ---------------------------------------------------------------------
  // Origin resolution
  // ---------------------------------------------------------------------

  /** A character of `[^\?&]`. */
  predicate IsParamChar(c: char) {
    c != '?' && c != '&'
  }

  /** `/\?origin=([^\?&]+)/` matches at position `i`. */
  predicate OriginParamAt(r: string, i: nat) {
    OccursAt(r, "?origin=", i) && i + 8 < |r| && IsParamChar(r[i + 8])
  }

  /** The first position at or after `from` where the origin parameter
      matches. */
  function FindOriginParam(r: string, from: nat): (res: Option<nat>)
    decreases |r| - from
    ensures res.Some? ==> from <= res.value && OriginParamAt(r, res.value)
    ensures res.Some? ==> forall j: nat :: from <= j < res.value ==> !OriginParamAt(r, j)
    ensures res.None? ==> forall j: nat :: from <= j ==> !OriginParamAt(r, j)
  {
    if from + 8 >= |r| then None
    else if OriginParamAt(r, from) then Some(from)
    else FindOriginParam(r, from + 1)
  }

  /** The length of the longest run of `[^\?&]` characters at the front of
      `t` (the greedy `+`). */
  function ParamRun(t: string): (n: nat)
    ensures n <= |t|
    ensures forall j :: 0 <= j < n ==> IsParamChar(t[j])
    ensures n < |t| ==> !IsParamChar(t[n])
  {
    if t == [] || !IsParamChar(t[0]) then 0 else 1 + ParamRun(t[1..])
  }

  /** The text captured by the origin parameter that starts at `i`. */
  function ParamValue(r: string, i: nat): string
    requires i + 8 <= |r|
  {
    var t := r[i + 8..];
    t[..ParamRun(t)]
  }

  /** `getOrigin(origin, referer)`: the decoded `?origin=` parameter of a
      truthy referer if it has one, else the origin header; whichever is
      falsy gives way to the referer. A value that cannot be decoded throws. */
  function GetOrigin(origin: Option<string>, referer: Option<string>, decode: string -> Result<string, Failure>)
    : Result<Option<string>, Failure>
  {
    if !Truthy(referer) then Ok(Or(origin, referer))
    else match FindOriginParam(referer.value, 0)
      case None => Ok(Or(origin, referer))
      case Some(i) =>
        var decoded :- decode(ParamValue(referer.value, i));
        Ok(Or(Some(decoded), referer))
  }

  /** When the referer carries an origin parameter, the first one is decoded
      and wins over the origin header; decoding failures propagate. */
  lemma GetOriginParam(origin: Option<string>, referer: string, decode: string -> Result<string, Failure>, i: nat)
    requires referer != ""
    requires OriginParamAt(referer, i) && forall j: nat :: j < i ==> !OriginParamAt(referer, j)
    ensures |ParamValue(referer, i)| >= 1
    ensures forall j :: 0 <= j < |ParamValue(referer, i)| ==> IsParamChar(ParamValue(referer, i)[j])
    ensures decode(ParamValue(referer, i)).Err? ==>
              GetOrigin(origin, Some(referer), decode) == Err(decode(ParamValue(referer, i)).error)
    ensures decode(ParamValue(referer, i)).Ok? ==>
              GetOrigin(origin, Some(referer), decode) == Ok(Or(Some(decode(ParamValue(referer, i)).value), Some(referer)))
  {
    var r := FindOriginParam(referer, 0);
    if r.Some? {
      assert !(r.value < i) && !(i < r.value);
    }
    var t := referer[i + 8..];
    assert t[0] == referer[i + 8];
  }

  /** Without an origin parameter the origin header is used when truthy and
      the referer otherwise. */
  lemma GetOriginNoParam(origin: Option<string>, referer: Option<string>, decode: string -> Result<string, Failure>)
    requires !Truthy(referer) || forall j: nat :: !OriginParamAt(referer.value, j)
    ensures GetOrigin(origin, referer, decode) == Ok(if Truthy(origin) then origin else referer)
  {
  }

  /** With a referer present, the resolved origin is never falsy. */
  lemma GetOriginTruthy(origin: Option<string>, referer: Option<string>, decode: string -> Result<string, Failure>)
    requires Truthy(referer)
    ensures GetOrigin(origin, referer, decode).Ok? ==> Truthy(GetOrigin(origin, referer, decode).value)
  {
  }

  // ---------------------------------------------------------------------
  // Authorization
  // ---------------------------------------------------------------------

  /** `isAuthorized(candidate, whitelist)`: a falsy candidate is refused;
      otherwise its host name (only) is tested against the whitelist. A
      candidate that is not a URL throws. */
  function IsAuthorized(candidate: Option<string>, whitelist: seq<string>, hostname: string -> Result<string, Failure>)
    : Result<bool, Failure>
  {
    if !Truthy(candidate) then Ok(false)
    else
      var host :- hostname(candidate.value);
      Ok(IsWhitelisted(host, whitelist))
  }

  /** Authorization passes exactly for a truthy candidate whose host name
      some pattern accepts, and fails (without throwing) for a falsy one. */
  lemma IsAuthorizedSpec(candidate: Option<string>, whitelist: seq<string>, hostname: string -> Result<string, Failure>)
    ensures !Truthy(candidate) ==> IsAuthorized(candidate, whitelist, hostname) == Ok(false)
    ensures IsAuthorized(candidate, whitelist, hostname) == Ok(true) <==>
              Truthy(candidate) && hostname(candidate.value).Ok? &&
              exists i :: 0 <= i < |whitelist| && RegexTest(whitelist[i], hostname(candidate.value).value)
    ensures IsAuthorized(candidate, whitelist, hostname).Err? <==> Truthy(candidate) && hostname(candidate.value).Err?
  {
  }

  /** Two candidates with the same host name are authorized alike, whatever
      their scheme, port, path or query. */
  lemma OnlyHostnameMatters(a: string, b: string, whitelist: seq<string>, hostname: string -> Result<string, Failure>)
    requires a != "" && b != "" && hostname(a) == hostname(b)
    ensures IsAuthorized(Some(a), whitelist, hostname) == IsAuthorized(Some(b), whitelist, hostname)
  {
  }

  /** An empty whitelist authorizes nobody. */
  lemma EmptyWhitelistRefuses(candidate: Option<string>, hostname: string -> Result<string, Failure>)
    ensures IsAuthorized(candidate, [], hostname) != Ok(true)
  {
  }

  // ---------------------------------------------------------------------
  // Outbound request headers
  // ---------------------------------------------------------------------

  /** The inbound headers `requestHeaders` never copies. */
  const Dropped: seq<string> := ["host", "referer", "origin", "x-requested-with"]

  /** The headers `requestHeaders` always sets last. */
  const Synthesized: seq<string> := ["origin", "x-forwarded-by", "x-forwarded-origin", "x-forwarded-referer"]

  /** Every value passed through the template substitution. */
  function SubstituteValues(f: Fields<string>, table: map<string, string>, namespace: string): Fields<Option<string>> {
    if f == [] then []
    else [(f[0].0, Some(MustachReplace(f[0].1, table, [namespace])))] + SubstituteValues(f[1..], table, namespace)
  }

  lemma {:induction false} SubstituteValuesGet(f: Fields<string>, table: map<string, string>, namespace: string, k: string)
    ensures Keys(SubstituteValues(f, table, namespace)) == Keys(f)
    ensures Get(SubstituteValues(f, table, namespace), k) ==
              match Get(f, k) case None => None case Some(v) => Some(Some(MustachReplace(v, table, [namespace])))
  {
    if f != [] {
      SubstituteValuesGet(f[1..], table, namespace, k);
      var rest := SubstituteValues(f[1..], table, namespace);
      var r := [(f[0].0, Some(MustachReplace(f[0].1, table, [namespace])))] + rest;
      assert r[1..] == rest;
      assert Keys(r) == [f[0].0] + Keys(rest);
      assert Keys(f) == [f[0].0] + Keys(f[1..]);
    }
  }

  /** The headers appended to every outbound request. */
  function SynthesizedHeaders(resolved: Option<string>, origin: Option<string>, referer: Option<string>, agent: string)
    : (r: Fields<Option<string>>)
    ensures Keys(r) == Synthesized
  {
    [("origin", resolved), ("x-forwarded-by", Some(agent)),
     ("x-forwarded-origin", origin), ("x-forwarded-referer", referer)]
  }

  /** `requestHeaders(headers)`: drop the transport headers, substitute
      templates in every other value, then set the synthesized headers
      over them. `undefined` values are kept as `None`. */
  function RequestHeaders(headers: Fields<string>, cfg: Config, decode: string -> Result<string, Failure>)
    : Result<Fields<Option<string>>, Failure>
  {
    var origin := Get(headers, "origin");
    var referer := Get(headers, "referer");
    var resolved :- GetOrigin(origin, referer, decode);
    var filtered := SubstituteValues(Without(headers, Dropped), cfg.replacements, cfg.namespace);
    Ok(Spread(filtered, SynthesizedHeaders(resolved, origin, referer, cfg.agent)))
  }

  lemma SynthesizedShape(resolved: Option<string>, origin: Option<string>, referer: Option<string>, agent: string)
    ensures var h := SynthesizedHeaders(resolved, origin, referer, agent);
      && DistinctKeys(h)
      && Get(h, "origin") == Some(resolved)
      && Get(h, "x-forwarded-by") == Some(Some(agent))
      && Get(h, "x-forwarded-origin") == Some(origin)
      && Get(h, "x-forwarded-referer") == Some(referer)
  {
    var h := SynthesizedHeaders(resolved, origin, referer, agent);
    var t2 := [("x-forwarded-origin", origin), ("x-forwarded-referer", referer)];
    var t3 := [("x-forwarded-referer", referer)];
    assert h[1..][1..] == t2 && t2[1..] == t3;
    assert Get(t3, "x-forwarded-referer") == Some(referer);
    assert Get(t2, "x-forwarded-referer") == Get(t3, "x-forwarded-referer");
    assert Get(t2, "x-forwarded-origin") == Some(origin);
    assert Get(h[1..], "x-forwarded-origin") == Get(t2, "x-forwarded-origin");
    assert Get(h[1..], "x-forwarded-referer") == Get(t2, "x-forwarded-referer");
  }

  /** The outbound headers: `host`, `referer` and `x-requested-with` are
      gone; every other inbound header keeps its name with its value
      substituted, except the four synthesized ones, which are always
      present and win over inbound headers of the same name. */
  lemma RequestHeadersSpec(headers: Fields<string>, cfg: Config, decode: string -> Result<string, Failure>, k: string)
    requires DistinctKeys(headers)
    requires RequestHeaders(headers, cfg, decode).Ok?
    ensures var out := RequestHeaders(headers, cfg, decode).value;
      && DistinctKeys(out)
      && (k in Keys(out) <==> k in Synthesized || (k in Keys(headers) && k !in Dropped))
      && (k !in Synthesized && k !in Dropped ==>
            Get(out, k) == match Get(headers, k) case None => None
                                                 case Some(v) => Some(Some(MustachReplace(v, cfg.replacements, [cfg.namespace]))))
      && Get(out, "origin") == Some(GetOrigin(Get(headers, "origin"), Get(headers, "referer"), decode).value)
      && Get(out, "x-forwarded-by") == Some(Some(cfg.agent))
      && Get(out, "x-forwarded-origin") == Some(Get(headers, "origin"))
      && Get(out, "x-forwarded-referer") == Some(Get(headers, "referer"))
  {
    var origin := Get(headers, "origin");
    var referer := Get(headers, "referer");
    var resolved := GetOrigin(origin, referer, decode).value;
    var kept := Without(headers, Dropped);
    var filtered := SubstituteValues(kept, cfg.replacements, cfg.namespace);
    var extra := SynthesizedHeaders(resolved, origin, referer, cfg.agent);
    WithoutKeys(headers, Dropped);
    WithoutDistinct(headers, Dropped);
    WithoutGet(headers, Dropped, k);
    SubstituteValuesGet(kept, cfg.replacements, cfg.namespace, k);
    assert DistinctKeys(filtered) by {
      forall i, j | 0 <= i < j < |filtered| ensures filtered[i].0 != filtered[j].0 {
        assert filtered[i].0 == Keys(kept)[i] && filtered[j].0 == Keys(kept)[j];
      }
    }
    SynthesizedShape(resolved, origin, referer, cfg.agent);
    SpreadGet(filtered, extra, k);
    SpreadGet(filtered, extra, "origin");
    SpreadGet(filtered, extra, "x-forwarded-by");
    SpreadGet(filtered, extra, "x-forwarded-origin");
    SpreadGet(filtered, extra, "x-forwarded-referer");
  }

  // ---------------------------------------------------------------------
  // Pre-flight allow-headers
  // ---------------------------------------------------------------------

  /** The header names every pre-flight response allows. */
  const DefaultAllowed: seq<string> :=
    ["accept", "access-control-allow-origin", "authorization", "content-type",
     "x-requested-with", "x-http-method-override"]

  lemma DefaultsHaveNoComma()
    ensures forall k :: 0 <= k < |DefaultAllowed| ==> ',' !in DefaultAllowed[k]
  {
  }

  /** `allowHeaders(headers)`: the requested headers (empty when absent),
      then the names of the other inbound headers, then the defaults,
      joined with commas and without removing duplicates. */
  function AllowHeaders(headers: Fields<string>): string {
    var requested := Get(headers, "access-control-request-headers");
    JoinComma([requested.GetOr("")] + Keys(Without(headers, ["access-control-request-headers"])) + DefaultAllowed)
  }

  /** Read back at the commas, the allow-headers value lists the requested
      headers, then every other inbound header name in order, then the six
      defaults. */
  lemma AllowHeadersSplit(headers: Fields<string>)
    requires forall i :: 0 <= i < |headers| ==> ',' !in headers[i].0
    ensures var requested := Get(headers, "access-control-request-headers").GetOr("");
      SplitComma(AllowHeaders(headers)) ==
        SplitComma(requested) + Keys(Without(headers, ["access-control-request-headers"])) + DefaultAllowed
  {
    var requested := Get(headers, "access-control-request-headers").GetOr("");
    var others := Keys(Without(headers, ["access-control-request-headers"]));
    AllowHeadersParts(headers);
    NamesHaveNoComma(headers, ["access-control-request-headers"]);
    SplitFirstThenNames(requested, others, DefaultAllowed);
  }

  /** A joined list whose later items hold no comma reads back as its first
      item's pieces followed by those items. */
  lemma SplitFirstThenNames(first: string, others: seq<string>, defaults: seq<string>)
    requires forall k :: 0 <= k < |others + defaults| ==> ',' !in (others + defaults)[k]
    ensures SplitComma(JoinComma([first] + (others + defaults))) == SplitComma(first) + others + defaults
  {
    var rest := others + defaults;
    SplitJoinComma(first, rest);
    AppendAssoc(SplitComma(first), others, defaults);
  }

  lemma AppendAssoc(a: seq<string>, b: seq<string>, c: seq<string>)
    ensures a + (b + c) == a + b + c
  {
  }

  lemma AllowHeadersParts(headers: Fields<string>)
    ensures AllowHeaders(headers) ==
      JoinComma([Get(headers, "access-control-request-headers").GetOr("")] +
                (Keys(Without(headers, ["access-control-request-headers"])) + DefaultAllowed))
  {
    var requested := Get(headers, "access-control-request-headers").GetOr("");
    var others := Keys(Without(headers, ["access-control-request-headers"]));
    assert [requested] + others + DefaultAllowed == [requested] + (others + DefaultAllowed);
  }

  /** Header names without commas, less some, followed by the defaults,
      hold no comma. */
  lemma NamesHaveNoComma(headers: Fields<string>, names: seq<string>)
    requires forall i :: 0 <= i < |headers| ==> ',' !in headers[i].0
    ensures var rest := Keys(Without(headers, names)) + DefaultAllowed;
      forall k :: 0 <= k < |rest| ==> ',' !in rest[k]
  {
    var kept := Without(headers, names);
    var others := Keys(kept);
    WithoutSubset(headers, names);
    forall k | 0 <= k < |kept| ensures ',' !in kept[k].0 {
      assert kept[k] in kept;
      var i :| 0 <= i < |headers| && headers[i] == kept[k];
    }
    DefaultsHaveNoComma();
    var rest := others + DefaultAllowed;
    forall k | 0 <= k < |rest| ensures ',' !in rest[k] {
      if k >= |others| {
        assert rest[k] == DefaultAllowed[k - |others|];
      } else {
        assert rest[k] == kept[k].0;
      }
    }
  }

  /** Every default header name is allowed, whatever the request. */
  lemma DefaultsAlwaysAllowed(headers: Fields<string>, name: string)
    requires forall i :: 0 <= i < |headers| ==> ',' !in headers[i].0
    requires name in DefaultAllowed
    ensures name in SplitComma(AllowHeaders(headers))
  {
    AllowHeadersSplit(headers);
  }
}
