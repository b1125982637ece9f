/** The payment client: the mock, and the live `claim(amount)` that checks its
    configuration, builds the claim URL, posts the request and classifies the
    response. The network call, `JSON.parse` and `encodeURIComponent` are
    parameters; the environment is a map from variable name to value. */
module PaymentService {
  import opened Wrappers
  import opened Strings
  import opened JsValues

  datatype ClaimResult = ClaimResult(remainingBudget: real, coralUsdPrice: real)

  /** What the network call produced: it threw (with the message of the thrown
      error), or a response arrived with a status code and a body text. */
  datatype FetchOutcome =
    | Threw(message: string)
    | Responded(status: nat, text: string)

  const ApiUrlVar := "CORAL_API_URL"
  const SessionIdVar := "CORAL_SESSION_ID"
  const ConfigErrorPrefix := "[ConfigurationError] Missing config: "
  const ClaimErrorPrefix := "[PaymentClaimError] "
  const RequestErrorPrefix := "[PaymentClaimRequestError] "
  const ClaimPath := "/api/v1/internal/claim/"
  const InvalidShapeMessage := "Invalid success payload shape"

  // ---------------------------------------------------------------------
  // The mock

  /** The mock claim: a fixed budget and price whatever the amount. */
  function ClaimMock(amount: real): (r: Result<ClaimResult, string>)
    ensures r.Ok? && r.value.remainingBudget == 100.0 && r.value.coralUsdPrice == 1.0
  {
    Ok(ClaimResult(100.0, 1.0))
  }

  // ---------------------------------------------------------------------
  // Configuration

  /** `process.env[name] ?? ""`. */
  function EnvValue(env: map<string, string>, name: string): (v: string)
    ensures name in env ==> v == env[name]
    ensures name !in env ==> v == []
  {
    if name in env then env[name] else []
  }

  /** The names of the missing variables, in the order `claim` checks
      them; a variable is missing when it is unset or empty. */
  function MissingConfig(env: map<string, string>): (missing: seq<string>)
    ensures ApiUrlVar in missing <==> EnvValue(env, ApiUrlVar) == []
    ensures SessionIdVar in missing <==> EnvValue(env, SessionIdVar) == []
    ensures missing == [] <==> EnvValue(env, ApiUrlVar) != [] && EnvValue(env, SessionIdVar) != []
    ensures |missing| == 2 ==> missing == [ApiUrlVar, SessionIdVar]
    ensures forall i :: 0 <= i < |missing| ==> missing[i] == ApiUrlVar || missing[i] == SessionIdVar
  {
    (if EnvValue(env, ApiUrlVar) == [] then [ApiUrlVar] else [])
    + (if EnvValue(env, SessionIdVar) == [] then [SessionIdVar] else [])
  }

  /** The configuration error, if any. */
  function ConfigError(env: map<string, string>): (e: Option<string>)
    ensures e.None? <==> EnvValue(env, ApiUrlVar) != [] && EnvValue(env, SessionIdVar) != []
    ensures EnvValue(env, ApiUrlVar) == [] && EnvValue(env, SessionIdVar) != [] ==>
      e == Some(ConfigErrorPrefix + ApiUrlVar)
    ensures EnvValue(env, ApiUrlVar) != [] && EnvValue(env, SessionIdVar) == [] ==>
      e == Some(ConfigErrorPrefix + SessionIdVar)
    ensures EnvValue(env, ApiUrlVar) == [] && EnvValue(env, SessionIdVar) == [] ==>
      e == Some(ConfigErrorPrefix + ApiUrlVar + ", " + SessionIdVar)
  {
    var missing := MissingConfig(env);
    if |missing| > 0 then
      assert |missing| == 2 ==> missing[1..] == [SessionIdVar];
      assert |missing| == 2 ==> Join(missing, ", ") == ApiUrlVar + ", " + SessionIdVar;
      assert |missing| == 2 ==> ConfigErrorPrefix + Join(missing, ", ") == ConfigErrorPrefix + ApiUrlVar + ", " + SessionIdVar;
      Some(ConfigErrorPrefix + Join(missing, ", "))
    else None
  }

  // ---------------------------------------------------------------------
  // The claim URL

  predicate EndsWithSlash(s: string) {
    s != [] && s[|s| - 1] == '/'
  }

  /** `s.replace(/\/+$/, "")`: drop every trailing `/`. */
  function StripTrailingSlashes(s: string): (r: string)
    ensures |r| <= |s| && r == s[..|r|]
    ensures !EndsWithSlash(r)
    ensures forall i :: |r| <= i < |s| ==> s[i] == '/'
    decreases |s|
  {
    if EndsWithSlash(s) then StripTrailingSlashes(s[..|s| - 1]) else s
  }

  /** Any prefix that leaves only slashes behind and does not end in one
      is the stripped string. */
  lemma StripUnique(s: string, r: string)
    requires |r| <= |s| && r == s[..|r|]
    requires !EndsWithSlash(r)
    requires forall i :: |r| <= i < |s| ==> s[i] == '/'
    ensures r == StripTrailingSlashes(s)
  {
  }

  /** Stripping twice is stripping once. */
  lemma StripIdempotent(s: string)
    ensures StripTrailingSlashes(StripTrailingSlashes(s)) == StripTrailingSlashes(s)
  {
    var r := StripTrailingSlashes(s);
    assert r == r[..|r|];
    StripUnique(r, r);
  }

  /** An extra trailing slash on the configured URL changes nothing. */
  lemma StripExtraSlash(s: string)
    ensures StripTrailingSlashes(s + "/") == StripTrailingSlashes(s)
  {
    var r := StripTrailingSlashes(s);
    var s' := s + "/";
    assert s'[..|s|] == s;
    assert r == s'[..|r|];
    StripUnique(s', r);
  }

  /** `${baseUrl}/api/v1/internal/claim/${encodeURIComponent(sessionId)}`:
      the URL never doubles the slash between the base and the path; it is
      the configured URL without its trailing slashes, the claim path and
      the encoded session id. */
  function ClaimUrl(apiUrl: string, sessionId: string, encode: string -> string): (url: string)
    ensures exists n ::
      && 0 <= n <= |apiUrl|
      && url == apiUrl[..n] + ClaimPath + encode(sessionId)
      && !EndsWithSlash(apiUrl[..n])
      && (forall i :: n <= i < |apiUrl| ==> apiUrl[i] == '/')
  {
    var base := StripTrailingSlashes(apiUrl);
    assert base == apiUrl[..|base|];
    base + ClaimPath + encode(sessionId)
  }

  /** Trailing slashes on the configured URL do not change the claim URL. */
  lemma ClaimUrlShape(apiUrl: string, sessionId: string, encode: string -> string)
    ensures ClaimUrl(apiUrl + "/", sessionId, encode) == ClaimUrl(apiUrl, sessionId, encode)
  {
    StripExtraSlash(apiUrl);
  }

  /** `JSON.stringify({ amount: { type: "coral", amount } })`, as a value. */
  function RequestBody(amount: real): (body: JsValue)
    ensures GetPath(body, ["amount", "amount"]) == Number(amount)
    ensures GetPath(body, ["amount", "type"]) == Str("coral")
  {
    Object(map["amount" := Object(map["type" := Str("coral"), "amount" := Number(amount)])])
  }

  // ---------------------------------------------------------------------
  // Decimal rendering of the status code

  function DigitChar(d: nat): char
    requires d < 10
  {
    ('0' as int + d) as char
  }

  predicate IsDigit(c: char) {
    '0' <= c <= '9'
  }

  /** `${n}` for a natural number. */
  function NatToString(n: nat): (s: string)
    ensures s != []
    ensures forall i :: 0 <= i < |s| ==> IsDigit(s[i])
    ensures n > 0 ==> s[0] != '0'
    decreases n
  {
    if n < 10 then [DigitChar(n)] else NatToString(n / 10) + [DigitChar(n % 10)]
  }

  /** The value of a string of decimal digits. */
  function DigitsValue(s: string): nat
    requires forall i :: 0 <= i < |s| ==> IsDigit(s[i])
    decreases |s|
  {
    if s == [] then 0
    else
      assert IsDigit(s[|s| - 1]);
      DigitsValue(s[..|s| - 1]) * 10 + (s[|s| - 1] as int - '0' as int)
  }

  /** Reading the rendered status back gives the status. */
  lemma {:induction false} NatToStringRoundTrip(n: nat)
    ensures DigitsValue(NatToString(n)) == n
    decreases n
  {
    var s := NatToString(n);
    if n >= 10 {
      NatToStringRoundTrip(n / 10);
      assert s[..|s| - 1] == NatToString(n / 10);
    }
  }

  // ---------------------------------------------------------------------
  // Response classification

  /** `response.ok`. */
  predicate IsOk(status: nat) {
    200 <= status <= 299
  }

  /** `text ? JSON.parse(text) : {}`; a parse failure is the message of the
      thrown error. */
  function ParseBody(text: string, parse: string -> Result<JsValue, string>): (r: Result<JsValue, string>)
    ensures text == [] ==> r == Ok(Object(map[]))
    ensures text != [] ==> r == parse(text)
  {
    if text == [] then Ok(Object(map[])) else parse(text)
  }

  /** The success schema: an object with numeric `remainingBudget` and
      `coralUsdPrice`; other fields are ignored. */
  function SuccessShape(v: JsValue): (r: Option<ClaimResult>)
    ensures r.Some? <==> v.Object? && Get(v, "remainingBudget").Number? && Get(v, "coralUsdPrice").Number?
    ensures r.Some? ==> r.value == ClaimResult(Get(v, "remainingBudget").n, Get(v, "coralUsdPrice").n)
  {
    match (Get(v, "remainingBudget"), Get(v, "coralUsdPrice"))
    case (Number(budget), Number(price)) => Some(ClaimResult(budget, price))
    case _ => None
  }

  predicate AllStrings(items: seq<JsValue>) {
    forall i :: 0 <= i < |items| ==> items[i].Str?
  }

  /** The error schema: an object with a string `message` and, if present,
      a `stackTrace` array of strings; yields the message. */
  function ErrorShape(v: JsValue): (r: Option<string>)
    ensures r.Some? ==> v.Object? && Get(v, "message") == Str(r.value)
    ensures r.Some? <==>
      && v.Object?
      && Get(v, "message").Str?
      && (|| Get(v, "stackTrace").Undefined?
          || (Get(v, "stackTrace").Array? && AllStrings(Get(v, "stackTrace").items)))
  {
    match Get(v, "message")
    case Str(message) =>
      (match Get(v, "stackTrace")
       case Undefined => Some(message)
       case Array(items) => if AllStrings(items) then Some(message) else None
       case _ => None)
    case _ => None
  }

  function StatusSuffix(status: nat): string {
    " (status " + NatToString(status) + ")"
  }

  predicate EndsWith(s: string, t: string) {
    |t| <= |s| && s[|s| - |t|..] == t
  }

  /** `[PaymentClaimError] <message> (status <status>)`. */
  function ClaimErrorText(message: string, status: nat): (t: string)
    ensures |ClaimErrorPrefix| <= |t| && t[..|ClaimErrorPrefix|] == ClaimErrorPrefix
    ensures EndsWith(t, StatusSuffix(status))
  {
    var t := ClaimErrorPrefix + message + StatusSuffix(status);
    assert t[|t| - |StatusSuffix(status)|..] == StatusSuffix(status);
    t
  }

  /** The body of the `try` block: the claim result, or the message of the
      error it throws. */
  function Classify(status: nat, text: string, parse: string -> Result<JsValue, string>): (r: Result<ClaimResult, string>)
    ensures r.Ok? ==> IsOk(status)
    ensures ParseBody(text, parse).Err? ==> r == Err(ParseBody(text, parse).error)
    ensures ParseBody(text, parse).Ok? && IsOk(status) && SuccessShape(ParseBody(text, parse).value).Some? ==>
      r == Ok(SuccessShape(ParseBody(text, parse).value).value)
    ensures ParseBody(text, parse).Ok? && IsOk(status) && SuccessShape(ParseBody(text, parse).value).None? ==>
      r == Err(ClaimErrorText(InvalidShapeMessage, status))
    ensures ParseBody(text, parse).Ok? ==> r.Ok? || EndsWith(r.error, StatusSuffix(status))
    ensures ParseBody(text, parse).Ok? && r.Err? ==> |ClaimErrorPrefix| <= |r.error| && r.error[..|ClaimErrorPrefix|] == ClaimErrorPrefix
  {
    match ParseBody(text, parse)
    case Err(e) => Err(e)
    case Ok(body) =>
      if IsOk(status) then
        match SuccessShape(body)
        case Some(result) => Ok(result)
        case None => Err(ClaimErrorText(InvalidShapeMessage, status))
      else
        var message := match ErrorShape(body)
          case Some(m) => m
          case None => "HTTP " + NatToString(status);
        Err(ClaimErrorText(message, status))
  }

  /** The live claim. `fetch` receives the URL and the request body. */
  function Claim(env: map<string, string>, amount: real,
                 fetch: (string, JsValue) -> FetchOutcome,
                 parse: string -> Result<JsValue, string>,
                 encode: string -> string): (r: Result<ClaimResult, string>)
    ensures ConfigError(env).Some? ==> r == Err(ConfigError(env).value)
    ensures ConfigError(env).None? && r.Err? ==>
      |RequestErrorPrefix| <= |r.error| && r.error[..|RequestErrorPrefix|] == RequestErrorPrefix
  {
    match ConfigError(env)
    case Some(message) => Err(message)
    case None =>
      var url := ClaimUrl(EnvValue(env, ApiUrlVar), EnvValue(env, SessionIdVar), encode);
      match fetch(url, RequestBody(amount))
      case Threw(message) => Err(RequestErrorPrefix + message)
      case Responded(status, text) =>
        match Classify(status, text, parse)
        case Ok(result) => Ok(result)
        case Err(message) => Err(RequestErrorPrefix + message)
  }

  // ---------------------------------------------------------------------
  // Properties of the claim

  /** A claim succeeds exactly when the configuration is complete, the call
      to the claim URL answered with a 2xx status and the body fits the
      success schema; the result is then the two numbers of the body. */
  lemma ClaimSucceeds(env: map<string, string>, amount: real,
                      fetch: (string, JsValue) -> FetchOutcome,
                      parse: string -> Result<JsValue, string>,
                      encode: string -> string)
    ensures var r := Claim(env, amount, fetch, parse, encode);
      var outcome := fetch(ClaimUrl(EnvValue(env, ApiUrlVar), EnvValue(env, SessionIdVar), encode), RequestBody(amount));
      r.Ok? <==>
        EnvValue(env, ApiUrlVar) != [] && EnvValue(env, SessionIdVar) != []
        && outcome.Responded? && IsOk(outcome.status)
        && ParseBody(outcome.text, parse).Ok?
        && SuccessShape(ParseBody(outcome.text, parse).value).Some?
    ensures var r := Claim(env, amount, fetch, parse, encode);
      var outcome := fetch(ClaimUrl(EnvValue(env, ApiUrlVar), EnvValue(env, SessionIdVar), encode), RequestBody(amount));
      r.Ok? ==> SuccessShape(ParseBody(outcome.text, parse).value) == Some(r.value)
  {
    var r := Claim(env, amount, fetch, parse, encode);
    if ConfigError(env).None? {
      var outcome := fetch(ClaimUrl(EnvValue(env, ApiUrlVar), EnvValue(env, SessionIdVar), encode), RequestBody(amount));
      if outcome.Responded? {
        var c := Classify(outcome.status, outcome.text, parse);
        assert r.Ok? <==> c.Ok?;
        assert r.Ok? ==> r.value == c.value;
      }
    }
  }

  /** The message a non-2xx response carries: the body's `message` when the
      body fits the error schema, and `HTTP <status>` otherwise. */
  function RejectionMessage(body: JsValue, status: nat): string {
    if ErrorShape(body).Some? then ErrorShape(body).value else "HTTP " + NatToString(status)
  }

  lemma ClassifyRejected(status: nat, text: string, parse: string -> Result<JsValue, string>)
    requires !IsOk(status) && ParseBody(text, parse).Ok?
    ensures Classify(status, text, parse) == Err(ClaimErrorText(RejectionMessage(ParseBody(text, parse).value, status), status))
  {
  }

  /** A non-2xx response with a readable body fails with the claim-error
      prefix nested in the request-error prefix, the rejection message, and
      the status at the end. */
  lemma ClaimRejected(env: map<string, string>, amount: real,
                      fetch: (string, JsValue) -> FetchOutcome,
                      parse: string -> Result<JsValue, string>,
                      encode: string -> string,
                      status: nat, text: string)
    requires ConfigError(env).None?
    requires fetch(ClaimUrl(EnvValue(env, ApiUrlVar), EnvValue(env, SessionIdVar), encode), RequestBody(amount))
      == Responded(status, text)
    requires !IsOk(status) && ParseBody(text, parse).Ok?
    ensures Claim(env, amount, fetch, parse, encode)
      == Err(RequestErrorPrefix + ClaimErrorText(RejectionMessage(ParseBody(text, parse).value, status), status))
  {
    ClassifyRejected(status, text, parse);
  }

  /** A 2xx response whose readable body does not fit the success schema
      fails with the invalid-shape message and the status, nested in the
      request-error prefix. */
  lemma ClaimInvalidShape(env: map<string, string>, amount: real,
                          fetch: (string, JsValue) -> FetchOutcome,
                          parse: string -> Result<JsValue, string>,
                          encode: string -> string,
                          status: nat, text: string)
    requires ConfigError(env).None?
    requires fetch(ClaimUrl(EnvValue(env, ApiUrlVar), EnvValue(env, SessionIdVar), encode), RequestBody(amount))
      == Responded(status, text)
    requires IsOk(status) && ParseBody(text, parse).Ok?
    requires SuccessShape(ParseBody(text, parse).value).None?
    ensures Claim(env, amount, fetch, parse, encode)
      == Err(RequestErrorPrefix + ClaimErrorText(InvalidShapeMessage, status))
  {
  }

  /** An empty body behaves as the text `{}` would, and on a non-2xx status
      it yields the `HTTP <status>` message. */
  lemma EmptyBodyIsEmptyObject(status: nat, parse: string -> Result<JsValue, string>)
    requires parse("{}") == Ok(Object(map[]))
    ensures Classify(status, [], parse) == Classify(status, "{}", parse)
    ensures !IsOk(status) ==> Classify(status, [], parse) == Err(ClaimErrorText("HTTP " + NatToString(status), status))
    ensures IsOk(status) ==> Classify(status, [], parse) == Err(ClaimErrorText(InvalidShapeMessage, status))
  {
    assert ParseBody("{}", parse) == parse("{}");
    assert ErrorShape(Object(map[])).None?;
  }
}
