/** The request handler of the `analyze-resume` serverless function: the CORS
    preflight, the checks on the request and on the AI gateway's reply, and the
    mapping of every outcome to an HTTP response.  The request body, the
    environment variable, the gateway's reply and the runtime's JSON parser and
    serialiser are parameters. */
module AnalyzeResumeFunction {
  import opened Wrappers
  import opened Json
  import opened Text
  import opened ResponseNormalizer

  // ---------------------------------------------------------------------
  // Decimal rendering of a status code, as a template literal shows a number

  function DigitChar(d: nat): char
    requires d < 10
  {
    ('0' as int + d) as char
  }

  predicate IsDigit(c: char) {
    '0' <= c <= '9'
  }

  /** The decimal numeral of `n`, without leading zeros. */
  function NatToString(n: nat): (s: string)
    ensures |s| >= 1
    ensures forall i :: 0 <= i < |s| ==> IsDigit(s[i])
    decreases n
  {
    if n < 10 then [DigitChar(n)] else NatToString(n / 10) + [DigitChar(n % 10)]
  }

  /** The number a string of decimal digits denotes. */
  function DecimalValue(s: string): nat
    requires forall i :: 0 <= i < |s| ==> IsDigit(s[i])
  {
    if s == [] then 0
    else
      assert IsDigit(s[|s| - 1]);
      DecimalValue(s[..|s| - 1]) * 10 + (s[|s| - 1] as int - '0' as int)
  }

  /** Reading back the numeral gives the number, and the numeral has no
      leading zero. */
  lemma {:induction false} DecimalRoundTrip(n: nat)
    ensures DecimalValue(NatToString(n)) == n
    ensures NatToString(n)[0] != '0' || n == 0
    decreases n
  {
    if n >= 10 {
      DecimalRoundTrip(n / 10);
      var s := NatToString(n);
      assert s[..|s| - 1] == NatToString(n / 10);
    }
  }

  /** Different status codes give different numerals. */
  lemma NatToStringInjective(m: nat, n: nat)
    requires NatToString(m) == NatToString(n)
    ensures m == n
  {
    DecimalRoundTrip(m);
    DecimalRoundTrip(n);
  }

  // ---------------------------------------------------------------------
  // Requests, the gateway's reply and responses

  /** An incoming request: its method and its body, `None` when the body is
      not JSON. */
  datatype Request = Request(verb: string, body: Option<Json>)

  /** The outcome of the call to the AI gateway: a reply with its status and
      its body (`None` when the body is not JSON), or a network failure. */
  datatype Upstream = Reply(status: nat, body: Option<Json>) | Unreachable

  /** A response body: none, `{ error: message }`, or the analysis. */
  datatype Body = NoBody | ErrorBody(error: Failure) | AnalysisBody(analysis: Json)

  datatype Response = Response(status: nat, headers: map<string, string>, body: Body)

  const CorsHeaders: map<string, string> := map[
    "Access-Control-Allow-Origin" := "*",
    "Access-Control-Allow-Headers" := "authorization, x-client-info, apikey, content-type"
  ]

  const JsonHeaders: map<string, string> := CorsHeaders["Content-Type" := "application/json"]

  const KeyMissing: string := "LOVABLE_API_KEY is not configured"
  const RateLimited: string := "Rate limit exceeded. Please try again later."
  const NeedsCredits: string := "AI service requires additional credits."
  const GatewayPrefix: string := "AI Gateway error: "
  const InvalidFormat: string := "Invalid response format from AI service"
  const EmptyResponse: string := "Empty response from AI service"

  /** What the body of the `try` block ends in: the analysis, one of the two
      early error responses for the gateway's 429 and 402, or an exception. */
  datatype Outcome = Completed(analysis: Json) | Declined(status: nat, message: string) | Threw(error: Failure)

  /** A status the `fetch` API reports as `ok`. */
  predicate IsOk(status: nat) {
    200 <= status <= 299
  }

  /** `data.choices` on a reply that is not `null`. */
  function ChoicesOf(data: Json): Option<Json>
    requires !data.JNull?
  {
    Member(data, "choices").value
  }

  /** The reply passes the three truthiness checks on `data.choices`,
      `data.choices[0]` and `data.choices[0].message`, whatever the types of
      the values met on the way and whatever other fields they carry. */
  predicate HasFirstMessage(data: Json) {
    !data.JNull? && Truthy(ChoicesOf(data)) &&
    var first := First(ChoicesOf(data).value);
    Truthy(first) && Truthy(Member(first.value, "message").value)
  }

  /** `data.choices[0].message` on a reply that has one. */
  function FirstMessage(data: Json): Json
    requires HasFirstMessage(data)
  {
    Member(First(ChoicesOf(data).value).value, "message").value.value
  }

  /** `data.choices[0].message.content` on a reply that has a first message. */
  function ContentOf(data: Json): Option<Json>
    requires HasFirstMessage(data)
  {
    Member(FirstMessage(data), "content").value
  }

  /** `data.choices[0].message.content`, after the checks on each step: the
      first three must be truthy, the content must be truthy, and only a string
      has the `match` method the next step calls.  A content read is always a
      non-empty string found at that path; a `null` reply throws, and a reply
      without truthy `choices` is an invalid format. */
  function ReadContent(data: Json): (r: Result<string, Failure>)
    ensures r.Success? ==> r.value != []
    ensures r.Success? ==>
      data.JObject? && "choices" in data.fields &&
      var first := First(data.fields["choices"]);
      first.Some? && first.value.JObject? && "message" in first.value.fields &&
      var message := first.value.fields["message"];
      message.JObject? && Lookup(message.fields, "content") == Some(JString(r.value))
    ensures data.JNull? ==> r == Failure(RuntimeError)
    ensures !data.JNull? && !Truthy(ChoicesOf(data)) ==> r == Failure(Raised(InvalidFormat))
    ensures !data.JNull? && ChoicesOf(data) == Some(JArray([])) ==> r == Failure(Raised(InvalidFormat))
  {
    match Member(data, "choices")
    case Failure(e) => Failure(e)
    case Success(choices) =>
      if !Truthy(choices) then Failure(Raised(InvalidFormat))
      else
        var first := First(choices.value);
        if !Truthy(first) then Failure(Raised(InvalidFormat))
        else
          match Member(first.value, "message")
          case Failure(e) => Failure(e)
          case Success(message) =>
            if !Truthy(message) then Failure(Raised(InvalidFormat))
            else
              match Member(message.value, "content")
              case Failure(e) => Failure(e)
              case Success(content) =>
                if !Truthy(content) then Failure(Raised(EmptyResponse))
                else if content.value.JString? then Success(content.value.s)
                else Failure(RuntimeError)
  }

  /** Once the reply has a first message, its `content` decides: a
      non-empty string is the content, a falsy value is the empty-response
      error, and anything else throws when `match` is called on it. */
  lemma ReadContentOfReply(data: Json)
    requires HasFirstMessage(data)
    ensures var content := ContentOf(data);
      (!Truthy(content) ==> ReadContent(data) == Failure(Raised(EmptyResponse))) &&
      (Truthy(content) && content.value.JString? ==> ReadContent(data) == Success(content.value.s)) &&
      (Truthy(content) && !content.value.JString? ==> ReadContent(data) == Failure(RuntimeError))
  {
  }

  /** A reply with truthy `choices` but no truthy first choice, or a first
      choice without a truthy message (`[null]`, `["x"]`, `[{}]`, `{}` as
      `choices`, ...), is reported as an invalid format. */
  lemma ReadContentWithoutMessage(data: Json)
    requires !data.JNull? && Truthy(ChoicesOf(data)) && !HasFirstMessage(data)
    ensures ReadContent(data) == Failure(Raised(InvalidFormat))
  {
  }

  /** Replies of unusual shapes: a `null` first choice and a string first
      choice are invalid formats, and `choices` given as an object with a
      field "0" is read like an array. */
  lemma ReadContentOfOddShapes(c: string)
    requires c != []
    ensures ReadContent(JObject(map["choices" := JArray([JNull])])) == Failure(Raised(InvalidFormat))
    ensures ReadContent(JObject(map["choices" := JArray([JString("x")])])) == Failure(Raised(InvalidFormat))
    ensures ReadContent(JArray([])) == Failure(Raised(InvalidFormat))
    ensures ReadContent(JObject(map["choices" := JObject(map["0" := JObject(map["message" :=
              JObject(map["content" := JString(c)])])])])) == Success(c)
  {
    ReadContentWithoutMessage(JObject(map["choices" := JArray([JNull])]));
    ReadContentWithoutMessage(JObject(map["choices" := JArray([JString("x")])]));
    var data := JObject(map["choices" := JObject(map["0" := JObject(map["message" :=
                  JObject(map["content" := JString(c)])])])]);
    assert HasFirstMessage(data);
    ReadContentOfReply(data);
  }

  /** The body of the `try` block, from the request body on. */
  function Process(body: Option<Json>, apiKey: Option<string>, upstream: Upstream,
                   parse: string -> Option<Json>, stringify: Json -> string): (o: Outcome)
    ensures o.Declined? ==> upstream.Reply? && o.status == upstream.status && o.status in {402, 429}
  {
    if body.None? || body.value.JNull? then Threw(RuntimeError)
    else if apiKey.None? || apiKey.value == "" then Threw(Raised(KeyMissing))
    else
      match upstream
      case Unreachable => Threw(RuntimeError)
      case Reply(status, data) =>
        if !IsOk(status) then
          if status == 429 then Declined(429, RateLimited)
          else if status == 402 then Declined(402, NeedsCredits)
          else Threw(Raised(GatewayPrefix + NatToString(status)))
        else if data.None? then Threw(RuntimeError)
        else
          match ReadContent(data.value)
          case Failure(e) => Threw(e)
          case Success(content) =>
            match Normalize(content, parse, stringify)
            case Failure(e) => Threw(e)
            case Success(analysis) => Completed(analysis)
  }

  /** The handler: the preflight answer, or the outcome of the `try` block as a
      JSON response, every exception becoming a 500 carrying its message. */
  function Handle(req: Request, apiKey: Option<string>, upstream: Upstream,
                  parse: string -> Option<Json>, stringify: Json -> string): (resp: Response)
    ensures req.verb == "OPTIONS" ==> resp == Response(200, CorsHeaders, NoBody)
    ensures req.verb != "OPTIONS" ==> resp.headers == JsonHeaders && !resp.body.NoBody?
    ensures resp.status in {200, 402, 429, 500}
    ensures resp.body.ErrorBody? <==> resp.status != 200
    ensures resp.status in {402, 429} ==> upstream.Reply? && upstream.status == resp.status
  {
    if req.verb == "OPTIONS" then Response(200, CorsHeaders, NoBody)
    else
      match Process(req.body, apiKey, upstream, parse, stringify)
      case Completed(analysis) => Response(200, JsonHeaders, AnalysisBody(analysis))
      case Declined(status, message) => Response(status, JsonHeaders, ErrorBody(Raised(message)))
      case Threw(e) => Response(500, JsonHeaders, ErrorBody(e))
  }

  /** The request got as far as the gateway: not a preflight, a JSON body that
      is not `null`, and a configured key. */
  predicate ReachesGateway(req: Request, apiKey: Option<string>) {
    req.verb != "OPTIONS" && req.body.Some? && !req.body.value.JNull? &&
    apiKey.Some? && apiKey.value != ""
  }

  /** A gateway status that is not `ok` is passed on as 429 or 402 with a
      fixed message, and as a 500 naming the status otherwise. */
  lemma GatewayStatusMapping(req: Request, apiKey: Option<string>, status: nat, data: Option<Json>,
                             parse: string -> Option<Json>, stringify: Json -> string)
    requires ReachesGateway(req, apiKey) && !IsOk(status)
    ensures var resp := Handle(req, apiKey, Reply(status, data), parse, stringify);
      (status == 429 ==> resp == Response(429, JsonHeaders, ErrorBody(Raised(RateLimited)))) &&
      (status == 402 ==> resp == Response(402, JsonHeaders, ErrorBody(Raised(NeedsCredits)))) &&
      (status != 429 && status != 402 ==>
         resp == Response(500, JsonHeaders, ErrorBody(Raised(GatewayPrefix + NatToString(status)))))
  {
  }

  /** Without a configured key the gateway is never called: the answer is the
      same whatever it would have replied. */
  lemma MissingKeyResponse(req: Request, apiKey: Option<string>, upstream: Upstream,
                           parse: string -> Option<Json>, stringify: Json -> string)
    requires req.verb != "OPTIONS" && req.body.Some? && !req.body.value.JNull?
    requires apiKey.None? || apiKey.value == ""
    ensures Handle(req, apiKey, upstream, parse, stringify) ==
      Response(500, JsonHeaders, ErrorBody(Raised(KeyMissing)))
  {
  }

  /** An `ok` reply without truthy `choices`, or whose first choice has no
      truthy message, ends in a 500 with the invalid-format message; one whose
      first message has a falsy content ends in a 500 with the empty-response
      message. */
  lemma MalformedReplyResponses(req: Request, apiKey: Option<string>, status: nat, data: Json,
                                parse: string -> Option<Json>, stringify: Json -> string)
    requires ReachesGateway(req, apiKey) && IsOk(status)
    ensures !data.JNull? && !Truthy(ChoicesOf(data)) ==>
      Handle(req, apiKey, Reply(status, Some(data)), parse, stringify) ==
      Response(500, JsonHeaders, ErrorBody(Raised(InvalidFormat)))
    ensures !data.JNull? && Truthy(ChoicesOf(data)) && !HasFirstMessage(data) ==>
      Handle(req, apiKey, Reply(status, Some(data)), parse, stringify) ==
      Response(500, JsonHeaders, ErrorBody(Raised(InvalidFormat)))
    ensures HasFirstMessage(data) && !Truthy(ContentOf(data)) ==>
      Handle(req, apiKey, Reply(status, Some(data)), parse, stringify) ==
      Response(500, JsonHeaders, ErrorBody(Raised(EmptyResponse)))
  {
    if !data.JNull? && Truthy(ChoicesOf(data)) && !HasFirstMessage(data) {
      ReadContentWithoutMessage(data);
    }
    if HasFirstMessage(data) {
      ReadContentOfReply(data);
    }
  }

  /** Past the checks on the request and the status, a reply whose content
      reads as `content` is answered with what the normalisation makes of it. */
  lemma ContentReplyOutcome(req: Request, apiKey: Option<string>, status: nat, data: Json, content: string,
                            parse: string -> Option<Json>, stringify: Json -> string)
    requires ReachesGateway(req, apiKey) && IsOk(status) && ReadContent(data) == Success(content)
    ensures var resp := Handle(req, apiKey, Reply(status, Some(data)), parse, stringify);
      match Normalize(content, parse, stringify)
      case Success(analysis) => resp == Response(200, JsonHeaders, AnalysisBody(analysis))
      case Failure(e) => resp == Response(500, JsonHeaders, ErrorBody(e))
  {
  }

  /** An `ok` reply whose first message holds a non-empty string content with
      an object in braces is answered with 200 and that object, its result
      fields defaulted to the schema. */
  lemma SuccessfulAnalysis(req: Request, apiKey: Option<string>, status: nat, data: Json,
                           content: string, a: map<string, Json>,
                           parse: string -> Option<Json>, stringify: Json -> string)
    requires ReachesGateway(req, apiKey) && IsOk(status)
    requires HasFirstMessage(data) && ContentOf(data) == Some(JString(content)) && content != []
    requires BraceSpan(content).Some? && parse(BraceSpan(content).value) == Some(JObject(a))
    ensures var resp := Handle(req, apiKey, Reply(status, Some(data)), parse, stringify);
      resp == Response(200, JsonHeaders, AnalysisBody(JObject(Coerce(a)))) &&
      HasSchema(Coerce(a))
  {
    ReadContentOfReply(data);
    ContentReplyOutcome(req, apiKey, status, data, content, parse, stringify);
    NormalizeLocatedSpan(content, parse, stringify);
    CoerceIdempotent(a);
  }

  /** Every message the function writes itself is one of its fixed messages,
      or starts with the gateway-status or extraction prefix. */
  lemma ErrorMessagesAreKnown(req: Request, apiKey: Option<string>, upstream: Upstream,
                              parse: string -> Option<Json>, stringify: Json -> string)
    ensures var resp := Handle(req, apiKey, upstream, parse, stringify);
      resp.body.ErrorBody? && resp.body.error.Raised? ==>
        var m := resp.body.error.message;
        m in {KeyMissing, RateLimited, NeedsCredits, InvalidFormat, EmptyResponse, ParseFailure} ||
        StartsWith(m, GatewayPrefix) || StartsWith(m, ExtractFailure)
  {
    var resp := Handle(req, apiKey, upstream, parse, stringify);
    if req.verb != "OPTIONS" && upstream.Reply? && upstream.body.Some? {
      var content := ReadContent(upstream.body.value);
      if content.Success? {
        var n := Normalize(content.value, parse, stringify);
        if n.Failure? && n.error.Raised? && BraceSpan(content.value).None? && parse(content.value).None? {
          var m := ExtractFailure + Head200(content.value);
          assert m[..|ExtractFailure|] == ExtractFailure;
        }
      }
    }
    if upstream.Reply? {
      var m := GatewayPrefix + NatToString(upstream.status);
      assert m[..|GatewayPrefix|] == GatewayPrefix;
    }
  }
}
