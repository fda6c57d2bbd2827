/** Posting a tweet: the retry policy around one request, the reading of
    an HTTP status, the 280-code-point limit, the simulation mode and the
    fall-back from one API host to the other. The network is an oracle
    `send` that answers the k-th attempt of a request; sleeping is left out
    and only the waits chosen are recorded. */
module TwitterApi {
  import opened Wrappers
  import opened Strings

  /** A JavaScript `Error` as the code inspects it: the HTTP status the
      request attached, if any, and its message. */
  datatype Raised = Raised(statusCode: Option<nat>, message: string)

  // ---------------------------------------------------------------------
  // retryWithBackoff

  const DefaultMaxRetries: nat := 4

  /** Rate limiting (429) and server errors (5xx) are worth retrying;
      anything else, including an error without a status, is not. */
  predicate Retryable(e: Raised) {
    e.statusCode == Some(429) || (e.statusCode.Some? && 500 <= e.statusCode.value < 600)
  }

  function FailedAfter(n: nat): Raised {
    Raised(None, "Failed after " + NatToString(n) + " retries")
  }

  /** `Math.pow(1.5, i)`. */
  function Growth(i: nat): (g: real)
    ensures g >= 1.0
  {
    if i == 0 then 1.0 else 1.5 * Growth(i - 1)
  }

  /** The wait before the next attempt after attempt `i` failed, in
      milliseconds: `Math.min(1500 * Math.pow(1.5, i), 45000)`. */
  function Delay(i: nat): (d: real)
    ensures 1500.0 <= d <= 45000.0
  {
    if 1500.0 * Growth(i) <= 45000.0 then 1500.0 * Growth(i) else 45000.0
  }

  /** What the attempts from `i` on give: the first attempt that returns or
      raises something not worth retrying decides; when all `n` raise
      retryable errors, the give-up error. */
  function Attempts<T>(call: nat -> Result<T, Raised>, i: nat, n: nat): Result<T, Raised>
    decreases n - i
  {
    if i >= n then Err(FailedAfter(n))
    else if call(i).Err? && Retryable(call(i).error) then Attempts(call, i + 1, n)
    else call(i)
  }

  /** How many times the attempts from `i` on call the operation. */
  function AttemptsMade<T>(call: nat -> Result<T, Raised>, i: nat, n: nat): (k: nat)
    ensures i <= n ==> k <= n - i
    decreases n - i
  {
    if i >= n then 0
    else if call(i).Err? && Retryable(call(i).error) then 1 + AttemptsMade(call, i + 1, n)
    else 1
  }

  /** `retryWithBackoff(fn, maxRetries)`: `call(i)` is what the i-th call
      of `fn` gives. Also returns the number of calls made and the waits
      chosen between them. */
  method RetryWithBackoff<T>(call: nat -> Result<T, Raised>, maxRetries: nat)
    returns (r: Result<T, Raised>, calls: nat, waits: seq<real>)
    ensures r == Attempts(call, 0, maxRetries)
    ensures calls == AttemptsMade(call, 0, maxRetries) && calls <= maxRetries
    ensures |waits| <= calls <= |waits| + 1
    ensures forall k :: 0 <= k < |waits| ==> waits[k] == Delay(k) && call(k).Err? && Retryable(call(k).error)
  {
    var i: nat := 0;
    waits := [];
    while i < maxRetries
      invariant i <= maxRetries
      invariant Attempts(call, 0, maxRetries) == Attempts(call, i, maxRetries)
      invariant AttemptsMade(call, 0, maxRetries) == i + AttemptsMade(call, i, maxRetries)
      invariant |waits| == i
      invariant forall k :: 0 <= k < i ==> waits[k] == Delay(k) && call(k).Err? && Retryable(call(k).error)
    {
      var o := call(i);
      if o.Ok? || !Retryable(o.error) {
        return o, i + 1, waits;
      }
      waits := waits + [Delay(i)];
      i := i + 1;
    }
    r := Err(FailedAfter(maxRetries));
    calls := maxRetries;
  }

  /** A success is the value of an attempt, and every attempt before it
      raised a retryable error. */
  lemma {:induction false} AttemptsSuccess<T>(call: nat -> Result<T, Raised>, i: nat, n: nat)
    requires Attempts(call, i, n).Ok?
    ensures exists j :: (i <= j < n && call(j) == Attempts(call, i, n) &&
      forall k :: i <= k < j ==> call(k).Err? && Retryable(call(k).error))
    decreases n - i
  {
    if call(i).Err? && Retryable(call(i).error) {
      AttemptsSuccess(call, i + 1, n);
      var j :| i + 1 <= j < n && call(j) == Attempts(call, i + 1, n) &&
        forall k :: i + 1 <= k < j ==> call(k).Err? && Retryable(call(k).error);
      assert forall k :: i <= k < j ==> call(k).Err? && Retryable(call(k).error);
    } else {
      assert call(i) == Attempts(call, i, n);
    }
  }

  /** The first attempt that is not a retryable error decides: its value
      or its error is the result, and no later attempt is made. */
  lemma {:induction false} AttemptsStopAt<T>(call: nat -> Result<T, Raised>, i: nat, j: nat, n: nat)
    requires i <= j < n
    requires forall k :: i <= k < j ==> call(k).Err? && Retryable(call(k).error)
    requires call(j).Ok? || !Retryable(call(j).error)
    ensures Attempts(call, i, n) == call(j)
    ensures AttemptsMade(call, i, n) == j - i + 1
    decreases j - i
  {
    if i < j {
      AttemptsStopAt(call, i + 1, j, n);
    }
  }

  /** When every attempt raises a retryable error, all `n` attempts are
      made and the give-up error is raised. */
  lemma {:induction false} AttemptsExhausted<T>(call: nat -> Result<T, Raised>, i: nat, n: nat)
    requires i <= n
    requires forall k :: i <= k < n ==> call(k).Err? && Retryable(call(k).error)
    ensures Attempts(call, i, n) == Err(FailedAfter(n))
    ensures AttemptsMade(call, i, n) == n - i
    decreases n - i
  {
    if i < n {
      AttemptsExhausted(call, i + 1, n);
    }
  }

  /** An error raised by the retry loop is either one not worth retrying
      that an attempt raised, or the give-up error. */
  lemma {:induction false} AttemptsError<T>(call: nat -> Result<T, Raised>, i: nat, n: nat)
    requires Attempts(call, i, n).Err?
    ensures Attempts(call, i, n).error == FailedAfter(n) ||
      (!Retryable(Attempts(call, i, n).error) && exists j :: i <= j < n && call(j) == Attempts(call, i, n))
    decreases n - i
  {
    if i < n && call(i).Err? && Retryable(call(i).error) {
      AttemptsError(call, i + 1, n);
    }
  }

  lemma {:induction false} GrowthIncreasing(i: nat, j: nat)
    requires i <= j
    ensures Growth(i) <= Growth(j)
    decreases j - i
  {
    if i < j {
      GrowthIncreasing(i, j - 1);
    }
  }

  /** The waits never shrink from one attempt to the next. */
  lemma DelayMonotone(i: nat, j: nat)
    requires i <= j
    ensures Delay(i) <= Delay(j)
  {
    GrowthIncreasing(i, j);
  }

  /** The waits of the default four attempts grow by half each time
      (1.5 s, 2.25 s, 3.375 s, 5.0625 s), not by doubling. */
  lemma DefaultDelays()
    ensures Delay(0) == 1500.0 && Delay(1) == 2250.0 && Delay(2) == 3375.0 && Delay(3) == 5062.5
    ensures Delay(1) != 2.0 * Delay(0)
  {
    assert Growth(1) == 1.5;
    assert Growth(2) == 2.25;
    assert Growth(3) == 3.375;
  }

  /** The cap of 45 s is reached from the tenth wait on, and not before. */
  lemma DelayCap(i: nat)
    ensures Delay(i) == 45000.0 <==> i >= 9
  {
    assert Growth(8) == 25.62890625 by {
      assert Growth(4) == 5.0625;
      assert Growth(6) == 11.390625;
    }
    assert Growth(9) > 30.0;
    if i >= 9 {
      GrowthIncreasing(9, i);
    } else {
      GrowthIncreasing(i, 8);
    }
  }

  // ---------------------------------------------------------------------
  // makeRequest

  datatype Response = Response(statusCode: nat, body: string)

  /** What the network gives one request: a response with a status and a
      body, or an error before any response (its message). */
  datatype Reply = Answered(status: nat, body: string) | NetworkError(message: string)

  /** `makeRequest`'s promise: resolved with the response for a 2xx status,
      rejected with the status attached otherwise, rejected without one on
      a network error. */
  function MakeRequest(reply: Reply): (r: Result<Response, Raised>)
    ensures reply.Answered? ==> (r.Ok? <==> 200 <= reply.status < 300)
    ensures reply.Answered? && r.Ok? ==> r.value == Response(reply.status, reply.body)
    ensures reply.Answered? && r.Err? ==> r.error.statusCode == Some(reply.status)
    ensures reply.NetworkError? ==> r.Err? && r.error.statusCode.None?
  {
    match reply
    case Answered(status, body) =>
      if 200 <= status < 300 then Ok(Response(status, body))
      else Err(Raised(Some(status), "HTTP " + NatToString(status) + ": " + body))
    case NetworkError(message) => Err(Raised(None, message))
  }

  /** Which replies the retry loop tries again: 429 and 5xx only; a
      network error, having no status, is never retried. */
  lemma RetriedReplies(reply: Reply)
    ensures MakeRequest(reply).Err? && Retryable(MakeRequest(reply).error) <==>
      reply.Answered? && (reply.status == 429 || 500 <= reply.status < 600)
  {
  }

  // ---------------------------------------------------------------------
  // postTweet

  const MaxTweetChars: nat := 280

  /** The 280-code-point limit: longer text keeps its first 277 code
      points and gets `...`. */
  function Truncate(text: string): string {
    if |text| > MaxTweetChars then text[..277] + "..." else text
  }

  /** Truncated text is exactly 280 code points and begins with the
      original's first 277; text within the limit is untouched; a second
      truncation changes nothing. */
  lemma TruncateShape(text: string)
    ensures |Truncate(text)| <= MaxTweetChars
    ensures |text| > MaxTweetChars ==> (|Truncate(text)| == MaxTweetChars &&
      Truncate(text)[..277] == text[..277] && EndsWith(Truncate(text), "..."))
    ensures |text| <= MaxTweetChars ==> Truncate(text) == text
    ensures Truncate(Truncate(text)) == Truncate(text)
  {
    if |text| > MaxTweetChars {
      var t := Truncate(text);
      assert t[..277] == text[..277];
      assert t[|t| - 3..] == "...";
    }
  }

  datatype Endpoint = Endpoint(hostname: string, name: string)

  /** api.x.com first, then api.twitter.com. */
  const Endpoints: seq<Endpoint> := [Endpoint("api.x.com", "X API"), Endpoint("api.twitter.com", "Twitter API")]

  /** What is sent: a signed POST of the text to `/2/tweets` on one host.
      The Authorization header is `OAuth.Header` for `url`. */
  datatype Request = Request(hostname: string, path: string, httpMethod: string, url: string, text: string)

  function RequestFor(e: Endpoint, text: string): Request {
    Request(e.hostname, "/2/tweets", "POST", "https://" + e.hostname + "/2/tweets", text)
  }

  /** What `JSON.parse` makes of a success body: a syntax error, or the
      `data.id` it holds (if any). */
  datatype Parsed = Malformed(message: string) | Parsed(id: Option<string>)

  datatype PostResult = PostResult(success: bool, simulation: bool, id: Option<string>, text: string, endpoint: Option<string>)

  /** Simulation mode: success with the text as given, an id from the
      clock, and no request. */
  function Simulated(text: string, nowMillis: nat): PostResult {
    PostResult(true, true, Some("sim_" + NatToString(nowMillis)), text, None)
  }

  /** The i-th attempt on one endpoint. */
  function CallFor(e: Endpoint, text: string, send: (Request, nat) -> Reply): nat -> Result<Response, Raised> {
    (i: nat) => MakeRequest(send(RequestFor(e, text), i))
  }

  /** One endpoint's try: the retried request, then the parsed body; a
      body that does not parse fails the endpoint. */
  function TryEndpoint(e: Endpoint, text: string, send: (Request, nat) -> Reply, parse: string -> Parsed): Result<PostResult, Raised> {
    match Attempts(CallFor(e, text, send), 0, DefaultMaxRetries)
    case Err(error) => Err(error)
    case Ok(response) =>
      match parse(response.body)
      case Malformed(message) => Err(Raised(None, message))
      case Parsed(id) => Ok(PostResult(true, false, id, text, Some(e.name)))
  }

  /** The endpoints from the k-th on, each tried only after the one before
      it failed; the last one's outcome stands. */
  function Fallback(k: nat, text: string, send: (Request, nat) -> Reply, parse: string -> Parsed): Result<PostResult, Raised>
    requires k < |Endpoints|
    decreases |Endpoints| - k
  {
    var o := TryEndpoint(Endpoints[k], text, send, parse);
    if o.Ok? || k + 1 == |Endpoints| then o else Fallback(k + 1, text, send, parse)
  }

  /** `postTweet(text, apiConfig, isSimulation)`; the credentials only sign
      the requests, so they are part of what `send` sees and no parameter
      here. */
  method PostTweet(text: string, isSimulation: bool, nowMillis: nat,
                   send: (Request, nat) -> Reply, parse: string -> Parsed) returns (r: Result<PostResult, Raised>)
    ensures isSimulation ==> r == Ok(Simulated(text, nowMillis))
    ensures !isSimulation ==> r == Fallback(0, Truncate(text), send, parse)
  {
    if isSimulation {
      return Ok(Simulated(text, nowMillis));
    }
    var tweetText := text;
    if |tweetText| > MaxTweetChars {
      tweetText := tweetText[..277] + "...";
    }
    var k := 0;
    while k + 1 < |Endpoints|
      invariant k < |Endpoints|
      invariant Fallback(0, tweetText, send, parse) == Fallback(k, tweetText, send, parse)
    {
      r := TryOne(Endpoints[k], tweetText, send, parse);
      if r.Ok? {
        return;
      }
      k := k + 1;
    }
    r := TryOne(Endpoints[k], tweetText, send, parse);
  }

  /** One endpoint's try, as the loop body runs it. */
  method TryOne(e: Endpoint, text: string, send: (Request, nat) -> Reply, parse: string -> Parsed)
    returns (r: Result<PostResult, Raised>)
    ensures r == TryEndpoint(e, text, send, parse)
  {
    var response, calls, waits := RetryWithBackoff(CallFor(e, text, send), DefaultMaxRetries);
    if response.Err? {
      return Err(response.error);
    }
    var parsed := parse(response.value.body);
    match parsed
    case Malformed(message) =>
      r := Err(Raised(None, message));
    case Parsed(id) =>
      r := Ok(PostResult(true, false, id, text, Some(e.name)));
  }

  /** The order of the endpoints: a success of api.x.com is the result and
      api.twitter.com is not tried; after api.x.com fails, api.twitter.com
      decides, its error included. */
  lemma FallbackOrder(text: string, send: (Request, nat) -> Reply, parse: string -> Parsed)
    ensures TryEndpoint(Endpoints[0], text, send, parse).Ok? ==>
      Fallback(0, text, send, parse) == TryEndpoint(Endpoints[0], text, send, parse)
    ensures TryEndpoint(Endpoints[0], text, send, parse).Err? ==>
      Fallback(0, text, send, parse) == TryEndpoint(Endpoints[1], text, send, parse)
  {
  }

  /** A posted tweet carries the text actually sent, within the limit, and
      names the endpoint that took it; a failure is an error of the last
      endpoint tried. */
  lemma PostedTweet(text: string, send: (Request, nat) -> Reply, parse: string -> Parsed)
    ensures var r := Fallback(0, Truncate(text), send, parse);
      r.Ok? ==> (r.value.success && !r.value.simulation && r.value.text == Truncate(text) &&
        |r.value.text| <= MaxTweetChars && (r.value.endpoint == Some("X API") || r.value.endpoint == Some("Twitter API")))
    ensures var r := Fallback(0, Truncate(text), send, parse);
      r.Err? ==> r == TryEndpoint(Endpoints[1], Truncate(text), send, parse)
  {
    TruncateShape(text);
  }
}
