/** The request executor: `Request.MakeRequest`, `getResponse`,
    `getResponseWithTimeout` and `makeRequestWrapper`. The network exchange
    itself is a parameter; what is modelled is the policy each branch picks
    and how the reply becomes a `Response`. */
module Execution {
  import opened Wrappers
  import opened Text
  import opened Headers
  import opened Rendering

  newtype int64 = x: int | -0x8000_0000_0000_0000 <= x < 0x8000_0000_0000_0000

  const MinInt64: int := -0x8000_0000_0000_0000
  const MaxInt64: int := 0x7fff_ffff_ffff_ffff

  /** `time.Second`, in nanoseconds. */
  const Second: int := 1_000_000_000

  /** The declarative request. `timeout` is a `time.Duration` that counts
      seconds; `userAgent`, `cookies` and `proxy` are carried but never used. */
  datatype Request = Request(
    verb: string,
    url: string,
    body: Bytes,
    headers: map<string, string>,
    userAgent: string,
    cookies: string,
    proxy: string,
    timeout: int64,
    redirect: bool,
    ignoreCertCheck: bool)

  /** Two's-complement wrap-around of a 64-bit signed result. */
  function WrapInt64(x: int): (r: int64)
    ensures (r as int - x) % 0x1_0000_0000_0000_0000 == 0
  {
    ((x - MinInt64) % 0x1_0000_0000_0000_0000 + MinInt64) as int64
  }

  /** `r.Timeout*time.Second` as written: a 64-bit multiplication that wraps. */
  function TimeoutNanosAsWritten(t: int64): (d: int64)
    ensures (d as int - t as int * Second) % 0x1_0000_0000_0000_0000 == 0
  {
    WrapInt64(t as int * Second)
  }

  /** A timeout of 9223372037 seconds wraps to a negative duration, so the
      context deadline lies in the past and the request fails at once. */
  lemma TimeoutWrapsNegative()
    ensures TimeoutNanosAsWritten(9_223_372_037) < 0
    ensures TimeoutNanosAsWritten(9_223_372_037) as int == -9_223_372_036_709_551_616
  {
  }

  /** The timeout in nanoseconds, saturating at the bounds of `int64`: the sign
      of the configured timeout is kept and no overflow can shorten it. */
  function TimeoutNanos(t: int64): (d: int64)
    ensures t > 0 ==> d > 0
    ensures t < 0 ==> d < 0
    ensures t == 0 ==> d == 0
    ensures MinInt64 <= t as int * Second <= MaxInt64 ==> d as int == t as int * Second
    ensures t as int * Second > MaxInt64 ==> d as int == MaxInt64
    ensures t as int * Second < MinInt64 ==> d as int == MinInt64
  {
    var n := t as int * Second;
    if n > MaxInt64 then MaxInt64 as int64
    else if n < MinInt64 then MinInt64 as int64
    else n as int64
  }

  /** Where the two timeout conversions agree: whenever no overflow occurs. */
  lemma TimeoutNanosMatchesAsWritten(t: int64)
    requires MinInt64 <= t as int * Second <= MaxInt64
    ensures TimeoutNanos(t) == TimeoutNanosAsWritten(t)
  {
  }

  /** Which of the two request builders runs; `timeout` is the duration, in
      nanoseconds, handed to `context.WithTimeout`. */
  datatype Dispatch = Plain | WithTimeout(timeout: int64)

  /** What the client's `CheckRedirect` hook answers. */
  datatype RedirectPolicy = FollowRedirects | UseLastResponse

  /** Everything the executor hands to the network layer. `logsPayload` is the
      success log of the request body that only the plain path writes. */
  datatype Plan = Plan(
    dispatch: Dispatch,
    logsPayload: bool,
    verb: string,
    url: string,
    payload: Bytes,
    header: Header,
    redirects: RedirectPolicy,
    insecureSkipVerify: bool)

  /** The policy `MakeRequest` and `makeRequestWrapper` choose for a request. */
  function MakePlan(req: Request): (p: Plan)
    ensures p.dispatch.WithTimeout? <==> req.timeout != 0
    ensures p.dispatch.WithTimeout? ==> p.dispatch.timeout == TimeoutNanosAsWritten(req.timeout)
    ensures p.logsPayload <==> req.timeout == 0
    ensures p.verb == req.verb && p.url == req.url && p.payload == req.body
    ensures p.header.Keys == req.headers.Keys
    ensures forall k :: k in req.headers ==> p.header[k] == [req.headers[k]]
    ensures p.redirects == FollowRedirects <==> req.redirect
    ensures p.insecureSkipVerify <==> req.ignoreCertCheck
  {
    var dispatch := if req.timeout != 0 then WithTimeout(TimeoutNanosAsWritten(req.timeout)) else Plain;
    Plan(
      dispatch,
      dispatch.Plain?,
      req.verb,
      req.url,
      req.body,
      Attached(map[], req.headers),
      if req.redirect then FollowRedirects else UseLastResponse,
      req.ignoreCertCheck)
  }

  /** The plan of a 9223372037-second request carries a negative duration, as
      the source computes it. */
  lemma HugeTimeoutPlansNegativeDuration(req: Request)
    requires req.timeout == 9_223_372_037
    ensures MakePlan(req).dispatch.WithTimeout? && MakePlan(req).dispatch.timeout < 0
  {
    TimeoutWrapsNegative();
  }

  /** The declared-but-unused fields change nothing about the request sent. */
  lemma UnwiredFieldsInert(req: Request, userAgent: string, cookies: string, proxy: string)
    ensures MakePlan(req) == MakePlan(req.(userAgent := userAgent, cookies := cookies, proxy := proxy))
  {
  }

  /** What the network layer reports for a plan: `resp.Proto`, the status,
      `resp.Request.URL`, `resp.Location()` (None on its error), the headers,
      the drained body and the time measured before the body was read. */
  datatype Exchange = Exchange(
    proto: string,
    code: int,
    status: string,
    finalUrl: string,
    location: Option<string>,
    header: Header,
    body: Bytes,
    elapsed: int)

  /** `Request.MakeRequest`: one attempt; a failure is passed on untouched with
      no response, a success is reported field for field, with an empty
      redirect link when the reply has no usable `Location`. */
  function MakeRequest(req: Request, send: Plan -> Result<Exchange, string>): (r: Result<Response, string>)
    ensures send(MakePlan(req)).Err? ==> r == Err(send(MakePlan(req)).error)
    ensures send(MakePlan(req)).Ok? ==> r.Ok?
    ensures send(MakePlan(req)).Ok? ==>
      var ex := send(MakePlan(req)).value;
      && r.value.protocol == ex.proto && r.value.code == ex.code && r.value.status == ex.status
      && r.value.finalLink == ex.finalUrl
      && r.value.header == ex.header && r.value.body == ex.body && r.value.timeLoad == ex.elapsed
      && (r.value.redirectLink != "" <==> ex.location.Some? && ex.location.value != "")
      && (ex.location.Some? ==> r.value.redirectLink == ex.location.value)
  {
    match send(MakePlan(req))
    case Err(e) => Err(e)
    case Ok(ex) =>
      var redirectUrl := match ex.location
        case None => ""
        case Some(link) => link;
      Ok(Response(ex.proto, ex.code, ex.status, ex.finalUrl, redirectUrl, ex.header, ex.body, ex.elapsed))
  }
}
