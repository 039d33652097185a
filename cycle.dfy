/**
 * The request/response cycle of `InfiniteScroll.fetch` as functions of the
 * configuration: the request phase up to the `$.ajax` call, the success and
 * error handlers, and the setters and `reset`. Each returns the new
 * configuration, the callbacks it invoked and what it resolved to.
 */
module Cycle {
  import opened Wrappers
  import opened Js
  import opened Config
  import QueryString

  /** The parameter an initial fetch adds. */
  const InitialParam := "initial"

  /** What the engine does that its caller or the network can observe. */
  datatype Event =
    | AjaxRequest(params: map<string, JsValue>)   // `$.ajax` issued with these data
    | UpdateParamCall(key: string, value: int)    // `config.updateParam(key, value)`
    | OnSuccessCall(res: JsValue)                 // `config.onSuccess(res)`
    | OnErrorCall(status: int)                    // `config.onError(XHR, …)` with `XHR.status`

  datatype Step<R> = Step(config: ConfigMap, events: seq<Event>, result: R)

  /**
   * How the request phase ends: returned early because locked (the promise
   * resolves to undefined), request sent, or an exception thrown before the
   * request (the promise rejects).
   */
  datatype FetchStart = Skipped | Sent(params: map<string, JsValue>) | Rejected(error: JsError)

  /**
   * The values of `getAjaxData()` this model covers: anything but an array,
   * a function or a host object, whose added properties the value model
   * cannot hold.
   */
  predicate ModelledAjaxData(d: JsValue) {
    !d.JArr? && !d.JFun? && !d.JHost?
  }

  /**
   * `dataParams` before the cycle adds its own parameters: `{}` for a falsy
   * value, the converted dictionary for a query string, the value itself
   * otherwise (a plain object, or a truthy number or boolean).
   */
  function RequestData(d: JsValue): (r: Result<JsValue, JsError>)
    requires ModelledAjaxData(d)
    ensures r.Ok? ==> r.value.JObj? || (Truthy(d) && (d.JNum? || d.JBool?) && r.value == d)
    ensures r.Err? ==> d.JStr? && r.error == URIError
  {
    if !Truthy(d) then Ok(JObj(map[]))
    else if d.JStr? then
      match QueryString.Parse(d.s)
      case Ok(m) => Ok(JObj(m))
      case Err(e) => Err(e)
    else Ok(d)
  }

  /**
   * The value of `getAjaxData()` case by case: `{}` for a falsy value, the
   * converted dictionary for a truthy string (failing exactly when the
   * conversion fails), and the value itself for a truthy plain object,
   * number or boolean.
   */
  lemma RequestDataCases(d: JsValue)
    requires ModelledAjaxData(d)
    ensures !Truthy(d) ==> RequestData(d) == Ok(JObj(map[]))
    ensures d.JStr? && Truthy(d) ==>
      && (RequestData(d).Err? <==> QueryString.Parse(d.s).Err?)
      && (RequestData(d).Ok? ==> RequestData(d).value == JObj(QueryString.Parse(d.s).value))
    ensures Truthy(d) && (d.JObj? || d.JNum? || d.JBool?) ==> RequestData(d) == Ok(d)
  {
  }

  /**
   * The request phase of `fetch` (lines 149 to 189): the lock guard, then
   * the rest with the lock set.
   */
  function Begin(c: ConfigMap, ajaxData: JsValue): (r: Step<FetchStart>)
    requires WellFormed(c) && ModelledAjaxData(ajaxData)
    ensures WellFormed(r.config)
  {
    if Locked(c) then Step(c, [], Skipped)
    else Prepare(c[LockKey := JBool(true)], RequestData(ajaxData))
  }

  /** After the lock: a conversion error rejects; otherwise the initial fetch or an ordinary one. */
  function Prepare(c: ConfigMap, data: Result<JsValue, JsError>): (r: Step<FetchStart>)
    requires WellFormed(c)
    ensures WellFormed(r.config)
  {
    match data
    case Err(e) => Step(c, [], Rejected(e))
    case Ok(p) => if Initiating(c) then Initial(c, p) else Send(c, p)
  }

  /**
   * The initial-fetch adjustment: clear the flag, add `initial = 1` (which
   * throws on a primitive in strict mode) and lower the segment so that the
   * success handler's increment cancels out.
   */
  function Initial(c: ConfigMap, p: JsValue): (r: Step<FetchStart>)
    requires WellFormed(c)
    ensures WellFormed(r.config)
  {
    var c1 := c[InitiateKey := JBool(!Initiating(c))];
    if !p.JObj? then Step(c1, [], Rejected(TypeError))
    else Send(c1[SegmentKey := JNum(Segment(c1) - 1)], JObj(p.props[InitialParam := JNum(1)]))
  }

  /** Set the segment parameter to the segment after the current one and send. */
  function Send(c: ConfigMap, p: JsValue): (r: Step<FetchStart>)
    requires WellFormed(c)
    ensures WellFormed(r.config)
  {
    if !p.JObj? then Step(c, [], Rejected(TypeError))
    else
      var params := p.props[SegmentParam(c) := JNum(Segment(c) + 1)];
      Step(c, [AjaxRequest(params)], Sent(params))
  }

  /** The `NoMoreContent` header as `getResponseHeader` returns it: null when absent. */
  function HeaderValue(h: Option<string>): JsValue {
    match h
    case None => JNull
    case Some(s) => JStr(s)
  }

  /**
   * The success handler (lines 194 to 211). `nonEmpty` stands for
   * `$(res).length` being non-zero.
   */
  function Succeed(c: ConfigMap, nonEmpty: bool, res: JsValue, noMoreContent: Option<string>): (r: Step<bool>)
    requires WellFormed(c)
    ensures WellFormed(r.config)
  {
    if nonEmpty then
      var header := HeaderValue(noMoreContent);
      var c1 := c[SegmentKey := JNum(Segment(c) + 1)];
      var c2 := c1[LockKey := header];
      Step(c2, [UpdateParamCall(SegmentParam(c1), Segment(c1)), OnSuccessCall(res)], !Truthy(header))
    else
      Step(c[LockKey := JBool(true)], [], false)
  }

  /** The error handler (lines 212 to 221). */
  function Fail(c: ConfigMap, status: int): (r: Step<bool>)
    requires WellFormed(c)
    ensures WellFormed(r.config)
  {
    var c1 := if status == 404 then c[LockKey := JBool(true)] else c;
    Step(c1, [OnErrorCall(status)], false)
  }

  /** `setLockInfiniteScroll(lock = true)`. */
  function SetLock(c: ConfigMap, lock: JsValue): (r: ConfigMap)
    ensures LockKey in r && r == c[LockKey := r[LockKey]]
    ensures Locked(r) <==> lock.JUndefined? || Truthy(lock)
  {
    c[LockKey := WithDefault(lock, JBool(true))]
  }

  /** `setSegment(segmentNo = 1)`. */
  function SetSegment(c: ConfigMap, segmentNo: JsValue): (r: ConfigMap)
    requires WellFormed(c) && (segmentNo.JUndefined? || segmentNo.JNum?)
    ensures WellFormed(r) && r == c[SegmentKey := r[SegmentKey]]
    ensures Segment(r) == if segmentNo.JUndefined? then 1 else segmentNo.n
  {
    c[SegmentKey := WithDefault(segmentNo, JNum(1))]
  }

  /** `reset(removeContents)`: the configuration part. */
  function Reset(c: ConfigMap): (r: ConfigMap)
    requires WellFormed(c)
    ensures WellFormed(r) && Segment(r) == 1 && !Locked(r) && Initiating(r)
    ensures InitiateKey in r && LockKey in r
    ensures r == c[InitiateKey := r[InitiateKey]][LockKey := r[LockKey]][SegmentKey := r[SegmentKey]]
  {
    c[InitiateKey := JBool(true)][LockKey := JBool(false)][SegmentKey := JNum(1)]
  }

  /** Nothing but the lock, the initial-fetch flag and the segment changes. */
  ghost predicate OnlyCycleKeysChanged(c: ConfigMap, d: ConfigMap) {
    forall k {:trigger SameAt(c, d, k)} :: k != LockKey && k != InitiateKey && k != SegmentKey ==> SameAt(c, d, k)
  }

  // ---------------------------------------------------------------------
  // Properties of one step
  // ---------------------------------------------------------------------

  /**
   * The lock guard: a locked controller returns at once and changes nothing;
   * an unlocked one is locked before anything else happens, whatever follows.
   */
  lemma LockGuard(c: ConfigMap, d: JsValue)
    requires WellFormed(c) && ModelledAjaxData(d)
    ensures Begin(c, d).result.Skipped? <==> Locked(c)
    ensures Locked(c) ==> Begin(c, d) == Step(c, [], Skipped)
    ensures !Locked(c) ==> Get(Begin(c, d).config, LockKey) == JBool(true)
    ensures OnlyCycleKeysChanged(c, Begin(c, d).config)
  {
  }

  /**
   * The segment sent is the segment after the initial-fetch adjustment plus
   * one: the old segment plus one on an ordinary fetch, the old segment
   * itself on the initial fetch, which also clears the flag and adds
   * `initial = 1`. Every other parameter is the caller's.
   */
  lemma SegmentSent(c: ConfigMap, d: JsValue)
    requires WellFormed(c) && ModelledAjaxData(d)
    requires Begin(c, d).result.Sent?
    ensures var r := Begin(c, d); var p := r.result.params;
      && r.events == [AjaxRequest(p)]
      && p[SegmentParam(c)] == JNum(Segment(r.config) + 1)
      && (Initiating(c) ==> Segment(r.config) == Segment(c) - 1 && p[SegmentParam(c)] == JNum(Segment(c)))
      && (Initiating(c) ==> !Initiating(r.config) && (SegmentParam(c) != InitialParam ==> p[InitialParam] == JNum(1)))
      && (!Initiating(c) ==> Segment(r.config) == Segment(c) && p[SegmentParam(c)] == JNum(Segment(c) + 1))
      && (!Initiating(c) ==> Get(r.config, InitiateKey) == Get(c, InitiateKey))
      && RequestData(d).Ok? && RequestData(d).value.JObj?
      && forall k :: k in RequestData(d).value.props && k != SegmentParam(c) && (Initiating(c) ==> k != InitialParam) ==>
           k in p && p[k] == RequestData(d).value.props[k]
  {
  }

  /**
   * The parameters a request carries are exactly the caller's, the segment
   * parameter and, on an initial fetch, `initial`: nothing else is added.
   */
  lemma SentParamsKeys(c: ConfigMap, d: JsValue)
    requires WellFormed(c) && ModelledAjaxData(d)
    requires Begin(c, d).result.Sent?
    ensures RequestData(d).Ok? && RequestData(d).value.JObj?
    ensures Begin(c, d).result.params.Keys ==
      RequestData(d).value.props.Keys + {SegmentParam(c)} + (if Initiating(c) then {InitialParam} else {})
  {
  }

  /**
   * The request phase rejects, after locking, exactly when the query string
   * has a key that does not decode or the parameters are a truthy primitive.
   */
  lemma BeginRejects(c: ConfigMap, d: JsValue)
    requires WellFormed(c) && ModelledAjaxData(d) && !Locked(c)
    ensures Begin(c, d).result.Rejected? <==> RequestData(d).Err? || !RequestData(d).value.JObj?
    ensures Begin(c, d).result.Rejected? ==> Begin(c, d).events == [] && Locked(Begin(c, d).config)
    ensures Begin(c, d).result.Rejected? && RequestData(d).Err? ==> Begin(c, d).config == c[LockKey := JBool(true)]
  {
  }

  /**
   * A non-empty success: the segment goes up by exactly one, `updateParam`
   * gets the new value and then `onSuccess` runs once, the lock takes the
   * header's value, and the result is true exactly when the header is absent
   * or empty.
   */
  lemma NonEmptySuccess(c: ConfigMap, res: JsValue, h: Option<string>)
    requires WellFormed(c)
    ensures var r := Succeed(c, true, res, h);
      && Segment(r.config) == Segment(c) + 1
      && r.events == [UpdateParamCall(SegmentParam(c), Segment(c) + 1), OnSuccessCall(res)]
      && Get(r.config, LockKey) == HeaderValue(h)
      && (r.result <==> h.None? || h == Some(""))
      && (Locked(r.config) <==> !r.result)
      && OnlyCycleKeysChanged(c, r.config) && Get(r.config, InitiateKey) == Get(c, InitiateKey)
  {
  }

  /** An empty success locks and resolves false; no callback runs and the segment stays. */
  lemma EmptySuccess(c: ConfigMap, res: JsValue, h: Option<string>)
    requires WellFormed(c)
    ensures Succeed(c, false, res, h) == Step(c[LockKey := JBool(true)], [], false)
    ensures Locked(Succeed(c, false, res, h).config) && Segment(Succeed(c, false, res, h).config) == Segment(c)
  {
  }

  /**
   * An error calls `onError` once and resolves false, with the segment
   * unchanged; status 404 forces the lock and any other status leaves it as
   * it was, which after the request phase is true.
   */
  lemma ErrorOutcome(c: ConfigMap, status: int)
    requires WellFormed(c)
    ensures var r := Fail(c, status);
      && r.events == [OnErrorCall(status)] && !r.result
      && Segment(r.config) == Segment(c)
      && (status == 404 ==> Get(r.config, LockKey) == JBool(true) && r.config == c[LockKey := JBool(true)])
      && (status != 404 ==> r.config == c)
  {
  }

  // ---------------------------------------------------------------------
  // Properties of a request followed by its response
  // ---------------------------------------------------------------------

  /** Whatever the error, the controller is locked after a request that failed. */
  lemma LockedAfterError(c: ConfigMap, d: JsValue, status: int)
    requires WellFormed(c) && ModelledAjaxData(d)
    requires Begin(c, d).result.Sent?
    ensures Locked(Fail(Begin(c, d).config, status).config)
  {
  }

  /**
   * The initial fetch cancels out: the segment requested and the segment the
   * success lands on are both the segment before the fetch, and
   * `updateParam` reports that segment.
   */
  lemma InitialFetchKeepsSegment(c: ConfigMap, d: JsValue, res: JsValue, h: Option<string>)
    requires WellFormed(c) && ModelledAjaxData(d) && Initiating(c)
    requires Begin(c, d).result.Sent?
    ensures var b := Begin(c, d);
      var r := Succeed(b.config, true, res, h);
      && b.result.params[SegmentParam(c)] == JNum(Segment(c))
      && Segment(r.config) == Segment(c)
      && r.events == [UpdateParamCall(SegmentParam(c), Segment(c)), OnSuccessCall(res)]
      && !Initiating(r.config)
  {
    SegmentSent(c, d);
    NonEmptySuccess(Begin(c, d).config, res, h);
  }

  /**
   * A failed initial fetch leaves the segment one below where it was, and the
   * flag cleared: the retry asks again for the same segment, without `initial`.
   */
  lemma InitialFetchErrorLeavesRewound(c: ConfigMap, d: JsValue, status: int)
    requires WellFormed(c) && ModelledAjaxData(d) && Initiating(c)
    requires Begin(c, d).result.Sent?
    ensures var f := Fail(Begin(c, d).config, status).config;
      Segment(f) == Segment(c) - 1 && !Initiating(f) && Locked(f)
  {
  }

  /**
   * After `reset`, the next fetch is an initial one for segment 1, and a
   * non-empty success without the header lands on segment 1, unlocked.
   */
  lemma ResetRestartsAtFirstSegment(c: ConfigMap, d: JsValue, res: JsValue)
    requires WellFormed(c) && ModelledAjaxData(d)
    requires RequestData(d).Ok? && RequestData(d).value.JObj?
    ensures var b := Begin(Reset(c), d);
      var r := Succeed(b.config, true, res, None);
      && b.result.Sent? && b.result.params[SegmentParam(c)] == JNum(1)
      && (SegmentParam(c) != InitialParam ==> b.result.params[InitialParam] == JNum(1))
      && Segment(r.config) == 1 && r.result && !Locked(r.config)
      && r.events == [UpdateParamCall(SegmentParam(c), 1), OnSuccessCall(res)]
  {
    var z := Reset(c);
    assert SegmentParam(z) == SegmentParam(c);
    SegmentSent(z, d);
    NonEmptySuccess(Begin(z, d).config, res, None);
  }
}
