/**
 * The `InfiniteScroll` controller as an object: its configuration dictionary
 * and the log of what it has made happen outside (requests and callback
 * invocations) are fields the methods update in place, step by step as the
 * source does. Each method is proved to agree with the function of the
 * fetch cycle, the settings merge or the setters that specifies it.
 */
module Scroll {
  import opened Wrappers
  import opened Js
  import opened Config
  import opened Cycle
  import QueryString

  class InfiniteScroll {
    /** `this.config`. */
    var config: ConfigMap
    /** Requests sent and callbacks invoked, oldest first. */
    var log: seq<Event>

    /** The settings the fetch cycle reads have the documented types. */
    ghost predicate Valid()
      reads this
    {
      WellFormed(config)
    }

    /**
     * The defaults, then the caller's settings merged over them, with nothing
     * logged. The container default of the loading indicator is derived from
     * the caller's `container` before the merge.
     */
    constructor(given: seq<(string, JsValue)>)
      requires DistinctKeys(given) && TypedSettings(given)
      requires AllMergeable(Defaults(ContainerOf(given)), given)
      ensures Valid()
      ensures Edit(Defaults(ContainerOf(given)), given) == Edited(config, None)
      ensures log == []
    {
      config := Defaults(ContainerOf(given));
      log := [];
      new;
      ConstructionSucceeds(given);
      var thrown := EditConfig(given);
    }

    /**
     * `editConfig(given)`: each setting whose current value is an object is
     * merged into it with `Object.assign`, any other is replaced. A current
     * value of null makes `Object.assign` throw; the keys after it are then
     * not visited and the exception is returned.
     */
    method EditConfig(given: seq<(string, JsValue)>) returns (thrown: Option<JsError>)
      requires Valid() && DistinctKeys(given) && TypedSettings(given) && AllMergeable(config, given)
      modifies this
      ensures Valid() && log == old(log)
      ensures Edit(old(config), given) == Edited(config, thrown)
    {
      ghost var c0 := config;
      var i := 0;
      while i < |given|
        invariant 0 <= i <= |given|
        invariant DistinctKeys(given[..i]) && AllMergeable(c0, given[..i])
        invariant Edit(c0, given[..i]) == Edited(config, None)
        invariant WellFormed(config) && log == old(log)
      {
        var (k, v) := given[i];
        assert given[..i + 1][..i] == given[..i];
        EditLast(c0, given[..i + 1]);
        var current := Get(config, k);
        if TypeOf(current) == "object" {
          if current.JNull? {
            EditStopsAtThrow(c0, given, i + 1);
            return Some(TypeError);
          }
          config := config[k := JObj(current.props + OwnProps(v))];
        } else {
          config := config[k := v];
        }
        i := i + 1;
        assert TypedSettings(given[..i]);
        EditKeepsWellFormed(c0, given[..i]);
      }
      assert given[..i] == given;
      return None;
    }

    /**
     * `dataParams` after line 172: `{}` for a falsy value, the query string
     * converted by the forEach loop, or the value itself.
     */
    static method RequestParams(ajaxData: JsValue) returns (r: Result<JsValue, JsError>)
      requires ModelledAjaxData(ajaxData)
      ensures r == RequestData(ajaxData)
    {
      var dataParams := if Truthy(ajaxData) then ajaxData else JObj(map[]);
      if dataParams.JStr? {
        var converted := QueryString.Convert(dataParams.s);
        if converted.Err? {
          return Err(converted.error);
        }
        dataParams := JObj(converted.value);
      }
      return Ok(dataParams);
    }

    /**
     * The request phase of `fetch()`, with `ajaxData` the value
     * `getAjaxData()` returned. Returns whether the call returned early, sent
     * a request or threw.
     */
    method BeginFetch(ajaxData: JsValue) returns (start: FetchStart)
      requires Valid() && ModelledAjaxData(ajaxData)
      modifies this
      ensures Valid()
      ensures var b := Begin(old(config), ajaxData);
        config == b.config && log == old(log) + b.events && start == b.result
      ensures start.Skipped? <==> old(Locked(config))
    {
      if Truthy(Get(config, LockKey)) {
        return Skipped;
      }
      config := config[LockKey := JBool(true)];
      var data := RequestParams(ajaxData);
      start := PrepareRequest(data);
    }

    /** Lines 158 to 185 once the lock is set: a conversion error, the initial fetch or an ordinary one. */
    method PrepareRequest(data: Result<JsValue, JsError>) returns (start: FetchStart)
      requires Valid()
      modifies this
      ensures Valid()
      ensures var b := Prepare(old(config), data);
        config == b.config && log == old(log) + b.events && start == b.result
    {
      if data.Err? {
        return Rejected(data.error);
      }
      if Truthy(Get(config, InitiateKey)) {
        start := AdjustInitial(data.value);
      } else {
        start := SendRequest(data.value);
      }
    }

    /** Lines 175 to 182: clear the flag, add `initial = 1`, lower the segment; then send. */
    method AdjustInitial(dataParams: JsValue) returns (start: FetchStart)
      requires Valid()
      modifies this
      ensures Valid()
      ensures var b := Initial(old(config), dataParams);
        config == b.config && log == old(log) + b.events && start == b.result
    {
      config := config[InitiateKey := JBool(!Truthy(Get(config, InitiateKey)))];
      if !dataParams.JObj? {
        return Rejected(TypeError);
      }
      var withInitial := JObj(dataParams.props[InitialParam := JNum(1)]);
      config := config[SegmentKey := JNum(config[SegmentKey].n - 1)];
      start := SendRequest(withInitial);
    }

    /** Line 185 and the request: ask for the segment after the current one. */
    method SendRequest(dataParams: JsValue) returns (start: FetchStart)
      requires Valid()
      modifies this
      ensures Valid()
      ensures var b := Send(old(config), dataParams);
        config == b.config && log == old(log) + b.events && start == b.result
    {
      if !dataParams.JObj? {
        return Rejected(TypeError);
      }
      var params := dataParams.props[config[SegmentParamKey].s := JNum(config[SegmentKey].n + 1)];
      log := log + [AjaxRequest(params)];
      return Sent(params);
    }

    /**
     * The success handler; `nonEmpty` stands for `$(res).length` and
     * `noMoreContent` for the response header. Returns the value the
     * promise resolves to.
     */
    method OnSuccess(nonEmpty: bool, res: JsValue, noMoreContent: Option<string>) returns (more: bool)
      requires Valid()
      modifies this
      ensures Valid()
      ensures var s := Succeed(old(config), nonEmpty, res, noMoreContent);
        config == s.config && log == old(log) + s.events && more == s.result
      ensures nonEmpty ==> Segment(config) == old(Segment(config)) + 1
      ensures !nonEmpty ==> Segment(config) == old(Segment(config)) && Locked(config) && !more
    {
      if nonEmpty {
        var header := match noMoreContent case None => JNull case Some(h) => JStr(h);
        config := config[SegmentKey := JNum(config[SegmentKey].n + 1)];
        log := log + [UpdateParamCall(config[SegmentParamKey].s, config[SegmentKey].n)];
        config := config[LockKey := header];
        log := log + [OnSuccessCall(res)];
        more := !Truthy(header);
      } else {
        config := config[LockKey := JBool(true)];
        more := false;
      }
    }

    /** The error handler, given `XHR.status`. The promise resolves to false. */
    method OnError(status: int) returns (more: bool)
      requires Valid()
      modifies this
      ensures Valid()
      ensures var s := Fail(old(config), status);
        config == s.config && log == old(log) + s.events && more == s.result
      ensures Segment(config) == old(Segment(config)) && !more
    {
      if status == 404 {
        config := config[LockKey := JBool(true)];
      }
      log := log + [OnErrorCall(status)];
      more := false;
    }

    /** `setLockInfiniteScroll(lock = true)`; `JUndefined` selects the default. */
    method SetLockInfiniteScroll(lock: JsValue)
      requires Valid()
      modifies this
      ensures Valid() && config == SetLock(old(config), lock) && log == old(log)
      ensures Locked(config) <==> lock.JUndefined? || Truthy(lock)
    {
      config := config[LockKey := if lock.JUndefined? then JBool(true) else lock];
    }

    /** `setSegment(segmentNo = 1)`; `JUndefined` selects the default. */
    method SetSegment(segmentNo: JsValue)
      requires Valid() && (segmentNo.JUndefined? || segmentNo.JNum?)
      modifies this
      ensures Valid() && config == Cycle.SetSegment(old(config), segmentNo) && log == old(log)
      ensures Segment(config) == if segmentNo.JUndefined? then 1 else segmentNo.n
    {
      config := config[SegmentKey := if segmentNo.JUndefined? then JNum(1) else segmentNo];
    }

    /** `reset()`: the next fetch is an initial one, for segment 1, and unlocked. */
    method Reset()
      requires Valid()
      modifies this
      ensures Valid() && config == Cycle.Reset(old(config)) && log == old(log)
      ensures Segment(config) == 1 && !Locked(config) && Initiating(config)
    {
      config := config[InitiateKey := JBool(true)];
      config := config[LockKey := JBool(false)];
      config := config[SegmentKey := JNum(1)];
    }
  }
}
