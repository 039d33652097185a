/**
 * Sequences of fetches: a burst of scroll events while a request is in
 * flight, and a session of rounds in which each request that is sent is
 * answered before the next scroll event. The lemmas here are about the
 * pagination as a whole: which segments are requested, which are reported
 * to `updateParam`, and when fetching stops.
 */
module Session {
  import opened Wrappers
  import opened Js
  import opened Config
  import opened Cycle

  /** How the network answers a request that was sent. */
  datatype Response =
    | Success(nonEmpty: bool, res: JsValue, noMoreContent: Option<string>)
    | Failure(status: int)

  /** How the promise returned by `fetch` settles. */
  datatype Settled = Undefined | Resolved(more: bool) | Rejection(error: JsError)

  datatype Outcome = Outcome(config: ConfigMap, events: seq<Event>)

  /** A value of `getAjaxData()` the model covers. */
  type AjaxData = d: JsValue | ModelledAjaxData(d) witness JUndefined

  /** `fetch` called once per element of `ds`, with no response in between. */
  function Burst(c: ConfigMap, ds: seq<AjaxData>): (r: Outcome)
    requires WellFormed(c)
    ensures WellFormed(r.config)
    decreases |ds|
  {
    if |ds| == 0 then Outcome(c, [])
    else
      var b := Begin(c, ds[0]);
      var rest := Burst(b.config, ds[1..]);
      Outcome(rest.config, b.events + rest.events)
  }

  /** The handler the response runs. */
  function Respond(c: ConfigMap, resp: Response): (r: Step<bool>)
    requires WellFormed(c)
    ensures WellFormed(r.config)
  {
    match resp
    case Success(n, res, h) => Succeed(c, n, res, h)
    case Failure(s) => Fail(c, s)
  }

  /** One `fetch` and, if a request went out, its response. */
  function Round(c: ConfigMap, d: JsValue, resp: Response): (r: Step<Settled>)
    requires WellFormed(c) && ModelledAjaxData(d)
    ensures WellFormed(r.config)
  {
    var b := Begin(c, d);
    match b.result
    case Skipped => Step(b.config, b.events, Undefined)
    case Rejected(e) => Step(b.config, b.events, Rejection(e))
    case Sent(_) =>
      var a := Respond(b.config, resp);
      Step(a.config, b.events + a.events, Resolved(a.result))
  }

  /** The rounds one after the other. */
  function Run(c: ConfigMap, rounds: seq<(AjaxData, Response)>): (r: Outcome)
    requires WellFormed(c)
    ensures WellFormed(r.config)
    decreases |rounds|
  {
    if |rounds| == 0 then Outcome(c, [])
    else
      var s := Round(c, rounds[0].0, rounds[0].1);
      var rest := Run(s.config, rounds[1..]);
      Outcome(rest.config, s.events + rest.events)
  }

  /** The values passed to `updateParam`, in order. */
  function Updates(events: seq<Event>): (u: seq<int>)
    ensures |u| <= |events|
  {
    if |events| == 0 then []
    else (if events[0].UpdateParamCall? then [events[0].value] else []) + Updates(events[1..])
  }

  /** The segment parameter `p` of every request sent, in order. */
  function Requested(events: seq<Event>, p: string): (q: seq<JsValue>)
    ensures |q| <= |events|
  {
    if |events| == 0 then []
    else (if events[0].AjaxRequest? then [Get(events[0].params, p)] else []) + Requested(events[1..], p)
  }

  /** The integers `lo`, `lo + 1`, …, `lo + n - 1`. */
  function Ints(lo: int, n: nat): (s: seq<int>)
    ensures |s| == n
    decreases n
  {
    if n == 0 then [] else [lo] + Ints(lo + 1, n - 1)
  }

  /** The same integers as JavaScript numbers. */
  function Nums(lo: int, n: nat): (s: seq<JsValue>)
    ensures |s| == n
    decreases n
  {
    if n == 0 then [] else [JNum(lo)] + Nums(lo + 1, n - 1)
  }

  /** The segment the next request asks for. */
  function NextRequested(c: ConfigMap): int
    requires WellFormed(c)
  {
    if Initiating(c) then Segment(c) else Segment(c) + 1
  }

  lemma {:induction false} UpdatesAppend(a: seq<Event>, b: seq<Event>)
    ensures Updates(a + b) == Updates(a) + Updates(b)
  {
    if |a| > 0 {
      assert (a + b)[1..] == a[1..] + b;
      UpdatesAppend(a[1..], b);
    } else {
      assert a + b == b;
    }
  }

  lemma {:induction false} RequestedAppend(a: seq<Event>, b: seq<Event>, p: string)
    ensures Requested(a + b, p) == Requested(a, p) + Requested(b, p)
  {
    if |a| > 0 {
      assert (a + b)[1..] == a[1..] + b;
      RequestedAppend(a[1..], b, p);
    } else {
      assert a + b == b;
    }
  }

  // ---------------------------------------------------------------------
  // Bursts
  // ---------------------------------------------------------------------

  /** Fetching while locked does nothing, however often. */
  lemma {:induction false} LockedBurstIsNoop(c: ConfigMap, ds: seq<AjaxData>)
    requires WellFormed(c) && Locked(c)
    ensures Burst(c, ds) == Outcome(c, [])
  {
    if |ds| > 0 {
      LockedBurstIsNoop(c, ds[1..]);
    }
  }

  /**
   * Of several fetches with no response in between, only the first has any
   * effect: at most one request goes out.
   */
  lemma {:induction false} OnlyFirstFetchCounts(c: ConfigMap, ds: seq<AjaxData>)
    requires WellFormed(c) && |ds| >= 1
    ensures var b := Begin(c, ds[0]); Burst(c, ds) == Outcome(b.config, b.events)
    ensures |Requested(Burst(c, ds).events, SegmentParam(c))| <= 1
  {
    var b := Begin(c, ds[0]);
    LockGuard(c, ds[0]);
    LockedBurstIsNoop(b.config, ds[1..]);
    assert b.events + [] == b.events;
  }

  // ---------------------------------------------------------------------
  // Rounds
  // ---------------------------------------------------------------------

  /**
   * A round from an unlocked controller leaves it unlocked exactly when the
   * promise resolves to true, that is, when a non-empty page came back
   * without the `NoMoreContent` header. A round from a locked controller
   * resolves to undefined and changes nothing.
   */
  lemma RoundLock(c: ConfigMap, d: JsValue, resp: Response)
    requires WellFormed(c) && ModelledAjaxData(d)
    ensures var r := Round(c, d, resp);
      && (Locked(c) ==> r == Step(c, [], Undefined))
      && (!Locked(c) ==> (Locked(r.config) <==> r.result != Resolved(true)))
      && (r.result == Resolved(true) <==>
            !Locked(c) && Begin(c, d).result.Sent? && resp.Success? && resp.nonEmpty && !Truthy(HeaderValue(resp.noMoreContent)))
  {
  }

  /** A locked controller stays as it is for any number of rounds. */
  lemma {:induction false} LockedRunIsNoop(c: ConfigMap, rounds: seq<(AjaxData, Response)>)
    requires WellFormed(c) && Locked(c)
    ensures Run(c, rounds) == Outcome(c, [])
  {
    if |rounds| > 0 {
      RoundLock(c, rounds[0].0, rounds[0].1);
      LockedRunIsNoop(c, rounds[1..]);
    }
  }

  /**
   * Once a fetch settles with anything but `true` (an empty page, the
   * header, any error, a rejected request), no later scroll event fetches
   * again: the rest of the run is the first round alone.
   */
  lemma {:induction false} StopsAfterFirstFalse(c: ConfigMap, rounds: seq<(AjaxData, Response)>)
    requires WellFormed(c) && |rounds| >= 1
    requires Round(c, rounds[0].0, rounds[0].1).result != Resolved(true)
    ensures var s := Round(c, rounds[0].0, rounds[0].1); Run(c, rounds) == Outcome(s.config, s.events)
  {
    var s := Round(c, rounds[0].0, rounds[0].1);
    RoundLock(c, rounds[0].0, rounds[0].1);
    LockedRunIsNoop(s.config, rounds[1..]);
    assert s.events + [] == s.events;
  }

  /** The request phase sends at most the next segment and reports none. */
  lemma BeginSegments(c: ConfigMap, d: JsValue)
    requires WellFormed(c) && ModelledAjaxData(d)
    ensures var b := Begin(c, d);
      && SegmentParam(b.config) == SegmentParam(c)
      && Updates(b.events) == []
      && Requested(b.events, SegmentParam(c)) == (if b.result.Sent? then [JNum(NextRequested(c))] else [])
      && (b.result.Sent? ==> Segment(b.config) + 1 == NextRequested(c) && !Initiating(b.config))
      && (!Initiating(c) ==> Segment(b.config) == Segment(c))
  {
    var b := Begin(c, d);
    if b.result.Sent? {
      SegmentSent(c, d);
      assert b.events == [AjaxRequest(b.result.params)];
    } else {
      assert b.events == [];
    }
  }

  /** A response sends nothing and reports at most the segment after the current one. */
  lemma RespondSegments(c: ConfigMap, resp: Response, p: string)
    requires WellFormed(c)
    ensures var a := Respond(c, resp);
      && SegmentParam(a.config) == SegmentParam(c)
      && Requested(a.events, p) == []
      && |Updates(a.events)| <= 1 && Updates(a.events) == Ints(Segment(c) + 1, |Updates(a.events)|)
      && Segment(a.config) == Segment(c) + |Updates(a.events)|
      && Get(a.config, InitiateKey) == Get(c, InitiateKey)
      && (a.result ==> |Updates(a.events)| == 1)
  {
    match resp
    case Success(n, res, h) =>
      if n {
        NonEmptySuccess(c, res, h);
        var e := Succeed(c, n, res, h).events;
        assert e == [UpdateParamCall(SegmentParam(c), Segment(c) + 1), OnSuccessCall(res)];
        assert Updates(e) == [Segment(c) + 1];
      }
    case Failure(s) =>
      ErrorOutcome(c, s);
  }

  /**
   * The requests in `events` ask, in order, for consecutive segments from
   * `next` on; `updateParam` reports the same segments in the same order and
   * lags the requests by at most one.
   */
  predicate Paced(events: seq<Event>, p: string, next: int) {
    var q := Requested(events, p);
    var u := Updates(events);
    q == Nums(next, |q|) && u == Ints(next, |u|) && |u| <= |q| <= |u| + 1
  }

  /**
   * One round requests at most the next segment and reports at most that
   * one; a round that resolves true has requested and reported it, and the
   * one after it is next.
   */
  lemma RoundPaced(c: ConfigMap, d: JsValue, resp: Response, r: Step<Settled>)
    requires WellFormed(c) && ModelledAjaxData(d) && r == Round(c, d, resp)
    ensures SegmentParam(r.config) == SegmentParam(c)
    ensures Paced(r.events, SegmentParam(c), NextRequested(c))
    ensures r.result == Resolved(true) ==>
      && Requested(r.events, SegmentParam(c)) == [JNum(NextRequested(c))]
      && Updates(r.events) == [NextRequested(c)]
      && NextRequested(r.config) == NextRequested(c) + 1
  {
    var p := SegmentParam(c);
    var b := Begin(c, d);
    BeginSegments(c, d);
    if b.result.Sent? {
      var a := Respond(b.config, resp);
      RespondSegments(b.config, resp, p);
      RequestedAppend(b.events, a.events, p);
      UpdatesAppend(b.events, a.events);
      assert r == Step(a.config, b.events + a.events, Resolved(a.result));
      assert Requested(r.events, p) == [JNum(NextRequested(c))];
      assert Updates(r.events) == Updates(a.events);
    } else {
      assert r.events == b.events && r.result != Resolved(true);
    }
  }

  /**
   * Outside an initial fetch, one round raises the segment by the number of
   * reports it makes, and a round that resolves true leaves no initial fetch
   * pending.
   */
  lemma RoundCount(c: ConfigMap, d: JsValue, resp: Response, r: Step<Settled>)
    requires WellFormed(c) && ModelledAjaxData(d) && r == Round(c, d, resp)
    ensures !Initiating(c) ==> Segment(r.config) == Segment(c) + |Updates(r.events)|
    ensures r.result == Resolved(true) ==> !Initiating(r.config)
  {
    var b := Begin(c, d);
    BeginSegments(c, d);
    if b.result.Sent? {
      var a := Respond(b.config, resp);
      RespondSegments(b.config, resp, SegmentParam(c));
      UpdatesAppend(b.events, a.events);
      assert r == Step(a.config, b.events + a.events, Resolved(a.result));
    } else {
      assert r.events == b.events;
    }
  }

  lemma PacedAppend(a: seq<Event>, b: seq<Event>, p: string, next: int)
    requires Requested(a, p) == [JNum(next)] && Updates(a) == [next]
    requires Paced(b, p, next + 1)
    ensures Paced(a + b, p, next)
  {
    RequestedAppend(a, b, p);
    UpdatesAppend(a, b);
    var q := Requested(b, p);
    var u := Updates(b);
    assert [JNum(next)] + q == Nums(next, 1 + |q|);
    assert [next] + u == Ints(next, 1 + |u|);
  }

  /** Run unfolded once. */
  lemma RunFirst(c: ConfigMap, rounds: seq<(AjaxData, Response)>, s: Step<Settled>)
    requires WellFormed(c) && |rounds| > 0
    requires s == Round(c, rounds[0].0, rounds[0].1)
    ensures WellFormed(s.config)
    ensures var rest := Run(s.config, rounds[1..]);
      Run(c, rounds) == Outcome(rest.config, s.events + rest.events)
  {
  }

  /**
   * Over any run, the segments requested are consecutive, starting at the
   * one the controller's state names next; `updateParam` reports the same
   * segments in the same order, each once, and lags the requests by at
   * most one. No segment is requested twice and none is skipped.
   */
  lemma {:induction false} SegmentsAreConsecutive(c: ConfigMap, rounds: seq<(AjaxData, Response)>)
    requires WellFormed(c)
    ensures Paced(Run(c, rounds).events, SegmentParam(c), NextRequested(c))
    decreases |rounds|
  {
    if |rounds| > 0 {
      var s := Round(c, rounds[0].0, rounds[0].1);
      RunFirst(c, rounds, s);
      RoundPaced(c, rounds[0].0, rounds[0].1, s);
      if s.result == Resolved(true) {
        var p := SegmentParam(c);
        var n := NextRequested(c);
        var rest := Run(s.config, rounds[1..]);
        SegmentsAreConsecutive(s.config, rounds[1..]);
        assert SegmentParam(s.config) == p && NextRequested(s.config) == n + 1;
        assert Paced(rest.events, p, n + 1);
        PacedAppend(s.events, rest.events, p, n);
        assert Run(c, rounds).events == s.events + rest.events;
      } else {
        StopsAfterFirstFalse(c, rounds);
      }
    }
  }

  /**
   * From a state that is not awaiting its initial fetch, a run raises the
   * segment by exactly the number of `updateParam` reports.
   */
  lemma {:induction false} SegmentCountsReports(c: ConfigMap, rounds: seq<(AjaxData, Response)>)
    requires WellFormed(c) && !Initiating(c)
    ensures Segment(Run(c, rounds).config) == Segment(c) + |Updates(Run(c, rounds).events)|
    decreases |rounds|
  {
    if |rounds| > 0 {
      var s := Round(c, rounds[0].0, rounds[0].1);
      RunFirst(c, rounds, s);
      RoundCount(c, rounds[0].0, rounds[0].1, s);
      UpdatesAppend(s.events, Run(s.config, rounds[1..]).events);
      if s.result == Resolved(true) {
        SegmentCountsReports(s.config, rounds[1..]);
      } else {
        StopsAfterFirstFalse(c, rounds);
      }
    }
  }
}
