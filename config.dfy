/**
 * The controller's `this.config` dictionary: the keys the fetch cycle reads,
 * the constructor's defaults, and `editConfig`, which merges a caller's
 * settings into it.
 */
module Config {
  import opened Wrappers
  import opened Js

  type ConfigMap = map<string, JsValue>

  const SegmentKey := "segment"
  const SegmentParamKey := "segmentParam"
  const LockKey := "lockInfiniteScroll"
  const InitiateKey := "fetchOnInitiate"
  const GetAjaxDataKey := "getAjaxData"
  const OnSuccessKey := "onSuccess"
  const OnErrorKey := "onError"
  const UpdateParamKey := "updateParam"
  const ContainerKey := "container"

  /** The keys whose values the fetch cycle uses as a number, a string or a callback. */
  predicate WellFormed(c: ConfigMap) {
    && SegmentKey in c && c[SegmentKey].JNum?
    && SegmentParamKey in c && c[SegmentParamKey].JStr?
    && GetAjaxDataKey in c && c[GetAjaxDataKey].JFun?
    && OnSuccessKey in c && c[OnSuccessKey].JFun?
    && OnErrorKey in c && c[OnErrorKey].JFun?
    && UpdateParamKey in c && c[UpdateParamKey].JFun?
  }

  function Segment(c: ConfigMap): int
    requires WellFormed(c)
  {
    c[SegmentKey].n
  }

  function SegmentParam(c: ConfigMap): string
    requires WellFormed(c)
  {
    c[SegmentParamKey].s
  }

  /** A fetch is suppressed while the lock holds a truthy value. */
  predicate Locked(c: ConfigMap) {
    Truthy(Get(c, LockKey))
  }

  /** The next fetch is the initial one. */
  predicate Initiating(c: ConfigMap) {
    Truthy(Get(c, InitiateKey))
  }

  /** What the caller passed as `config.container`, read before the settings are merged. */
  function ContainerOf(given: seq<(string, JsValue)>): JsValue
    decreases |given|
  {
    if given == [] then JUndefined
    else if given[0].0 == ContainerKey then given[0].1
    else ContainerOf(given[1..])
  }

  /**
   * The configuration the constructor starts from. The default loading
   * indicator container is `$(config.container).parent()`, a host object.
   */
  function Defaults(container: JsValue): (c: ConfigMap)
    ensures WellFormed(c)
  {
    map[
      SegmentKey := JNum(1),
      SegmentParamKey := JStr("segment"),
      ContainerKey := JStr(""),
      LockKey := JBool(false),
      "autoFill" := JBool(true),
      "autoScroll" := JBool(false),
      InitiateKey := JBool(false),
      "ajaxRoute" := JStr(""),
      "ajaxDataType" := JStr("json"),
      GetAjaxDataKey := JFun("readLocationSearch"),
      OnSuccessKey := JFun("defaultOnSuccess"),
      OnErrorKey := JFun("defaultOnError"),
      UpdateParamKey := JFun("defaultUpdateParam"),
      "loadingIndicator" := JObj(map[
        "active" := JBool(false),
        "container" := JHost(container),
        "color" := JStr("lightgray"),
        "size" := JStr("0.7em"),
        "type" := JNum(1),
        "html" := JStr("")
      ])
    ]
  }

  /** The state a fresh controller starts in, as its header comment documents it. */
  lemma DefaultState(container: JsValue)
    ensures var c := Defaults(container);
      && Segment(c) == 1 && SegmentParam(c) == "segment"
      && !Locked(c) && !Initiating(c)
      && Truthy(c["autoFill"]) && !Truthy(c["autoScroll"])
      && c["ajaxDataType"] == JStr("json")
      && forall k :: k in c ==> c[k] != JNull
  {
  }

  // ---------------------------------------------------------------------
  // editConfig
  // ---------------------------------------------------------------------

  /** The keys of the caller's settings object, in `for ... in` order. */
  function Keys(given: seq<(string, JsValue)>): set<string> {
    set i | 0 <= i < |given| :: given[i].0
  }

  /** A JavaScript object has each key once. */
  predicate DistinctKeys(given: seq<(string, JsValue)>) {
    forall i, j :: 0 <= i < j < |given| ==> given[i].0 != given[j].0
  }

  /** The settings the fetch cycle depends on have the types the constructor documents. */
  predicate TypedSettings(given: seq<(string, JsValue)>) {
    forall i :: 0 <= i < |given| ==>
      && (given[i].0 == SegmentKey ==> given[i].1.JNum?)
      && (given[i].0 == SegmentParamKey ==> given[i].1.JStr?)
      && (given[i].0 in {GetAjaxDataKey, OnSuccessKey, OnErrorKey, UpdateParamKey} ==> given[i].1.JFun?)
  }

  /**
   * The cases of `Object.assign` this model covers: the target is not an
   * array or host object, and an object target is not merged with a host object.
   */
  predicate Mergeable(current: JsValue, v: JsValue) {
    !current.JArr? && !current.JHost? && (current.JObj? ==> !v.JHost?)
  }

  predicate AllMergeable(c: ConfigMap, given: seq<(string, JsValue)>) {
    forall i :: 0 <= i < |given| ==> Mergeable(Get(c, given[i].0), given[i].1)
  }

  /** The own enumerable properties `Object.assign` copies from a source value. */
  function OwnProps(v: JsValue): (m: map<string, JsValue>)
    requires !v.JHost?
    ensures v.JObj? ==> m == v.props
    ensures v.JUndefined? || v.JNull? || v.JBool? || v.JNum? || v.JFun? ==> m == map[]
  {
    match v
    case JObj(props) => props
    case JArr(xs) => Indexed(xs)
    case JStr(s) => Indexed(seq(|s|, i requires 0 <= i < |s| => JStr([s[i]])))
    case _ => map[]
  }

  datatype Edited = Edited(config: ConfigMap, thrown: Option<JsError>)

  /**
   * One pass of the loop: an object-typed value is merged into with
   * `Object.assign`, which throws on a null target; any other value is replaced.
   */
  function EditKey(c: ConfigMap, k: string, v: JsValue): (r: Edited)
    requires Mergeable(Get(c, k), v)
  {
    var current := Get(c, k);
    if TypeOf(current) == "object" then
      if current.JNull? then Edited(c, Some(TypeError))
      else Edited(c[k := JObj(current.props + OwnProps(v))], None)
    else Edited(c[k := v], None)
  }

  /** Key `k` is missing from both maps or holds the same value in both. */
  predicate SameAt(c: ConfigMap, d: ConfigMap, k: string) {
    (k in c <==> k in d) && (k in c ==> c[k] == d[k])
  }

  /** `editConfig(given)`: the loop over the settings, stopped by the first exception. */
  function Edit(c: ConfigMap, given: seq<(string, JsValue)>): (r: Edited)
    requires DistinctKeys(given) && AllMergeable(c, given)
    ensures forall k {:trigger SameAt(c, r.config, k)} :: k !in Keys(given) ==> SameAt(c, r.config, k)
    decreases |given|
  {
    if given == [] then Edited(c, None)
    else
      var n := |given| - 1;
      assert Keys(given[..n]) <= Keys(given);
      assert given[n].0 !in Keys(given[..n]);
      var prev := Edit(c, given[..n]);
      assert SameAt(c, prev.config, given[n].0);
      var r := if prev.thrown.Some? then prev else EditKey(prev.config, given[n].0, given[n].1);
      FrameStep(c, prev.config, r.config, Keys(given[..n]), Keys(given), given[n].0);
      r
  }

  lemma FrameStep(c: ConfigMap, p: ConfigMap, q: ConfigMap, before: set<string>, after: set<string>, k0: string)
    requires before <= after && k0 in after
    requires forall k {:trigger SameAt(c, p, k)} :: k !in before ==> SameAt(c, p, k)
    requires forall k {:trigger SameAt(p, q, k)} :: k != k0 ==> SameAt(p, q, k)
    ensures forall k {:trigger SameAt(c, q, k)} :: k !in after ==> SameAt(c, q, k)
  {
    forall k | k !in after
      ensures SameAt(c, q, k)
    {
      assert SameAt(c, p, k);
      assert SameAt(p, q, k);
    }
  }

  /** The value `editConfig` leaves under a given key when nothing threw. */
  function MergedValue(current: JsValue, v: JsValue): JsValue
    requires Mergeable(current, v)
  {
    if current.JObj? then JObj(current.props + OwnProps(v)) else v
  }

  /** One pass of the loop changes the visited key only. */
  lemma EditKeyMeaning(c: ConfigMap, k: string, v: JsValue)
    requires Mergeable(Get(c, k), v)
    ensures EditKey(c, k, v).thrown.Some? <==> Get(c, k) == JNull
    ensures EditKey(c, k, v).thrown.Some? ==> EditKey(c, k, v) == Edited(c, Some(TypeError))
    ensures EditKey(c, k, v).thrown.None? ==>
      EditKey(c, k, v).config == c[k := MergedValue(Get(c, k), v)]
  {
  }

  /** The last pass of the loop sees the original value of its key. */
  lemma EditLast(c: ConfigMap, given: seq<(string, JsValue)>)
    requires given != [] && DistinctKeys(given) && AllMergeable(c, given)
    ensures var n := |given| - 1;
      && DistinctKeys(given[..n]) && AllMergeable(c, given[..n])
      && var prev := Edit(c, given[..n]);
      && Get(prev.config, given[n].0) == Get(c, given[n].0)
      && Edit(c, given) == if prev.thrown.Some? then prev else EditKey(prev.config, given[n].0, given[n].1)
  {
    var n := |given| - 1;
    assert given[n].0 !in Keys(given[..n]);
    assert SameAt(c, Edit(c, given[..n]).config, given[n].0);
  }

  /** `typeof` says "object" but `Object.assign` cannot write into it. */
  predicate HoldsNull(c: ConfigMap, k: string) {
    Get(c, k) == JNull
  }

  /** Some given key is one whose current value is null. */
  predicate SomeNull(c: ConfigMap, given: seq<(string, JsValue)>) {
    exists i :: 0 <= i < |given| && HoldsNull(c, given[i].0)
  }

  lemma SomeNullLast(c: ConfigMap, given: seq<(string, JsValue)>)
    requires given != []
    ensures SomeNull(c, given) <==> SomeNull(c, given[..|given| - 1]) || HoldsNull(c, given[|given| - 1].0)
  {
    var front := given[..|given| - 1];
    if SomeNull(c, front) {
      var i :| 0 <= i < |front| && HoldsNull(c, front[i].0);
      assert given[i] == front[i];
    }
    if SomeNull(c, given) && !HoldsNull(c, given[|given| - 1].0) {
      var i :| 0 <= i < |given| && HoldsNull(c, given[i].0);
      assert given[i] == front[i];
    }
  }

  /** `editConfig` throws, with a TypeError, exactly when some given key currently holds null. */
  lemma {:induction false} EditThrows(c: ConfigMap, given: seq<(string, JsValue)>)
    requires DistinctKeys(given) && AllMergeable(c, given)
    ensures Edit(c, given).thrown.Some? <==> SomeNull(c, given)
    ensures Edit(c, given).thrown.Some? ==> Edit(c, given).thrown == Some(TypeError)
    decreases |given|
  {
    if given != [] {
      var n := |given| - 1;
      EditLast(c, given);
      EditThrows(c, given[..n]);
      SomeNullLast(c, given);
      var prev := Edit(c, given[..n]);
      EditKeyMeaning(prev.config, given[n].0, given[n].1);
    }
  }


  /**
   * When `editConfig` does not throw, each given key holds its merged value:
   * a shallow merge into an object, the given value for anything else. (No
   * other key changes: the contract of Edit.)
   */
  lemma {:induction false} EditValues(c: ConfigMap, given: seq<(string, JsValue)>)
    requires DistinctKeys(given) && AllMergeable(c, given)
    requires Edit(c, given).thrown.None?
    ensures forall i :: 0 <= i < |given| ==>
      given[i].0 in Edit(c, given).config &&
      Edit(c, given).config[given[i].0] == MergedValue(Get(c, given[i].0), given[i].1)
    decreases |given|
  {
    if given != [] {
      var n := |given| - 1;
      var front := given[..n];
      EditLast(c, given);
      var prev := Edit(c, front);
      assert prev.thrown.None?;
      EditValues(c, front);
      var k := given[n].0;
      EditKeyMeaning(prev.config, k, given[n].1);
      var r := Edit(c, given);
      assert r.config == prev.config[k := MergedValue(Get(c, k), given[n].1)];
      forall i | 0 <= i < |given|
        ensures given[i].0 in r.config && r.config[given[i].0] == MergedValue(Get(c, given[i].0), given[i].1)
      {
        if i < n {
          assert given[i] == front[i];
          assert given[i].0 != k;
        }
      }
    }
  }

  /**
   * The constructor's single `editConfig` call never throws: every default
   * value is non-null, and each key is visited once. With typed settings the
   * result is well formed.
   */
  lemma ConstructionSucceeds(given: seq<(string, JsValue)>)
    requires DistinctKeys(given) && AllMergeable(Defaults(ContainerOf(given)), given)
    requires TypedSettings(given)
    ensures Edit(Defaults(ContainerOf(given)), given).thrown == None
    ensures WellFormed(Edit(Defaults(ContainerOf(given)), given).config)
  {
    var d := Defaults(ContainerOf(given));
    DefaultState(ContainerOf(given));
    EditThrows(d, given);
    EditKeepsWellFormed(d, given);
  }

  /** Typed settings keep the configuration well formed, whether or not the loop throws. */
  lemma {:induction false} EditKeepsWellFormed(c: ConfigMap, given: seq<(string, JsValue)>)
    requires WellFormed(c) && DistinctKeys(given) && AllMergeable(c, given) && TypedSettings(given)
    ensures WellFormed(Edit(c, given).config)
    decreases |given|
  {
    if given != [] {
      var n := |given| - 1;
      EditLast(c, given);
      assert TypedSettings(given[..n]);
      EditKeepsWellFormed(c, given[..n]);
      var prev := Edit(c, given[..n]);
      EditKeyMeaning(prev.config, given[n].0, given[n].1);
    }
  }

  /** After the first exception the remaining keys are not visited. */
  lemma {:induction false} EditStopsAtThrow(c: ConfigMap, given: seq<(string, JsValue)>, i: nat)
    requires i <= |given| && DistinctKeys(given) && AllMergeable(c, given)
    requires DistinctKeys(given[..i]) && AllMergeable(c, given[..i])
    requires Edit(c, given[..i]).thrown.Some?
    ensures Edit(c, given) == Edit(c, given[..i])
    decreases |given|
  {
    if i < |given| {
      var n := |given| - 1;
      EditLast(c, given);
      assert given[..n][..i] == given[..i];
      EditStopsAtThrow(c, given[..n], i);
    } else {
      assert given[..i] == given;
    }
  }
}
