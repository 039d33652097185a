/**
 * The part of JavaScript's value model that the controller's configuration,
 * its request parameters and its query-string conversion touch.
 */
module Js {

  /**
   * A JavaScript value. Numbers are integers (the controller only counts
   * segments). Functions are identified by a name; a host object is a jQuery
   * wrapper, `$(query).parent()`, identified by the query it was built from.
   */
  datatype JsValue =
    | JUndefined
    | JNull
    | JBool(b: bool)
    | JNum(n: int)
    | JStr(s: string)
    | JArr(elems: seq<JsValue>)
    | JObj(props: map<string, JsValue>)
    | JFun(name: string)
    | JHost(query: JsValue)

  /** The exceptions the modelled code can raise. */
  datatype JsError = TypeError | URIError

  /** ToBoolean: the falsy values are undefined, null, false, 0 and "". */
  predicate Truthy(v: JsValue) {
    match v
    case JUndefined => false
    case JNull => false
    case JBool(b) => b
    case JNum(n) => n != 0
    case JStr(s) => s != ""
    case _ => true
  }

  /** The `typeof` operator; note that `typeof null` is "object". */
  function TypeOf(v: JsValue): (t: string)
    ensures t == "object" <==> v.JNull? || v.JArr? || v.JObj? || v.JHost?
  {
    match v
    case JUndefined => "undefined"
    case JNull => "object"
    case JBool(_) => "boolean"
    case JNum(_) => "number"
    case JStr(_) => "string"
    case JArr(_) => "object"
    case JObj(_) => "object"
    case JFun(_) => "function"
    case JHost(_) => "object"
  }

  /** A property read on a plain object: a missing property reads as undefined. */
  function Get(m: map<string, JsValue>, k: string): JsValue {
    if k in m then m[k] else JUndefined
  }

  /** A parameter with a default value: the default replaces an undefined argument. */
  function WithDefault(arg: JsValue, default: JsValue): (v: JsValue)
    ensures v == arg || (arg == JUndefined && v == default)
    ensures v != JUndefined || default == JUndefined
  {
    if arg.JUndefined? then default else arg
  }

  /** The decimal numeral of an array index, the property key JavaScript uses for it. */
  function IndexKey(i: nat): (k: string)
    ensures |k| >= 1 && forall j :: 0 <= j < |k| ==> '0' <= k[j] <= '9'
    decreases i
  {
    if i < 10 then [DigitChar(i)] else IndexKey(i / 10) + [DigitChar(i % 10)]
  }

  function DigitChar(d: nat): (c: char)
    requires d < 10
    ensures '0' <= c <= '9'
  {
    "0123456789"[d]
  }

  /** The own enumerable properties of a sequence viewed as an object: index keys to elements. */
  function Indexed(xs: seq<JsValue>): map<string, JsValue>
    decreases |xs|
  {
    if xs == [] then map[] else Indexed(xs[..|xs| - 1])[IndexKey(|xs| - 1) := xs[|xs| - 1]]
  }

  /** The index keys of the positions below `n`. */
  function IndexKeys(n: nat): set<string>
    decreases n
  {
    if n == 0 then {} else IndexKeys(n - 1) + {IndexKey(n - 1)}
  }

  /** Indexed(xs) has one key per position of `xs`, the position's decimal numeral. */
  lemma {:induction false} IndexedKeys(xs: seq<JsValue>)
    ensures Indexed(xs).Keys == IndexKeys(|xs|)
    decreases |xs|
  {
    if xs != [] {
      IndexedKeys(xs[..|xs| - 1]);
    }
  }

  /** The number a non-empty string of decimal digits denotes. */
  function NumeralValue(k: string): (n: nat)
    requires |k| >= 1 && forall j :: 0 <= j < |k| ==> '0' <= k[j] <= '9'
    decreases |k|
  {
    var d := k[|k| - 1] as nat - '0' as nat;
    if |k| == 1 then d else NumeralValue(k[..|k| - 1]) * 10 + d
  }

  lemma DigitCharValue(d: nat)
    requires d < 10
    ensures DigitChar(d) as nat - '0' as nat == d
  {
    var digits := "0123456789";
    assert digits[0] == '0' && digits[1] == '1' && digits[2] == '2' && digits[3] == '3' && digits[4] == '4';
    assert digits[5] == '5' && digits[6] == '6' && digits[7] == '7' && digits[8] == '8' && digits[9] == '9';
  }

  /** IndexKey writes the numeral of its argument: reading it back gives the index. */
  lemma {:induction false} IndexKeyValue(i: nat)
    ensures NumeralValue(IndexKey(i)) == i
    decreases i
  {
    if i < 10 {
      DigitCharValue(i);
    } else {
      var k := IndexKey(i);
      IndexKeyValue(i / 10);
      DigitCharValue(i % 10);
      assert k[..|k| - 1] == IndexKey(i / 10);
      assert k[|k| - 1] == DigitChar(i % 10);
    }
  }

  /** Distinct positions have distinct property keys. */
  lemma IndexKeyInjective(i: nat, j: nat)
    ensures IndexKey(i) == IndexKey(j) <==> i == j
  {
    IndexKeyValue(i);
    IndexKeyValue(j);
  }

  /** Indexed(xs) holds each element under its own position's key. */
  lemma {:induction false} IndexedValues(xs: seq<JsValue>)
    ensures forall i :: 0 <= i < |xs| ==> IndexKey(i) in Indexed(xs) && Indexed(xs)[IndexKey(i)] == xs[i]
    decreases |xs|
  {
    if xs != [] {
      var n := |xs| - 1;
      var init := xs[..n];
      IndexedValues(init);
      forall i | 0 <= i < |xs|
        ensures IndexKey(i) in Indexed(xs) && Indexed(xs)[IndexKey(i)] == xs[i]
      {
        if i < n {
          IndexKeyInjective(i, n);
          assert init[i] == xs[i];
        }
      }
    }
  }
}
