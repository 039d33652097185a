/**
 * The conversion `fetch` applies when `getAjaxData` returns a query string:
 * split on `&`, split each piece on `=`, decode the key with `decodeURI`, and
 * collect into the dictionary `temp`. Keys ending in `[]` collect their raw
 * values, in order, in an array; every other key is bound to `temp[1]`.
 */
module QueryString {
  import opened Wrappers
  import opened Js
  import opened Text
  import Uri

  /** `key.slice(-2) === "[]"`. */
  predicate IsArrayKey(k: string) {
    |k| >= 2 && k[|k| - 2..] == "[]"
  }

  /** Assigning to `__proto__` on a plain object goes to the prototype setter. */
  const ProtoKey := "__proto__"

  /** `piece.split('=')[0]`: the text before the first `=`. */
  function RawKey(piece: string): string {
    Split(piece, '=')[0]
  }

  /** `piece.split('=')[1]`: the text between the first and second `=`, or undefined. */
  function RawValue(piece: string): JsValue {
    var p := Split(piece, '=');
    if |p| >= 2 then JStr(p[1]) else JUndefined
  }

  /** What the array branch relies on: an array key already in `temp` holds an array. */
  predicate ArraysShaped(temp: map<string, JsValue>) {
    forall k :: k in temp && IsArrayKey(k) ==> temp[k].JArr?
  }

  /** One pass of the forEach body, after the key has been decoded. */
  function Absorb(temp: map<string, JsValue>, key: string, value: JsValue): (r: map<string, JsValue>)
    requires ArraysShaped(temp)
    ensures ArraysShaped(r)
  {
    if IsArrayKey(key) then
      var t := if !Truthy(Get(temp, key)) then temp[key := JArr([])] else temp;
      t[key := JArr(t[key].elems + [value])]
    else if key == ProtoKey then
      temp  // the prototype setter ignores undefined
    else
      temp[key := Get(temp, "1")]
  }

  /** The dictionary built from decoded (key, raw value) pairs, in order. */
  function Collect(kvs: seq<(string, JsValue)>): (r: map<string, JsValue>)
    ensures ArraysShaped(r)
    decreases |kvs|
  {
    if kvs == [] then map[]
    else
      var last := kvs[|kvs| - 1];
      Absorb(Collect(kvs[..|kvs| - 1]), last.0, last.1)
  }

  /** `decodeURI` throws on the key of this piece. */
  predicate KeyFails(piece: string) {
    Uri.DecodeUri(RawKey(piece)).Err?
  }

  /** Every piece with its key decoded, or the URIError of the first key that does not decode. */
  function DecodeAll(pieces: seq<string>): (r: Result<seq<(string, JsValue)>, JsError>)
    ensures r.Ok? ==> |r.value| == |pieces|
    ensures r.Ok? ==> forall i :: 0 <= i < |pieces| ==>
      Uri.DecodeUri(RawKey(pieces[i])) == Ok(r.value[i].0) && r.value[i].1 == RawValue(pieces[i])
    ensures r.Err? <==> exists i :: 0 <= i < |pieces| && KeyFails(pieces[i])
    ensures r.Err? ==> r.error == URIError
    decreases |pieces|
  {
    if pieces == [] then Ok([])
    else
      var n := |pieces| - 1;
      match DecodeAll(pieces[..n])
      case Err(e) => Err(e)
      case Ok(kvs) =>
        match Uri.DecodeUri(RawKey(pieces[n]))
        case Err(e) => Err(e)
        case Ok(k) => Ok(kvs + [(k, RawValue(pieces[n]))])
  }

  /** The value of the conversion: the collected dictionary, or the error decoding threw. */
  function Parse(query: string): Result<map<string, JsValue>, JsError> {
    match DecodeAll(Split(query, '&'))
    case Ok(kvs) => Ok(Collect(kvs))
    case Err(e) => Err(e)
  }

  /** The conversion as the source runs it: one loop pass per piece, mutating `temp`. */
  method Convert(query: string) returns (r: Result<map<string, JsValue>, JsError>)
    ensures r == Parse(query)
  {
    var pieces := Split(query, '&');
    var temp: map<string, JsValue> := map[];
    ghost var kvs: seq<(string, JsValue)> := [];
    for i := 0 to |pieces|
      invariant DecodeAll(pieces[..i]) == Ok(kvs)
      invariant temp == Collect(kvs)
    {
      var param := Split(pieces[i], '=');
      var key := Uri.DecodeUri(param[0]);
      if key.Err? {
        assert KeyFails(pieces[i]);
        return Err(key.error);
      }
      var value := if |param| >= 2 then JStr(param[1]) else JUndefined;
      var k := key.value;
      ghost var before := kvs;
      ghost var expected := Absorb(temp, k, value);
      if IsArrayKey(k) {
        if !Truthy(Get(temp, k)) {
          temp := temp[k := JArr([])];
        }
        temp := temp[k := JArr(temp[k].elems + [value])];
      } else if k != ProtoKey {
        temp := temp[k := Get(temp, "1")];
      }
      assert temp == expected;
      kvs := kvs + [(k, value)];
      DecodeStep(pieces, i, before, k);
      assert kvs[..|kvs| - 1] == before && kvs[|kvs| - 1] == (k, value);
    }
    assert pieces[..|pieces|] == pieces;
    return Ok(temp);
  }

  lemma DecodeStep(pieces: seq<string>, i: nat, kvs: seq<(string, JsValue)>, k: string)
    requires i < |pieces|
    requires DecodeAll(pieces[..i]) == Ok(kvs)
    requires Uri.DecodeUri(RawKey(pieces[i])) == Ok(k)
    ensures DecodeAll(pieces[..i + 1]) == Ok(kvs + [(k, RawValue(pieces[i]))])
  {
    var prefix := pieces[..i + 1];
    assert prefix[..i] == pieces[..i];
    assert prefix[i] == pieces[i];
  }

  /** The raw values the pairs give key `k`, in order of appearance. */
  function ValuesFor(kvs: seq<(string, JsValue)>, k: string): seq<JsValue>
    decreases |kvs|
  {
    if kvs == [] then []
    else
      var last := kvs[|kvs| - 1];
      ValuesFor(kvs[..|kvs| - 1], k) + (if last.0 == k then [last.1] else [])
  }

  predicate Occurs(kvs: seq<(string, JsValue)>, k: string) {
    exists i :: 0 <= i < |kvs| && kvs[i].0 == k
  }

  lemma {:induction false} ValuesForEmpty(kvs: seq<(string, JsValue)>, k: string)
    ensures ValuesFor(kvs, k) == [] <==> !Occurs(kvs, k)
    decreases |kvs|
  {
    if kvs != [] {
      var prev := kvs[..|kvs| - 1];
      ValuesForEmpty(prev, k);
      if Occurs(prev, k) {
        var i :| 0 <= i < |prev| && prev[i].0 == k;
        assert kvs[i].0 == k;
      }
      if Occurs(kvs, k) && kvs[|kvs| - 1].0 != k {
        var i :| 0 <= i < |kvs| && kvs[i].0 == k;
        assert prev[i].0 == k;
      }
    }
  }

  /** A key occurs in the pairs exactly when it occurs before the last one or is the last one's. */
  lemma OccursLast(kvs: seq<(string, JsValue)>, k: string)
    requires kvs != []
    ensures Occurs(kvs, k) <==> Occurs(kvs[..|kvs| - 1], k) || kvs[|kvs| - 1].0 == k
  {
    var prev := kvs[..|kvs| - 1];
    if Occurs(prev, k) {
      var i :| 0 <= i < |prev| && prev[i].0 == k;
      assert kvs[i].0 == k;
    }
    if Occurs(kvs, k) && kvs[|kvs| - 1].0 != k {
      var i :| 0 <= i < |kvs| && kvs[i].0 == k;
      assert prev[i].0 == k;
    }
  }

  /**
   * What the collected dictionary holds: exactly the keys that occur (but
   * `__proto__`); an array key bound to the array of its raw values in order;
   * every other key bound to undefined, which is all `temp[1]` ever holds.
   */
  lemma {:induction false} CollectMeaning(kvs: seq<(string, JsValue)>, k: string)
    ensures k in Collect(kvs) <==> Occurs(kvs, k) && k != ProtoKey
    ensures k in Collect(kvs) && IsArrayKey(k) ==> Collect(kvs)[k] == JArr(ValuesFor(kvs, k))
    ensures k in Collect(kvs) && !IsArrayKey(k) ==> Collect(kvs)[k] == JUndefined
    decreases |kvs|
  {
    if kvs != [] {
      var prev := kvs[..|kvs| - 1];
      var last := kvs[|kvs| - 1];
      var t := Collect(prev);
      assert Collect(kvs) == Absorb(t, last.0, last.1);
      assert ValuesFor(kvs, k) == ValuesFor(prev, k) + (if last.0 == k then [last.1] else []);
      OccursLast(kvs, k);
      CollectMeaning(prev, k);
      if last.0 == k && IsArrayKey(k) {
        ValuesForEmpty(prev, k);
      } else if last.0 == k && k != ProtoKey {
        CollectMeaning(prev, "1");
        assert !IsArrayKey("1");
      } else if last.0 == k {
        assert !IsArrayKey(ProtoKey);
      }
    }
  }

  /** The conversion throws exactly when some key fails to decode. */
  lemma ParseThrows(query: string)
    ensures Parse(query).Err? <==> exists i :: 0 <= i < |Split(query, '&')| && KeyFails(Split(query, '&')[i])
  {
    assert Parse(query).Err? <==> DecodeAll(Split(query, '&')).Err?;
  }

  /**
   * The conversion of a whole query string: each decoded key is present (but
   * `__proto__`), array keys with their raw values in order and other keys
   * with undefined.
   */
  lemma ParseMeaning(query: string, k: string)
    requires Parse(query).Ok?
    ensures
      var pieces := Split(query, '&');
      var kvs := DecodeAll(pieces).value;
      var m := Parse(query).value;
      && (k in m <==> k != ProtoKey && exists i :: 0 <= i < |pieces| && Uri.DecodeUri(RawKey(pieces[i])) == Ok(k))
      && (k in m && IsArrayKey(k) ==> m[k] == JArr(ValuesFor(kvs, k)))
      && (k in m && !IsArrayKey(k) ==> m[k] == JUndefined)
  {
    var pieces := Split(query, '&');
    var d := DecodeAll(pieces);
    assert d.Ok? && Parse(query) == Ok(Collect(d.value));
    CollectMeaning(d.value, k);
    if Occurs(d.value, k) {
      var i :| 0 <= i < |d.value| && d.value[i].0 == k;
      assert Uri.DecodeUri(RawKey(pieces[i])) == Ok(k);
    }
    if exists i :: 0 <= i < |pieces| && Uri.DecodeUri(RawKey(pieces[i])) == Ok(k) {
      var i :| 0 <= i < |pieces| && Uri.DecodeUri(RawKey(pieces[i])) == Ok(k);
      assert d.value[i].0 == k;
    }
  }
}
