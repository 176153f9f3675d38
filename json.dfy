/** The values the org.json library stores, as far as the model needs them. */
module JsonModel {
  import opened Common

  /** A Java double: a finite value, an infinity, or NaN. */
  datatype Double = Finite(x: real) | Infinite(negative: bool) | NaN

  /** A JSON value. A stored `JNull` is org.json's JSONObject.NULL, as parsing gives it;
      `JNull` passed to Put stands for a Java null. */
  datatype Json =
    | JNull
    | JBool(b: bool)
    | JNumber(n: Double)
    | JString(s: string)
    | JArray(items: seq<Json>)
    | JObject(fields: map<string, Json>)

  /** Why a JSON write can fail: org.json refuses non-finite numbers. */
  datatype JsonError = NonFiniteNumber

  /** JSONObject.put(key, value): a null value removes the key, a non-finite number
      is refused with a JSONException, anything else is stored under the key. */
  function Put(o: map<string, Json>, key: string, v: Json): (r: Result<map<string, Json>, JsonError>)
    ensures r.Err? <==> v.JNumber? && !v.n.Finite?
    ensures r.Ok? ==> r.value.Keys == (if v == JNull then o.Keys - {key} else o.Keys + {key})
                      && (forall k :: k in o && k != key ==> r.value[k] == o[k])
                      && (v != JNull ==> r.value[key] == v)
  {
    if v == JNull then Ok(o - {key})
    else if v.JNumber? && !v.n.Finite? then Err(NonFiniteNumber)
    else Ok(o[key := v])
  }
}
