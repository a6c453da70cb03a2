/**
 * The JSON values that travel between the clients and the two Flask back ends.
 * Only scalars are modelled: a request body or a response record is an object
 * whose members are scalars. JSON numbers are integers here.
 */
module Json {
  import opened Wrappers

  datatype Value = Null | Bool(b: bool) | Num(n: int) | Str(s: string)

  /** A JSON object, as a Python `dict` or a JavaScript object literal. */
  type Object = map<string, Value>

  /** `d.get(key, default)` on a Python dict. */
  function Get(d: Object, key: string, default: Value): (v: Value)
    ensures key in d ==> v == d[key]
    ensures key !in d ==> v == default
  {
    if key in d then d[key] else default
  }

  /**
   * Python truthiness of a parsed request body (`not data`, `not request.json`):
   * the absent body and the empty object are both falsy.
   */
  predicate IsNonEmptyObject(body: Option<Object>)
    ensures body.None? || body == Some(map[]) ==> !IsNonEmptyObject(body)
    ensures forall k :: body.Some? && k in body.value ==> IsNonEmptyObject(body)
  {
    body.Some? && |body.value| > 0
  }
}
