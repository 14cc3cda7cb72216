/** The handful of JavaScript value semantics that the validator's logic depends on:
    the values a JSON document can decode to, truthiness (the test behind `if (!x)`,
    `x ? a : b` and `.filter(x => x)`), and reading a named property. */
module Js {

  datatype Option<T> = None | Some(value: T)

  /** A JavaScript value as produced by `JSON.parse`, plus `undefined` (what reading a
      missing property gives). JSON numbers are finite decimals, modelled exactly. */
  datatype JsValue =
    | JUndefined
    | JNull
    | JBool(b: bool)
    | JNumber(n: real)
    | JString(s: string)
    | JArray(items: seq<JsValue>)
    | JObject(fields: map<string, JsValue>)

  /** JavaScript's ToBoolean: `undefined`, `null`, `false`, `0` and `""` are falsy,
      every other value (including every array and object) is truthy. */
  predicate Truthy(v: JsValue)
    ensures Truthy(v) ==> !v.JUndefined? && !v.JNull?
    ensures v.JArray? || v.JObject? ==> Truthy(v)
    ensures !Truthy(v) <==> v == JUndefined || v == JNull || v == JBool(false) || v == JNumber(0.0) || v == JString("")
  {
    match v
    case JUndefined => false
    case JNull => false
    case JBool(b) => b
    case JNumber(n) => n != 0.0
    case JString(s) => s != ""
    case JArray(_) => true
    case JObject(_) => true
  }

  /** Reading `v.key` either yields a value or throws a TypeError. */
  datatype Access = Read(value: JsValue) | TypeError

  /** `v.key` for a key that no built-in prototype defines (such as "email" or
      "isValid"): it throws on `null` and `undefined`, looks the key up in an object's
      own fields, and is `undefined` on every other value. */
  function Property(v: JsValue, key: string): (r: Access)
    ensures r.TypeError? <==> (v.JNull? || v.JUndefined?)
    ensures r.Read? && r.value != JUndefined ==> v.JObject? && key in v.fields && r.value == v.fields[key]
    ensures v.JObject? && key in v.fields ==> r == Read(v.fields[key])
    ensures !v.JNull? && !v.JUndefined? && !(v.JObject? && key in v.fields) ==> r == Read(JUndefined)
  {
    match v
    case JUndefined => TypeError
    case JNull => TypeError
    case JObject(fields) => if key in fields then Read(fields[key]) else Read(JUndefined)
    case _ => Read(JUndefined)
  }
}
