/**
 * The JavaScript values that cross the system's boundaries: request payloads sent by
 * clients and the parsed JSON returned by the external user service.  Only the
 * operations the core applies to them are modelled: `typeof`, lodash's `_.isObject`
 * and `_.isArray`, property reads and truthiness.
 */
module JsValues {

  datatype JsValue =
    | JsUndefined
    | JsNull
    | JsBool(b: bool)
    | JsNumber(n: int)
    | JsString(s: string)
    | JsArray(items: seq<JsValue>)
    | JsObject(fields: map<string, JsValue>)

  /** `!!v`: the values `!v` treats as false are undefined, null, false, 0 and "". */
  predicate Truthy(v: JsValue)
  {
    match v
    case JsUndefined => false
    case JsNull => false
    case JsBool(b) => b
    case JsNumber(n) => n != 0
    case JsString(s) => s != ""
    case JsArray(_) => true
    case JsObject(_) => true
  }

  /** lodash `_.isObject`: true for objects and arrays, false for null and every primitive. */
  predicate IsObject(v: JsValue)
  {
    v.JsArray? || v.JsObject?
  }

  /** A property read `v[name]` on a value that is neither undefined nor null. */
  function Get(v: JsValue, name: string): (r: JsValue)
    requires !v.JsUndefined? && !v.JsNull?
    ensures v.JsObject? && name in v.fields ==> r == v.fields[name]
    ensures r != JsUndefined ==> v.JsObject? && name in v.fields && r == v.fields[name]
  {
    if v.JsObject? && name in v.fields then v.fields[name] else JsUndefined
  }
}
