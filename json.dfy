/**
 * The values `JSON.parse` produces and the three ways the temperature code
 * looks into them: property access, `Object.values` and `Object.entries`.
 */
module Json {
  import opened Wrappers
  import JsText

  /** A parsed JSON document.  An object lists its own properties in their
      enumeration order, as `JSON.parse` leaves them. */
  datatype Json =
    | JNull
    | JBool(b: bool)
    | JNum(n: real)
    | JStr(s: string)
    | JArr(items: seq<Json>)
    | JObj(members: seq<(string, Json)>)

  /** The first property named `key`, if any. */
  function Lookup(members: seq<(string, Json)>, key: string): (r: Option<Json>)
    ensures r.Some? ==> exists k :: 0 <= k < |members| && members[k] == (key, r.value)
    ensures r.None? ==> forall k :: 0 <= k < |members| ==> members[k].0 != key
  {
    if |members| == 0 then None
    else if members[0].0 == key then Some(members[0].1)
    else Lookup(members[1..], key)
  }

  /** `v[key]` for a key that is not an array index, on a value that is not null:
      an object's property, and `undefined` (`None`) for every other value. */
  function Member(v: Json, key: string): Option<Json>
  {
    if v.JObj? then Lookup(v.members, key) else None
  }

  /** `Object.values(v)` on a value that is not null: an object's property values,
      an array's elements, a string's characters, nothing for a number or boolean. */
  function Values(v: Json): (r: seq<Json>)
    requires !v.JNull?
  {
    match v
    case JObj(ms) => seq(|ms|, k requires 0 <= k < |ms| => ms[k].1)
    case JArr(items) => items
    case JStr(s) => seq(|s|, k requires 0 <= k < |s| => JStr([s[k]]))
    case _ => []
  }

  /** `sub && typeof sub === 'object'`: an object or an array. */
  predicate IsObjectLike(v: Json) {
    v.JObj? || v.JArr?
  }

  /** `Object.entries(v)` on an object or array: an array's keys are its indices. */
  function Entries(v: Json): seq<(string, Json)>
    requires IsObjectLike(v)
  {
    match v
    case JObj(ms) => ms
    case JArr(items) => seq(|items|, k requires 0 <= k < |items| => (JsText.NatToString(k), items[k]))
  }
}
