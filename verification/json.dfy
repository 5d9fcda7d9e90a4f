/**
 Parsed JSON values, the JavaScript truthiness tests and member accesses the
 route handlers apply to them, and the response envelope they return.
 */
module Json {
  import opened Wrappers

  datatype Json =
    | JNull
    | JBool(b: bool)
    | JNum(n: real)
    | JStr(s: string)
    | JArr(elems: seq<Json>)
    | JObj(fields: seq<(string, Json)>)

  /** JavaScript truthiness of a JSON value (`!v` is its negation); JSON has no NaN. */
  predicate Truthy(j: Json) {
    match j
    case JNull => false
    case JBool(b) => b
    case JNum(n) => n != 0.0
    case JStr(s) => s != ""
    case _ => true
  }

  /** Truthiness of a value that may be `undefined` (None). */
  predicate TruthyOpt(o: Option<Json>) {
    o.Some? && Truthy(o.value)
  }

  /** The member named `key`; when a key repeats, `JSON.parse` keeps the last one. */
  function Lookup(fields: seq<(string, Json)>, key: string): (r: Option<Json>)
    ensures r.None? <==> forall i :: 0 <= i < |fields| ==> fields[i].0 != key
    ensures r.Some? ==> exists i :: 0 <= i < |fields| && fields[i] == (key, r.value)
                                    && forall k :: i < k < |fields| ==> fields[k].0 != key
    decreases |fields|
  {
    if |fields| == 0 then None
    else if fields[|fields| - 1].0 == key then Some(fields[|fields| - 1].1)
    else Lookup(fields[..|fields| - 1], key)
  }

  /**
   Optional chaining `v?.key`: `undefined` when `v` is null or undefined or is
   not an object (for the field names used here, which no prototype defines).
   */
  function Chain(v: Option<Json>, key: string): Option<Json> {
    if v.Some? && v.value.JObj? then Lookup(v.value.fields, key) else None
  }

  /** The outcome of a plain member access `v.key` in JavaScript. */
  datatype Access = Value(v: Json) | Undefined | TypeError

  /** `v.key`: reading a member of `null` throws, any other non-object yields `undefined`. */
  function Member(v: Json, key: string): (r: Access)
    ensures r.TypeError? <==> v.JNull?
    ensures r.Value? ==> v.JObj? && Lookup(v.fields, key) == Some(r.v)
  {
    match v
    case JNull => TypeError
    case JObj(fields) =>
      (match Lookup(fields, key) case Some(x) => Value(x) case None => Undefined)
    case _ => Undefined
  }

  /** `NextResponse.json(body, { status })`. */
  datatype Reply = Reply(status: int, body: Json)

  /** The `{ error: message }` body every handler uses for failures. */
  function ErrorBody(message: string): Json {
    JObj([("error", JStr(message))])
  }

  function ErrorReply(status: int, message: string): (r: Reply)
    ensures r.status == status && r.body.JObj?
    ensures Lookup(r.body.fields, "error") == Some(JStr(message))
  {
    Reply(status, ErrorBody(message))
  }

  /**
   The message of `new Error(value || fallback)`: a truthy string value as it
   is, another truthy value through `str` (JavaScript's `String()`), else the
   fallback.
   */
  function ErrorMessage(value: Option<Json>, fallback: string, str: Json -> string): (m: string)
    ensures !TruthyOpt(value) ==> m == fallback
    ensures value.Some? && value.value.JStr? && value.value.s != "" ==> m == value.value.s
  {
    if TruthyOpt(value) then (if value.value.JStr? then value.value.s else str(value.value)) else fallback
  }
}
