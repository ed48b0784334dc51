/** JavaScript values read out of JSON, the exceptions reading them throws, and
    indexed member access `v[k]`. */
module JsValues {
  import opened Wrappers
  import opened JsText
  import opened Primitives

  /** A JSON value or `undefined` (`None`). */
  type JsValue = Option<Json>

  /** The exceptions of the adapter and the tests. `FormatMismatch` is raised
      only by the strict calldata parser. */
  datatype JsError = SyntaxError | TypeError | FormatMismatch

  /** The value of the last member named `key`, as `JSON.parse` keeps it. */
  function Lookup(members: seq<(string, Json)>, key: string): (r: JsValue)
    ensures r.Some? <==> exists m :: 0 <= m < |members| && members[m].0 == key
    ensures r.Some? ==> exists m ::
      && 0 <= m < |members| && members[m] == (key, r.value)
      && forall n :: m < n < |members| ==> members[n].0 != key
  {
    if members == [] then None
    else if members[|members| - 1].0 == key then Some(members[|members| - 1].1)
    else Lookup(members[..|members| - 1], key)
  }

  /**
   * `v[k]`: reading from `undefined` or `null` throws a TypeError; an array
   * or a string yields its element, or `undefined` past its end; an object
   * yields the member named by the decimal index; numbers and booleans have no
   * such property.
   */
  function Member(v: JsValue, k: nat): (r: Result<JsValue, JsError>)
    ensures r.Failure? <==> v == None || v == Some(JNull)
    ensures r.Failure? ==> r.error == TypeError
    ensures v.Some? && v.value.JArr? ==>
      r == Success(if k < |v.value.items| then Some(v.value.items[k]) else None)
  {
    match v
    case None => Failure(TypeError)
    case Some(JNull) => Failure(TypeError)
    case Some(JArr(items)) => Success(if k < |items| then Some(items[k]) else None)
    case Some(JStr(s)) => Success(if k < |s| then Some(JStr([s[k]])) else None)
    case Some(JObj(members)) => Success(Lookup(members, DecimalString(k)))
    case Some(_) => Success(None)
  }
}
