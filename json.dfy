/** The JSON values that reach the log tailer, either as the historical
    response of the deployment-events endpoint or as the result of
    `JSON.parse` on a streamed record. Numbers are integers (timestamps in
    epoch milliseconds). */
module Json {
  import opened Wrappers

  datatype Json =
    | JNull
    | JBool(b: bool)
    | JNum(n: int)
    | JStr(s: string)
    | JArray(elems: seq<Json>)
    | JObject(fields: map<string, Json>)
  {
    /** `Boolean(v) && typeof v === 'object'`: true of objects and of arrays,
        false of `null` and of every primitive. */
    predicate IsObjectLike() {
      JArray? || JObject?
    }

    /** `v.key` on a value that is not `null`: the field of an object, and
        `undefined` for the own-property-free names read here (`created`,
        `payload`, `version`) on arrays and primitives. */
    function Get(key: string): (r: Option<Json>)
      ensures r.Some? ==> JObject? && key in fields && r.value == fields[key]
      ensures JObject? && key in fields ==> r.Some?
    {
      if JObject? && key in fields then Some(fields[key]) else None
    }

    /** `v.key` when `v.key` is a number (`typeof v.key === 'number'`). */
    function GetNumber(key: string): (r: Option<int>)
      ensures r.Some? <==> Get(key).Some? && Get(key).value.JNum?
      ensures r.Some? ==> Get(key).value == JNum(r.value)
    {
      match Get(key)
      case Some(JNum(n)) => Some(n)
      case _ => None
    }
  }
}
