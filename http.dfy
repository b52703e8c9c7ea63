/** The JSON replies of the HTTP layer and PHP's truthiness of a request header. */
module Http {
  import opened Wrappers

  datatype Json =
    | JNull
    | JString(s: string)
    | JInt(n: int)
    /** A PHP float, which json_encode writes as a number: exactly units / 10^scale. */
    | JFloat(units: int, scale: nat)
    | JObject(fields: seq<(string, Json)>)
    | JArray(items: seq<Json>)

  /** response()->json(body, status). */
  datatype Response = Response(status: int, body: Json)

  /** response()->json(['error' => message], status). */
  function ErrorReply(status: int, message: string): Response {
    Response(status, JObject([("error", JString(message))]))
  }

  /** `!$value` for $request->header(...), which is null or a string: null, "" and "0" are falsy. */
  predicate Falsy(header: Option<string>) {
    header.None? || header.value == "" || header.value == "0"
  }
}
