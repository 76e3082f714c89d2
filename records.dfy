/** The record that travels from the log collector to the browser. */
module Records {

  /**
   * A parsed JSON value: `serde_json::Value` on the server, the result of
   * `response.json()` in the browser. An object keeps its members as the
   * list of entries `Object.entries` yields. Nothing in the type rules out a
   * repeated key; `DistinctKeys` says when there is none.
   */
  datatype Json =
    | JNull
    | JBool(b: bool)
    | JNumber(n: real)
    | JString(s: string)
    | JArray(items: seq<Json>)
    | JObject(fields: seq<(string, Json)>)

  /**
   * No key occurs twice among the entries. This holds for every object the
   * browser receives: the collector serialises `serde_json::Value`, whose
   * objects are maps.
   */
  ghost predicate DistinctKeys(fields: seq<(string, Json)>) {
    forall i, j :: 0 <= i < j < |fields| ==> fields[i].0 != fields[j].0
  }

  /** One log record: `Log` in server/src/docker.rs and in src/App.tsx. */
  datatype Log = Log(date: string, executionArn: string, message: Json)
}
