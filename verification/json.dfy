/** Jackson's JsonNode tree as an immutable value, with the lookups the
    backend performs on catalog responses. */
module Json {
  import opened Wrappers

  /** A parsed JSON document. Objects keep their members by name. */
  datatype Json =
    | JNull
    | JBool(b: bool)
    | JNum(n: real)
    | JStr(s: string)
    | JArr(items: seq<Json>)
    | JObj(fields: map<string, Json>)

  /** Jackson's coercions (asText, asInt, asDouble, toString), left
      uninterpreted: the model only ever applies them, never inspects them. */
  datatype Coercions = Coercions(
    asText: Json -> string,
    asInt: Json -> int,
    asDouble: Json -> real,
    serialize: Json -> string)

  /** JsonNode.get(key): the member, or Java null when the key is absent or
      the node is not an object. */
  function Member(node: Json, key: string): Option<Json> {
    if node.JObj? && key in node.fields then Some(node.fields[key]) else None
  }

  /** JsonNode.has(key): true also when the member is JSON null. */
  predicate Has(node: Json, key: string) {
    Member(node, key).Some?
  }

  /** The member when it is present and not JSON null, the test written
      `node.has(key) && !node.get(key).isNull()` in Jackson terms. */
  function NonNull(node: Json, key: string): (r: Option<Json>)
    ensures r.Some? <==> Has(node, key) && Member(node, key).value != JNull
    ensures r.Some? ==> Member(node, key) == r
  {
    match Member(node, key)
    case Some(v) => if v.JNull? then None else Some(v)
    case None => None
  }
}
