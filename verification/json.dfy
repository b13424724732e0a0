/** The JSON values the remote unit answers with, as the parser hands them
    over. Parsing itself is not part of this model: a reply arrives either
    as a parsed value or as nothing (transport error or unparsable text). */
module Json {

  datatype Json =
    | JNull
    | JBool(b: bool)
    | JInteger(i: int)
    | JReal(r: real)
    | JString(s: string)
    | JArray(items: seq<Json>)
    | JObject(fields: map<string, Json>)

  /** The string stored under a key of an object, if there is one. */
  predicate HasString(fields: map<string, Json>, key: string)
  {
    key in fields && fields[key].JString?
  }
}
