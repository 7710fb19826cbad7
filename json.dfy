/** Option, the absence-or-value type used throughout the model. */
module Wrappers {
  datatype Option<+T> = None | Some(value: T)
}

/**
 * The JSON values produced by the parser the extractor consults
 * (a `serde_json::Value`), and the key lookup it performs on them.
 * Parsing and serialisation themselves are not modelled: the extractor
 * receives them as function parameters.
 */
module Json {
  import opened Wrappers

  /** A JSON value. Numbers are kept as integers; an object maps its keys to values. */
  datatype Json =
    | Null
    | Bool(b: bool)
    | Number(n: int)
    | Str(s: string)
    | Array(items: seq<Json>)
    | Object(fields: map<string, Json>)

  /** `value.get(key)` of `serde_json`: the field of an object, and nothing for any other value. */
  function Get(j: Json, key: string): (r: Option<Json>)
    ensures r.Some? ==> j.Object? && key in j.fields && r.value == j.fields[key]
    ensures r.None? ==> !j.Object? || key !in j.fields
  {
    match j
    case Object(fields) => if key in fields then Some(fields[key]) else None
    case _ => None
  }

  /** `value.get(key).is_some()`. */
  predicate HasKey(j: Json, key: string) {
    Get(j, key).Some?
  }

  /** The marker the extractor looks for: a top-level `function_call` or `name` key. */
  predicate IsFunctionCall(j: Json) {
    HasKey(j, "function_call") || HasKey(j, "name")
  }

  /** Only an object can carry the marker; arrays, strings, numbers and the rest never do. */
  lemma FunctionCallIsObject(j: Json)
    ensures IsFunctionCall(j) ==> j.Object?
    ensures IsFunctionCall(j) <==> j.Object? && ("function_call" in j.fields || "name" in j.fields)
  {
  }
}
