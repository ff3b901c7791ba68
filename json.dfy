/**
 * The dynamically typed values the tool passes around: decoded JSON and the
 * Python objects built from it. Floats and booleans are not part of this model.
 */
module Json {

  datatype Value =
    | VNull
    | VInt(n: int)
    | VStr(s: string)
    | VList(elems: seq<Value>)
    | VDict(fields: map<string, Value>)

  /** A JSON object / Python dict with string keys, such as one listing. */
  type Record = map<string, Value>

  /** The exceptions the modelled code raises. */
  datatype PyError =
    | ValueError(message: string)
    | TypeError(message: string)
    | KeyError(key: string)

  /** `key in r and r[key] == v`: the lookup `r.get(key) == v` for a value `v` other than None. */
  predicate HasEntry(r: Record, key: string, v: Value) {
    key in r && r[key] == v
  }
}
