/** JSON documents as `json.loads` returns them: `dict`, `list`, `str`, `int`,
    `float`, `bool` and `None`. */
module JsonValues {
  import opened Wrappers

  datatype Json =
    | JNull
    | JBool(b: bool)
    | JInt(i: int)
    | JFloat(text: string)
    | JStr(s: string)
    | JArray(items: seq<Json>)
    | JObject(fields: map<string, Json>)

  /** The value of `v` when `isinstance(v, int)` holds. In Python `bool` is a
      subclass of `int`, so `True` is the integer 1 and `False` is 0. */
  function AsPythonInt(v: Json): Option<int>
  {
    match v
    case JInt(i) => Some(i)
    case JBool(b) => Some(if b then 1 else 0)
    case _ => None
  }
}
