/**
 * The already-parsed JSON values the client handles, with the Python
 * operations it applies to them: truthiness, `dict.get`, `a or b` and `str()`.
 * Python's `None` and JSON `null` are the same value, `JNull`.
 */
module Json {
  import opened Text

  datatype Json =
    | JNull
    | JBool(b: bool)
    | JInt(n: int)
    | JStr(s: string)
    | JArr(items: seq<Json>)
    | JObj(fields: map<string, Json>)

  /** A JSON object, Python's `Dict[str, Any]`. */
  type Object = map<string, Json>

  /** Python's `bool(j)`: null, false, 0, "", [] and {} are false. */
  predicate Truthy(j: Json) {
    match j
    case JNull => false
    case JBool(b) => b
    case JInt(n) => n != 0
    case JStr(s) => s != ""
    case JArr(items) => items != []
    case JObj(fields) => fields != map[]
  }

  /** `o.get(key)`: the value under `key`, or None when the key is missing. */
  function Get(o: Object, key: string): Json {
    if key in o then o[key] else JNull
  }

  /** Python's `a or b`: `a` when it is truthy, otherwise `b`. */
  function Or(a: Json, b: Json): Json {
    if Truthy(a) then a else b
  }

  /**
   * `str(j)` for the scalar values; a list or an object is rendered as a
   * placeholder (its Python repr is not modelled).
   */
  function PyStr(j: Json): string {
    match j
    case JNull => "None"
    case JBool(b) => if b then "True" else "False"
    case JInt(n) => IntToString(n)
    case JStr(s) => s
    case JArr(_) => "[...]"
    case JObj(_) => "{...}"
  }

  /** `str(j)` is empty only for the empty string. */
  lemma PyStrEmpty(j: Json)
    ensures PyStr(j) == "" <==> j == JStr("")
  {
    if j.JInt? {
      var n := j.n;
      if n < 0 {
        assert IntToString(n)[0] == '-';
      } else {
        assert NatToString(n) != [];
      }
    }
  }
}
