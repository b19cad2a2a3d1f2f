/** Decoded JSON values as Python's json module produces them, and the
    scalar values an ArcGIS feature carries in its attributes. */
module Json {
  import opened Wrappers

  /** A JSON document. Objects are Python dicts: a key lookup is all the
      modelled code does with them, so a map suffices. */
  datatype Json =
    | JNull
    | JBool(b: bool)
    | JInt(i: int)
    | JFloat(f: real)
    | JStr(s: string)
    | JArr(items: seq<Json>)
    | JObj(fields: map<string, Json>)

  /** Python truthiness of a decoded JSON value. */
  predicate Truthy(j: Json)
  {
    match j
    case JNull => false
    case JBool(b) => b
    case JInt(i) => i != 0
    case JFloat(f) => f != 0.0
    case JStr(s) => s != ""
    case JArr(items) => items != []
    case JObj(fields) => fields != map[]
  }

  /** `d.get(key, default)` on a value that must be a dict. */
  function Get(d: Json, key: string, default: Json): (r: Result<Json>)
    ensures r.Ok? <==> d.JObj?
    ensures d.JObj? && key in d.fields ==> r == Ok(d.fields[key])
    ensures d.JObj? && key !in d.fields ==> r == Ok(default)
  {
    match d
    case JObj(fields) => Ok(if key in fields then fields[key] else default)
    case _ => Err(AttributeError)
  }

  /** `fields.get(key, default)` on the fields of a dict. */
  function FieldOr(fields: map<string, Json>, key: string, default: Json): Json
  {
    if key in fields then fields[key] else default
  }

  /** `d[key]` on a value that must be a dict. */
  function Index(d: Json, key: string): (r: Result<Json>)
    ensures r.Ok? <==> d.JObj? && key in d.fields
    ensures r.Ok? ==> r.value == d.fields[key]
  {
    match d
    case JObj(fields) => if key in fields then Ok(fields[key]) else Err(KeyError(key))
    case _ => Err(TypeError)
  }

  /** An attribute value of an ArcGIS feature: always a scalar. */
  datatype Scalar =
    | Null
    | Bool(b: bool)
    | Int(i: int)
    | Float(f: real)
    | Str(s: string)

  /** Python truthiness of an attribute value. */
  predicate ScalarTruthy(v: Scalar)
  {
    match v
    case Null => false
    case Bool(b) => b
    case Int(i) => i != 0
    case Float(f) => f != 0.0
    case Str(s) => s != ""
  }
}
