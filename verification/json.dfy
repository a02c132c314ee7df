/** Parsed JSON values as Python's `json.load` returns them (objects are
    insertion-ordered dictionaries), with the Python built-ins `len` and
    `str` the modelled code applies to them. Numbers are integers only. */
module Json {
  import opened Wrappers
  import Strings
  import Dict

  datatype Json =
    | JNull
    | JBool(b: bool)
    | JInt(n: int)
    | JStr(s: string)
    | JArr(items: seq<Json>)
    | JObj(fields: seq<(string, Json)>)

  /** `len(j)`; `None` where Python raises `TypeError`. */
  function Len(j: Json): Option<nat> {
    match j
    case JStr(s) => Some(|s|)
    case JArr(items) => Some(|items|)
    case JObj(fields) => Some(|fields|)
    case _ => None
  }

  /** `j.get(key, default)` on an object; `None` when `j` is not an object
      (Python raises `AttributeError`). */
  function GetOr(j: Json, key: string, default: Json): Option<Json> {
    match j
    case JObj(fields) => Some(Dict.Get(fields, key).GetOr(default))
    case _ => None
  }

  /** `str(j)` */
  function Str(j: Json): string {
    match j
    case JStr(s) => s
    case _ => Repr(j)
  }

  /** `repr(j)`; strings are quoted without escaping. */
  function Repr(j: Json): string {
    match j
    case JNull => "None"
    case JBool(b) => if b then "True" else "False"
    case JInt(n) => Strings.IntToString(n)
    case JStr(s) => "'" + s + "'"
    case JArr(items) =>
      "[" + Strings.Join(", ", seq(|items|, i requires 0 <= i < |items| => Repr(items[i]))) + "]"
    case JObj(fields) =>
      "{" + Strings.Join(", ", seq(|fields|, i requires 0 <= i < |fields| =>
        "'" + fields[i].0 + "': " + Repr(fields[i].1))) + "}"
  }
}
