/** Decoded JSON values, as PHP's json_decode($text, true) produces them
    and as the cache stores them. Floating-point numbers are not modelled. */
module Json {

  datatype Value =
    | Null
    | Bool(b: bool)
    | Num(n: int)
    | Str(s: string)
    | Arr(items: seq<Value>)
    | Obj(fields: map<string, Value>)

  /** PHP's truth value of a string: "" and "0" are false. */
  predicate TruthyString(s: string) { s != "" && s != "0" }

  /** PHP's truth value of a decoded value (`if ($v)`, `!empty($v)`):
      null, false, 0, "", "0" and the empty array are false. */
  predicate Truthy(v: Value)
  {
    match v
    case Null => false
    case Bool(b) => b
    case Num(n) => n != 0
    case Str(s) => TruthyString(s)
    case Arr(items) => |items| > 0
    case Obj(fields) => |fields| > 0
  }
}
