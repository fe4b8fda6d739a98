/**
 * The JavaScript values that reach the sync action: configuration values after flattening,
 * and the result of parsing the `tags` input.
 */
module JsValues {
  import opened Strings

  /**
   * A JavaScript value. Numbers are integers here; object properties keep their
   * enumeration order.
   */
  datatype Value =
    | Undefined
    | Null
    | Bool(b: bool)
    | Number(n: int)
    | Str(s: string)
    | Array(items: seq<Value>)
    | Object(fields: seq<(string, Value)>)

  /** JavaScript truthiness, as `x ? a : b` and `x || y` use it. */
  predicate Truthy(v: Value) {
    match v
    case Undefined => false
    case Null => false
    case Bool(b) => b
    case Number(n) => n != 0
    case Str(s) => s != ""
    case Array(_) => true
    case Object(_) => true
  }

  /** `String(b)` for a boolean. */
  function BoolText(b: bool): string {
    if b then "true" else "false"
  }
}
