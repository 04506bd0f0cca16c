/** JavaScript values as the handlers of index.js see them: fields of a parsed
    JSON request body, and column values of a database row. */
module JsValues {

  datatype Option<T> = None | Some(value: T)

  /** A JavaScript value. JSON numbers are reals; NaN cannot come out of JSON. */
  datatype JsValue =
    | Undefined
    | Null
    | Bool(b: bool)
    | Num(n: real)
    | Str(s: string)
    | Arr(items: seq<JsValue>)
    | Obj(fields: map<string, JsValue>)

  /** JavaScript truthiness: what `if (v)` tests and `!v` negates. */
  predicate Truthy(v: JsValue) {
    match v
    case Undefined => false
    case Null => false
    case Bool(b) => b
    case Num(n) => n != 0.0
    case Str(s) => s != ""
    case Arr(_) => true
    case Obj(_) => true
  }

  /** `null` and `undefined`: the values on which a property read throws. */
  predicate Nullish(v: JsValue) {
    v.Undefined? || v.Null?
  }

  /** The property read `v.key` for a key that only objects define as their own
      property; None stands for the TypeError thrown when `v` is null or undefined. */
  function Member(v: JsValue, key: string): (r: Option<JsValue>)
    ensures r.None? <==> Nullish(v)
    ensures r.Some? ==> r.value == if v.Obj? && key in v.fields then v.fields[key] else Undefined
  {
    match v
    case Undefined => None
    case Null => None
    case Obj(fields) => Some(if key in fields then fields[key] else Undefined)
    case _ => Some(Undefined)
  }
}
