/**
  JavaScript values as they arrive in a parsed JSON request body, with the
  truthiness rule that `!x` and `x || y` apply to them.
*/
module JsValues {
  import opened Wrappers

  /** A JSON-shaped JavaScript value. Numbers are exact reals; `NaN` is kept apart. */
  datatype JsValue =
    | Undefined
    | Null
    | Bool(b: bool)
    | Num(x: real)
    | NaN
    | Str(s: string)
    | Arr(items: seq<JsValue>)
    | Obj(fields: map<string, JsValue>)

  /** The values for which `!v` is true: undefined, null, false, 0 (either sign), NaN and "". */
  predicate Falsy(v: JsValue)
  {
    match v
    case Undefined => true
    case Null => true
    case Bool(b) => !b
    case Num(x) => x == 0.0
    case NaN => true
    case Str(s) => s == ""
    case Arr(_) => false
    case Obj(_) => false
  }

  /**
    `err.response?.data?.message || fallback`: the server's message when it is a
    non-empty string, the fallback text otherwise.
  */
  function MessageOr(message: Option<string>, fallback: string): (r: string)
    ensures message.Some? && message.value != "" ==> r == message.value
    ensures message.None? || message.value == "" ==> r == fallback
  {
    if message.Some? && !Falsy(Str(message.value)) then message.value else fallback
  }
}
