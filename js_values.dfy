/** The JavaScript values that reach the model through request bodies and
    JSON files, with the truthiness rules the source's `||`, `if (x)` and
    `!x` tests rely on, and the way a value lands in a TEXT column. */
module JsValues {
  import opened Strings

  datatype Option<+T> = None | Some(value: T)

  datatype Result<+T, +E> = Ok(value: T) | Err(error: E)

  /** A JSON or form value. Numbers are integers here. */
  datatype JsValue = Undefined | Null | Bool(b: bool) | Num(n: int) | Str(s: string)

  /** JavaScript truthiness: `undefined`, `null`, `false`, `0` and `""` are falsy. */
  predicate Truthy(v: JsValue)
  {
    match v
    case Undefined => false
    case Null => false
    case Bool(b) => b
    case Num(n) => n != 0
    case Str(s) => s != ""
  }

  /** `a || b`: the first operand when it is truthy, otherwise the second. */
  function Or(a: JsValue, b: JsValue): (r: JsValue)
    ensures Truthy(r) <==> Truthy(a) || Truthy(b)
    ensures Truthy(a) ==> r == a
  {
    if Truthy(a) then a else b
  }

  /** The value a bound parameter leaves in a column with TEXT affinity:
      `undefined` and `null` bind as NULL, booleans bind as 1 or 0, and
      numbers are stored as their decimal text. */
  function ToText(v: JsValue): (r: Option<string>)
    ensures r.None? <==> v.Undefined? || v.Null?
    ensures v.Str? ==> r == Some(v.s)
  {
    match v
    case Undefined => None
    case Null => None
    case Bool(b) => Some(if b then "1" else "0")
    case Num(n) => Some(DecimalString(n))
    case Str(s) => Some(s)
  }

  /** What a nullable TEXT column reads back as in JavaScript. */
  function FromText(c: Option<string>): (v: JsValue)
    ensures ToText(v) == c
  {
    match c
    case None => Null
    case Some(s) => Str(s)
  }

  /** `String(v)`, which template literals apply to what they interpolate. */
  function JsString(v: JsValue): string
  {
    match v
    case Undefined => "undefined"
    case Null => "null"
    case Bool(b) => if b then "true" else "false"
    case Num(n) => DecimalString(n)
    case Str(s) => s
  }

  /** Strict equality (`===`) of a value with a string. */
  predicate IsString(v: JsValue, s: string)
  {
    v == Str(s)
  }
}
