/** Parsed JSON values as the page code receives them from `response.json()`
    and from the profile store, with the two JavaScript conversions the code
    applies to them: truthiness (`!value`) and `String(value)`. */
module JsValues {

  datatype Option<+T> = None | Some(value: T)

  /** A JSON value. Numbers are integers here (see README). */
  datatype Value =
    | Null
    | Bool(b: bool)
    | Num(n: int)
    | Str(s: string)
    | Arr(items: seq<Value>)
    | Obj(fields: map<string, Value>)

  /** JavaScript truthiness: `null`, `false`, `0` and `""` are falsy. */
  predicate Truthy(v: Value) {
    match v
    case Null => false
    case Bool(b) => b
    case Num(n) => n != 0
    case Str(s) => s != []
    case Arr(_) => true
    case Obj(_) => true
  }

  /** `obj.key`: the field's value, or `undefined` (treated as `Null`, which
      every caller handles the same way) when there is no such field or the
      value is not an object. */
  function Get(v: Value, key: string): Value {
    if v.Obj? && key in v.fields then v.fields[key] else Null
  }

  function DigitChar(d: nat): char
    requires d < 10
  {
    "0123456789"[d]
  }

  function NatToDecimal(n: nat): (r: string)
    ensures |r| >= 1
    decreases n
  {
    if n < 10 then [DigitChar(n)] else NatToDecimal(n / 10) + [DigitChar(n % 10)]
  }

  function JoinComma(pieces: seq<string>): string {
    if |pieces| == 0 then []
    else if |pieces| == 1 then pieces[0]
    else pieces[0] + "," + JoinComma(pieces[1..])
  }

  /** `String(v)`. An array becomes its elements' strings joined with
      commas, `null` elements as empty strings; an object becomes
      `"[object Object]"`. This is the result whenever the conversion does
      not throw (see `StringThrows`). */
  function JsString(v: Value): string
    decreases v
  {
    match v
    case Null => "null"
    case Bool(b) => if b then "true" else "false"
    case Num(n) => if n < 0 then "-" + NatToDecimal(-n) else NatToDecimal(n)
    case Str(s) => s
    case Arr(items) =>
      JoinComma(seq(|items|, i requires 0 <= i < |items| =>
        if items[i].Null? then [] else JsString(items[i])))
    case Obj(_) => "[object Object]"
  }

  /** `String(v)` throws a `TypeError`. An object parsed from JSON with its
      own `toString` field hides the inherited method behind a value that is
      not a function; the conversion then falls back to `valueOf`, which
      returns the object itself, not a primitive. An array throws when one
      of its non-`null` elements does, since `join` converts each element. */
  predicate StringThrows(v: Value)
    decreases v
  {
    match v
    case Obj(fields) => "toString" in fields
    case Arr(items) => exists i :: 0 <= i < |items| && StringThrows(items[i])
    case _ => false
  }
}
