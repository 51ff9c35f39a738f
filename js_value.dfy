/**
 * The JavaScript values that flow through the element objects: `undefined`,
 * `null`, strings, integral numbers and arrays of them. Objects other than
 * arrays, booleans and fractional numbers do not occur in the modelled
 * fields.
 */
module JsValue {
  import opened Text

  datatype Value = Undefined | Null | Str(s: string) | Num(n: int) | List(items: seq<Value>)

  /** JavaScript truthiness: `undefined`, `null`, `""` and `0` are falsy, arrays are truthy. */
  predicate Truthy(v: Value) {
    match v
    case Undefined => false
    case Null => false
    case Str(s) => s != ""
    case Num(n) => n != 0
    case List(_) => true
  }

  /** `a || b`. */
  function Or(a: Value, b: Value): (r: Value)
    ensures Truthy(a) ==> r == a
    ensures !Truthy(a) ==> r == b
  {
    if Truthy(a) then a else b
  }

  /**
   * `String(v)`. An array is joined with commas, its `undefined` and `null`
   * items rendered empty.
   */
  function ToStr(v: Value): (r: string)
    decreases v, 1
  {
    match v
    case Undefined => "undefined"
    case Null => "null"
    case Str(s) => s
    case Num(n) => IntString(n)
    case List(items) => Join(items)
  }

  function Join(items: seq<Value>): (r: string)
    decreases items, 0
  {
    if items == [] then ""
    else
      var last := items[|items| - 1];
      var init := Join(items[..|items| - 1]);
      var piece := if last.Undefined? || last.Null? then "" else ToStr(last);
      if |items| == 1 then piece else init + "," + piece
  }

  /** Strict equality `a === b` for the values compared by the model (never arrays). */
  predicate StrictEq(a: Value, b: Value) {
    a == b && !a.List?
  }
}
