/**
 The slice of PHP's value semantics that the "Delete users" action relies on:
 the values a request parameter declared as "mixed" can hold, PHP's conversion
 of a value to boolean, and `isset($a[0])` on an array.
 */
module PhpValues {

  /** A PHP value as it can arrive in an action parameter. Arrays are lists:
      their keys are 0, 1, ... in order. */
  datatype Value =
    | Null
    | Bool(b: bool)
    | Int(i: int)
    | Str(s: string)
    | Arr(items: seq<Value>)

  /** PHP's conversion to boolean, as used by `if ($v)`: null, false, 0, "",
      "0" and the empty array are false, every other value is true. */
  predicate Truthy(v: Value)
    ensures !Truthy(v) <==> v in [Null, Bool(false), Int(0), Str(""), Str("0"), Arr([])]
  {
    match v
    case Null => false
    case Bool(b) => b
    case Int(i) => i != 0
    case Str(s) => s != "" && s != "0"
    case Arr(items) => items != []
  }

  /** `is_array($v) && isset($v[0])`: an array whose index 0 exists and does
      not hold null. */
  predicate HasFirst(v: Value)
    ensures HasFirst(v) ==> Truthy(v)
  {
    v.Arr? && |v.items| > 0 && v.items[0] != Null
  }
}
