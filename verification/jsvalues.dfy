/** JavaScript values as the colour library receives them, and the language rules it
    applies to them: truthiness (for `x || y`), the library's own `isNull` test, and what
    `parseInt` and `parseFloat` make of a value of each kind. */
module JsValues {
  import opened Results
  import opened JsText

  /** A JavaScript value. Objects are plain property maps; arrays, functions and objects
      with their own valueOf or toString are not modelled. */
  datatype Value =
    | Undefined
    | Null
    | Bool(b: bool)
    | Num(n: Number)
    | Str(text: string)
    | Obj(props: map<string, Value>)

  /** The JavaScript number holding integer `i`. */
  function IntValue(i: int): Value {
    Num(Finite(i as real))
  }

  /** Reading property `key` of an object: undefined when it has no such property. */
  function Get(props: map<string, Value>, key: string): Value {
    if key in props then props[key] else Undefined
  }

  /** JavaScript truthiness: undefined, null, false, 0, NaN and "" are falsy. */
  predicate Truthy(v: Value) {
    match v
    case Undefined => false
    case Null => false
    case Bool(b) => b
    case Num(n) => !(n.NaN? || (n.Finite? && n.value == 0.0))
    case Str(t) => |t| > 0
    case Obj(_) => true
  }

  /** `x || y`: `x` when it is truthy, `y` otherwise. */
  function Or(x: Value, y: Value): Value {
    if Truthy(x) then x else y
  }

  /** The abstract operation ToNumber, as isNaN and isFinite apply it. A plain object
      converts through its text "[object Object]", which is NaN. */
  function ToNumber(v: Value): Number {
    match v
    case Undefined => NaN
    case Null => Finite(0.0)
    case Bool(b) => Finite(if b then 1.0 else 0.0)
    case Num(n) => n
    case Str(t) => TextToNumber(t)
    case Obj(_) => NaN
  }

  /** The library's `isNull(v)`: `v == undefined || isNaN(v) || !isFinite(v)`. The loose
      equality holds for undefined and null; the other two hold when ToNumber is not finite. */
  predicate IsNull(v: Value) {
    v.Undefined? || v.Null? || !ToNumber(v).Finite?
  }

  /** Truncation toward zero, which is what parseInt does to the decimal text of a number. */
  function Trunc(x: real): (i: int)
    ensures x >= 0.0 ==> i as real <= x < i as real + 1.0
    ensures x < 0.0 ==> i as real - 1.0 < x <= i as real
  {
    if x >= 0.0 then x.Floor else -((-x).Floor)
  }

  /** `parseInt(v)` with the radix omitted; None stands for NaN. The value is first turned
      into text: the texts of undefined, null, booleans, NaN, the infinities and plain objects
      start with no digit, and the text of a finite number reads back as its truncation. */
  function ParseIntOf(v: Value): Option<int> {
    match v
    case Num(Finite(x)) => Some(Trunc(x))
    case Str(t) => ParseIntText(t, Omitted)
    case _ => None
  }

  /** `parseFloat(v)`: a number reads back as itself; the texts of undefined, null,
      booleans and plain objects are not decimal literals. */
  function ParseFloatOf(v: Value): Number {
    match v
    case Num(n) => n
    case Str(t) => ParseFloatText(t)
    case _ => NaN
  }

  /** What isNull concludes about the kinds of value it meets: a number is null exactly
      when it is not finite, and undefined, null and objects always are. */
  lemma IsNullCases(v: Value)
    ensures v.Num? ==> (IsNull(v) <==> !v.n.Finite?)
    ensures v.Undefined? || v.Null? || v.Obj? ==> IsNull(v)
    ensures v.Bool? ==> !IsNull(v)
  {
  }

  /** parseInt of an integer-valued number is that integer. */
  lemma ParseIntOfInteger(i: int)
    ensures ParseIntOf(IntValue(i)) == Some(i)
  {
  }
}
