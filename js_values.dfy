/**
 * The slice of JavaScript's value semantics the pedigree code depends on:
 * truthiness (`x ? a : b`, `x || d`), `Number(s)` on decimal strings and
 * loose equality `==` as used when the node menu compares a control's
 * value with the node's summary.
 */
module JsValues {
  import opened Wrappers

  /** A JavaScript value; objects (dates, arrays, disorders) are known only by identity. */
  datatype Value = Undefined | Null | Str(s: string) | Bool(b: bool) | Num(n: int) | Obj(ref: nat)

  predicate IsDigit(c: char) {
    '0' <= c <= '9'
  }

  predicate AllDigits(s: string) {
    forall i :: 0 <= i < |s| ==> IsDigit(s[i])
  }

  /** The value of a string of decimal digits. */
  function DecimalValue(s: string): (n: nat)
    requires AllDigits(s)
  {
    if s == [] then 0
    else DecimalValue(s[..|s| - 1]) * 10 + (s[|s| - 1] as int - '0' as int)
  }

  /**
   * `Number(s)` for strings of ASCII decimal digits (the empty string is 0).
   * `None` stands for NaN and for every other numeric form (signs, spaces,
   * decimals, exponents, hexadecimal), which this model does not follow.
   */
  function ToNumber(s: string): (r: Option<int>)
    ensures r.Some? <==> AllDigits(s)
    ensures r.Some? ==> r.value >= 0
  {
    if AllDigits(s) then Some(DecimalValue(s)) else None
  }

  /** `!!v`. */
  predicate Truthy(v: Value) {
    match v
    case Undefined => false
    case Null => false
    case Str(s) => s != ""
    case Bool(b) => b
    case Num(n) => n != 0
    case Obj(_) => true
  }

  /** `v || d`. */
  function Or(v: Value, d: Value): (r: Value)
    ensures Truthy(v) ==> r == v
    ensures !Truthy(v) ==> r == d
  {
    if Truthy(v) then v else d
  }

  /** A boolean compared loosely is first turned into 0 or 1. */
  function BoolToNum(v: Value): Value {
    if v.Bool? then Num(if v.b then 1 else 0) else v
  }

  /** `a == b` between two values neither of which is a boolean. */
  predicate LooseEqualsPrimitive(a: Value, b: Value)
    requires !a.Bool? && !b.Bool?
  {
    match (a, b)
    case (Undefined, _) => b.Undefined? || b.Null?
    case (Null, _) => b.Undefined? || b.Null?
    case (Str(x), Str(y)) => x == y
    case (Num(x), Num(y)) => x == y
    case (Num(x), Str(y)) => ToNumber(y) == Some(x)
    case (Str(x), Num(y)) => ToNumber(x) == Some(y)
    case (Obj(x), Obj(y)) => x == y
    // an object against a primitive would be converted with toString/valueOf,
    // which this model does not follow; it never equals here
    case _ => false
  }

  /** JavaScript's `a == b`. */
  predicate LooseEquals(a: Value, b: Value) {
    LooseEqualsPrimitive(BoolToNum(a), BoolToNum(b))
  }

  /** Without NaN in the model, every value is loosely equal to itself. */
  lemma LooseEqualsReflexive(a: Value)
    ensures LooseEquals(a, a)
  {
  }
}
