/**
 * The dynamically typed values the components receive from JSON content:
 * `typeof`/`Array.isArray` tests, truthiness, `??` and `String(x)`.
 */
module JsValues {
  import opened Decimal

  /** A JSON-like JavaScript value; numbers are integers in this model. */
  datatype JsValue =
    | Undefined
    | Null
    | Bool(b: bool)
    | Num(n: int)
    | Str(s: string)
    | Arr(items: seq<JsValue>)
    | Obj

  predicate IsNullish(v: JsValue) {
    v.Undefined? || v.Null?
  }

  /** `v ?? fallback`. */
  function Coalesce(v: JsValue, fallback: JsValue): (r: JsValue)
    ensures IsNullish(v) ==> r == fallback
    ensures !IsNullish(v) ==> r == v
  {
    if IsNullish(v) then fallback else v
  }

  /** JavaScript truthiness: everything except `undefined`, `null`, `false`, `0` and `""`. */
  predicate Truthy(v: JsValue) {
    match v
    case Undefined => false
    case Null => false
    case Bool(b) => b
    case Num(n) => n != 0
    case Str(s) => s != ""
    case Arr(_) => true
    case Obj => true
  }

  /** `String(v)`; an array prints its elements joined by commas, nullish elements as "". */
  function ToJsString(v: JsValue): string
    decreases v, 1
  {
    match v
    case Undefined => "undefined"
    case Null => "null"
    case Bool(b) => if b then "true" else "false"
    case Num(n) => IntToString(n)
    case Str(s) => s
    case Arr(items) => JoinElements(items)
    case Obj => "[object Object]"
  }

  function JoinElements(items: seq<JsValue>): string
    decreases items, 0
  {
    if items == [] then ""
    else
      var first := if IsNullish(items[0]) then "" else ToJsString(items[0]);
      if |items| == 1 then first else first + "," + JoinElements(items[1..])
  }

  /** The string payload of `v` when `typeof v === "string"`, otherwise `fallback`. */
  function StringOr(v: JsValue, fallback: string): string {
    if v.Str? then v.s else fallback
  }

  /** The integer part of `a / b`, truncated toward zero as `Math.trunc(a / b)` does. */
  function JsQuot(a: int, b: int): int
    requires b != 0
  {
    var m := if b > 0 then b else -b;
    var q := if a >= 0 then a / m else -((-a) / m);
    if b > 0 then q else -q
  }

  /** JavaScript `a % b` on integers: the remainder truncates toward zero and takes the sign of `a`. */
  function JsRem(a: int, b: int): (r: int)
    requires b != 0
    ensures a == JsQuot(a, b) * b + r
    ensures a >= 0 ==> 0 <= r < if b > 0 then b else -b
    ensures a >= 0 && b > 0 ==> r == a % b
    ensures a < 0 ==> -(if b > 0 then b else -b) < r <= 0
  {
    var m := if b > 0 then b else -b;
    var n := if a >= 0 then a else -a;
    var r := if a >= 0 then n % m else -(n % m);
    TruncatedDivision(a, b, n / m, n % m);
    r
  }

  /** The quotient and remainder of the magnitudes give JavaScript's quotient and remainder. */
  lemma TruncatedDivision(a: int, b: int, q: int, s: int)
    requires b != 0
    requires (if a >= 0 then a else -a) == q * (if b > 0 then b else -b) + s
    requires q == (if a >= 0 then a else -a) / (if b > 0 then b else -b)
    ensures a == JsQuot(a, b) * b + (if a >= 0 then s else -s)
  {
    if a >= 0 && b > 0 {
    } else if a >= 0 {
      assert JsQuot(a, b) == -q;
      assert (-q) * b == q * (-b);
    } else if b > 0 {
      assert JsQuot(a, b) == -q;
      assert (-q) * b == -(q * b);
    } else {
      assert JsQuot(a, b) == q;
      assert q * b == -(q * (-b));
    }
  }

}
