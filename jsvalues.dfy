/**
 * The fragment of JavaScript's value semantics that the request handlers rely on:
 * numbers with NaN and the infinities, truthiness, `x || d`, `x ?? d` and `x == null`.
 * A JavaScript object is a map from property names to values; reading a property that
 * is not there yields `undefined`.
 */
module JsValues {

  datatype Option<+T> = None | Some(value: T)

  /** An IEEE double as far as the handlers can tell: NaN, an infinity or a finite value. */
  datatype JsNumber = NaN | Finite(r: real) | Infinity(negative: bool)

  /** A JavaScript value. Arrays and objects are always truthy, whatever they hold. */
  datatype Value =
    | Undefined
    | Null
    | Bool(b: bool)
    | Num(n: JsNumber)
    | Str(s: string)
    | Arr(items: seq<Value>)
    | Obj(props: map<string, Value>)

  type Object = map<string, Value>

  /** A column value that may be absent from the row object (`undefined`) or SQL NULL (`null`). */
  datatype Nullable<+T> = Absent | NullValue | Present(value: T)

  /** Property access `o.k`. */
  function Get(o: Object, k: string): (v: Value)
    ensures k !in o ==> v == Undefined
    ensures k in o ==> v == o[k]
  {
    if k in o then o[k] else Undefined
  }

  /** The number falsy values are NaN, 0 and -0 (both are `Finite(0.0)` here). */
  predicate NumberTruthy(n: JsNumber)
    ensures !NumberTruthy(n) <==> n == NaN || n == Finite(0.0)
  {
    match n
    case NaN => false
    case Finite(r) => r != 0.0
    case Infinity(_) => true
  }

  /** ToBoolean. */
  predicate Truthy(v: Value)
    ensures v.Arr? || v.Obj? ==> Truthy(v)
    ensures v.Str? ==> (Truthy(v) <==> v.s != "")
    ensures v.Num? ==> (Truthy(v) <==> v.n != NaN && v.n != Finite(0.0))
  {
    match v
    case Undefined => false
    case Null => false
    case Bool(b) => b
    case Num(n) => NumberTruthy(n)
    case Str(s) => s != ""
    case Arr(_) => true
    case Obj(_) => true
  }

  /** `type === 'missing'`: the report is about a missing person. */
  predicate IsMissingPerson(reportType: Value)
    ensures IsMissingPerson(reportType) ==> Truthy(reportType) && !IsNullish(reportType)
  {
    reportType == Str("missing")
  }

  /** `v == null` with loose equality: true exactly for `undefined` and `null`. */
  predicate IsNullish(v: Value)
    ensures IsNullish(v) ==> !Truthy(v)
    ensures IsNullish(v) <==> v.Undefined? || v.Null?
  {
    v == Undefined || v == Null
  }

  /** `v || d`: `v` when it is truthy, otherwise `d`. */
  function Or(v: Value, d: Value): (r: Value)
    ensures Truthy(v) ==> r == v
    ensures !Truthy(v) ==> r == d
  {
    if Truthy(v) then v else d
  }

  /** `v || null`, the idiom that collapses every falsy value to `null`. */
  function OrNull(v: Value): (r: Value)
    ensures r == Null || (r == v && Truthy(v))
    ensures r == Null <==> !Truthy(v)
  {
    Or(v, Null)
  }

  /** `n || null` on a number. */
  function NumberOrNull(n: JsNumber): (r: Value)
    ensures r == Null <==> !NumberTruthy(n)
    ensures r != Null ==> r == Num(n)
  {
    if NumberTruthy(n) then Num(n) else Null
  }

  /** `c ?? null` on a column value: `undefined` and `null` become `null`, numbers stay. */
  function CoalesceNull<T>(c: Nullable<T>): (r: Nullable<T>)
    ensures r != Absent
    ensures r == NullValue <==> !c.Present?
    ensures c.Present? ==> r == c
  {
    match c
    case Present(_) => c
    case _ => NullValue
  }

  /**
   * `c <= bound` for a column value and a finite numeric bound, as JavaScript's
   * relational comparison does it: `undefined` converts to NaN (false), `null` to 0.
   */
  predicate AtMost(c: Nullable<JsNumber>, bound: real)
    ensures AtMost(c, bound) ==> c != Absent
    ensures c == NullValue ==> (AtMost(c, bound) <==> 0.0 <= bound)
    ensures AtMost(c, bound) && c.Present? ==> c.value == Infinity(true) || (c.value.Finite? && c.value.r <= bound)
  {
    match c
    case Absent => false
    case NullValue => 0.0 <= bound
    case Present(n) =>
      match n
      case NaN => false
      case Finite(r) => r <= bound
      case Infinity(negative) => negative
  }
}
