/** The fragment of JavaScript value semantics the screener relies on:
    truthiness (for `||`), `typeof v === 'number'`, nullishness (for `??`),
    and subtraction on numbers extended with the infinities and NaN. */
module JsValues {

  datatype Option<T> = None | Some(value: T)

  /** A JavaScript value as it can arrive in an event field.  Finite numbers
      are exact reals; `Other` stands for any object, array or function. */
  datatype JsValue =
    | Undefined
    | Null
    | Bool(b: bool)
    | Num(n: real)
    | NaN
    | Str(s: string)
    | Other

  /** ToBoolean: false, 0, -0, NaN, "", null and undefined are falsy. */
  predicate Truthy(v: JsValue)
  {
    match v
    case Undefined => false
    case Null => false
    case Bool(b) => b
    case Num(n) => n != 0.0
    case NaN => false
    case Str(s) => s != ""
    case Other => true
  }

  /** `a || b`: the left operand when it is truthy, otherwise the right one. */
  function Or(a: JsValue, b: JsValue): (r: JsValue)
    ensures Truthy(a) ==> r == a
    ensures !Truthy(a) ==> r == b
    ensures Truthy(b) ==> Truthy(r)
  {
    if Truthy(a) then a else b
  }

  /** `typeof v === 'number'` (NaN included). */
  predicate IsNumber(v: JsValue)
  {
    v.Num? || v.NaN?
  }

  /** The operand `??` replaces. */
  predicate Nullish(v: JsValue)
  {
    v.Undefined? || v.Null?
  }

  /** A number once infinities are allowed, as in `-Infinity` and the
      results of a subtraction. */
  datatype ExtNumber = Finite(r: real) | PosInfinity | NegInfinity | NotANumber

  /** IEEE subtraction `a - b` on exact finite values. */
  function Minus(a: ExtNumber, b: ExtNumber): ExtNumber
  {
    match (a, b)
    case (NotANumber, _) => NotANumber
    case (_, NotANumber) => NotANumber
    case (PosInfinity, PosInfinity) => NotANumber
    case (NegInfinity, NegInfinity) => NotANumber
    case (PosInfinity, _) => PosInfinity
    case (NegInfinity, _) => NegInfinity
    case (Finite(_), PosInfinity) => NegInfinity
    case (Finite(_), NegInfinity) => PosInfinity
    case (Finite(x), Finite(y)) => Finite(x - y)
  }

  /** How `Array.prototype.sort` reads a comparator's result: only its sign
      matters, and NaN counts as +0 (SortCompare, section 22.1.3.27.1 of ECMAScript 2019). */
  function ComparatorSign(v: ExtNumber): (s: int)
    ensures -1 <= s <= 1
    ensures s == 0 <==> v.NotANumber? || v == Finite(0.0)
    ensures s < 0 <==> v.NegInfinity? || (v.Finite? && v.r < 0.0)
  {
    match v
    case NotANumber => 0
    case PosInfinity => 1
    case NegInfinity => -1
    case Finite(r) => if r < 0.0 then -1 else if r > 0.0 then 1 else 0
  }
}
