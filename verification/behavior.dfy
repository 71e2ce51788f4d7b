/**
 * The per-type behaviour table (`TypedObjectHelper<T>`): the operations the
 * value box dispatches to once it has found that both operands carry the same
 * dynamic type. Which implementation a type receives is decided by the two
 * rungs of the trait ladder: `HasEq` picks native or constant-false equality,
 * `IsArith` picks native or throwing ordering and arithmetic.
 */
module Behavior {
  import opened Wrappers
  import opened Values

  /** The `std::runtime_error` thrown for ordering or arithmetic on a non-arithmetic type. */
  datatype Error = NonArithmetic(t: Ty)

  datatype ArithOp = Sum | Difference | Product | Quotient

  /** `ObjectHelper::equal`: the type's own `operator==`, or `false` when it has none. */
  function Equal(a: Val, b: Val): (eq: bool)
    requires TypeOf(a) == TypeOf(b)
    ensures eq <==> HasEq(TypeOf(a)) && a == b
  {
    match (a, b)
    case (VInt(x), VInt(y)) => x == y
    case (VChar(x), VChar(y)) => x == y
    case (VBool(x), VBool(y)) => x == y
    case (VStr(x), VStr(y)) => x == y
    case (VOpaque(_), VOpaque(_)) => false
  }

  /** A type without `operator==` is not even equal to itself. */
  lemma EqualReflexiveIffHasEq(a: Val)
    ensures Equal(a, a) <==> HasEq(TypeOf(a))
  {
  }

  /** The type's own `operator<` on two values of one arithmetic type. */
  function NativeLess(a: Val, b: Val): (less: bool)
    requires IsArith(TypeOf(a)) && TypeOf(a) == TypeOf(b)
    ensures less <==> Numeric(a) < Numeric(b)
  {
    match (a, b)
    case (VInt(x), VInt(y)) => x < y
    case (VChar(x), VChar(y)) => SignedChar(x) < SignedChar(y)
    case (VBool(x), VBool(y)) => !x && y
  }

  /** `ObjectHelper::less`: native `<` for arithmetic types, otherwise it throws. */
  function Less(a: Val, b: Val): (r: Result<bool, Error>)
    requires TypeOf(a) == TypeOf(b)
    ensures r.Err? <==> !IsArith(TypeOf(a))
    ensures r.Err? ==> r.error == NonArithmetic(TypeOf(a))
    ensures r.Ok? ==> (r.value <==> Numeric(a) < Numeric(b))
  {
    if IsArith(TypeOf(a)) then Ok(NativeLess(a, b)) else Err(NonArithmetic(TypeOf(a)))
  }

  /** The native operator on promoted (`int`) operands; `/` truncates toward zero. */
  function Native(op: ArithOp, x: int, y: int): (r: int)
    requires op == Quotient ==> y != 0
    ensures op == Sum ==> r - y == x
    ensures op == Difference ==> r + y == x
    ensures op == Product ==> r == x * y && (x == 0 || y == 0 <==> r == 0)
    ensures op == Product && x != 0 ==> Abs(r) >= Abs(y)
    ensures op == Quotient ==> TruncRemainder(x, y, r)
  {
    match op
    case Sum => x + y
    case Difference => x - y
    case Product => AbsMul(x, y); x * y
    case Quotient => TruncDiv(x, y)
  }

  /**
   * The native operation has defined behaviour: no division by zero and no
   * signed overflow of the promoted `int` result. Vacuous for types whose
   * table throws instead.
   */
  predicate ArithDefined(op: ArithOp, a: Val, b: Val)
    requires TypeOf(a) == TypeOf(b)
  {
    IsArith(TypeOf(a)) ==>
      (op == Quotient ==> Numeric(b) != 0) && InInt(Native(op, Numeric(a), Numeric(b)))
  }

  /**
   * `ObjectHelper::sum`, `difference`, `product`, `quotient`. The arithmetic
   * table returns `Object{val(a) op val(b)}`; integral promotion makes that an
   * `int` box whatever the operand type.
   */
  function Arith(op: ArithOp, a: Val, b: Val): (r: Result<Object, Error>)
    requires TypeOf(a) == TypeOf(b)
    requires ArithDefined(op, a, b)
    ensures r.Err? <==> !IsArith(TypeOf(a))
    ensures r.Err? ==> r.error == NonArithmetic(TypeOf(a))
    ensures r.Ok? ==> r.value.Holds? && TypeOf(r.value.val) == TInt
    ensures r.Ok? && op == Sum ==> r.value.val.i - Numeric(b) == Numeric(a)
    ensures r.Ok? && op == Difference ==> r.value.val.i + Numeric(b) == Numeric(a)
    ensures r.Ok? && op == Product ==> r.value.val.i == Numeric(a) * Numeric(b)
    ensures r.Ok? && op == Quotient ==> TruncRemainder(Numeric(a), Numeric(b), r.value.val.i)
  {
    if IsArith(TypeOf(a)) then
      Ok(Holds(VInt(Native(op, Numeric(a), Numeric(b)))))
    else
      Err(NonArithmetic(TypeOf(a)))
  }
}
